/** ELF headers as the 64-bit format lays them out, and what the loader takes from an image given by them:
    for every debug section, the entry found under its name describes the last section with that name. */
module ElfEncode {
  import opened Machine
  import opened FixedWidth
  import opened ElfLoad

  // ----- the two headers -----

  /** The ELF header behind its 16 identification bytes. */
  datatype FileHeader = FileHeader(ident: seq<byte>, kind: nat, machine: nat, version: nat, entry: nat, phoff: nat,
                                   shoff: nat, flags: nat, ehsize: nat, phentsize: nat, phnum: nat, shentsize: nat,
                                   shnum: nat, shstrndx: nat)

  datatype SectionHeader = SectionHeader(name: nat, kind: nat, flags: nat, addr: nat, offset: nat, size: nat,
                                         link: nat, info: nat, addralign: nat, entsize: nat)

  function Half(v: nat): seq<byte> { EncodeFixed(Lsb, v, 2) }
  function Word4(v: nat): seq<byte> { EncodeFixed(Lsb, v, 4) }
  function Word8(v: nat): seq<byte> { EncodeFixed(Lsb, v, 8) }

  function EncodeFileHeader(h: FileHeader): seq<byte> {
    (h.ident + Half(h.kind) + Half(h.machine) + Word4(h.version) + Word8(h.entry) + Word8(h.phoff))
    + Word8(h.shoff) + (Word4(h.flags) + Half(h.ehsize) + Half(h.phentsize) + Half(h.phnum))
    + Half(h.shentsize) + Half(h.shnum) + Half(h.shstrndx)
  }

  function EncodeSectionHeader(h: SectionHeader): (e: seq<byte>)
    ensures |e| == 64
  {
    Word4(h.name) + (Word4(h.kind) + Word8(h.flags)) + Word8(h.addr) + Word8(h.offset) + Word8(h.size)
    + (Word4(h.link) + Word4(h.info) + Word8(h.addralign) + Word8(h.entsize))
  }

  ghost predicate FitsFile(h: FileHeader) {
    && |h.ident| == 16 && h.shoff < TWO_64
    && h.shentsize < 0x1_0000 && h.shnum < 0x1_0000 && h.shstrndx < 0x1_0000
  }

  ghost predicate FitsSection(h: SectionHeader) {
    h.name < TWO_32 && h.addr < TWO_64 && h.offset < TWO_64 && h.size < TWO_64
  }

  /** The image holds the bytes at o. */
  ghost predicate Holds(b: Bytes, o: nat, e: seq<byte>) {
    forall k :: 0 <= k < |e| ==> b(o + k) == e[k]
  }

  lemma FieldHeld(b: Bytes, o: nat, pre: seq<byte>, v: nat, n: nat, post: seq<byte>)
    requires Holds(b, o, pre + EncodeFixed(Lsb, v, n) + post) && v < Pow2(8 * n)
    ensures Word(b, o + |pre|, n) == v
  {
    hide Pow2, EncodeFixed;
    var e := pre + EncodeFixed(Lsb, v, n) + post;
    var s := Slice(b, o + |pre|, n);
    forall k | 0 <= k < n
      ensures s[k] == EncodeFixed(Lsb, v, n)[k]
    {
      assert e[|pre| + k] == EncodeFixed(Lsb, v, n)[k];
      assert b(o + (|pre| + k)) == e[|pre| + k];
      assert o + (|pre| + k) == o + |pre| + k;
    }
    assert s == EncodeFixed(Lsb, v, n);
    EncodedValue(Lsb, v, n);
  }

  /** The fields that the loader reads are where it reads them. */
  lemma SectionHeaderRead(b: Bytes, o: nat, h: SectionHeader)
    requires Holds(b, o, EncodeSectionHeader(h)) && FitsSection(h)
    ensures Word(b, o, 4) == h.name && Word(b, o + 16, 8) == h.addr
    ensures Word(b, o + 24, 8) == h.offset && Word(b, o + 32, 8) == h.size
  {
    Widths();
    hide EncodeFixed, Word, Holds, Pow2;
    var name, rest, addr, offset, size := Word4(h.name), Word4(h.kind) + Word8(h.flags), Word8(h.addr),
                                          Word8(h.offset), Word8(h.size);
    var last := Word4(h.link) + Word4(h.info) + Word8(h.addralign) + Word8(h.entsize);
    var e := EncodeSectionHeader(h);
    assert e == [] + name + (rest + addr + offset + size + last);
    FieldHeld(b, o, [], h.name, 4, rest + addr + offset + size + last);
    assert e == (name + rest) + addr + (offset + size + last);
    FieldHeld(b, o, name + rest, h.addr, 8, offset + size + last);
    assert e == (name + rest + addr) + offset + (size + last);
    FieldHeld(b, o, name + rest + addr, h.offset, 8, size + last);
    FieldHeld(b, o, name + rest + addr + offset, h.size, 8, last);
  }

  lemma Widths()
    ensures Pow2(8 * 2) == 0x1_0000 && Pow2(8 * 4) == TWO_32 && Pow2(8 * 8) == TWO_64
  {
    Pow2Values();
  }

  lemma FieldRead(m: seq<byte>, pre: seq<byte>, v: nat, n: nat, post: seq<byte>)
    requires m == pre + EncodeFixed(Lsb, v, n) + post && v < Pow2(8 * n)
    ensures LsbValue(m[|pre|..|pre| + n]) == v
  {
    hide EncodeFixed, Pow2;
    assert m[|pre|..|pre| + n] == EncodeFixed(Lsb, v, n);
    EncodedValue(Lsb, v, n);
  }

  lemma FileHeaderRead(m: seq<byte>, h: FileHeader)
    requires FitsFile(h) && m == EncodeFileHeader(h)
    ensures |m| == 64 && LsbValue(m[40..48]) == h.shoff && LsbValue(m[58..60]) == h.shentsize
    ensures LsbValue(m[60..62]) == h.shnum && LsbValue(m[62..64]) == h.shstrndx
  {
    Widths();
    hide EncodeFixed, LsbValue, Pow2;
    var pre := h.ident + Half(h.kind) + Half(h.machine) + Word4(h.version) + Word8(h.entry) + Word8(h.phoff);
    var mid := Word4(h.flags) + Half(h.ehsize) + Half(h.phentsize) + Half(h.phnum);
    var shoff, size, num, index := Word8(h.shoff), Half(h.shentsize), Half(h.shnum), Half(h.shstrndx);
    assert |pre| == 40 && |mid| == 10;
    assert m == pre + shoff + (mid + size + num + index);
    FieldRead(m, pre, h.shoff, 8, mid + size + num + index);
    assert m == (pre + shoff + mid) + size + (num + index);
    FieldRead(m, pre + shoff + mid, h.shentsize, 2, num + index);
    assert m == (pre + shoff + mid + size) + num + index;
    FieldRead(m, pre + shoff + mid + size, h.shnum, 2, index);
    assert m == (pre + shoff + mid + size + num) + index + [];
    FieldRead(m, pre + shoff + mid + size + num, h.shstrndx, 2, []);
  }

  /** What the loader takes from an ELF header in memory. */
  lemma HeaderTaken(l: Loader, a: nat, h: FileHeader)
    requires a + 64 <= l.mem.Length && FitsFile(h) && l.mem[a..a + 64] == EncodeFileHeader(h)
    ensures l.HeaderAt(a) == Elf(h.shoff, h.shnum, h.shentsize, h.shstrndx)
  {
    hide EncodeFileHeader, LsbValue;
    var m := l.mem[a..a + 64];
    FileHeaderRead(m, h);
    assert m[40..48] == l.mem[a + 40..a + 48] && m[58..60] == l.mem[a + 58..a + 60];
    assert m[60..62] == l.mem[a + 60..a + 62] && m[62..64] == l.mem[a + 62..a + 64];
  }

  /** The header of the kernel is at the start of the image, and any other one as far from the start as it is from
      the base of the kernel's addresses: the section headers are at e_shoff from there. */
  lemma HeadersPlace(elfhdr: uint64, h: FileHeader)
    requires FitsFile(h) && 0x80_0400_0000 <= elfhdr && elfhdr - 0x80_0400_0000 + h.shoff < TWO_64
    ensures HeadersAt(elfhdr, Elf(h.shoff, h.shnum, h.shentsize, h.shstrndx))
      == h.shoff + if elfhdr == 0x80_0401_0000 then 0 else elfhdr - 0x80_0400_0000
  {
  }

  // ----- the sections -----

  /** The headers lie in the image one after the other. */
  ghost predicate TableHeld(b: Bytes, headers: nat, hs: seq<SectionHeader>) {
    forall i :: 0 <= i < |hs| ==> FitsSection(hs[i]) && Holds(b, headers + 64 * i, EncodeSectionHeader(hs[i]))
  }

  /** Section j is the last one with the name, in the name table at `names`. */
  ghost predicate LastOfName(b: Bytes, names: nat, hs: seq<SectionHeader>, j: nat, name: string) {
    && j < |hs| && NameIs(b, names + hs[j].name, name)
    && forall l :: j < l < |hs| ==> !NameIs(b, names + hs[l].name, name)
  }

  /** `_dwarf_find_section`: the index of the entry with the name, or -1 for a null pointer. */
  method FindSection(name: string) returns (i: int)
    ensures i == -1 ==> name !in SECTION_NAMES
    ensures i != -1 ==> 0 <= i < |SECTION_NAMES| && SECTION_NAMES[i] == name
  {
    i := 0;
    while i < NDEBUG_SECT
      invariant 0 <= i <= |SECTION_NAMES| && name !in SECTION_NAMES[..i]
    {
      if SECTION_NAMES[i] == name {
        return;
      }
      i := i + 1;
    }
    i := -1;
  }

  /** The entry of a name describes the last section with that name: .eh_frame by the address it was linked to, any
      other by the place where its bytes were loaded. */
  lemma EntryDescribes(m: seq<byte>, b: Bytes, headers: nat, hs: seq<SectionHeader>, names: nat,
                       was: seq<DwarfSection>, info: seq<DwarfSection>, k: nat, j: nat)
    requires TableHeld(b, headers, hs) && InfoTells(m, b, headers, |hs|, names, was, info)
    requires k < |SECTION_NAMES| && LastOfName(b, names, hs, j, SECTION_NAMES[k])
    ensures var d := info[k];
      && d.data == d.addr && d.size == hs[j].size
      && (SECTION_NAMES[k] == ".eh_frame" ==> d.addr == hs[j].addr)
      && (SECTION_NAMES[k] != ".eh_frame" ==> Copied(m, d.addr, b, hs[j].offset, hs[j].size))
  {
    hide Holds, EncodeSectionHeader, Word, NameIs, Copied;
    SectionHeaderRead(b, headers + 64 * j, hs[j]);
    forall l | j < l < |hs|
      ensures !Named(b, headers, names, l, SECTION_NAMES[k])
    {
      SectionHeaderRead(b, headers + 64 * l, hs[l]);
    }
    assert LastNamed(b, headers, |hs|, names, j, SECTION_NAMES[k]);
  }
}
