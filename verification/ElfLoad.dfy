/** elf_rw.c: loading the section headers, the name table and the debug sections of the kernel image
    from disk, sector by sector. */
module ElfLoad {
  import opened Machine
  import opened FixedWidth

  const SECTSIZE := 512
  const KERNBASE := 0x80_0400_0000
  const KELFHDR := 0x1_0000 + KERNBASE

  const DEBUG_INFO := 0
  const DEBUG_ABBREV := 1
  const DEBUG_FRAME := 2
  const DEBUG_LINE := 3
  const DEBUG_STR := 4
  const NDEBUG_SECT := 5
  const UNKNOWN := -1

  /** Bytes by position: on disk, or in the image, which starts at sector 1 of the disk. */
  type Bytes = nat -> byte

  /** `Dwarf_Section`, without its name. */
  datatype DwarfSection = DwarfSection(data: nat, addr: nat, size: nat)

  /** What a section header says, and which debug section its name makes it. */
  datatype Sec = Sec(kind: int, addr: nat, offset: nat, size: nat)

  function Image(disk: Bytes): Bytes {
    o => disk(SECTSIZE + o)
  }

  // ----- what the headers of the image say -----

  function Slice(b: Bytes, o: nat, n: nat): (r: seq<byte>)
    ensures |r| == n && forall k :: 0 <= k < n ==> r[k] == b(o + k)
  {
    seq(n, k requires 0 <= k => b(o + k))
  }

  function Word(b: Bytes, o: nat, n: nat): nat {
    LsbValue(Slice(b, o, n))
  }

  /** The C string at o is `name`. */
  predicate NameIs(b: Bytes, o: nat, name: string) {
    b(o + |name|) == 0 && forall k :: 0 <= k < |name| ==> b(o + k) == name[k] as int
  }

  function KindAt(b: Bytes, o: nat): (kind: int)
    ensures UNKNOWN <= kind < NDEBUG_SECT
  {
    if NameIs(b, o, ".debug_info") then DEBUG_INFO
    else if NameIs(b, o, ".debug_abbrev") then DEBUG_ABBREV
    else if NameIs(b, o, ".debug_line") then DEBUG_LINE
    else if NameIs(b, o, ".eh_frame") then DEBUG_FRAME
    else if NameIs(b, o, ".debug_str") then DEBUG_STR
    else UNKNOWN
  }

  /** The header at position h, its name in the table at position names. */
  function SecAt(b: Bytes, h: nat, names: nat): Sec {
    Sec(KindAt(b, names + Word(b, h, 4)), Word(b, h + 16, 8), Word(b, h + 24, 8), Word(b, h + 32, 8))
  }

  function SecList(b: Bytes, headers: nat, n: nat, names: nat): (r: seq<Sec>)
    ensures |r| == n && forall i :: 0 <= i < n ==> r[i] == SecAt(b, headers + 64 * i, names)
  {
    seq(n, i requires 0 <= i => SecAt(b, headers + 64 * i, names))
  }

  // ----- where everything goes -----

  /** Sectors `readseg` reads for count bytes at offset: enough for count, and one more when count does
      not fit in the rest of the first. */
  function Sectors(count: nat, offset: nat): nat {
    (count + SECTSIZE - 1) / SECTSIZE + (if offset % SECTSIZE + count > SECTSIZE then 1 else 0)
  }

  /** The bytes of those sectors. */
  function Span(count: nat, offset: nat): (r: nat)
    ensures r % SECTSIZE == 0
  {
    SECTSIZE * Sectors(count, offset)
  }

  /** The sectors cover the bytes asked for, wherever in its sector the first one lies. */
  lemma SectorsCover(count: nat, offset: nat)
    ensures count > 0 ==> offset % SECTSIZE + count <= Span(count, offset)
  {
  }

  predicate IsLoaded(s: Sec) {
    s.kind != UNKNOWN && s.kind != DEBUG_FRAME
  }

  function Room(s: Sec): (r: nat)
    ensures r % SECTSIZE == 0
  {
    if IsLoaded(s) then Span(s.size, s.offset) else 0
  }

  /** Where the room of section i starts, the first one's at `at`. */
  function Start(secs: seq<Sec>, at: nat, i: nat): nat
    requires i <= |secs|
  {
    if i == 0 then at else Start(secs, at, i - 1) + Room(secs[i - 1])
  }

  function Place(s: Sec, start: nat): nat {
    start + s.offset % SECTSIZE
  }

  function Described(s: Sec, start: nat): DwarfSection {
    if s.kind == DEBUG_FRAME then DwarfSection(s.addr, s.addr, s.size)
    else DwarfSection(Place(s, start), Place(s, start), s.size)
  }

  /** `section_info` after the first i headers. */
  function Filled(info: seq<DwarfSection>, secs: seq<Sec>, at: nat, i: nat): (r: seq<DwarfSection>)
    requires i <= |secs|
    ensures |r| == |info|
  {
    if i == 0 then info
    else
      var r, s := Filled(info, secs, at, i - 1), secs[i - 1];
      if 0 <= s.kind < |r| then r[s.kind := Described(s, Start(secs, at, i - 1))] else r
  }

  lemma {:induction false} StartGrows(secs: seq<Sec>, at: nat, i: nat, j: nat)
    requires i <= j <= |secs|
    ensures at <= Start(secs, at, i) <= Start(secs, at, j)
    ensures i < j ==> Start(secs, at, i) + Room(secs[i]) <= Start(secs, at, j)
    decreases j
  {
    if i < j {
      StartGrows(secs, at, i, j - 1);
    } else if i > 0 {
      StartGrows(secs, at, i - 1, i - 1);
    }
  }

  /** The bytes of loaded sections are pairwise disjoint, and lie between the start and the end. */
  lemma LoadedDisjoint(secs: seq<Sec>, at: nat, i: nat, j: nat)
    requires i < j < |secs| && IsLoaded(secs[i]) && IsLoaded(secs[j]) && secs[i].size > 0 && secs[j].size > 0
    ensures at <= Place(secs[i], Start(secs, at, i))
    ensures Place(secs[i], Start(secs, at, i)) + secs[i].size <= Place(secs[j], Start(secs, at, j))
    ensures Place(secs[j], Start(secs, at, j)) + secs[j].size <= Start(secs, at, |secs|)
  {
    SectorsCover(secs[i].size, secs[i].offset);
    SectorsCover(secs[j].size, secs[j].offset);
    StartGrows(secs, at, 0, i);
    StartGrows(secs, at, i, j);
    StartGrows(secs, at, j, |secs|);
  }

  lemma FilledNext(info: seq<DwarfSection>, secs: seq<Sec>, at: nat, i: nat)
    requires i < |secs| && |info| == NDEBUG_SECT && UNKNOWN <= secs[i].kind < NDEBUG_SECT
    ensures var r, s := Filled(info, secs, at, i), secs[i];
      Filled(info, secs, at, i + 1) == if s.kind == UNKNOWN then r else r[s.kind := Described(s, Start(secs, at, i))]
  {
    hide Described, Start;
  }

  /** `section_info` stays as it was for a kind without a header. */
  lemma {:induction false} NoHeaderNoChange(info: seq<DwarfSection>, secs: seq<Sec>, at: nat, n: nat, kind: nat)
    requires n <= |secs| && kind < |info| && forall l :: 0 <= l < n ==> secs[l].kind != kind
    ensures Filled(info, secs, at, n)[kind] == info[kind]
  {
    hide Described, Start;
    if n > 0 {
      NoHeaderNoChange(info, secs, at, n - 1, kind);
    }
  }

  /** `section_info` describes, for each kind, the last header of that kind. */
  lemma {:induction false} LastHeaderWins(info: seq<DwarfSection>, secs: seq<Sec>, at: nat, n: nat, kind: nat, j: nat)
    requires j < n <= |secs| && kind < |info|
    requires secs[j].kind == kind && forall l :: j < l < n ==> secs[l].kind != kind
    ensures Filled(info, secs, at, n)[kind] == Described(secs[j], Start(secs, at, j))
  {
    hide Described, Start;
    if j < n - 1 {
      LastHeaderWins(info, secs, at, n - 1, kind, j);
    }
  }

  // ----- memory -----

  /** The memory from a on holds n bytes of the image from o on. */
  ghost predicate Copied(m: seq<byte>, a: nat, b: Bytes, o: nat, n: nat) {
    (n > 0 ==> a + n <= |m|) && forall x :: a <= x < a + n ==> m[x] == b(o + (x - a))
  }

  /** Memory changed at most in [lo, hi). */
  ghost predicate ChangedWithin(was: seq<byte>, now: seq<byte>, lo: nat, hi: nat) {
    |was| == |now| && forall x :: 0 <= x < |was| && !(lo <= x < hi) ==> now[x] == was[x]
  }

  lemma CopiedPart(m: seq<byte>, a: nat, b: Bytes, o: nat, n: nat, d: nat, l: nat)
    requires Copied(m, a, b, o, n) && d + l <= n
    ensures Copied(m, a + d, b, o + d, l)
  {
    forall x | a + d <= x < a + d + l
      ensures m[x] == b(o + d + (x - (a + d)))
    {
      assert o + d + (x - (a + d)) == o + (x - a);
    }
  }

  lemma CopiedKept(was: seq<byte>, now: seq<byte>, lo: nat, hi: nat, a: nat, b: Bytes, o: nat, n: nat)
    requires ChangedWithin(was, now, lo, hi) && Copied(was, a, b, o, n) && a + n <= lo
    ensures Copied(now, a, b, o, n)
  {
  }

  lemma CopiedWord(m: seq<byte>, a: nat, b: Bytes, o: nat, n: nat)
    requires Copied(m, a, b, o, n) && n > 0
    ensures m[a..a + n] == Slice(b, o, n) && LsbValue(m[a..a + n]) == Word(b, o, n)
  {
    assert m[a..a + n] == Slice(b, o, n);
  }

  /** The room of a loaded section holds all sectors read for it. */
  ghost predicate RoomCopied(m: seq<byte>, start: nat, b: Bytes, s: Sec) {
    Copied(m, start, b, s.offset / SECTSIZE * SECTSIZE, Room(s))
  }

  /** Among them are the bytes of the section and those behind it, as far as the room goes. */
  lemma RoomHolds(m: seq<byte>, start: nat, b: Bytes, s: Sec, n: nat)
    requires RoomCopied(m, start, b, s) && IsLoaded(s) && n <= Room(s) && s.offset % SECTSIZE + n <= Room(s)
    ensures Copied(m, Place(s, start), b, s.offset, n)
  {
    hide Span, Copied;
    CopiedPart(m, start, b, s.offset / SECTSIZE * SECTSIZE, Room(s), s.offset % SECTSIZE, n);
  }

  /** The loaded ones among the first i sections are in place. */
  ghost predicate AllCopied(m: seq<byte>, b: Bytes, secs: seq<Sec>, at: nat, i: nat)
    requires i <= |secs|
  {
    forall j :: 0 <= j < i && IsLoaded(secs[j]) ==> RoomCopied(m, Start(secs, at, j), b, secs[j])
  }

  // ----- what is required of the image -----

  /** The fields of the ELF header that matter here. */
  datatype Elf = Elf(shoff: nat, shnum: nat, shentsize: nat, shstrndx: nat)

  /** Where the section headers are in the image: the header of the kernel itself is at its start, any
      other one at its distance from KERNBASE. */
  function HeadersAt(elfhdr: uint64, elf: Elf): nat {
    if elfhdr == KELFHDR then elf.shoff else ToU64(elf.shoff + (elfhdr - KERNBASE))
  }

  /** The name table: its offset and size. */
  function NamesAt(b: Bytes, headers: nat, elf: Elf): nat {
    Word(b, headers + 64 * elf.shstrndx + 24, 8)
  }

  function NamesSize(b: Bytes, headers: nat, elf: Elf): nat {
    Word(b, headers + 64 * elf.shstrndx + 32, 8)
  }

  /** At most 20 headers of 64 bytes, and names that lie in a table that ends in NUL. */
  predicate WellFormed(b: Bytes, headers: nat, elf: Elf) {
    && elf.shstrndx < elf.shnum <= 20 && elf.shentsize == 64
    && var names, size := NamesAt(b, headers, elf), NamesSize(b, headers, elf);
      && size > 0 && b(names + size - 1) == 0
      && forall i :: 0 <= i < elf.shnum ==> Word(b, headers + 64 * i, 4) < size
  }

  function RoundUp(a: nat): (r: nat)
    ensures r % SECTSIZE == 0 && a <= r < a + SECTSIZE
  {
    var q := (a + SECTSIZE - 1) / SECTSIZE;
    assert q * SECTSIZE % SECTSIZE == 0;
    q * SECTSIZE
  }

  /** Where the name table and the first section go. */
  function NamesStart(base: nat, headers: nat, elf: Elf): nat {
    base + Span(64 * elf.shnum, headers)
  }

  /** The last field of the ELF header, the index of the name table, lies outside of where the section
      headers go. */
  predicate IndexSafe(elfhdr: nat, base: nat, headers: nat, elf: Elf) {
    elfhdr + 64 <= base || NamesStart(base, headers, elf) <= elfhdr + 62
  }

  function SectionsStart(b: Bytes, base: nat, headers: nat, elf: Elf): nat {
    NamesStart(base, headers, elf) + Span(NamesSize(b, headers, elf), NamesAt(b, headers, elf))
  }

  /** Where everything is in the image and where it goes. */
  datatype Plan = Plan(base: nat, headers: nat, count: nat, names: nat, size: nat, namesStart: nat, at: nat,
                       secs: seq<Sec>)

  function PlanOf(b: Bytes, base: nat, headers: nat, elf: Elf): (p: Plan)
    ensures |p.secs| == p.count == elf.shnum && p.base == base && p.headers == headers
  {
    var names, size := NamesAt(b, headers, elf), NamesSize(b, headers, elf);
    Plan(base, headers, elf.shnum, names, size, NamesStart(base, headers, elf), SectionsStart(b, base, headers, elf),
         SecList(b, headers, elf.shnum, names))
  }

  /** Where the memory used ends. */
  function LoadEnd(p: Plan): nat {
    Start(p.secs, p.at, |p.secs|)
  }

  /** The section headers and the name table are in place. */
  ghost predicate TablesCopied(m: seq<byte>, b: Bytes, p: Plan) {
    && Copied(m, p.base + p.headers % SECTSIZE, b, p.headers, 64 * p.count)
    && Copied(m, p.namesStart + p.names % SECTSIZE, b, p.names, p.size)
  }

  lemma TablesKept(was: seq<byte>, now: seq<byte>, lo: nat, hi: nat, b: Bytes, p: Plan, elf: Elf)
    requires p == PlanOf(b, p.base, p.headers, elf) && 0 < p.count && 0 < p.size && p.at <= lo
    requires ChangedWithin(was, now, lo, hi) && TablesCopied(was, b, p)
    ensures TablesCopied(now, b, p)
    ensures p.base + p.headers % SECTSIZE + 64 * p.count <= p.namesStart
    ensures p.namesStart + p.names % SECTSIZE + p.size <= p.at
  {
    hide Copied, ChangedWithin, SecList, NamesAt, NamesSize;
    SectorsCover(64 * p.count, p.headers);
    SectorsCover(p.size, p.names);
    CopiedKept(was, now, lo, hi, p.base + p.headers % SECTSIZE, b, p.headers, 64 * p.count);
    CopiedKept(was, now, lo, hi, p.namesStart + p.names % SECTSIZE, b, p.names, p.size);
  }

  /** Loading one more section behind the others leaves the others in place. */
  lemma AllCopiedStep(was: seq<byte>, now: seq<byte>, b: Bytes, secs: seq<Sec>, at: nat, i: nat)
    requires i < |secs| && AllCopied(was, b, secs, at, i)
    requires ChangedWithin(was, now, Start(secs, at, i), Start(secs, at, i + 1))
    requires IsLoaded(secs[i]) ==> RoomCopied(now, Start(secs, at, i), b, secs[i])
    ensures AllCopied(now, b, secs, at, i + 1)
  {
    forall j | 0 <= j < i && IsLoaded(secs[j])
      ensures RoomCopied(now, Start(secs, at, j), b, secs[j])
    {
      hide Span, Copied, ChangedWithin;
      StartGrows(secs, at, j + 1, i);
      CopiedKept(was, now, Start(secs, at, i), Start(secs, at, i + 1), Start(secs, at, j), b,
                 secs[j].offset / SECTSIZE * SECTSIZE, Room(secs[j]));
    }
  }

  /** Once all is loaded, `section_info` points at the bytes of the last section of each kind that is
      loaded from disk. */
  lemma SectionsReadable(m: seq<byte>, b: Bytes, info: seq<DwarfSection>, secs: seq<Sec>, at: nat, kind: nat, j: nat)
    requires AllCopied(m, b, secs, at, |secs|) && kind < |info| && kind != DEBUG_FRAME
    requires j < |secs| && secs[j].kind == kind && forall l :: j < l < |secs| ==> secs[l].kind != kind
    ensures var d := Filled(info, secs, at, |secs|)[kind];
      && d.size == secs[j].size && Copied(m, d.data, b, secs[j].offset, d.size)
      && (forall n :: d.size <= n <= Room(secs[j]) - secs[j].offset % SECTSIZE ==>
           Copied(m, d.data, b, secs[j].offset, n))
  {
    hide Copied, Span;
    LastHeaderWins(info, secs, at, |secs|, kind, j);
    var s := secs[j];
    SectorsCover(s.size, s.offset);
    if s.size > 0 {
      RoomHolds(m, Start(secs, at, j), b, s, s.size);
    } else {
      NothingThere(m, Place(s, Start(secs, at, j)), b, s.offset);
    }
    forall n: nat | s.size <= n <= Room(s) - s.offset % SECTSIZE
      ensures Copied(m, Place(s, Start(secs, at, j)), b, s.offset, n)
    {
      RoomHolds(m, Start(secs, at, j), b, s, n);
    }
  }

  // ----- what section_info says, from the bytes of the image -----

  /** The names in the table `section_info`, in its order. */
  const SECTION_NAMES := [".debug_info", ".debug_abbrev", ".eh_frame", ".debug_line", ".debug_str"]

  /** Header j of the table at `headers` has the name, which lies in the name table at `names`. */
  predicate Named(b: Bytes, headers: nat, names: nat, j: nat, name: string) {
    NameIs(b, names + Word(b, headers + 64 * j, 4), name)
  }

  /** It is the last of n headers with the name. */
  ghost predicate LastNamed(b: Bytes, headers: nat, n: nat, names: nat, j: nat, name: string) {
    j < n && Named(b, headers, names, j, name) && forall l :: j < l < n ==> !Named(b, headers, names, l, name)
  }

  ghost predicate NoneNamed(b: Bytes, headers: nat, n: nat, names: nat, name: string) {
    forall j :: 0 <= j < n ==> !Named(b, headers, names, j, name)
  }

  /** What an entry says of the section whose header is at h: .eh_frame is where the kernel was linked to (the
      field at 16, sh_addr), any other one is where its bytes (from sh_offset, at 24, on) were loaded; its size
      is sh_size, at 32. */
  ghost predicate Tells(m: seq<byte>, b: Bytes, h: nat, name: string, d: DwarfSection) {
    && d.data == d.addr && d.size == Word(b, h + 32, 8)
    && if name == ".eh_frame" then d.addr == Word(b, h + 16, 8) else Copied(m, d.addr, b, Word(b, h + 24, 8), d.size)
  }

  /** Every entry tells of the last header with its name, and is the old one if there is none. */
  ghost predicate InfoTells(m: seq<byte>, b: Bytes, headers: nat, n: nat, names: nat,
                            was: seq<DwarfSection>, info: seq<DwarfSection>)
  {
    && |was| == |info| == |SECTION_NAMES|
    && (forall k, j: nat :: 0 <= k < |info| && LastNamed(b, headers, n, names, j, SECTION_NAMES[k]) ==>
          Tells(m, b, headers + 64 * j, SECTION_NAMES[k], info[k]))
    && forall k :: 0 <= k < |info| && NoneNamed(b, headers, n, names, SECTION_NAMES[k]) ==> info[k] == was[k]
  }

  /** Bytes are no two C strings at once. */
  lemma OneName(b: Bytes, o: nat, x: string, y: string)
    requires NameIs(b, o, x) && NameIs(b, o, y)
    requires (forall k :: 0 <= k < |x| ==> x[k] as int != 0) && forall k :: 0 <= k < |y| ==> y[k] as int != 0
    ensures x == y
  {
    NoEnd(b, o, x, |y|);
    NoEnd(b, o, y, |x|);
    assert forall k :: 0 <= k < |x| && k < |y| ==> x[k] as int == b(o + k) == y[k] as int;
  }

  lemma NoEnd(b: Bytes, o: nat, x: string, k: nat)
    requires NameIs(b, o, x) && forall i :: 0 <= i < |x| ==> x[i] as int != 0
    ensures k < |x| ==> b(o + k) != 0
  {
    assert k < |x| ==> b(o + k) == x[k] as int;
  }

  /** The kind of a header says which of the names it has. */
  lemma KindIsName(b: Bytes, o: nat, k: nat)
    requires k < |SECTION_NAMES|
    ensures KindAt(b, o) == k <==> NameIs(b, o, SECTION_NAMES[k])
  {
    hide NameIs;
    var kind := KindAt(b, o);
    if NameIs(b, o, SECTION_NAMES[k]) && kind != UNKNOWN {
      OneName(b, o, SECTION_NAMES[kind], SECTION_NAMES[k]);
    }
  }

  /** The entry of one name. */
  lemma EntryTells(m: seq<byte>, b: Bytes, headers: nat, n: nat, names: nat, info: seq<DwarfSection>, at: nat,
                   k: nat, j: nat)
    requires |info| == |SECTION_NAMES| == NDEBUG_SECT && k < |info|
    requires var secs := SecList(b, headers, n, names); AllCopied(m, b, secs, at, n)
    requires LastNamed(b, headers, n, names, j, SECTION_NAMES[k])
    ensures Tells(m, b, headers + 64 * j, SECTION_NAMES[k], Filled(info, SecList(b, headers, n, names), at, n)[k])
  {
    hide Copied, Span, NameIs, Word, AllCopied, KindAt;
    var secs := SecList(b, headers, n, names);
    KindIsName(b, names + Word(b, headers + 64 * j, 4), k);
    forall l | j < l < n
      ensures secs[l].kind != k
    {
      KindIsName(b, names + Word(b, headers + 64 * l, 4), k);
      assert !Named(b, headers, names, l, SECTION_NAMES[k]);
    }
    LastHeaderWins(info, secs, at, n, k, j);
    if k != DEBUG_FRAME {
      SectionsReadable(m, b, info, secs, at, k, j);
    }
  }

  lemma EntryKept(b: Bytes, headers: nat, n: nat, names: nat, info: seq<DwarfSection>, at: nat, k: nat)
    requires |info| == |SECTION_NAMES| == NDEBUG_SECT && k < |info|
    requires NoneNamed(b, headers, n, names, SECTION_NAMES[k])
    ensures Filled(info, SecList(b, headers, n, names), at, n)[k] == info[k]
  {
    hide NameIs, Word, KindAt, Filled;
    var secs := SecList(b, headers, n, names);
    forall l | 0 <= l < n
      ensures secs[l].kind != k
    {
      KindIsName(b, names + Word(b, headers + 64 * l, 4), k);
      assert !Named(b, headers, names, l, SECTION_NAMES[k]);
    }
    NoHeaderNoChange(info, secs, at, n, k);
  }

  lemma AllTell(m: seq<byte>, b: Bytes, headers: nat, n: nat, names: nat, info: seq<DwarfSection>, at: nat)
    requires |info| == |SECTION_NAMES| == NDEBUG_SECT
    requires var secs := SecList(b, headers, n, names); AllCopied(m, b, secs, at, n)
    ensures InfoTells(m, b, headers, n, names, info, Filled(info, SecList(b, headers, n, names), at, n))
  {
    hide Filled, AllCopied, Tells, LastNamed, Named;
    forall k, j: nat | 0 <= k < |info| && LastNamed(b, headers, n, names, j, SECTION_NAMES[k])
      ensures Tells(m, b, headers + 64 * j, SECTION_NAMES[k], Filled(info, SecList(b, headers, n, names), at, n)[k])
    {
      EntryTells(m, b, headers, n, names, info, at, k, j);
    }
    forall k | 0 <= k < |info| && NoneNamed(b, headers, n, names, SECTION_NAMES[k])
      ensures Filled(info, SecList(b, headers, n, names), at, n)[k] == info[k]
    {
      EntryKept(b, headers, n, names, info, at, k);
    }
  }

  lemma ChangedTwice(m0: seq<byte>, m1: seq<byte>, m2: seq<byte>, lo: nat, mid: nat, hi: nat)
    requires lo <= mid <= hi && ChangedWithin(m0, m1, lo, mid) && ChangedWithin(m1, m2, mid, hi)
    ensures ChangedWithin(m0, m2, lo, hi)
  {
  }

  // ----- the routines -----

  class Loader {
    const disk: Bytes
    const mem: array<byte>
    const sectionInfo: array<DwarfSection>

    constructor (disk: Bytes, mem: array<byte>, sectionInfo: array<DwarfSection>)
      ensures this.disk == disk && this.mem == mem && this.sectionInfo == sectionInfo
    {
      this.disk, this.mem, this.sectionInfo := disk, mem, sectionInfo;
    }

    /** `readsect`: one sector of the disk, word by word. */
    method ReadSect(dst: nat, sector: nat)
      requires dst + SECTSIZE <= mem.Length
      modifies mem
      ensures Copied(mem[..], dst, disk, sector * SECTSIZE, SECTSIZE)
      ensures ChangedWithin(old(mem[..]), mem[..], dst, dst + SECTSIZE)
    {
      var i := 0;
      while i < SECTSIZE
        invariant 0 <= i <= SECTSIZE
        invariant forall x :: dst <= x < dst + i ==> mem[x] == disk(sector * SECTSIZE + (x - dst))
        invariant forall x :: 0 <= x < mem.Length && !(dst <= x < dst + i) ==> mem[x] == old(mem[x])
      {
        mem[dst + i] := disk(sector * SECTSIZE + i);
        i := i + 1;
      }
    }

    /** `readseg`: at least the sectors that hold the bytes of the image asked for. */
    method ReadSeg(pa: nat, count: nat, offset: nat, kvoffset: nat) returns (kv: nat)
      requires pa % SECTSIZE == 0 && kvoffset % SECTSIZE == 0
      requires pa + Span(count, offset) <= mem.Length
      modifies mem
      ensures kv == kvoffset + Span(count, offset)
      ensures Copied(mem[..], pa, Image(disk), offset / SECTSIZE * SECTSIZE, Span(count, offset))
      ensures ChangedWithin(old(mem[..]), mem[..], pa, pa + Span(count, offset))
    {
      var endPa, orgoff := pa + count, offset;
      var p, sector := pa, offset / SECTSIZE + 1;
      ghost var n := 0;
      kv := kvoffset;
      while p < endPa
        invariant 0 <= n <= (count + SECTSIZE - 1) / SECTSIZE && p == pa + SECTSIZE * n
        invariant sector == offset / SECTSIZE + 1 + n && kv == kvoffset + SECTSIZE * n
        invariant Copied(mem[..], pa, Image(disk), offset / SECTSIZE * SECTSIZE, SECTSIZE * n)
        invariant ChangedWithin(old(mem[..]), mem[..], pa, pa + SECTSIZE * n)
      {
        ReadSect(p, sector);
        p, sector, kv := p + SECTSIZE, sector + 1, kv + SECTSIZE;
        n := n + 1;
      }
      if orgoff % SECTSIZE + count > SECTSIZE {
        ReadSect(p, sector);
        kv := kv + SECTSIZE;
      }
    }

    /** What `readseg` is called for: the bytes asked for are behind the start of their sector. */
    method LoadRange(pa: nat, count: nat, offset: nat, kvoffset: nat) returns (kv: nat)
      requires pa % SECTSIZE == 0 && kvoffset % SECTSIZE == 0
      requires pa + Span(count, offset) <= mem.Length
      modifies mem
      ensures kv == kvoffset + Span(count, offset)
      ensures Copied(mem[..], pa, Image(disk), offset / SECTSIZE * SECTSIZE, Span(count, offset))
      ensures Copied(mem[..], pa + offset % SECTSIZE, Image(disk), offset, count)
      ensures ChangedWithin(old(mem[..]), mem[..], pa, pa + Span(count, offset))
    {
      kv := ReadSeg(pa, count, offset, kvoffset);
      if count > 0 {
        SectorsCover(count, offset);
        CopiedPart(mem[..], pa, Image(disk), offset / SECTSIZE * SECTSIZE, kv - kvoffset, offset % SECTSIZE, count);
      }
    }

    function MemWord(a: nat, n: nat): nat
      requires a + n <= mem.Length
      reads mem
    {
      LsbValue(mem[a..a + n])
    }

    /** `strcmp(name, literal) == 0`; the name ends no later than at `last`. */
    method SameString(name: nat, literal: string, ghost last: nat, ghost b: Bytes, ghost o: nat) returns (same: bool)
      requires name <= last < mem.Length && Copied(mem[..], name, b, o, last + 1 - name) && mem[last] == 0
      requires forall k :: 0 <= k < |literal| ==> literal[k] as int != 0
      ensures same == NameIs(b, o, literal)
    {
      var i := 0;
      while i < |literal| && mem[name + i] == literal[i] as int
        invariant i <= |literal| && name + i <= last
        invariant forall k :: 0 <= k < i ==> b(o + k) == literal[k] as int
      {
        assert b(o + i) == mem[..][name + i];
        i := i + 1;
      }
      assert b(o + i) == mem[..][name + i];
      same := i == |literal| && mem[name + i] == 0;
    }

    /** The branch of a debug section that is loaded: its sectors go to the next free place. */
    method LoadOne(h: nat, kind: nat, kvbase: nat, kvoffset: nat, ghost s: Sec, ghost b: Bytes, ghost o: nat)
      returns (kv: nat)
      requires b == Image(disk) && kind < sectionInfo.Length && kind != DEBUG_FRAME
      requires (kvbase + kvoffset) % SECTSIZE == 0 && kvoffset % SECTSIZE == 0
      requires Copied(mem[..], h, b, o, 64) && h + 64 <= kvbase + kvoffset
      requires s == Sec(kind, Word(b, o + 16, 8), Word(b, o + 24, 8), Word(b, o + 32, 8))
      requires kvbase + kvoffset + Span(s.size, s.offset) <= mem.Length
      modifies mem, sectionInfo
      ensures kv == kvoffset + Span(s.size, s.offset)
      ensures ChangedWithin(old(mem[..]), mem[..], kvbase + kvoffset, kvbase + kv)
      ensures IsLoaded(s) && RoomCopied(mem[..], kvbase + kvoffset, b, s)
      ensures sectionInfo[..] == old(sectionInfo[..])[kind := Described(s, kvbase + kvoffset)]
    {
      var temp := kvoffset;
      hide Copied, ChangedWithin, Span, Slice;
      HeaderFields(h, b, o);
      kv := LoadRange(kvbase + kvoffset, MemWord(h + 32, 8), MemWord(h + 24, 8), kvoffset);
      CopiedKept(old(mem[..]), mem[..], kvbase + kvoffset, kvbase + kv, h, b, o, 64);
      HeaderFields(h, b, o);
      var data := kvbase + temp + MemWord(h + 24, 8) % SECTSIZE;
      sectionInfo[kind] := DwarfSection(data, data, MemWord(h + 32, 8));
    }

    /** One turn of the loop over the headers: dispatch on the name. */
    method LoadSection(h: nat, nametab: nat, kvbase: nat, kvoffset: nat,
                       ghost s: Sec, ghost b: Bytes, ghost o: nat, ghost names: nat, ghost size: nat)
      returns (kv: nat)
      requires b == Image(disk) && s == SecAt(b, o, names) && sectionInfo.Length == NDEBUG_SECT
      requires (kvbase + kvoffset) % SECTSIZE == 0 && kvoffset % SECTSIZE == 0
      requires Copied(mem[..], h, b, o, 64) && h + 64 <= kvbase + kvoffset
      requires Copied(mem[..], nametab, b, names, size) && nametab + size <= mem.Length
      requires Word(b, o, 4) < size && b(names + size - 1) == 0
      requires kvbase + kvoffset + Room(s) <= mem.Length
      modifies mem, sectionInfo
      ensures kv == kvoffset + Room(s)
      ensures ChangedWithin(old(mem[..]), mem[..], kvbase + kvoffset, kvbase + kv)
      ensures IsLoaded(s) ==> RoomCopied(mem[..], kvbase + kvoffset, b, s)
      ensures sectionInfo[..] ==
        if s.kind == UNKNOWN then old(sectionInfo[..])
        else old(sectionInfo[..])[s.kind := Described(s, kvbase + kvoffset)]
    {
      hide Copied, Word, NameIs, Span, RoomCopied;
      HeaderFields(h, b, o);
      ghost var w, last := Word(b, o, 4), nametab + size - 1;
      var name := nametab + MemWord(h, 4);
      CopiedPart(mem[..], nametab, b, names, size, w, size - w);
      LastByte(mem[..], nametab, b, names, size);
      kv := kvoffset;
      var same := SameString(name, ".debug_info", last, b, names + w);
      if same {
        kv := LoadOne(h, DEBUG_INFO, kvbase, kvoffset, s, b, o);
        return;
      }
      same := SameString(name, ".debug_abbrev", last, b, names + w);
      if same {
        kv := LoadOne(h, DEBUG_ABBREV, kvbase, kvoffset, s, b, o);
        return;
      }
      same := SameString(name, ".debug_line", last, b, names + w);
      if same {
        kv := LoadOne(h, DEBUG_LINE, kvbase, kvoffset, s, b, o);
        return;
      }
      same := SameString(name, ".eh_frame", last, b, names + w);
      if same {
        sectionInfo[DEBUG_FRAME] := DwarfSection(MemWord(h + 16, 8), MemWord(h + 16, 8), MemWord(h + 32, 8));
        return;
      }
      same := SameString(name, ".debug_str", last, b, names + w);
      if same {
        kv := LoadOne(h, DEBUG_STR, kvbase, kvoffset, s, b, o);
      }
    }

    /** The state of the loop before header i, the memory as it was before the loop given. */
    ghost predicate Before(was: seq<byte>, info: seq<DwarfSection>, next: nat, b: Bytes, p: Plan, i: nat)
      requires i <= |p.secs|
      reads mem, sectionInfo
    {
      && next == Start(p.secs, p.at, i)
      && TablesCopied(mem[..], b, p) && AllCopied(mem[..], b, p.secs, p.at, i)
      && sectionInfo[..] == Filled(info, p.secs, p.at, i)
      && ChangedWithin(was, mem[..], p.at, next)
    }

    /** One turn of the loop. */
    method LoadNext(secthdr: nat, nametab: nat, kvbase: nat, kvoffset: nat, i: nat, ghost elf: Elf, ghost p: Plan,
                    ghost b: Bytes, ghost start: seq<byte>, ghost info: seq<DwarfSection>)
      returns (kv: nat)
      requires b == Image(disk) && p == PlanOf(b, kvbase, p.headers, elf) && WellFormed(b, p.headers, elf)
      requires i < p.count && kvbase % SECTSIZE == 0 && kvoffset % SECTSIZE == 0
      requires secthdr == p.base + p.headers % SECTSIZE && nametab == p.namesStart + p.names % SECTSIZE
      requires LoadEnd(p) <= mem.Length && sectionInfo.Length == NDEBUG_SECT && |info| == NDEBUG_SECT
      requires Before(start, info, kvbase + kvoffset, b, p, i)
      modifies mem, sectionInfo
      ensures kv % SECTSIZE == 0 && Before(start, info, kvbase + kv, b, p, i + 1)
    {
      hide Word, Span, KindAt, Copied, ChangedWithin, TablesCopied, AllCopied, WellFormed, PlanOf, SecAt;
      hide Filled, Described, Start, Room, Place, IsLoaded, LoadEnd;
      ghost var was := mem[..];
      Located(was, b, p, elf, i);
      FilledNext(info, p.secs, p.at, i);
      Aligned(kvbase, kvoffset, Room(p.secs[i]));
      kv := LoadSection(secthdr + 64 * i, nametab, kvbase, kvoffset, p.secs[i], b, p.headers + 64 * i, p.names, p.size);
      TablesKept(was, mem[..], Start(p.secs, p.at, i), Start(p.secs, p.at, i + 1), b, p, elf);
      AllCopiedStep(was, mem[..], b, p.secs, p.at, i);
      StartGrows(p.secs, p.at, 0, i);
      ChangedTwice(start, was, mem[..], p.at, Start(p.secs, p.at, i), Start(p.secs, p.at, i + 1));
    }

    /** The loop over the headers. */
    method LoadSections(secthdr: nat, nametab: nat, kvbase: nat, kvoffset: nat, elf: Elf, ghost p: Plan, ghost b: Bytes)
      returns (kv: nat)
      requires b == Image(disk) && p == PlanOf(b, kvbase, p.headers, elf) && WellFormed(b, p.headers, elf)
      requires kvbase % SECTSIZE == 0 && kvoffset % SECTSIZE == 0 && kvbase + kvoffset == p.at
      requires secthdr == p.base + p.headers % SECTSIZE && nametab == p.namesStart + p.names % SECTSIZE
      requires TablesCopied(mem[..], b, p) && LoadEnd(p) <= mem.Length && sectionInfo.Length == NDEBUG_SECT
      modifies mem, sectionInfo
      ensures kvbase + kv == LoadEnd(p)
      ensures TablesCopied(mem[..], b, p) && AllCopied(mem[..], b, p.secs, p.at, p.count)
      ensures sectionInfo[..] == Filled(old(sectionInfo[..]), p.secs, p.at, p.count)
      ensures ChangedWithin(old(mem[..]), mem[..], p.at, LoadEnd(p))
      ensures InfoTells(mem[..], b, p.headers, elf.shnum, NamesAt(b, p.headers, elf),
                        old(sectionInfo[..]), sectionInfo[..])
    {
      hide Word, Span, KindAt, Copied, ChangedWithin, TablesCopied, AllCopied, WellFormed, PlanOf, InfoTells;
      kv := kvoffset;
      NothingCopied(mem[..], b, p);
      PlanSections(b, p, elf);
      var i := 0;
      while i < elf.shnum
        invariant 0 <= i <= p.count && kv % SECTSIZE == 0
        invariant Before(old(mem[..]), old(sectionInfo[..]), kvbase + kv, b, p, i)
      {
        kv := LoadNext(secthdr, nametab, kvbase, kv, i, elf, p, b, old(mem[..]), old(sectionInfo[..]));
        i := i + 1;
      }
      AllTell(mem[..], b, p.headers, elf.shnum, p.names, old(sectionInfo[..]), p.at);
    }

    /** The fields of `struct Elf` in memory. */
    function HeaderAt(a: nat): Elf
      requires a + 64 <= mem.Length
      reads mem
    {
      Elf(MemWord(a + 40, 8), MemWord(a + 60, 2), MemWord(a + 58, 2), MemWord(a + 62, 2))
    }

    /** `read_section_headers`: the section headers, the name table and the debug sections lie in memory
        as they are in the image, one after the other from the rounded address on; nothing outside is
        touched; `section_info` describes what was loaded. Of the ELF header, only the index of the name
        table is read once the headers are loaded, so only that must not lie where they go. */
    method ReadSectionHeaders(elfhdr: uint64, toVa: nat) returns (end: nat)
      requires sectionInfo.Length == NDEBUG_SECT && elfhdr + 64 <= mem.Length
      requires var elf := HeaderAt(elfhdr);
        && WellFormed(Image(disk), HeadersAt(elfhdr, elf), elf)
        && LoadEnd(PlanOf(Image(disk), RoundUp(toVa), HeadersAt(elfhdr, elf), elf)) <= mem.Length
        && IndexSafe(elfhdr, RoundUp(toVa), HeadersAt(elfhdr, elf), elf)
      modifies mem, sectionInfo
      ensures var b, elf := Image(disk), old(HeaderAt(elfhdr));
        var p := PlanOf(b, RoundUp(toVa), HeadersAt(elfhdr, elf), elf);
        && end == LoadEnd(p)
        && TablesCopied(mem[..], b, p)
        && AllCopied(mem[..], b, p.secs, p.at, p.count)
        && sectionInfo[..] == Filled(old(sectionInfo[..]), p.secs, p.at, p.count)
        && ChangedWithin(old(mem[..]), mem[..], p.base, end)
        && (elfhdr + 64 <= p.base || end <= elfhdr ==> HeaderAt(elfhdr) == elf)
        && InfoTells(mem[..], b, p.headers, elf.shnum, NamesAt(b, p.headers, elf),
                     old(sectionInfo[..]), sectionInfo[..])
    {
      var elf := HeaderAt(elfhdr);
      var kvbase, offset := RoundUp(toVa), HeadersAt(elfhdr, elf);
      ghost var b, p := Image(disk), PlanOf(Image(disk), kvbase, offset, elf);
      var kv, secthdr, nametab := LoadTables(kvbase, offset, elfhdr, elf, p, b);
      ghost var was := mem[..];
      hide Word, Span, KindAt, Copied, ChangedWithin, TablesCopied, AllCopied, PlanOf, Filled, WellFormed, Start, Image;
      hide RoundUp, HeadersAt, InfoTells, SecList, NamesAt;
      kv := LoadSections(secthdr, nametab, kvbase, kv, elf, p, b);
      StartGrows(p.secs, p.at, 0, |p.secs|);
      ChangedTwice(old(mem[..]), was, mem[..], p.base, p.at, LoadEnd(p));
      end := kvbase + kv;
      HeaderKept(elfhdr, elf, old(mem[..]), p.base, end);
    }

    /** A header outside what changed is as it was. */
    lemma HeaderKept(a: nat, elf: Elf, was: seq<byte>, lo: nat, hi: nat)
      requires a + 64 <= mem.Length && ChangedWithin(was, mem[..], lo, hi)
      requires elf == Elf(LsbValue(was[a + 40..a + 48]), LsbValue(was[a + 60..a + 62]), LsbValue(was[a + 58..a + 60]),
                          LsbValue(was[a + 62..a + 64]))
      ensures a + 64 <= lo || hi <= a ==> HeaderAt(a) == elf
      ensures a + 64 <= lo || hi <= a + 62 ==> MemWord(a + 62, 2) == elf.shstrndx
    {
      hide LsbValue;
      var m := mem[..];
      assert m[a + 40..a + 48] == mem[a + 40..a + 48] && m[a + 58..a + 60] == mem[a + 58..a + 60];
      assert m[a + 60..a + 62] == mem[a + 60..a + 62] && m[a + 62..a + 64] == mem[a + 62..a + 64];
      if a + 64 <= lo || hi <= a {
        assert m[a + 40..a + 48] == was[a + 40..a + 48] && m[a + 58..a + 60] == was[a + 58..a + 60];
        assert m[a + 60..a + 62] == was[a + 60..a + 62];
      }
      if a + 64 <= lo || hi <= a + 62 {
        assert m[a + 62..a + 64] == was[a + 62..a + 64];
      }
    }

    /** The first part: the section headers, then the name table. */
    method LoadTables(kvbase: nat, offset: nat, elfhdr: nat, elf: Elf, ghost p: Plan, ghost b: Bytes)
      returns (kv: nat, secthdr: nat, nametab: nat)
      requires elfhdr + 64 <= mem.Length && elf == HeaderAt(elfhdr) && IndexSafe(elfhdr, kvbase, offset, elf)
      requires b == Image(disk) && p == PlanOf(b, kvbase, offset, elf) && WellFormed(b, offset, elf)
      requires kvbase % SECTSIZE == 0 && LoadEnd(p) <= mem.Length
      modifies mem
      ensures kv % SECTSIZE == 0 && kvbase + kv == p.at && p.base <= p.at
      ensures secthdr == p.base + p.headers % SECTSIZE && nametab == p.namesStart + p.names % SECTSIZE
      ensures TablesCopied(mem[..], b, p) && ChangedWithin(old(mem[..]), mem[..], p.base, p.at)
    {
      hide Word, Span, Copied, ChangedWithin, PlanOf, TablesCopied, WellFormed, LoadEnd, Image, HeaderAt, IndexSafe;
      PlanFacts(b, p, elf);
      var header;
      kv, secthdr, header := LoadHeaders(kvbase, offset, elfhdr, elf, b);
      ghost var was := mem[..];
      kv, nametab := LoadNames(header, kvbase, kv, b, offset + 64 * elf.shstrndx);
      TablesJoin(old(mem[..]), was, mem[..], b, p);
    }

    /** The section headers, and where among them that of the name table is. */
    method LoadHeaders(kvbase: nat, offset: nat, elfhdr: nat, elf: Elf, ghost b: Bytes)
      returns (kv: nat, secthdr: nat, header: nat)
      requires elfhdr + 64 <= mem.Length && elf == HeaderAt(elfhdr) && IndexSafe(elfhdr, kvbase, offset, elf)
      requires b == Image(disk) && elf.shstrndx < elf.shnum && elf.shentsize == 64
      requires kvbase % SECTSIZE == 0 && NamesStart(kvbase, offset, elf) <= mem.Length
      modifies mem
      ensures kv % SECTSIZE == 0 && (kvbase + kv) % SECTSIZE == 0 && kvbase + kv == NamesStart(kvbase, offset, elf)
      ensures secthdr == kvbase + offset % SECTSIZE
      ensures Copied(mem[..], secthdr, b, offset, 64 * elf.shnum)
      ensures Copied(mem[..], header, b, offset + 64 * elf.shstrndx, 64)
      ensures ChangedWithin(old(mem[..]), mem[..], kvbase, kvbase + kv)
    {
      hide Word, Span, Copied, ChangedWithin, Image, LsbValue;
      kv := LoadRange(kvbase, elf.shnum * elf.shentsize, offset, 0);
      Aligned(kvbase, kv, 0);
      secthdr := kvbase + offset % SECTSIZE;
      HeaderKept(elfhdr, elf, old(mem[..]), kvbase, kvbase + kv);
      var shstrndx := MemWord(elfhdr + 62, 2);
      header := secthdr + 64 * shstrndx;
      CopiedPart(mem[..], secthdr, b, offset, 64 * elf.shnum, 64 * shstrndx, 64);
    }

    /** The name table, whose header is at h. */
    method LoadNames(h: nat, kvbase: nat, kvoffset: nat, ghost b: Bytes, ghost o: nat) returns (kv: nat, nametab: nat)
      requires b == Image(disk) && Copied(mem[..], h, b, o, 64)
      requires kvoffset % SECTSIZE == 0 && (kvbase + kvoffset) % SECTSIZE == 0
      requires kvbase + kvoffset + Span(Word(b, o + 32, 8), Word(b, o + 24, 8)) <= mem.Length
      modifies mem
      ensures kv == kvoffset + Span(Word(b, o + 32, 8), Word(b, o + 24, 8)) && kv % SECTSIZE == 0
      ensures nametab == kvbase + kvoffset + Word(b, o + 24, 8) % SECTSIZE
      ensures Copied(mem[..], nametab, b, Word(b, o + 24, 8), Word(b, o + 32, 8))
      ensures ChangedWithin(old(mem[..]), mem[..], kvbase + kvoffset, kvbase + kv)
    {
      hide Word, Span, Copied, ChangedWithin;
      HeaderFields(h, b, o);
      var temp, nameOffset := kvoffset, MemWord(h + 24, 8);
      kv := LoadRange(kvbase + kvoffset, MemWord(h + 32, 8), nameOffset, kvoffset);
      nametab := kvbase + temp + nameOffset % SECTSIZE;
    }

    /** A header in memory says what it says in the image. */
    lemma HeaderFields(h: nat, b: Bytes, o: nat)
      requires Copied(mem[..], h, b, o, 64)
      ensures h + 64 <= mem.Length
      ensures MemWord(h, 4) == Word(b, o, 4) && MemWord(h + 16, 8) == Word(b, o + 16, 8)
      ensures MemWord(h + 24, 8) == Word(b, o + 24, 8) && MemWord(h + 32, 8) == Word(b, o + 32, 8)
    {
      var m := mem[..];
      FieldInMemory(m, h, b, o, 0, 4);
      FieldInMemory(m, h, b, o, 16, 8);
      FieldInMemory(m, h, b, o, 24, 8);
      FieldInMemory(m, h, b, o, 32, 8);
      assert m[h + 0..h + 0 + 4] == mem[h..h + 4] && m[h + 16..h + 16 + 8] == mem[h + 16..h + 24];
      assert m[h + 24..h + 24 + 8] == mem[h + 24..h + 32] && m[h + 32..h + 32 + 8] == mem[h + 32..h + 40];
    }
  }

  /** The plan in terms of the sectors of its parts. */
  lemma PlanFacts(b: Bytes, p: Plan, elf: Elf)
    requires p == PlanOf(b, p.base, p.headers, elf) && WellFormed(b, p.headers, elf)
    ensures elf.shstrndx < p.count == elf.shnum && elf.shentsize == 64
    ensures p.namesStart == p.base + Span(64 * p.count, p.headers)
    ensures p.at == p.namesStart + Span(p.size, p.names) <= LoadEnd(p)
    ensures p.base + p.headers % SECTSIZE + 64 * p.count <= p.namesStart
    ensures p.names == Word(b, p.headers + 64 * elf.shstrndx + 24, 8)
    ensures p.size == Word(b, p.headers + 64 * elf.shstrndx + 32, 8)
  {
    hide Word, KindAt, Span;
    SectorsCover(64 * p.count, p.headers);
    StartGrows(p.secs, p.at, 0, |p.secs|);
  }

  lemma PlanSections(b: Bytes, p: Plan, elf: Elf)
    requires p == PlanOf(b, p.base, p.headers, elf)
    ensures p.count == elf.shnum && p.secs == SecList(b, p.headers, p.count, p.names)
    ensures p.names == NamesAt(b, p.headers, elf)
  {
    hide Word, KindAt, Span;
  }

  /** The headers are in place, then the name table is loaded behind them. */
  lemma TablesJoin(start: seq<byte>, was: seq<byte>, now: seq<byte>, b: Bytes, p: Plan)
    requires p.base + p.headers % SECTSIZE + 64 * p.count <= p.namesStart <= p.at
    requires Copied(was, p.base + p.headers % SECTSIZE, b, p.headers, 64 * p.count)
    requires ChangedWithin(start, was, p.base, p.namesStart) && ChangedWithin(was, now, p.namesStart, p.at)
    requires Copied(now, p.namesStart + p.names % SECTSIZE, b, p.names, p.size)
    ensures TablesCopied(now, b, p) && ChangedWithin(start, now, p.base, p.at)
  {
    hide Copied, ChangedWithin;
    CopiedKept(was, now, p.namesStart, p.at, p.base + p.headers % SECTSIZE, b, p.headers, 64 * p.count);
    ChangedTwice(start, was, now, p.base, p.namesStart, p.at);
  }

  lemma Aligned(a: nat, b: nat, c: nat)
    requires a % SECTSIZE == 0 && b % SECTSIZE == 0 && c % SECTSIZE == 0
    ensures (a + b) % SECTSIZE == 0 && (b + c) % SECTSIZE == 0
  {
  }

  lemma NothingThere(m: seq<byte>, a: nat, b: Bytes, o: nat)
    ensures Copied(m, a, b, o, 0)
  {
  }

  lemma NothingCopied(m: seq<byte>, b: Bytes, p: Plan)
    ensures AllCopied(m, b, p.secs, p.at, 0) && ChangedWithin(m, m, p.at, p.at)
  {
  }

  /** Header i, the name table and the room for section i are where the step expects them. */
  lemma Located(m: seq<byte>, b: Bytes, p: Plan, elf: Elf, i: nat)
    requires p == PlanOf(b, p.base, p.headers, elf) && WellFormed(b, p.headers, elf) && i < p.count
    requires TablesCopied(m, b, p)
    ensures Copied(m, p.base + p.headers % SECTSIZE + 64 * i, b, p.headers + 64 * i, 64)
    ensures p.base + p.headers % SECTSIZE + 64 * i + 64 <= p.at <= Start(p.secs, p.at, i)
    ensures p.secs[i] == SecAt(b, p.headers + 64 * i, p.names) && UNKNOWN <= p.secs[i].kind < NDEBUG_SECT
    ensures Word(b, p.headers + 64 * i, 4) < p.size && b(p.names + p.size - 1) == 0
    ensures p.namesStart + p.names % SECTSIZE + p.size <= p.at
    ensures Copied(m, p.namesStart + p.names % SECTSIZE, b, p.names, p.size)
    ensures Start(p.secs, p.at, i) + Room(p.secs[i]) == Start(p.secs, p.at, i + 1) <= LoadEnd(p)
  {
    hide Word, Span, KindAt, Copied;
    CopiedPart(m, p.base + p.headers % SECTSIZE, b, p.headers, 64 * p.count, 64 * i, 64);
    SectorsCover(64 * p.count, p.headers);
    SectorsCover(p.size, p.names);
    StartGrows(p.secs, p.at, 0, i);
    StartGrows(p.secs, p.at, i + 1, p.count);
  }

  lemma LastByte(m: seq<byte>, a: nat, b: Bytes, o: nat, n: nat)
    requires Copied(m, a, b, o, n) && n > 0
    ensures a + n <= |m| && m[a + n - 1] == b(o + n - 1)
  {
    assert o + (a + n - 1 - a) == o + n - 1;
  }

  lemma FieldInMemory(m: seq<byte>, h: nat, b: Bytes, o: nat, d: nat, n: nat)
    requires Copied(m, h, b, o, 64) && 0 < n <= 64 - d && d < 64
    ensures LsbValue(m[h + d..h + d + n]) == Word(b, o + d, n)
  {
    CopiedPart(m, h, b, o, 64, d, n);
    CopiedWord(m, h + d, b, o + d, n);
  }
}
