/** Compilation units: the header reader of `_get_next_cu`, and the query of `debuginfo_rip` that
    enumerates units and their top-level entries for the function holding an address. */
module CompUnits {
  import opened Machine
  import opened FixedWidth
  import opened AbbrevTable
  import opened DieReader
  import opened DieTree
  import opened DieValues
  import opened DieWalk

  const DW_TAG_SUBPROGRAM := 0x2e
  const DW_AT_LOW_PC := 0x11
  const DW_AT_HIGH_PC := 0x12

  // ----- unit headers -----

  datatype Header = HeaderFault | Header(ret: int, cu: CU, next: nat)

  /** `_get_next_cu` at `curr`: the length is kept in 32 bits even when 8 bytes are read, and a unit
      of an unknown version leaves `cu_die_offset` as it was. */
  function ReadHeader(d: Sections, curr: nat, old_cu: CU): (r: Header)
    requires d.Valid()
    ensures r.Header? && curr <= d.infoSize ==> r.next == r.cu.nextOffset >= curr + 4 && r.cu.offset == curr
  {
    if curr > d.infoSize then Header(-1, old_cu, curr)
    else
      match ReadFixed(d.order, d.info[curr..], 4)
      case Fault => HeaderFault
      case Got(word, _) =>
        if curr + 4 > |d.info| then HeaderFault
        else if word == 0xffff_ffff then
          match ReadFixed(d.order, d.info[curr + 4..], 8)
          case Fault => HeaderFault
          case Got(long, _) => ReadHeaderRest(d, curr, old_cu, curr + 12, long % TWO_32, 8)
        else ReadHeaderRest(d, curr, old_cu, curr + 4, word, 4)
  }

  function ReadHeaderRest(d: Sections, curr: nat, old_cu: CU, off: nat, length: uint32, dwarfSize: nat): (r: Header)
    requires dwarfSize == 4 || dwarfSize == 8
    ensures r.Header? ==> r.next == r.cu.nextOffset == off + length && r.cu.offset == curr
    ensures r.Header? && r.ret == 0 ==> 2 <= r.cu.version <= 4 && r.cu.dieOffset == off + 3 + dwarfSize
  {
    if off + 3 + dwarfSize > |d.info| then HeaderFault
    else
      match (ReadFixed(d.order, d.info[off..], 2), ReadFixed(d.order, d.info[off + 2..], dwarfSize),
             ReadFixed(d.order, d.info[off + 2 + dwarfSize..], 1))
      case (Got(version, _), Got(abbrev, _), Got(addr, _)) =>
        var cu := CU(curr, length, if dwarfSize == 4 then 4 else 12, dwarfSize, version, abbrev, addr,
                     off + length, old_cu.dieOffset);
        if version < 2 || version > 4 then Header(-1, cu, off + length)
        else Header(0, cu.(dieOffset := off + 3 + dwarfSize), off + length)
      case _ => HeaderFault
  }

  /** `struct _Dwarf_Debug`, as far as .debug_info is concerned. */
  class Debug {
    const d: Sections
    var currOff: nat

    constructor (d: Sections)
      ensures this.d == d && currOff == 0
    {
      this.d := d;
      currOff := 0;
    }

    /** `_get_next_cu`. */
    method GetNextCu(old_cu: CU) returns (ret: int, cu: CU)
      requires d.Valid() && ReadHeader(d, currOff, old_cu).Header?
      modifies this
      ensures ReadHeader(d, old(currOff), old_cu) == Header(ret, cu, currOff)
    {
      hide ReadFixed;
      if currOff > d.infoSize {
        return -1, old_cu;
      }
      var offset, length, size := currOff, 0, 4;
      length, offset := ReadAt(d.order, d.info, offset, 4);
      if length == 0xffff_ffff {
        length, offset := ReadAt(d.order, d.info, offset, 8);
        length := length % TWO_32;
        size := 8;
      }
      ret, cu := FillHeader(old_cu, offset, length, size);
    }

    /** The fields after the length. */
    method FillHeader(old_cu: CU, start: nat, length: uint32, size: nat) returns (ret: int, cu: CU)
      requires (size == 4 || size == 8) && start <= |d.info|
      requires ReadHeaderRest(d, currOff, old_cu, start, length, size).Header?
      modifies this
      ensures ReadHeaderRest(d, old(currOff), old_cu, start, length, size) == Header(ret, cu, currOff)
    {
      hide ReadFixed;
      var cuOffset := currOff;
      currOff := start + length;
      var version, abbrev, addr, offset;
      version, offset := ReadAt(d.order, d.info, start, 2);
      abbrev, offset := ReadAt(d.order, d.info, offset, size);
      addr, offset := ReadAt(d.order, d.info, offset, 1);
      cu := CU(cuOffset, length, if size == 4 then 4 else 12, size, version, abbrev, addr, currOff, old_cu.dieOffset);
      ret := -1;
      if 2 <= version <= 4 {
        cu := cu.(dieOffset := offset);
        ret := 0;
      }
    }
  }

  // ----- units laid out one after the other -----

  /** A unit: its header, its abbreviation declarations and its unit entry. */
  datatype CompUnit = CompUnit(cu: CU, decls: seq<Decl>, root: Tree)

  function UnitOf(d: Sections, c: CompUnit): Unit {
    Unit(d, c.cu, c.decls)
  }

  /** Section 7.5.1.1, for both sizes of offsets. */
  function EncodeHeader(order: Endian, cu: CU): seq<byte> {
    (if cu.dwarfSize == 4 then EncodeFixed(order, cu.length, 4)
     else EncodeFixed(order, 0xffff_ffff, 4) + EncodeFixed(order, cu.length, 8))
    + EncodeHeaderRest(order, cu)
  }

  function EncodeHeaderRest(order: Endian, cu: CU): seq<byte> {
    EncodeFixed(order, cu.version, 2)
    + (EncodeFixed(order, cu.abbrevOffset, cu.dwarfSize) + EncodeFixed(order, cu.addrSize, 1))
  }

  /** A header whose derived fields follow from the encoded ones. */
  ghost predicate ValidHeader(cu: CU) {
    && (cu.dwarfSize == 4 || cu.dwarfSize == 8)
    && cu.lengthSize == (if cu.dwarfSize == 4 then 4 else 12)
    && cu.length < (if cu.dwarfSize == 4 then 0xffff_ffff else TWO_32)
    && 2 <= cu.version <= 4 && cu.addrSize < 256 && cu.abbrevOffset < Pow2(8 * cu.dwarfSize)
    && cu.nextOffset == cu.offset + cu.lengthSize + cu.length
    && cu.dieOffset == cu.offset + cu.lengthSize + 3 + cu.dwarfSize
  }

  ghost predicate UnitAt(d: Sections, c: CompUnit, off: nat) {
    var u := UnitOf(d, c);
    && d.Valid() && ValidHeader(c.cu) && c.cu.offset == off
    && ValidTree(u, c.root)
    && u.Holds(off, EncodeHeader(d.order, c.cu))
    && u.Holds(c.cu.dieOffset, EncodeTree(u, c.root))
    && c.cu.dieOffset + |EncodeTree(u, c.root)| == c.cu.nextOffset
  }

  lemma FixedAt(order: Endian, v: nat, n: nat, rest: seq<byte>, s: seq<byte>)
    requires Width(n) && v < Pow2(8 * n) && EncodeFixed(order, v, n) + rest <= s
    ensures ReadFixed(order, s, n) == Got(v, n) && n <= |s| && rest <= s[n..]
  {
    hide ReadFixed, EncodeFixed;
    PrefixSplit(EncodeFixed(order, v, n), rest, s);
    FixedRoundTrip(order, v, n, s);
  }

  lemma HeaderRestRoundTrip(d: Sections, cu: CU, old_cu: CU, off: nat)
    requires off <= |d.info| && EncodeHeaderRest(d.order, cu) <= d.info[off..]
    requires ValidHeader(cu) && off == cu.offset + cu.lengthSize
    ensures ReadHeaderRest(d, cu.offset, old_cu, off, cu.length, cu.dwarfSize) == Header(0, cu, cu.nextOffset)
  {
    hide ReadFixed, EncodeFixed;
    Pow2Values();
    hide Pow2;
    var s, m := d.info[off..], cu.dwarfSize;
    var abbrev, addr := EncodeFixed(d.order, cu.abbrevOffset, m), EncodeFixed(d.order, cu.addrSize, 1);
    FixedAt(d.order, cu.version, 2, abbrev + addr, s);
    assert s[2..] == d.info[off + 2..];
    FixedAt(d.order, cu.abbrevOffset, m, addr, s[2..]);
    assert s[2..][m..] == d.info[off + 2 + m..];
    assert addr + [] == addr;
    FixedAt(d.order, cu.addrSize, 1, [], d.info[off + 2 + m..]);
  }

  /** `_get_next_cu` at a unit recovers its header and moves to the next unit. */
  lemma HeaderRoundTrip(d: Sections, cu: CU, old_cu: CU)
    requires d.Valid() && ValidHeader(cu) && cu.offset <= d.infoSize
    requires EncodeHeader(d.order, cu) <= d.info[cu.offset..]
    ensures ReadHeader(d, cu.offset, old_cu) == Header(0, cu, cu.nextOffset)
  {
    hide ReadFixed, EncodeFixed, EncodeHeaderRest, ReadHeaderRest;
    Pow2Values();
    hide Pow2;
    var s := d.info[cu.offset..];
    var rest := EncodeHeaderRest(d.order, cu);
    if cu.dwarfSize == 4 {
      FixedAt(d.order, cu.length, 4, rest, s);
      assert s[4..] == d.info[cu.offset + 4..];
      HeaderRestRoundTrip(d, cu, old_cu, cu.offset + 4);
    } else {
      var mark, long := EncodeFixed(d.order, 0xffff_ffff, 4), EncodeFixed(d.order, cu.length, 8);
      assert EncodeHeader(d.order, cu) == mark + (long + rest);
      FixedAt(d.order, 0xffff_ffff, 4, long + rest, s);
      assert s[4..] == d.info[cu.offset + 4..];
      FixedAt(d.order, cu.length, 8, rest, s[4..]);
      assert s[4..][8..] == d.info[cu.offset + 12..];
      HeaderRestRoundTrip(d, cu, old_cu, cu.offset + 12);
    }
  }

  // ----- which function holds an address -----

  /** First definition with a given name. */
  function DefIndex(defs: seq<AttrDef>, attr: uint64): (k: nat)
    ensures k <= |defs|
    ensures k < |defs| ==> defs[k].attrib == attr
    ensures forall j :: 0 <= j < k ==> defs[j].attrib != attr
  {
    if defs == [] || defs[0].attrib == attr then 0
    else
      var k := DefIndex(defs[1..], attr);
      assert forall j :: 1 <= j < k + 1 ==> defs[j] == defs[1..][j - 1];
      k + 1
  }

  /** An address, or a constant that is not negative, in any form or through indirections. */
  ghost predicate PlainPc(v: Value) {
    Innermost(v).Number? || (Innermost(v).Integer? && Innermost(v).i >= 0)
  }

  /** An entry whose pc attributes, if it has them, are of the classes that section 2.17.2 allows. */
  ghost predicate PlainPcs(u: Unit, t: Tree)
    requires ValidHead(u, t)
  {
    forall i :: 0 <= i < |t.values| && AbOf(u, t.code).attrs[i].attrib in {DW_AT_LOW_PC, DW_AT_HIGH_PC} ==>
      PlainPc(t.values[i])
  }

  function PcIndex(u: Unit, t: Tree, attr: uint64): (k: nat)
    requires Known(u, t.code) && |AbOf(u, t.code).attrs| == |t.values|
    ensures k <= |t.values|
  {
    DefIndex(AbOf(u, t.code).attrs, attr)
  }

  predicate HasPc(u: Unit, t: Tree, attr: uint64)
    requires Known(u, t.code) && |AbOf(u, t.code).attrs| == |t.values|
  {
    PcIndex(u, t, attr) < |t.values|
  }

  /** The number encoded for a pc attribute. */
  function Pc(u: Unit, t: Tree, attr: uint64): nat
    requires Known(u, t.code) && |AbOf(u, t.code).attrs| == |t.values| && HasPc(u, t, attr)
  {
    match Innermost(t.values[PcIndex(u, t, attr)])
    case Number(n) => n
    case Integer(i) => ToU64(i)
    case _ => 0
  }

  /** A subprogram with low_pc < addr < high_pc. */
  ghost predicate FunctionAt(u: Unit, t: Tree, addr: nat)
    requires ValidHead(u, t)
  {
    && AbOf(u, t.code).tag == DW_TAG_SUBPROGRAM
    && HasPc(u, t, DW_AT_LOW_PC) && HasPc(u, t, DW_AT_HIGH_PC)
    && Pc(u, t, DW_AT_LOW_PC) < addr < Pc(u, t, DW_AT_HIGH_PC)
  }

  // ----- the range of section 2.17.2 -----

  /** The forms of class constant, section 7.5.4: data1, data2, data4, data8, sdata and udata. */
  predicate ConstantForm(form: uint64) {
    form in {0x0b, 0x05, 0x06, 0x07, 0x0d, 0x0f}
  }

  /** From version 4 on, a high_pc of class constant is an offset from low_pc. */
  predicate OffsetHigh(u: Unit, t: Tree)
    requires Known(u, t.code) && |AbOf(u, t.code).attrs| == |t.values| && HasPc(u, t, 0x12)
  {
    var k := PcIndex(u, t, 0x12);
    u.cu.version >= 4 && ConstantForm(FinalForm(AbOf(u, t.code).attrs[k].form, t.values[k]))
  }

  /** The first address past the last instruction. */
  function EndPc(u: Unit, t: Tree): nat
    requires Known(u, t.code) && |AbOf(u, t.code).attrs| == |t.values|
    requires HasPc(u, t, 0x11) && HasPc(u, t, 0x12)
  {
    Pc(u, t, 0x12) + (if OffsetHigh(u, t) then Pc(u, t, 0x11) else 0)
  }

  /** A subprogram (0x2e) with low_pc (0x11) and high_pc (0x12), whose instructions include the one at the address. */
  ghost predicate Covers(u: Unit, t: Tree, addr: nat)
    requires ValidHead(u, t)
  {
    && AbOf(u, t.code).tag == 0x2e
    && HasPc(u, t, 0x11) && HasPc(u, t, 0x12)
    && Pc(u, t, 0x11) <= addr < EndPc(u, t)
  }

  /** What the test of the code asks for besides: not the first instruction of the function, and an
      offset, which it takes for an address, beyond the address. */
  ghost predicate Noticed(u: Unit, t: Tree, addr: nat)
    requires ValidHead(u, t)
  {
    && (HasPc(u, t, 0x11) ==> addr != Pc(u, t, 0x11))
    && (HasPc(u, t, 0x12) && OffsetHigh(u, t) ==> addr < Pc(u, t, 0x12))
  }

  /** The code's range is the standard's exactly where the function is noticed, and never more. */
  lemma RangeExact(u: Unit, t: Tree, addr: nat)
    requires ValidHead(u, t)
    ensures FunctionAt(u, t, addr) <==> Covers(u, t, addr) && Noticed(u, t, addr)
  {
    hide PcIndex, Innermost, ValidValues;
  }

  /** The test of `list_func_die`. */
  predicate DieMatches(die: Die, addr: nat) {
    var low := AttrIndex(die.attrs, DW_AT_LOW_PC);
    var high := AttrIndex(die.attrs, DW_AT_HIGH_PC);
    && die.tag == DW_TAG_SUBPROGRAM
    && low < |die.attrs| && die.attrs[low].u0 < addr
    && high < |die.attrs| && die.attrs[high].u0 > addr
  }

  lemma {:induction false} IntegerFits(u: Unit, form: uint64, v: Value)
    requires ValidAttr(u, form, v) && Innermost(v).Integer?
    ensures -TWO_31 <= Innermost(v).i < TWO_31
    decreases v
  {
    hide StandardLayout;
    if v.Redirect? {
      IntegerFits(u, v.form, v.inner);
    }
  }

  lemma PcFound(u: Unit, t: Tree, off: nat, name: nat, attr: uint64)
    requires ValidHead(u, t) && PlainPcs(u, t) && attr in {DW_AT_LOW_PC, DW_AT_HIGH_PC}
    ensures var die := HeadDie(u, t, off, name);
      var k := AttrIndex(die.attrs, attr);
      && k == PcIndex(u, t, attr) && |die.attrs| == |t.values|
      && (k < |t.values| ==> die.attrs[k].u0 == Pc(u, t, attr))
  {
    hide HeadDie, EncodeHead, AttrIndex, DefIndex, ValidValues, Lookup, Innermost;
    var die, defs := HeadDie(u, t, off, name), AbOf(u, t.code).attrs;
    forall i | 0 <= i < |t.values|
      ensures die.attrs[i].attrib == defs[i].attrib
    {
      HeadAttrAt(u, t, off, name, i);
    }
    var k, j := AttrIndex(die.attrs, attr), DefIndex(defs, attr);
    assert !(k < j) && !(j < k);
    if k < |t.values| {
      HeadAttrAt(u, t, off, name, k);
    }
  }

  /** The test on the entry read is the test on the tree. */
  lemma MatchIsFunction(u: Unit, t: Tree, off: nat, name: nat, addr: nat)
    requires ValidHead(u, t) && PlainPcs(u, t)
    ensures DieMatches(HeadDie(u, t, off, name), addr) <==> FunctionAt(u, t, addr)
  {
    hide HeadDie, EncodeHead, AttrIndex, PcIndex, ValidValues, Lookup, Pc;
    PcFound(u, t, off, name, DW_AT_LOW_PC);
    PcFound(u, t, off, name, DW_AT_HIGH_PC);
  }

  datatype Hit = Miss | Hit(c: CompUnit, t: Tree, off: nat)

  ghost predicate PlainList(u: Unit, ts: seq<Tree>)
    requires ValidForest(u, ts)
  {
    ts == [] || (ValidTree(u, ts[0]) && PlainPcs(u, ts[0]) && PlainList(u, ts[1..]))
  }

  /** Which functions are looked for: those of the code's test, or those of the standard's range. */
  datatype Range = Coded | Standard

  ghost predicate InRange(range: Range, u: Unit, t: Tree, addr: nat)
    requires ValidHead(u, t)
  {
    if range.Coded? then FunctionAt(u, t, addr) else Covers(u, t, addr)
  }

  /** The first function of a list that holds the address. */
  ghost function FirstInList(d: Sections, c: CompUnit, ts: seq<Tree>, off: nat, addr: nat, range: Range := Coded): Hit
    requires ValidForest(UnitOf(d, c), ts)
  {
    var u := UnitOf(d, c);
    if ts == [] then Miss
    else
      assert ValidTree(u, ts[0]);
      if InRange(range, u, ts[0], addr) then Hit(c, ts[0], off)
      else FirstInList(d, c, ts[1..], off + |EncodeTree(u, ts[0])|, addr, range)
  }

  /** What the query demands of a unit: a unit entry that is not flagged with an empty list of
      children, correct sibling references, numeric pc attributes. */
  ghost predicate Searchable(d: Sections, c: CompUnit, off: nat) {
    var u := UnitOf(d, c);
    && UnitAt(d, c, off)
    && (AbOf(u, c.root.code).children == DW_CHILDREN_YES ==> c.root.kids != [])
    && CorrectShortcuts(u, c.root.kids, c.cu.dieOffset + |EncodeHead(u, c.root)|)
    && PlainList(u, c.root.kids)
  }

  ghost predicate AllSearchable(d: Sections, cs: seq<CompUnit>, off: nat) {
    if cs == [] then off == d.infoSize
    else Searchable(d, cs[0], off) && AllSearchable(d, cs[1..], cs[0].cu.nextOffset)
  }

  ghost function InUnit(d: Sections, c: CompUnit, addr: nat, range: Range := Coded): Hit
    requires ValidTree(UnitOf(d, c), c.root)
  {
    var u := UnitOf(d, c);
    FirstInList(d, c, c.root.kids, c.cu.dieOffset + |EncodeHead(u, c.root)|, addr, range)
  }

  /** The first function of the section that holds the address. */
  ghost function FirstFunction(d: Sections, cs: seq<CompUnit>, off: nat, addr: nat, range: Range := Coded): Hit
    requires AllSearchable(d, cs, off)
  {
    if cs == [] then Miss
    else
      match InUnit(d, cs[0], addr, range)
      case Miss => FirstFunction(d, cs[1..], cs[0].cu.nextOffset, addr, range)
      case hit => hit
  }

  /** A hit whose function the code's test notices. */
  ghost predicate NoticedHit(d: Sections, hit: Hit, addr: nat) {
    hit.Hit? ==> ValidHead(UnitOf(d, hit.c), hit.t) && Noticed(UnitOf(d, hit.c), hit.t, addr)
  }

  lemma {:induction false} ListExact(d: Sections, c: CompUnit, ts: seq<Tree>, off: nat, addr: nat)
    requires ValidForest(UnitOf(d, c), ts)
    ensures var std, hit := FirstInList(d, c, ts, off, addr, Standard), FirstInList(d, c, ts, off, addr);
      && (hit == std <==> NoticedHit(d, std, addr))
      && (std.Miss? ==> hit.Miss?)
  {
    hide EncodeTree, ValidHead, FunctionAt, Covers, Noticed;
    if ts != [] {
      var u := UnitOf(d, c);
      assert ValidTree(u, ts[0]);
      RangeExact(u, ts[0], addr);
      ListExact(d, c, ts[1..], off + |EncodeTree(u, ts[0])|, addr);
      LaterHit(d, c, ts[1..], off + |EncodeTree(u, ts[0])|, addr, Coded);
    }
  }

  lemma {:induction false} LaterHit(d: Sections, c: CompUnit, ts: seq<Tree>, off: nat, addr: nat, range: Range)
    requires ValidForest(UnitOf(d, c), ts)
    ensures var hit := FirstInList(d, c, ts, off, addr, range); hit.Hit? ==> hit.c == c && hit.off >= off
  {
    hide EncodeTree, InRange;
    if ts != [] {
      LaterHit(d, c, ts[1..], off + |EncodeTree(UnitOf(d, c), ts[0])|, addr, range);
    }
  }

  lemma UnitExact(d: Sections, c: CompUnit, off: nat, addr: nat)
    requires Searchable(d, c, off)
    ensures c.cu.offset == off < c.cu.nextOffset && ValidTree(UnitOf(d, c), c.root)
    ensures var std, hit := InUnit(d, c, addr, Standard), InUnit(d, c, addr);
      && (hit == std <==> NoticedHit(d, std, addr))
      && (std.Miss? ==> hit.Miss?) && (std.Hit? ==> std.c == c) && (hit.Hit? ==> hit.c == c)
  {
    hide FirstInList, NoticedHit, EncodeHead, EncodeTree, ValidValues, CorrectShortcuts, PlainList;
    var at := c.cu.dieOffset + |EncodeHead(UnitOf(d, c), c.root)|;
    ListExact(d, c, c.root.kids, at, addr);
    LaterHit(d, c, c.root.kids, at, addr, Coded);
    LaterHit(d, c, c.root.kids, at, addr, Standard);
  }

  lemma {:induction false} LaterUnit(d: Sections, cs: seq<CompUnit>, off: nat, addr: nat)
    requires AllSearchable(d, cs, off)
    ensures var hit := FirstFunction(d, cs, off, addr); hit.Hit? ==> hit.c.cu.offset >= off
  {
    hide InUnit, Searchable, NoticedHit;
    if cs != [] {
      UnitExact(d, cs[0], off, addr);
      LaterUnit(d, cs[1..], cs[0].cu.nextOffset, addr);
    }
  }

  /** The query finds the function that the standard assigns to the address, or reports none when the
      standard assigns none, exactly when that function is noticed: for its first instruction it is
      not, and with an offset for high_pc only for addresses below that offset. */
  lemma {:induction false} QueryExact(d: Sections, cs: seq<CompUnit>, off: nat, addr: nat)
    requires AllSearchable(d, cs, off)
    ensures var std, hit := FirstFunction(d, cs, off, addr, Standard), FirstFunction(d, cs, off, addr);
      && (hit == std <==> NoticedHit(d, std, addr))
      && (std.Miss? ==> hit.Miss?)
  {
    hide InUnit, Searchable, NoticedHit;
    if cs == [] {
      NoHit(d, addr);
    } else {
      UnitExact(d, cs[0], off, addr);
      QueryExact(d, cs[1..], cs[0].cu.nextOffset, addr);
      LaterUnit(d, cs[1..], cs[0].cu.nextOffset, addr);
    }
  }

  lemma NoHit(d: Sections, addr: nat)
    ensures NoticedHit(d, Miss, addr)
  {
  }
}
