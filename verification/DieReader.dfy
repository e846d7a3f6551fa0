/** Debugging information entries: decoding attribute forms, filling a `Dwarf_Die` in place, and
    the scan that finds siblings with nothing but a `level` counter. */
module DieReader {
  import opened Machine
  import opened Leb128
  import opened FixedWidth
  import opened AbbrevTable

  const DW_DLE_ATTR_FORM_BAD := 14
  const DW_DLV_NO_ENTRY := -1
  const DW_DLV_OK := 0
  const DW_DLV_ERROR := 1

  const DW_AT_SIBLING := 0x01
  const DW_AT_NAME := 0x03

  const DW_FORM_ADDR := 0x01
  const DW_FORM_BLOCK2 := 0x03
  const DW_FORM_BLOCK4 := 0x04
  const DW_FORM_DATA2 := 0x05
  const DW_FORM_DATA4 := 0x06
  const DW_FORM_DATA8 := 0x07
  const DW_FORM_STRING := 0x08
  const DW_FORM_BLOCK := 0x09
  const DW_FORM_BLOCK1 := 0x0a
  const DW_FORM_DATA1 := 0x0b
  const DW_FORM_FLAG := 0x0c
  const DW_FORM_SDATA := 0x0d
  const DW_FORM_STRP := 0x0e
  const DW_FORM_UDATA := 0x0f
  const DW_FORM_REF_ADDR := 0x10
  const DW_FORM_REF1 := 0x11
  const DW_FORM_REF2 := 0x12
  const DW_FORM_REF4 := 0x13
  const DW_FORM_REF8 := 0x14
  const DW_FORM_REF_UDATA := 0x15
  const DW_FORM_INDIRECT := 0x16
  const DW_FORM_SEC_OFFSET := 0x17
  const DW_FORM_EXPRLOC := 0x18
  const DW_FORM_FLAG_PRESENT := 0x19
  const DW_FORM_REF_SIG8 := 0x20

  /** Capacity of `die_attr`. */
  const NATTRVAL := 120

  /** The sections in memory. `info` starts at the first byte of .debug_info and goes on as far as
      memory may be read; the section proper is its first `infoSize` bytes. Pointers into it are
      `infoBase` plus an offset, pointers into .debug_str `strBase` plus an offset. */
  datatype Sections = Sections(order: Endian, info: seq<byte>, infoSize: nat, infoBase: nat,
                               abbrev: seq<byte>, strBase: nat)
  {
    ghost predicate Valid() { infoSize <= |info| }
  }

  /** `Dwarf_CU`. */
  datatype CU = CU(offset: nat, length: nat, lengthSize: nat, dwarfSize: nat, version: nat,
                   abbrevOffset: nat, addrSize: nat, nextOffset: nat, dieOffset: nat)

  /** `Dwarf_Attribute`: the two words of its value and its block. */
  datatype Attribute = Attribute(attrib: uint64, form: uint64, indirect: bool, u0: nat, u1: nat,
                                 blockLen: nat, blockData: nat)

  /** The fields of `Dwarf_Die` that a scan writes; `attrs` are the first `die_attr_count`. */
  datatype Die = Die(offset: nat, nextOff: nat, abnum: uint64, tag: uint64, ab: Abbrev, name: nat,
                     attrs: seq<Attribute>)

  // ----- attribute forms -----

  /** What a form makes the reader do. */
  datatype Layout =
    | Fixed(n: nat)
    | Unsigned
    | Signed
    | Block(n: nat)
    | BlockLeb
    | Text
    | TextOffset(n: nat)
    | Signature
    | Present
    | Nothing
    | Indirect
    | Unknown

  /** The switch of `_dwarf_attr_init`: DW_FORM_ref_addr reads nothing outside versions 2 and 3. */
  function LayoutOf(cu: CU, form: uint64): Layout {
    if form == DW_FORM_ADDR then Fixed(cu.addrSize)
    else if form == DW_FORM_BLOCK || form == DW_FORM_EXPRLOC then BlockLeb
    else if form == DW_FORM_BLOCK1 then Block(1)
    else if form == DW_FORM_BLOCK2 then Block(2)
    else if form == DW_FORM_BLOCK4 then Block(4)
    else if form == DW_FORM_DATA1 || form == DW_FORM_FLAG || form == DW_FORM_REF1 then Fixed(1)
    else if form == DW_FORM_DATA2 || form == DW_FORM_REF2 then Fixed(2)
    else if form == DW_FORM_DATA4 || form == DW_FORM_REF4 then Fixed(4)
    else if form == DW_FORM_DATA8 || form == DW_FORM_REF8 then Fixed(8)
    else if form == DW_FORM_INDIRECT then Indirect
    else if form == DW_FORM_REF_ADDR then
      if cu.version == 2 then Fixed(cu.addrSize) else if cu.version == 3 then Fixed(cu.dwarfSize) else Nothing
    else if form == DW_FORM_REF_UDATA || form == DW_FORM_UDATA then Unsigned
    else if form == DW_FORM_SDATA then Signed
    else if form == DW_FORM_SEC_OFFSET then Fixed(cu.dwarfSize)
    else if form == DW_FORM_STRING then Text
    else if form == DW_FORM_STRP then TextOffset(cu.dwarfSize)
    else if form == DW_FORM_REF_SIG8 then Signature
    else if form == DW_FORM_FLAG_PRESENT then Present
    else Unknown
  }

  /** `_dwarf_read_string`: the offset after the string, from `off`. */
  function StringEnd(info: seq<byte>, size: nat, off: nat): (r: Read<nat>)
    ensures r.Got? ==> off <= r.value <= |info|
    decreases |info| - off
  {
    if off >= |info| then Fault
    else if info[off] != 0 && off < size then StringEnd(info, size, off + 1)
    else if info[off] == 0 && off < size then Got(off + 1, 0)
    else Got(off, 0)
  }

  /** The two value words at `off`, and the offset after them as the size. */
  function ReadValue(d: Sections, off: nat, layout: Layout): (r: Read<(nat, nat)>)
    requires off <= |d.info| && !layout.Indirect? && !layout.Unknown?
    ensures r.Got? ==> off + r.size <= |d.info|
  {
    var s := d.info[off..];
    match layout
    case Fixed(n) =>
      (match ReadFixed(d.order, s, n)
       case Fault => Fault
       case Got(v, k) => if k > |s| then Fault else Got((v, 0), k))
    case Unsigned =>
      (match Uleb(s)
       case Fault => Fault
       case Got(v, k) => Got((v, 0), k))
    case Signed =>
      (match Sleb(s)
       case Fault => Fault
       case Got(v, k) => Got((ToU64(v), 0), k))
    case Block(n) =>
      (match ReadFixed(d.order, s, n)
       case Fault => Fault
       case Got(len, k) => if k + len > |s| then Fault else Got((len, d.infoBase + off + k), k + len))
    case BlockLeb =>
      (match Uleb(s)
       case Fault => Fault
       case Got(len, k) => if k + len > |s| then Fault else Got((len, d.infoBase + off + k), k + len))
    case Text =>
      (match StringEnd(d.info, d.infoSize, off)
       case Fault => Fault
       case Got(end, _) => Got((d.infoBase + off, 0), end - off))
    case TextOffset(n) =>
      (match ReadFixed(d.order, s, n)
       case Fault => Fault
       case Got(v, k) => if k > |s| then Fault else Got((v, d.strBase + v), k))
    case Signature => if 8 > |s| then Fault else Got((8, d.infoBase + off), 8)
    case Present => Got((1, 0), 0)
    case Nothing => Got((0, 0), 0)
  }

  predicate BlockForm(form: uint64) {
    form == DW_FORM_BLOCK || form == DW_FORM_BLOCK1 || form == DW_FORM_BLOCK2 || form == DW_FORM_BLOCK4
  }

  function MakeAttribute(ad: AttrDef, form: uint64, indirect: bool, u0: nat, u1: nat): Attribute {
    Attribute(ad.attrib, ad.form, indirect, u0, u1,
              if BlockForm(form) then u0 else 0, if BlockForm(form) then u1 else 0)
  }

  /** `die_name` follows DW_AT_name in the two string forms and otherwise keeps what it held. */
  function NameAfter(name: nat, a: Attribute): nat {
    if a.attrib != DW_AT_NAME then name
    else if a.form == DW_FORM_STRP then a.u1
    else if a.form == DW_FORM_STRING then a.u0
    else name
  }

  function AddAttribute(die: Die, a: Attribute): Die {
    die.(name := NameAfter(die.name, a), attrs := die.attrs + [a])
  }

  /** Outcome of filling attributes: the entry so far and the offset reached. */
  datatype Fill = FillFault | BadForm(die: Die) | Filled(die: Die, next: nat)

  function InitAttr(d: Sections, cu: CU, off: nat, die: Die, ad: AttrDef, form: uint64, indirect: bool): (r: Fill)
    requires off <= |d.info|
    ensures r.Filled? ==> off <= r.next <= |d.info| && |r.die.attrs| == |die.attrs| + 1
    ensures r.Filled? ==> r.die.ab == die.ab
    ensures r.BadForm? ==> r.die == die
    decreases |d.info| - off
  {
    var layout := LayoutOf(cu, form);
    if layout.Unknown? then BadForm(die)
    else if layout.Indirect? then
      match Uleb(d.info[off..])
      case Fault => FillFault
      case Got(inner, n) => InitAttr(d, cu, off + n, die, ad, inner, true)
    else
      match ReadValue(d, off, layout)
      case Fault => FillFault
      case Got(u, n) => Filled(AddAttribute(die, MakeAttribute(ad, form, indirect, u.0, u.1)), off + n)
  }

  /** The definitions from the i-th on, in order. */
  function FillAttrs(d: Sections, cu: CU, off: nat, die: Die, defs: seq<AttrDef>, i: nat): (r: Fill)
    requires off <= |d.info| && i <= |defs|
    ensures r.Filled? ==> off <= r.next <= |d.info|
    ensures r.Filled? ==> r.die.ab == die.ab
    decreases |defs| - i
  {
    if i == |defs| then Filled(die, off)
    else
      match InitAttr(d, cu, off, die, defs[i], defs[i].form, false)
      case FillFault => FillFault
      case BadForm(die') => BadForm(die')
      case Filled(die', next) => FillAttrs(d, cu, next, die', defs, i + 1)
  }

  // ----- one entry, and the scan -----

  datatype Entry = EntryFault | Null(next: nat) | Failed(code: int, die: Die) | Loaded(die: Die, next: nat)

  /** The entry at `off`, read over the previous contents of `die`. */
  function ReadEntry(d: Sections, cu: CU, off: nat, die: Die): (r: Entry)
    requires off <= |d.info|
    ensures r.Null? || r.Loaded? ==> off < r.next <= |d.info|
    ensures r.Failed? ==> r.code != DW_DLE_NONE
  {
    match Uleb(d.info[off..])
    case Fault => EntryFault
    case Got(abnum, n) =>
      if abnum == 0 then Null(off + n)
      else
        match Find(d.order, d.abbrev, cu.abbrevOffset, abnum)
        case SearchFault => EntryFault
        case Missing => Failed(DW_DLE_NO_ENTRY, die)
        case Found(ab) =>
          match FillAttrs(d, cu, off + n, Started(die, off, abnum, ab), ab.attrs, 0)
          case FillFault => EntryFault
          case BadForm(die') => Failed(DW_DLE_ATTR_FORM_BAD, die')
          case Filled(die', next) => Loaded(die'.(nextOff := next), next)
  }

  function Started(die: Die, off: nat, abnum: uint64, ab: Abbrev): Die {
    die.(offset := off, abnum := abnum, ab := ab, attrs := [], tag := ab.tag)
  }

  datatype Outcome = Undefined | Done(code: int, die: Die)

  /** The loop of `dwarf_search_die_within_cu` from a given offset and level. */
  function Scan(d: Sections, cu: CU, off: nat, level: nat, sibling: bool, die: Die): Outcome
    requires d.Valid()
    decreases |d.info| - off
  {
    if off < cu.nextOffset && off < d.infoSize then
      match ReadEntry(d, cu, off, die)
      case EntryFault => Undefined
      case Null(next) =>
        if level == 0 || !sibling then Done(DW_DLE_NO_ENTRY, die)
        else Scan(d, cu, next, level - 1, sibling, die)
      case Failed(code, die') => Done(code, die')
      case Loaded(die', next) =>
        if sibling && level > 0 then
          Scan(d, cu, next, if die'.ab.children == DW_CHILDREN_YES then level + 1 else level, sibling, die')
        else Done(DW_DLE_NONE, die')
    else Done(DW_DLE_NO_ENTRY, die)
  }

  /** First attribute with a given name. */
  function AttrIndex(attrs: seq<Attribute>, attr: uint64): (k: nat)
    ensures k <= |attrs| && forall j :: 0 <= j < k ==> attrs[j].attrib != attr
    ensures k < |attrs| ==> attrs[k].attrib == attr
  {
    if attrs == [] then 0
    else if attrs[0].attrib == attr then 0
    else
      var k := AttrIndex(attrs[1..], attr);
      assert forall j :: 1 <= j < k + 1 ==> attrs[j] == attrs[1..][j - 1];
      k + 1
  }

  /** The translation of result codes in `dwarf_siblingof` and `dwarf_child`. */
  function ToDlv(code: int): int {
    if code == DW_DLE_NO_ENTRY then DW_DLV_NO_ENTRY
    else if code != DW_DLE_NONE then DW_DLV_ERROR
    else DW_DLV_OK
  }

  function Translated(o: Outcome): Outcome {
    match o
    case Undefined => Undefined
    case Done(code, die) => Done(ToDlv(code), die)
  }

  /** The offset a DW_AT_sibling value designates, as the code reads it. */
  function SiblingTarget(a: Attribute, cu: CU): nat {
    if a.form != DW_FORM_REF_ADDR then a.u0 + cu.offset else a.u0
  }

  /** `dwarf_siblingof` for a given DIE. */
  function SiblingOutcome(d: Sections, cu: CU, die: Die, ret: Die): Outcome
    requires d.Valid()
  {
    var k := AttrIndex(die.attrs, DW_AT_SIBLING);
    if die.ab.children == DW_CHILDREN_NO then Translated(Scan(d, cu, die.nextOff, 1, false, ret))
    else if k < |die.attrs| then Translated(Scan(d, cu, SiblingTarget(die.attrs[k], cu), 1, false, ret))
    else Translated(Scan(d, cu, die.nextOff, 1, true, ret))
  }

  /** `dwarf_siblingof` without a DIE: the first DIE of the unit, with the code untranslated. */
  function OffDieOutcome(d: Sections, cu: CU, off: nat, ret: Die): Outcome
    requires d.Valid()
  {
    if off < cu.nextOffset then Scan(d, cu, off, 1, false, ret) else Done(DW_DLV_OK, ret)
  }

  /** `dwarf_child`: the code for a childless declaration differs from that for an empty list. */
  function ChildOutcome(d: Sections, cu: CU, die: Die, ret: Die): Outcome
    requires d.Valid()
  {
    if die.ab.children == DW_CHILDREN_NO then Done(DW_DLE_NO_ENTRY, ret)
    else Translated(Scan(d, cu, die.nextOff, 1, false, ret))
  }

  // ----- the routines -----

  /** `Dwarf_Die`, filled in place. */
  class DieBuffer {
    var offset: nat
    var nextOff: nat
    var abnum: uint64
    var tag: uint64
    var ab: Abbrev
    var name: nat
    var attrCount: nat
    const attrs: array<Attribute>

    ghost predicate Valid()
      reads this
    {
      attrs.Length == NATTRVAL && attrCount <= NATTRVAL
    }

    constructor ()
      ensures Valid() && fresh(attrs)
    {
      attrs := new Attribute[NATTRVAL](_ => Attribute(0, 0, false, 0, 0, 0, 0));
      offset, nextOff, abnum, tag, name, attrCount := 0, 0, 0, 0, 0, 0;
      ab := Abbrev(0, 0, 0, 0, 0, []);
    }

    function Snapshot(): Die
      requires Valid()
      reads this, attrs
    {
      Die(offset, nextOff, abnum, tag, ab, name, attrs[..attrCount])
    }

    /** Structure assignment. */
    method CopyFrom(other: DieBuffer)
      requires Valid() && other.Valid() && other != this && other.attrs != attrs
      modifies this, attrs
      ensures Valid() && Snapshot() == other.Snapshot()
    {
      offset, nextOff, abnum := other.offset, other.nextOff, other.abnum;
      tag, ab, name := other.tag, other.ab, other.name;
      attrCount := other.attrCount;
      forall i | 0 <= i < attrs.Length {
        attrs[i] := other.attrs[i];
      }
      assert attrs[..attrCount] == other.attrs[..attrCount];
    }

    /** Storing an attribute behind the others, and the name it may carry. */
    method Push(a: Attribute)
      requires Valid() && attrCount < NATTRVAL
      modifies this`name, this`attrCount, attrs
      ensures Valid() && attrCount == old(attrCount) + 1
      ensures Snapshot() == AddAttribute(old(Snapshot()), a)
    {
      if a.attrib == DW_AT_NAME {
        if a.form == DW_FORM_STRP {
          name := a.u1;
        } else if a.form == DW_FORM_STRING {
          name := a.u0;
        }
      }
      ghost var before := attrs[..attrCount];
      attrs[attrCount] := a;
      attrCount := attrCount + 1;
      assert attrs[..attrCount] == before + [a];
    }
  }

  /** `_dwarf_read_string`. */
  method ReadString(info: seq<byte>, size: nat, offset: nat) returns (next: nat)
    requires StringEnd(info, size, offset).Got?
    ensures StringEnd(info, size, offset).value == next
  {
    next := offset;
    while info[next] != 0 && next < size
      invariant offset <= next < |info|
      invariant StringEnd(info, size, next) == StringEnd(info, size, offset)
      decreases |info| - next
    {
      next := next + 1;
    }
    if info[next] == 0 && next < size {
      next := next + 1;
    }
  }

  /** The value words of one form. */
  method ReadWords(d: Sections, offset: nat, layout: Layout) returns (u0: nat, u1: nat, next: nat)
    requires offset <= |d.info| && !layout.Indirect? && !layout.Unknown?
    requires ReadValue(d, offset, layout).Got?
    ensures offset <= next && ReadValue(d, offset, layout) == Got((u0, u1), next - offset)
  {
    hide ReadFixed, Uleb, Sleb;
    u1 := 0;
    match layout {
      case Fixed(n) =>
        u0, next := ReadAt(d.order, d.info, offset, n);
      case Unsigned =>
        u0, next := ReadUleb128(d.info, offset);
      case Signed =>
        var v;
        v, next := ReadSleb128(d.info, offset);
        u0 := ToU64(v);
      case Block(n) =>
        u0, next := ReadAt(d.order, d.info, offset, n);
        u1, next := d.infoBase + next, next + u0;
      case BlockLeb =>
        u0, next := ReadUleb128(d.info, offset);
        u1, next := d.infoBase + next, next + u0;
      case Text =>
        u0 := d.infoBase + offset;
        next := ReadString(d.info, d.infoSize, offset);
      case TextOffset(n) =>
        u0, next := ReadAt(d.order, d.info, offset, n);
        u1 := d.strBase + u0;
      case Signature =>
        u0, u1, next := 8, d.infoBase + offset, offset + 8;
      case Present =>
        u0, next := 1, offset;
      case Nothing =>
        u0, next := 0, offset;
    }
  }

  /** `_dwarf_attr_init`. */
  method AttrInit(d: Sections, offset: nat, cu: CU, retDie: DieBuffer, ad: AttrDef, form: uint64, indirect: bool)
    returns (ret: int, next: nat)
    requires retDie.Valid() && retDie.attrCount < NATTRVAL
    requires offset <= |d.info|
    requires !InitAttr(d, cu, offset, retDie.Snapshot(), ad, form, indirect).FillFault?
    modifies retDie`name, retDie`attrCount, retDie.attrs
    ensures retDie.Valid()
    ensures match old(InitAttr(d, cu, offset, retDie.Snapshot(), ad, form, indirect))
      case Filled(die, n) => ret == DW_DLE_NONE && next == n && retDie.Snapshot() == die
      case BadForm(die) => ret == DW_DLE_ATTR_FORM_BAD && retDie.Snapshot() == die
      case FillFault => false
    decreases |d.info| - offset
  {
    hide ReadValue, Uleb, LayoutOf;
    var layout := LayoutOf(cu, form);
    ret, next := DW_DLE_ATTR_FORM_BAD, offset;
    if layout.Indirect? {
      var inner;
      inner, next := ReadUleb128(d.info, offset);
      ret, next := AttrInit(d, next, cu, retDie, ad, inner, true);
    } else if !layout.Unknown? {
      var u0, u1;
      u0, u1, next := ReadWords(d, offset, layout);
      retDie.Push(MakeAttribute(ad, form, indirect, u0, u1));
      ret := DW_DLE_NONE;
    }
  }

  /** The loop over the attribute definitions of a declaration. */
  method FillAll(d: Sections, offset: nat, cu: CU, retDie: DieBuffer, defs: seq<AttrDef>) returns (ret: int, next: nat)
    requires retDie.Valid() && retDie.attrCount == 0 && |defs| <= NATTRDEF
    requires offset <= |d.info|
    requires !FillAttrs(d, cu, offset, retDie.Snapshot(), defs, 0).FillFault?
    modifies retDie`name, retDie`attrCount, retDie.attrs
    ensures retDie.Valid()
    ensures match old(FillAttrs(d, cu, offset, retDie.Snapshot(), defs, 0))
      case Filled(die, n) => ret == DW_DLE_NONE && next == n && retDie.Snapshot() == die
      case BadForm(die) => ret == DW_DLE_ATTR_FORM_BAD && retDie.Snapshot() == die
      case FillFault => false
  {
    hide InitAttr;
    ghost var goal := FillAttrs(d, cu, offset, retDie.Snapshot(), defs, 0);
    next := offset;
    ret := DW_DLE_NONE;
    var i := 0;
    while i < |defs| && ret == DW_DLE_NONE
      invariant i <= |defs| && retDie.Valid() && retDie.attrCount <= i
      invariant ret == DW_DLE_NONE ==>
        next <= |d.info| && FillAttrs(d, cu, next, retDie.Snapshot(), defs, i) == goal
      invariant ret != DW_DLE_NONE ==> ret == DW_DLE_ATTR_FORM_BAD && goal == BadForm(retDie.Snapshot())
    {
      ret, next := AttrInit(d, next, cu, retDie, defs[i], defs[i].form, false);
      i := i + 1;
    }
  }

  /** One turn of the scan: the entry at `offset`. */
  method LoadEntry(d: Sections, offset: nat, cu: CU, retDie: DieBuffer) returns (ret: int, isNull: bool, next: nat)
    requires retDie.Valid() && offset <= |d.info|
    requires !ReadEntry(d, cu, offset, retDie.Snapshot()).EntryFault?
    modifies retDie, retDie.attrs
    ensures retDie.Valid()
    ensures match old(ReadEntry(d, cu, offset, retDie.Snapshot()))
      case Null(n) => ret == DW_DLE_NONE && isNull && next == n && retDie.Snapshot() == old(retDie.Snapshot())
      case Failed(code, die) => ret == code && !isNull && retDie.Snapshot() == die
      case Loaded(die, n) => ret == DW_DLE_NONE && !isNull && next == n && retDie.Snapshot() == die
      case EntryFault => false
  {
    hide Uleb, Find, FillAttrs;
    var abnum;
    abnum, next := ReadUleb128(d.info, offset);
    ret, isNull := DW_DLE_NONE, abnum == 0;
    if !isNull {
      var buffer := new AbbrevBuffer();
      ret := AbbrevFind(d.order, d.abbrev, cu.abbrevOffset, abnum, buffer);
      if ret == DW_DLE_NONE {
        var ab := buffer.Snapshot();
        retDie.offset, retDie.abnum, retDie.ab, retDie.attrCount, retDie.tag := offset, abnum, ab, 0, ab.tag;
        ret, next := FillAll(d, next, cu, retDie, ab.attrs);
        if ret == DW_DLE_NONE {
          retDie.nextOff := next;
        }
      }
    }
  }

  /** `dwarf_search_die_within_cu`. */
  method SearchDieWithinCu(d: Sections, cu: CU, start: nat, retDie: DieBuffer, searchSibling: bool) returns (ret: int)
    requires d.Valid() && retDie.Valid()
    requires Scan(d, cu, start, 1, searchSibling, retDie.Snapshot()).Done?
    modifies retDie, retDie.attrs
    ensures retDie.Valid()
    ensures old(Scan(d, cu, start, 1, searchSibling, retDie.Snapshot())) == Done(ret, retDie.Snapshot())
  {
    hide ReadEntry;
    var offset, level := start, 1;
    ghost var goal := Scan(d, cu, start, 1, searchSibling, retDie.Snapshot());
    while offset < cu.nextOffset && offset < d.infoSize
      invariant retDie.Valid() && level >= 0
      invariant Scan(d, cu, offset, level, searchSibling, retDie.Snapshot()) == goal
      decreases d.infoSize - offset
    {
      var isNull;
      ret, isNull, offset := LoadEntry(d, offset, cu, retDie);
      if ret != DW_DLE_NONE {
        return;
      }
      if isNull {
        if level == 0 || !searchSibling {
          return DW_DLE_NO_ENTRY;
        }
        level := level - 1;
      } else if searchSibling && level > 0 {
        if retDie.ab.children == DW_CHILDREN_YES {
          level := level + 1;
        }
      } else {
        return DW_DLE_NONE;
      }
    }
    ret := DW_DLE_NO_ENTRY;
  }

  /** `dwarf_offdie`. */
  method OffDie(d: Sections, offset: nat, retDie: DieBuffer, cu: CU) returns (ret: int)
    requires d.Valid() && retDie.Valid()
    requires OffDieOutcome(d, cu, offset, retDie.Snapshot()).Done?
    modifies retDie, retDie.attrs
    ensures retDie.Valid()
    ensures old(OffDieOutcome(d, cu, offset, retDie.Snapshot())) == Done(ret, retDie.Snapshot())
  {
    hide Scan;
    if offset < cu.nextOffset {
      ret := SearchDieWithinCu(d, cu, offset, retDie, false);
    } else {
      ret := DW_DLV_OK;
    }
  }

  /** `_dwarf_attr_find`: the index of the attribute, or -1 for NULL. */
  method AttrFind(die: DieBuffer, attr: uint64) returns (k: int)
    requires die.Valid()
    ensures k == if AttrIndex(die.Snapshot().attrs, attr) < die.attrCount
                 then AttrIndex(die.Snapshot().attrs, attr) else -1
  {
    ghost var all := die.Snapshot().attrs;
    k := 0;
    while k < die.attrCount
      invariant 0 <= k <= die.attrCount
      invariant forall j :: 0 <= j < k ==> all[j].attrib != attr
    {
      if die.attrs[k].attrib == attr {
        return;
      }
      k := k + 1;
    }
    k := -1;
  }

  /** `dwarf_siblingof`. */
  method SiblingOf(d: Sections, die: DieBuffer, retDie: DieBuffer, cu: CU) returns (ret: int)
    requires d.Valid() && die.Valid() && retDie.Valid() && die != retDie && die.attrs != retDie.attrs
    requires SiblingOutcome(d, cu, die.Snapshot(), retDie.Snapshot()).Done?
    modifies retDie, retDie.attrs
    ensures retDie.Valid()
    ensures old(SiblingOutcome(d, cu, die.Snapshot(), retDie.Snapshot())) == Done(ret, retDie.Snapshot())
  {
    hide Scan;
    var searchSibling := false;
    var offset := die.nextOff;
    if die.ab.children != DW_CHILDREN_NO {
      var at := AttrFind(die, DW_AT_SIBLING);
      if at >= 0 {
        var a := die.attrs[at];
        offset := if a.form != DW_FORM_REF_ADDR then a.u0 + cu.offset else a.u0;
      } else {
        searchSibling := true;
      }
    }
    ret := SearchDieWithinCu(d, cu, offset, retDie, searchSibling);
    ret := ToDlv(ret);
  }

  /** `dwarf_child`. */
  method Child(d: Sections, cu: CU, die: DieBuffer, retDie: DieBuffer) returns (ret: int)
    requires d.Valid() && die.Valid() && retDie.Valid() && die != retDie && die.attrs != retDie.attrs
    requires ChildOutcome(d, cu, die.Snapshot(), retDie.Snapshot()).Done?
    modifies retDie, retDie.attrs
    ensures retDie.Valid()
    ensures old(ChildOutcome(d, cu, die.Snapshot(), retDie.Snapshot())) == Done(ret, retDie.Snapshot())
  {
    hide Scan;
    if die.ab.children == DW_CHILDREN_NO {
      return DW_DLE_NO_ENTRY;
    }
    ret := SearchDieWithinCu(d, cu, die.nextOff, retDie, false);
    ret := ToDlv(ret);
  }
}
