/** The .debug_abbrev section: parsing one declaration in place, searching for a code, and the
    layout of section 7.5.3 of DWARF 4 that both undo. */
module AbbrevTable {
  import opened Machine
  import opened Leb128
  import opened FixedWidth

  const DW_DLE_NONE := 0
  const DW_DLE_NO_ENTRY := 4
  /** Capacity of `ab_attrdef`. */
  const NATTRDEF := 32

  const DW_CHILDREN_NO := 0
  const DW_CHILDREN_YES := 1

  datatype AttrDef = AttrDef(attrib: uint64, form: uint64, offset: nat)

  datatype Abbrev = Abbrev(entry: uint64, tag: uint64, children: uint64, offset: nat, length: nat, attrs: seq<AttrDef>)

  datatype Parsed = Last | Entry(ab: Abbrev)

  // ----- what the parser computes -----

  /** Attribute definitions up to the pair whose attribute is 0, with `count` of them read already.
      A 33rd definition would be written past the array. */
  function ParseDefs(sec: seq<byte>, off: nat, count: nat): (r: Read<seq<AttrDef>>)
    requires off <= |sec| && count <= NATTRDEF
    ensures r.Got? ==> off + r.size <= |sec| && count + |r.value| <= NATTRDEF
    decreases |sec| - off
  {
    match Uleb(sec[off..])
    case Fault => Fault
    case Got(attr, n) =>
      match Uleb(sec[off + n..])
      case Fault => Fault
      case Got(form, m) =>
        if attr == 0 then Got([], n + m)
        else if count >= NATTRDEF then Fault
        else
          match ParseDefs(sec, off + n + m, count + 1)
          case Fault => Fault
          case Got(defs, k) => Got([AttrDef(attr, form, off)] + defs, n + m + k)
  }

  function ParseAbbrev(order: Endian, sec: seq<byte>, off: nat): (r: Read<Parsed>)
    requires off <= |sec|
    ensures r.Got? ==> 0 < r.size && off + r.size <= |sec|
    ensures r.Got? && r.value.Entry? ==> r.value.ab.entry != 0 && |r.value.ab.attrs| <= NATTRDEF
  {
    match Uleb(sec[off..])
    case Fault => Fault
    case Got(entry, n) =>
      if entry == 0 then Got(Last, n)
      else
        match Uleb(sec[off + n..])
        case Fault => Fault
        case Got(tag, m) =>
          match ReadFixed(order, sec[off + n + m..], 1)
          case Fault => Fault
          case Got(children, one) =>
            match ParseDefs(sec, off + n + m + 1, 0)
            case Fault => Fault
            case Got(defs, k) =>
              Got(Entry(Abbrev(entry, tag, children, off, n + m + 1 + k, defs)), n + m + 1 + k)
  }

  datatype Search = SearchFault | Missing | Found(ab: Abbrev)

  /** The scan from `off` to the end of the section for a nonzero code. */
  function FindFrom(order: Endian, sec: seq<byte>, off: nat, code: uint64): Search
    decreases |sec| - off
  {
    if off >= |sec| then Missing
    else
      match ParseAbbrev(order, sec, off)
      case Fault => SearchFault
      case Got(Last, _) => Missing
      case Got(Entry(ab), n) => if ab.entry == code then Found(ab) else FindFrom(order, sec, off + n, code)
  }

  function Find(order: Endian, sec: seq<byte>, off: nat, code: uint64): Search {
    if code == 0 then Missing else FindFrom(order, sec, off, code)
  }

  // ----- the routines -----

  /** `Dwarf_Abbrev`, filled in place. */
  class AbbrevBuffer {
    var entry: uint64
    var tag: uint64
    var children: uint64
    var offset: nat
    var length: nat
    var atnum: nat
    const attrdef: array<AttrDef>

    ghost predicate Valid()
      reads this
    {
      attrdef.Length == NATTRDEF && atnum <= NATTRDEF
    }

    constructor ()
      ensures Valid() && fresh(attrdef)
    {
      attrdef := new AttrDef[NATTRDEF](_ => AttrDef(0, 0, 0));
      entry, tag, children, offset, length, atnum := 0, 0, 0, 0, 0, 0;
    }

    function Snapshot(): Abbrev
      requires Valid()
      reads this, attrdef
    {
      Abbrev(entry, tag, children, offset, length, attrdef[..atnum])
    }
  }

  lemma ParseDefsStep(sec: seq<byte>, off: nat, count: nat)
    requires off <= |sec| && count <= NATTRDEF && ParseDefs(sec, off, count).Got?
    ensures var a := Uleb(sec[off..]);
      a.Got? && off + a.size <= |sec|
      && var f := Uleb(sec[off + a.size..]);
      f.Got? && var n := a.size + f.size;
      && (a.value == 0 ==> ParseDefs(sec, off, count) == Got([], n))
      && (a.value != 0 ==> count < NATTRDEF && off + n <= |sec|)
      && (a.value != 0 ==>
        var rest := ParseDefs(sec, off + n, count + 1);
        rest.Got? && ParseDefs(sec, off, count) == Got([AttrDef(a.value, f.value, off)] + rest.value, n + rest.size))
  {
    hide Uleb;
  }

  /** The do-while loop over attribute definitions. */
  method ParseAttrDefs(sec: seq<byte>, offset: nat, abp: AbbrevBuffer) returns (next: nat)
    requires abp.Valid() && abp.atnum == 0
    requires offset <= |sec| && ParseDefs(sec, offset, 0).Got?
    modifies abp`atnum, abp.attrdef
    ensures abp.Valid() && offset <= next
    ensures ParseDefs(sec, offset, 0) == Got(abp.attrdef[..abp.atnum], next - offset)
  {
    hide Uleb, ParseDefs;
    next := offset;
    var attr: uint64 := 1;
    ghost var all := ParseDefs(sec, offset, 0);
    ghost var rest := all;
    while attr != 0
      invariant abp.Valid() && offset <= next <= |sec| && rest.Got?
      invariant all.value == abp.attrdef[..abp.atnum] + rest.value && all.size == next - offset + rest.size
      invariant rest == if attr != 0 then ParseDefs(sec, next, abp.atnum) else Got([], 0)
      decreases |sec| - next, attr != 0
    {
      ParseDefsStep(sec, next, abp.atnum);
      var adoff := next;
      ghost var before := abp.attrdef[..abp.atnum];
      var form;
      attr, next := ReadUleb128(sec, next);
      form, next := ReadUleb128(sec, next);
      rest := Got([], 0);
      if attr != 0 {
        abp.attrdef[abp.atnum] := AttrDef(attr, form, adoff);
        abp.atnum := abp.atnum + 1;
        assert abp.attrdef[..abp.atnum] == before + [AttrDef(attr, form, adoff)];
        rest := ParseDefs(sec, next, abp.atnum);
      }
    }
    assert abp.attrdef[..abp.atnum] + rest.value == abp.attrdef[..abp.atnum];
  }

  /** What the parser leaves in the buffer: the last entry of a table sets only `ab_entry`. */
  function Stored(before: Abbrev, p: Parsed): Abbrev {
    match p
    case Last => before.(entry := 0)
    case Entry(ab) => ab
  }

  /** The pieces an abbreviation is read from. */
  lemma ParseAbbrevStep(order: Endian, sec: seq<byte>, off: nat)
    returns (entry: uint64, n: nat, tag: uint64, m: nat, children: uint64, defs: seq<AttrDef>, k: nat)
    requires off <= |sec| && ParseAbbrev(order, sec, off).Got?
    ensures Uleb(sec[off..]) == Got(entry, n) && off + n <= |sec|
    ensures entry == 0 ==> ParseAbbrev(order, sec, off) == Got(Last, n)
    ensures entry != 0 ==> Uleb(sec[off + n..]) == Got(tag, m) && off + n + m + 1 <= |sec|
    ensures entry != 0 ==> ReadFixed(order, sec[off + n + m..], 1) == Got(children, 1)
    ensures entry != 0 ==> ParseDefs(sec, off + n + m + 1, 0) == Got(defs, k)
    ensures entry != 0 ==>
      ParseAbbrev(order, sec, off) == Got(Entry(Abbrev(entry, tag, children, off, n + m + 1 + k, defs)), n + m + 1 + k)
  {
    hide Uleb, ReadFixed, ParseDefs;
    entry, n := Uleb(sec[off..]).value, Uleb(sec[off..]).size;
    tag, m, children, defs, k := 0, 0, 0, [], 0;
    if entry != 0 {
      tag, m := Uleb(sec[off + n..]).value, Uleb(sec[off + n..]).size;
      OneByte(order, sec[off + n + m..]);
      children := ReadFixed(order, sec[off + n + m..], 1).value;
      defs, k := ParseDefs(sec, off + n + m + 1, 0).value, ParseDefs(sec, off + n + m + 1, 0).size;
    }
  }

  lemma OneByte(order: Endian, s: seq<byte>)
    ensures ReadFixed(order, s, 1).Got? ==> |s| >= 1
  {
  }

  /** `_dwarf_abbrev_parse` from its check of the section end on. */
  method ParseEntry(order: Endian, sec: seq<byte>, offset: nat, abp: AbbrevBuffer) returns (next: nat)
    requires abp.Valid()
    requires offset < |sec| && ParseAbbrev(order, sec, offset).Got?
    modifies abp, abp.attrdef
    ensures abp.Valid() && next == offset + ParseAbbrev(order, sec, offset).size
    ensures abp.Snapshot() == Stored(old(abp.Snapshot()), ParseAbbrev(order, sec, offset).value)
  {
    hide Uleb, ReadFixed, ParseDefs, ParseAbbrev;
    ghost var _, _, _, _, _, _, _ := ParseAbbrevStep(order, sec, offset);
    var entry, tag, children;
    entry, next := ReadUleb128(sec, offset);
    if entry == 0 {
      abp.entry := 0;
    } else {
      tag, next := ReadUleb128(sec, next);
      children, next := ReadAt(order, sec, next, 1);
      abp.entry, abp.tag, abp.children := entry, tag, children;
      abp.offset, abp.length, abp.atnum := offset, 0, 0;
      next := ParseAttrDefs(sec, next, abp);
      abp.length := next - offset;
    }
  }

  /** `_dwarf_abbrev_parse`. */
  method AbbrevParse(order: Endian, sec: seq<byte>, offset: nat, abp: AbbrevBuffer) returns (ret: int, next: nat)
    requires abp.Valid()
    requires offset < |sec| ==> ParseAbbrev(order, sec, offset).Got?
    modifies abp, abp.attrdef
    ensures abp.Valid()
    ensures offset >= |sec| ==> ret == DW_DLE_NO_ENTRY && next == offset && abp.Snapshot() == old(abp.Snapshot())
    ensures offset < |sec| ==> ret == DW_DLE_NONE && next == offset + ParseAbbrev(order, sec, offset).size
    ensures offset < |sec| ==> abp.Snapshot() == Stored(old(abp.Snapshot()), ParseAbbrev(order, sec, offset).value)
  {
    hide ParseAbbrev;
    if offset >= |sec| {
      return DW_DLE_NO_ENTRY, offset;
    }
    next := ParseEntry(order, sec, offset, abp);
    ret := DW_DLE_NONE;
  }

  /** `_dwarf_abbrev_find`, from the offset the unit header names. */
  method AbbrevFind(order: Endian, sec: seq<byte>, start: nat, code: uint64, abp: AbbrevBuffer) returns (ret: int)
    requires abp.Valid()
    requires !Find(order, sec, start, code).SearchFault?
    modifies abp, abp.attrdef
    ensures abp.Valid()
    ensures match Find(order, sec, start, code)
      case Found(ab) => ret == DW_DLE_NONE && abp.Snapshot() == ab
      case _ => ret == DW_DLE_NO_ENTRY
  {
    hide ParseAbbrev;
    if code == 0 {
      return DW_DLE_NO_ENTRY;
    }
    var offset := start;
    ghost var goal := FindFrom(order, sec, start, code);
    while offset < |sec|
      invariant abp.Valid()
      invariant FindFrom(order, sec, offset, code) == goal
      decreases |sec| - offset
    {
      ret, offset := AbbrevParse(order, sec, offset, abp);
      if ret != DW_DLE_NONE {
        return;
      }
      if abp.entry == code {
        return DW_DLE_NONE;
      }
      if abp.entry == 0 {
        return DW_DLE_NO_ENTRY;
      }
    }
    ret := DW_DLE_NO_ENTRY;
  }

  // ----- the layout of section 7.5.3, and the scan as first match -----

  datatype Decl = Decl(code: nat, tag: nat, children: byte, specs: seq<(nat, nat)>)

  ghost predicate ValidDecl(d: Decl) {
    && 0 < d.code < TWO_31 && d.tag < TWO_31 && |d.specs| <= NATTRDEF
    && forall i :: 0 <= i < |d.specs| ==> 0 < d.specs[i].0 < TWO_31 && d.specs[i].1 < TWO_31
  }

  ghost predicate ValidDecls(ds: seq<Decl>) {
    forall i :: 0 <= i < |ds| ==> ValidDecl(ds[i])
  }

  function EncodeSpecs(specs: seq<(nat, nat)>): (e: seq<byte>)
    ensures |e| >= 2
  {
    if specs == [] then [0, 0]
    else EncodeUleb(specs[0].0) + (EncodeUleb(specs[0].1) + EncodeSpecs(specs[1..]))
  }

  function EncodeDecl(d: Decl): (e: seq<byte>)
    ensures |e| > 0
  {
    EncodeUleb(d.code) + (EncodeUleb(d.tag) + ([d.children] + EncodeSpecs(d.specs)))
  }

  function EncodeTable(ds: seq<Decl>): (e: seq<byte>)
    ensures |e| > 0
  {
    if ds == [] then [0] else EncodeDecl(ds[0]) + EncodeTable(ds[1..])
  }

  /** Attribute definitions with the offsets at which they lie. */
  function PlacedSpecs(specs: seq<(nat, nat)>, off: nat): (defs: seq<AttrDef>)
    requires forall i :: 0 <= i < |specs| ==> specs[i].0 < TWO_31 && specs[i].1 < TWO_31
    ensures |defs| == |specs|
  {
    if specs == [] then []
    else [AttrDef(specs[0].0, specs[0].1, off)]
         + PlacedSpecs(specs[1..], off + |EncodeUleb(specs[0].0)| + |EncodeUleb(specs[0].1)|)
  }

  /** The declaration `d` read at `off`. */
  function Placed(d: Decl, off: nat): (ab: Abbrev)
    requires ValidDecl(d)
    ensures |ab.attrs| == |d.specs|
  {
    Abbrev(d.code, d.tag, d.children, off, |EncodeDecl(d)|,
           PlacedSpecs(d.specs, off + |EncodeUleb(d.code)| + |EncodeUleb(d.tag)| + 1))
  }

  lemma {:induction false} PlacedSpecsAt(specs: seq<(nat, nat)>, off: nat, i: nat)
    requires forall j :: 0 <= j < |specs| ==> specs[j].0 < TWO_31 && specs[j].1 < TWO_31
    requires i < |specs|
    ensures PlacedSpecs(specs, off)[i].attrib == specs[i].0 && PlacedSpecs(specs, off)[i].form == specs[i].1
  {
    if i > 0 {
      PlacedSpecsAt(specs[1..], off + |EncodeUleb(specs[0].0)| + |EncodeUleb(specs[0].1)|, i - 1);
    }
  }

  lemma UlebAt(v: nat, rest: seq<byte>, s: seq<byte>)
    requires v < TWO_31 && EncodeUleb(v) + rest <= s
    ensures Uleb(s) == Got(v, |EncodeUleb(v)|) && |EncodeUleb(v)| <= |s| && rest <= s[|EncodeUleb(v)|..]
  {
    hide Uleb, EncodeUleb;
    PrefixSplit(EncodeUleb(v), rest, s);
    UlebRoundTrip(v, s);
  }

  lemma DefsCons(sec: seq<byte>, off: nat, count: nat, a: uint64, f: uint64, n: nat, m: nat)
    requires off + n + m <= |sec| && a != 0 && count < NATTRDEF
    requires Uleb(sec[off..]) == Got(a, n) && Uleb(sec[off + n..]) == Got(f, m)
    requires ParseDefs(sec, off + n + m, count + 1).Got?
    ensures var r := ParseDefs(sec, off + n + m, count + 1);
      ParseDefs(sec, off, count) == Got([AttrDef(a, f, off)] + r.value, n + m + r.size)
  {
    hide Uleb;
  }

  lemma {:induction false} ParseSpecs(specs: seq<(nat, nat)>, sec: seq<byte>, off: nat, count: nat)
    requires forall i :: 0 <= i < |specs| ==> 0 < specs[i].0 < TWO_31 && specs[i].1 < TWO_31
    requires off <= |sec| && EncodeSpecs(specs) <= sec[off..]
    requires count + |specs| <= NATTRDEF
    ensures ParseDefs(sec, off, count) == Got(PlacedSpecs(specs, off), |EncodeSpecs(specs)|)
    decreases |specs|
  {
    hide Uleb, EncodeUleb;
    if specs == [] {
      assert EncodeUleb(0) == [0] by { ZeroCode(); }
      UlebAt(0, [0], sec[off..]);
      UlebAt(0, [], sec[off + 1..]);
    } else {
      hide ParseDefs;
      var a, f := specs[0].0, specs[0].1;
      var n, m := |EncodeUleb(a)|, |EncodeUleb(f)|;
      UlebAt(a, EncodeUleb(f) + EncodeSpecs(specs[1..]), sec[off..]);
      UlebAt(f, EncodeSpecs(specs[1..]), sec[off + n..]);
      assert sec[off + n..][m..] == sec[off + n + m..];
      ParseSpecs(specs[1..], sec, off + n + m, count + 1);
      DefsCons(sec, off, count, a, f, n, m);
    }
  }

  lemma ZeroCode()
    ensures EncodeUleb(0) == [0]
  {
  }

  /** Parsing undoes encoding, for every declaration of at most 32 attributes. */
  lemma ParseUndoesEncode(order: Endian, d: Decl, sec: seq<byte>, off: nat)
    requires ValidDecl(d) && off <= |sec| && EncodeDecl(d) <= sec[off..]
    ensures ParseAbbrev(order, sec, off) == Got(Entry(Placed(d, off)), |EncodeDecl(d)|)
  {
    hide Uleb, EncodeUleb, ReadFixed, ParseDefs, EncodeSpecs;
    var n, m := |EncodeUleb(d.code)|, |EncodeUleb(d.tag)|;
    var tail := [d.children] + EncodeSpecs(d.specs);
    UlebAt(d.code, EncodeUleb(d.tag) + tail, sec[off..]);
    UlebAt(d.tag, tail, sec[off + n..]);
    assert sec[off + n..][m..] == sec[off + n + m..];
    PrefixSplit([d.children], EncodeSpecs(d.specs), sec[off + n + m..]);
    ReadByte(order, sec[off + n + m..]);
    assert sec[off + n + m..][1..] == sec[off + n + m + 1..];
    ParseSpecs(d.specs, sec, off + n + m + 1, 0);
  }

  lemma ReadByte(order: Endian, s: seq<byte>)
    requires |s| > 0
    ensures ReadFixed(order, s, 1) == Got(s[0], 1)
  {
    assert s[..1] == [s[0]];
    UnfoldShort(s[..1]);
  }

  /** The declarations of a table with their offsets, searched front to back. */
  function Lookup(ds: seq<Decl>, off: nat, code: nat): Search
    requires ValidDecls(ds)
  {
    if ds == [] then Missing
    else if ds[0].code == code then Found(Placed(ds[0], off))
    else Lookup(ds[1..], off + |EncodeDecl(ds[0])|, code)
  }

  /** Lookup is the first match: found exactly when some declaration has the code, and then it is
      the one before which none has. */
  lemma {:induction false} LookupIsFirst(ds: seq<Decl>, off: nat, code: nat) returns (k: nat)
    requires ValidDecls(ds)
    ensures k <= |ds| && forall j :: 0 <= j < k ==> ds[j].code != code
    ensures k == |ds| <==> Lookup(ds, off, code) == Missing
    ensures k < |ds| ==> ds[k].code == code
    ensures k < |ds| ==> Lookup(ds, off, code) == Found(Placed(ds[k], off + |EncodeTable(ds[..k])| - 1))
  {
    hide EncodeDecl, Placed;
    if ds == [] {
      k := 0;
    } else if ds[0].code == code {
      k := 0;
      assert ds[..0] == [];
    } else {
      var k' := LookupIsFirst(ds[1..], off + |EncodeDecl(ds[0])|, code);
      k := k' + 1;
      assert forall j :: 1 <= j < k ==> ds[j] == ds[1..][j - 1];
      if k < |ds| {
        assert ds[..k][1..] == ds[1..][..k'] && ds[..k][0] == ds[0];
      }
    }
  }

  /** `_dwarf_abbrev_find` on an encoded table is the first-match lookup. */
  lemma {:induction false} FindIsLookup(order: Endian, ds: seq<Decl>, sec: seq<byte>, off: nat, code: uint64)
    requires ValidDecls(ds) && code != 0
    requires off <= |sec| && EncodeTable(ds) <= sec[off..]
    ensures Find(order, sec, off, code) == Lookup(ds, off, code)
    decreases |ds|
  {
    hide EncodeDecl, Placed, ParseAbbrev;
    if ds == [] {
      LastEntry(order, sec, off);
    } else {
      PrefixSplit(EncodeDecl(ds[0]), EncodeTable(ds[1..]), sec[off..]);
      ParseUndoesEncode(order, ds[0], sec, off);
      PlacedCode(ds[0], off);
      if ds[0].code != code {
        var n := |EncodeDecl(ds[0])|;
        assert sec[off..][n..] == sec[off + n..];
        FindIsLookup(order, ds[1..], sec, off + n, code);
      }
    }
  }

  lemma PlacedCode(d: Decl, off: nat)
    requires ValidDecl(d)
    ensures Placed(d, off).entry == d.code
  {
  }

  lemma LastEntry(order: Endian, sec: seq<byte>, off: nat)
    requires off <= |sec| && [0] <= sec[off..]
    ensures off < |sec| && ParseAbbrev(order, sec, off) == Got(Last, 1)
  {
    ZeroCode();
    UlebAt(0, [], sec[off..]);
  }
}
