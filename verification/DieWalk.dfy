/** Walking an encoded tree: the level counter finds structural siblings, the DW_AT_sibling
    shortcut agrees with it, and every entry of a unit is reached from its parent and its elder. */
module DieWalk {
  import opened Machine
  import opened Leb128
  import opened AbbrevTable
  import opened DieReader
  import opened DieTree
  import opened DieValues

  ghost predicate ValidTree(u: Unit, t: Tree) {
    && ValidHead(u, t)
    && (AbOf(u, t.code).children == 0 ==> t.kids == [])
    && ValidForest(u, t.kids)
  }

  ghost predicate ValidForest(u: Unit, ts: seq<Tree>) {
    ts == [] || (ValidTree(u, ts[0]) && ValidForest(u, ts[1..]))
  }

  /** Section 2.3: an entry with children (1, section 7.5.3) is followed by them and a null entry. */
  function EncodeTree(u: Unit, t: Tree): (e: seq<byte>)
    requires ValidTree(u, t)
    ensures |e| > 0
    decreases t, 0
  {
    EncodeHead(u, t) + (if AbOf(u, t.code).children == 1 then EncodeForest(u, t.kids) + [0] else [])
  }

  function EncodeForest(u: Unit, ts: seq<Tree>): seq<byte>
    requires ValidForest(u, ts)
    decreases ts, 1
  {
    if ts == [] then [] else EncodeTree(u, ts[0]) + EncodeForest(u, ts[1..])
  }

  /** The contents of the entry buffer after a preorder pass over `t` at `off`. */
  function AfterTree(u: Unit, t: Tree, off: nat, prev: Die): Die
    requires ValidTree(u, t)
    decreases t, 0
  {
    AfterForest(u, t.kids, off + |EncodeHead(u, t)|, HeadDie(u, t, off, prev.name))
  }

  function AfterForest(u: Unit, ts: seq<Tree>, off: nat, prev: Die): Die
    requires ValidForest(u, ts)
    decreases ts, 1
  {
    if ts == [] then prev
    else AfterForest(u, ts[1..], off + |EncodeTree(u, ts[0])|, AfterTree(u, ts[0], off, prev))
  }

  lemma NullEntry(u: Unit, off: nat, prev: Die)
    requires u.Holds(off, [0])
    ensures off < |u.d.info| && ReadEntry(u.d, u.cu, off, prev) == Null(off + 1)
  {
    HoldsPrefix(u, off, [0]);
    ZeroCode();
    UlebAt(0, [], u.d.info[off..]);
  }

  lemma ScanNull(u: Unit, off: nat, level: nat, prev: Die, next: nat)
    requires off < u.cu.nextOffset && off < u.d.infoSize && u.d.Valid() && level > 0
    requires ReadEntry(u.d, u.cu, off, prev) == Null(next)
    ensures Scan(u.d, u.cu, off, level, true, prev) == Scan(u.d, u.cu, next, level - 1, true, prev)
  {
    hide ReadEntry;
  }

  lemma ScanLoaded(u: Unit, off: nat, level: nat, prev: Die, die: Die, next: nat)
    requires off < u.cu.nextOffset && off < u.d.infoSize && u.d.Valid() && level > 0
    requires ReadEntry(u.d, u.cu, off, prev) == Loaded(die, next)
    ensures Scan(u.d, u.cu, off, level, true, prev)
         == Scan(u.d, u.cu, next, if die.ab.children == DW_CHILDREN_YES then level + 1 else level, true, die)
  {
    hide ReadEntry;
  }

  lemma HoldsHere(u: Unit, off: nat, e: seq<byte>)
    requires u.Holds(off, e) && e != []
    ensures off < u.cu.nextOffset && off < u.d.infoSize
  {
  }

  /** A scan at level 1 or deeper passes over a whole subtree and comes back to the same level. */
  lemma {:induction false} ScanSkipsTree(u: Unit, t: Tree, off: nat, level: nat, prev: Die)
    requires ValidTree(u, t) && 2 <= u.cu.version && level > 0
    requires u.Holds(off, EncodeTree(u, t))
    ensures Scan(u.d, u.cu, off, level, true, prev)
         == Scan(u.d, u.cu, off + |EncodeTree(u, t)|, level, true, AfterTree(u, t, off, prev))
    decreases t, 0
  {
    hide ReadEntry, EncodeHead, HeadDie, ValidValues, Scan, Unit.Holds, ListAt, EncodeTree, EncodeForest;
    var head, kids := |EncodeHead(u, t)|, EncodeForest(u, t.kids);
    var die := HeadDie(u, t, off, prev.name);
    HoldsHere(u, off, EncodeTree(u, t));
    TreeParts(u, t, off);
    ReadUndoesEncode(u, t, off, prev);
    ScanLoaded(u, off, level, prev, die, off + head);
    if AbOf(u, t.code).children == DW_CHILDREN_YES {
      ListBody(u, t.kids, off + head);
      ScanSkipsForest(u, t.kids, off + head, level + 1, die);
      var end, last := off + head + |kids|, AfterForest(u, t.kids, off + head, die);
      HoldsHere(u, end, [0]);
      NullEntry(u, end, last);
      ScanNull(u, end, level + 1, last, end + 1);
    }
  }

  lemma {:induction false} ScanSkipsForest(u: Unit, ts: seq<Tree>, off: nat, level: nat, prev: Die)
    requires ValidForest(u, ts) && 2 <= u.cu.version && level > 0
    requires u.Holds(off, EncodeForest(u, ts))
    ensures Scan(u.d, u.cu, off, level, true, prev)
         == Scan(u.d, u.cu, off + |EncodeForest(u, ts)|, level, true, AfterForest(u, ts, off, prev))
    decreases ts, 1
  {
    hide ReadEntry, EncodeHead, HeadDie, ValidHead, AfterTree, ValidTree, Scan;
    if ts != [] {
      var e := EncodeTree(u, ts[0]);
      HoldsSplit(u, off, e, EncodeForest(u, ts[1..]));
      ScanSkipsTree(u, ts[0], off, level, prev);
      ScanSkipsForest(u, ts[1..], off + |e|, level, AfterTree(u, ts[0], off, prev));
    }
  }

  // ----- siblings and children -----

  /** A list of siblings at `off`, closed by its null entry. */
  ghost predicate ListAt(u: Unit, ts: seq<Tree>, off: nat) {
    ValidForest(u, ts) && u.Holds(off, EncodeForest(u, ts) + [0])
  }

  lemma ListParts(u: Unit, ts: seq<Tree>, off: nat)
    requires ListAt(u, ts, off) && ts != []
    ensures ValidTree(u, ts[0]) && u.Holds(off, EncodeTree(u, ts[0]))
    ensures ListAt(u, ts[1..], off + |EncodeTree(u, ts[0])|)
  {
    var e, r := EncodeTree(u, ts[0]), EncodeForest(u, ts[1..]);
    assert EncodeForest(u, ts) + [0] == e + (r + [0]);
    HoldsSplit(u, off, e, r + [0]);
  }

  lemma TreeParts(u: Unit, t: Tree, off: nat)
    requires ValidTree(u, t) && u.Holds(off, EncodeTree(u, t))
    ensures u.Holds(off, EncodeHead(u, t))
    ensures AbOf(u, t.code).children == DW_CHILDREN_YES ==> ListAt(u, t.kids, off + |EncodeHead(u, t)|)
    ensures AbOf(u, t.code).children == DW_CHILDREN_YES ==>
      |EncodeTree(u, t)| == |EncodeHead(u, t)| + |EncodeForest(u, t.kids)| + 1
    ensures AbOf(u, t.code).children == DW_CHILDREN_NO ==> |EncodeTree(u, t)| == |EncodeHead(u, t)|
  {
    hide EncodeHead, ValidValues;
    if AbOf(u, t.code).children == DW_CHILDREN_YES {
      HoldsSplit(u, off, EncodeHead(u, t), EncodeForest(u, t.kids) + [0]);
    } else {
      assert EncodeTree(u, t) == EncodeHead(u, t);
    }
  }

  /** The first entry of a list, read at `off`. */
  function FirstDie(u: Unit, ts: seq<Tree>, off: nat, name: nat): Die
    requires ValidForest(u, ts) && ts != []
  {
    assert ValidTree(u, ts[0]);
    HeadDie(u, ts[0], off, name)
  }

  /** The scan at level 0, or without looking for siblings, stops at the first entry of a list. */
  lemma FirstOfList(u: Unit, ts: seq<Tree>, off: nat, level: nat, sibling: bool, prev: Die)
    requires ListAt(u, ts, off) && 2 <= u.cu.version && (level == 0 || !sibling)
    ensures Scan(u.d, u.cu, off, level, sibling, prev)
         == if ts == [] then Done(DW_DLE_NO_ENTRY, prev) else Done(DW_DLE_NONE, FirstDie(u, ts, off, prev.name))
  {
    hide ReadEntry, EncodeHead, HeadDie, EncodeTree;
    if ts == [] {
      assert EncodeForest(u, ts) + [0] == [0];
      NullEntry(u, off, prev);
    } else {
      ListParts(u, ts, off);
      TreeParts(u, ts[0], off);
      ReadUndoesEncode(u, ts[0], off, prev);
    }
  }

  /** ref_addr, ref1, ref2, ref4, ref8 and ref_udata. */
  predicate ReferenceForm(form: uint64) {
    0x10 <= form <= 0x15
  }

  /** Section 7.5.4: a reference is relative to its unit, except in the form ref_addr, and the form may be
      reached through indirections. */
  ghost predicate Designates(cu: CU, form: uint64, v: Value, target: nat) {
    && ReferenceForm(FinalForm(form, v)) && Innermost(v).Number?
    && target == Innermost(v).n + (if FinalForm(form, v) == 0x10 then 0 else cu.offset)
  }

  /** The code looks at the form of the definition only: it adds the offset of the unit to a ref_addr that is
      reached through an indirection. */
  ghost predicate Followed(cu: CU, form: uint64, v: Value) {
    v.Redirect? && FinalForm(form, v) == 0x10 ==> cu.offset == 0
  }

  /** DW_AT_sibling (0x01), where present, designates the end of the entry and its descendants. */
  ghost predicate DesignatesEnd(u: Unit, t: Tree, off: nat)
    requires ValidTree(u, t)
  {
    forall i :: 0 <= i < |t.values| && AbOf(u, t.code).attrs[i].attrib == 0x01 ==>
      Designates(u.cu, AbOf(u, t.code).attrs[i].form, t.values[i], off + |EncodeTree(u, t)|)
  }

  ghost predicate AllFollowed(u: Unit, t: Tree)
    requires ValidTree(u, t)
  {
    forall i :: 0 <= i < |t.values| && AbOf(u, t.code).attrs[i].attrib == DW_AT_SIBLING ==>
      Followed(u.cu, AbOf(u, t.code).attrs[i].form, t.values[i])
  }

  /** It does, in a form that the code follows there. */
  ghost predicate CorrectShortcut(u: Unit, t: Tree, off: nat)
    requires ValidTree(u, t)
  {
    DesignatesEnd(u, t, off) && AllFollowed(u, t)
  }

  ghost predicate HasShortcut(u: Unit, t: Tree)
    requires ValidHead(u, t)
  {
    exists i :: 0 <= i < |t.values| && AbOf(u, t.code).attrs[i].attrib == DW_AT_SIBLING
  }

  /** The target of a DW_AT_sibling that designates the end of its entry is read right exactly when it is no
      ref_addr reached through an indirection, or its unit is at the start of the section. */
  lemma TargetExact(u: Unit, t: Tree, off: nat, name: nat, k: nat)
    requires ValidTree(u, t) && DesignatesEnd(u, t, off)
    requires k < |t.values| && AbOf(u, t.code).attrs[k].attrib == DW_AT_SIBLING
    ensures SiblingTarget(HeadDie(u, t, off, name).attrs[k], u.cu) == off + |EncodeTree(u, t)|
       <==> Followed(u.cu, AbOf(u, t.code).attrs[k].form, t.values[k])
  {
    hide HeadDie, EncodeTree, EncodeHead, ValidForest, Lookup, Innermost;
    HeadAttrAt(u, t, off, name, k);
    IndirectOnly(u, AbOf(u, t.code).attrs[k].form, t.values[k]);
    assert Designates(u.cu, AbOf(u, t.code).attrs[k].form, t.values[k], off + |EncodeTree(u, t)|);
  }

  lemma IndirectOnly(u: Unit, form: uint64, v: Value)
    requires ValidAttr(u, form, v)
    ensures v.Redirect? ==> form == DW_FORM_INDIRECT
    ensures !v.Redirect? ==> FinalForm(form, v) == form
  {
  }

  lemma ShortcutTarget(u: Unit, t: Tree, off: nat, name: nat)
    requires ValidTree(u, t) && CorrectShortcut(u, t, off)
    ensures var die := HeadDie(u, t, off, name);
      var k := AttrIndex(die.attrs, DW_AT_SIBLING);
      && (k < |die.attrs| <==> HasShortcut(u, t))
      && (k < |die.attrs| ==> SiblingTarget(die.attrs[k], u.cu) == off + |EncodeTree(u, t)|)
  {
    hide HeadDie, EncodeTree, EncodeHead, ValidForest, ValidValues, AttrIndex, SiblingTarget, Followed, Designates;
    var die := HeadDie(u, t, off, name);
    forall i | 0 <= i < |t.values|
      ensures die.attrs[i].attrib == AbOf(u, t.code).attrs[i].attrib
    {
      HeadAttrAt(u, t, off, name, i);
    }
    var k := AttrIndex(die.attrs, DW_AT_SIBLING);
    if k < |die.attrs| {
      TargetExact(u, t, off, name, k);
    }
  }

  /** What the entry buffer holds after the descendants of `t` were scanned over, if they were. */
  ghost function Residue(u: Unit, t: Tree, off: nat, ret: Die): Die
    requires ValidTree(u, t)
  {
    if AbOf(u, t.code).children == DW_CHILDREN_YES && !HasShortcut(u, t)
    then AfterForest(u, t.kids, off + |EncodeHead(u, t)|, ret) else ret
  }

  /** `dwarf_siblingof` on the entry `t` lying at `off` finds `rest[0]`, or nothing if `t` is last. */
  ghost predicate SiblingStep(u: Unit, t: Tree, off: nat, rest: seq<Tree>)
    requires ValidTree(u, t) && ValidForest(u, rest) && u.d.Valid()
  {
    forall name: nat, ret: Die ::
      SiblingOutcome(u.d, u.cu, HeadDie(u, t, off, name), ret)
      == var carried := Residue(u, t, off, ret);
         if rest == [] then Done(DW_DLV_NO_ENTRY, carried)
         else Done(DW_DLV_OK, FirstDie(u, rest, off + |EncodeTree(u, t)|, carried.name))
  }

  /** `dwarf_child` finds the first child; a list flagged but empty and an unflagged entry are told
      apart only by the code. */
  ghost predicate ChildStep(u: Unit, t: Tree, off: nat)
    requires ValidTree(u, t) && u.d.Valid()
  {
    forall name: nat, ret: Die ::
      ChildOutcome(u.d, u.cu, HeadDie(u, t, off, name), ret)
      == if AbOf(u, t.code).children == DW_CHILDREN_NO then Done(DW_DLE_NO_ENTRY, ret)
         else if t.kids == [] then Done(DW_DLV_NO_ENTRY, ret)
         else Done(DW_DLV_OK, FirstDie(u, t.kids, off + |EncodeHead(u, t)|, ret.name))
  }

  /** The level scan past a list of descendants ends at the next entry of the outer list. */
  lemma ScanFindsSibling(u: Unit, t: Tree, off: nat, rest: seq<Tree>, ret: Die)
    requires ValidTree(u, t) && u.Holds(off, EncodeTree(u, t)) && 2 <= u.cu.version
    requires ListAt(u, rest, off + |EncodeTree(u, t)|)
    requires AbOf(u, t.code).children == DW_CHILDREN_YES
    ensures Scan(u.d, u.cu, off + |EncodeHead(u, t)|, 1, true, ret)
         == var carried := AfterForest(u, t.kids, off + |EncodeHead(u, t)|, ret);
            if rest == [] then Done(DW_DLE_NO_ENTRY, carried)
            else Done(DW_DLE_NONE, FirstDie(u, rest, off + |EncodeTree(u, t)|, carried.name))
  {
    hide ReadEntry, EncodeHead, FirstDie, EncodeTree, AfterForest, EncodeForest, ValidForest, ValidValues;
    TreeParts(u, t, off);
    var o := off + |EncodeHead(u, t)|;
    ListBody(u, t.kids, o);
    ScanSkipsForest(u, t.kids, o, 1, ret);
    var carried := AfterForest(u, t.kids, o, ret);
    NullEntry(u, o + |EncodeForest(u, t.kids)|, carried);
    FirstOfList(u, rest, off + |EncodeTree(u, t)|, 0, true, carried);
  }

  lemma ListBody(u: Unit, ts: seq<Tree>, off: nat)
    requires ListAt(u, ts, off)
    ensures u.Holds(off, EncodeForest(u, ts)) && u.Holds(off + |EncodeForest(u, ts)|, [0])
  {
    HoldsSplit(u, off, EncodeForest(u, ts), [0]);
  }

  /** The level counter and the shortcut both find the structural sibling. */
  lemma SiblingIsNext(u: Unit, ts: seq<Tree>, off: nat)
    requires u.d.Valid() && 2 <= u.cu.version
    requires ListAt(u, ts, off) && ts != [] && ValidTree(u, ts[0]) && CorrectShortcut(u, ts[0], off)
    ensures ValidForest(u, ts[1..]) && SiblingStep(u, ts[0], off, ts[1..])
  {
    hide Scan, HeadDie, FirstDie, EncodeHead, EncodeTree, CorrectShortcut, ValidForest, AfterForest, HasShortcut;
    var t, rest := ts[0], ts[1..];
    ListParts(u, ts, off);
    TreeParts(u, t, off);
    var end := off + |EncodeTree(u, t)|;
    forall name: nat, ret: Die
      ensures SiblingOutcome(u.d, u.cu, HeadDie(u, t, off, name), ret)
           == var carried := Residue(u, t, off, ret);
              if rest == [] then Done(DW_DLV_NO_ENTRY, carried)
              else Done(DW_DLV_OK, FirstDie(u, rest, end, carried.name))
    {
      ShortcutTarget(u, t, off, name);
      FirstOfList(u, rest, end, 1, false, ret);
      if AbOf(u, t.code).children == DW_CHILDREN_YES {
        ScanFindsSibling(u, t, off, rest, ret);
      }
    }
  }

  lemma ChildIsFirst(u: Unit, t: Tree, off: nat)
    requires u.d.Valid() && 2 <= u.cu.version
    requires ValidTree(u, t) && u.Holds(off, EncodeTree(u, t))
    ensures ChildStep(u, t, off)
  {
    hide Scan, HeadDie, FirstDie, EncodeHead, EncodeTree;
    TreeParts(u, t, off);
    var o := off + |EncodeHead(u, t)|;
    forall name: nat, ret: Die
      ensures ChildOutcome(u.d, u.cu, HeadDie(u, t, off, name), ret)
           == if AbOf(u, t.code).children == DW_CHILDREN_NO then Done(DW_DLE_NO_ENTRY, ret)
              else if t.kids == [] then Done(DW_DLV_NO_ENTRY, ret)
              else Done(DW_DLV_OK, FirstDie(u, t.kids, o, ret.name))
    {
      if AbOf(u, t.code).children == DW_CHILDREN_YES {
        FirstOfList(u, t.kids, o, 1, false, ret);
      }
    }
  }

  // ----- the whole tree -----

  /** Every shortcut in the list and below is correct. */
  ghost predicate CorrectShortcuts(u: Unit, ts: seq<Tree>, off: nat)
    requires ValidForest(u, ts)
    decreases ts
  {
    ts == [] || (
      && CorrectShortcut(u, ts[0], off)
      && CorrectShortcuts(u, ts[0].kids, off + |EncodeHead(u, ts[0])|)
      && CorrectShortcuts(u, ts[1..], off + |EncodeTree(u, ts[0])|))
  }

  /** At every entry of the list and below, the two steps of the reader are those of the tree. */
  ghost predicate Navigable(u: Unit, ts: seq<Tree>, off: nat)
    requires ValidForest(u, ts) && u.d.Valid()
    decreases ts
  {
    ts == [] || (
      && ValidTree(u, ts[0])
      && SiblingStep(u, ts[0], off, ts[1..])
      && ChildStep(u, ts[0], off)
      && Navigable(u, ts[0].kids, off + |EncodeHead(u, ts[0])|)
      && Navigable(u, ts[1..], off + |EncodeTree(u, ts[0])|))
  }

  /** For every well-formed list of entries, at every entry of it and of its descendants,
      `dwarf_siblingof` and `dwarf_child` step to the structural sibling and to the first child. */
  lemma {:induction false} WalkIsTree(u: Unit, ts: seq<Tree>, off: nat)
    requires u.d.Valid() && 2 <= u.cu.version
    requires ListAt(u, ts, off) && CorrectShortcuts(u, ts, off)
    ensures Navigable(u, ts, off)
    decreases ts
  {
    hide SiblingStep, ChildStep, EncodeHead, EncodeTree, CorrectShortcut;
    if ts != [] {
      var t := ts[0];
      ListParts(u, ts, off);
      TreeParts(u, t, off);
      SiblingIsNext(u, ts, off);
      ChildIsFirst(u, t, off);
      WalkIsTree(u, ts[1..], off + |EncodeTree(u, t)|);
      if t.kids != [] {
        WalkIsTree(u, t.kids, off + |EncodeHead(u, t)|);
      }
    }
  }

  lemma {:induction false} ValuesIgnoreName(u: Unit, off: nat, die: Die, n: nat, defs: seq<AttrDef>, vs: seq<Value>)
    requires |defs| == |vs|
    ensures WithValues(u, off, die, defs, vs).(name := 0) == WithValues(u, off, die.(name := n), defs, vs).(name := 0)
    decreases |vs|
  {
    hide EncodeAttr, ExpectAttr;
    if vs != [] {
      var a := ExpectAttr(u, off, defs[0], defs[0].form, false, vs[0]);
      var d1, d2 := AddAttribute(die, a), AddAttribute(die.(name := n), a);
      assert d2 == d1.(name := d2.name);
      ValuesIgnoreName(u, off + |EncodeAttr(u, defs[0].form, vs[0])|, d1, d2.name, defs[1..], vs[1..]);
    }
  }

  lemma HeadIgnoresName(u: Unit, t: Tree, off: nat, n: nat, m: nat)
    requires ValidHead(u, t)
    ensures HeadDie(u, t, off, n).(name := 0) == HeadDie(u, t, off, m).(name := 0)
  {
    hide WithValues, EncodeHead;
    var blank := Die(off, 0, t.code, AbOf(u, t.code).tag, AbOf(u, t.code), n, []);
    ValuesIgnoreName(u, off + |EncodeUleb(t.code)|, blank, m, AbOf(u, t.code).attrs, t.values);
  }

  /** The shortcut refines the scan: with a correct DW_AT_sibling, the jump and the level scan from
      the end of the entry both report nothing, or both the same entry up to a stale name. */
  lemma ShortcutRefinesScan(u: Unit, ts: seq<Tree>, off: nat, name: nat, ret: Die)
    requires u.d.Valid() && 2 <= u.cu.version
    requires ListAt(u, ts, off) && ts != [] && ValidTree(u, ts[0]) && CorrectShortcut(u, ts[0], off)
    requires HasShortcut(u, ts[0]) && AbOf(u, ts[0].code).children == DW_CHILDREN_YES
    ensures var die := HeadDie(u, ts[0], off, name);
      var jump := SiblingOutcome(u.d, u.cu, die, ret);
      var scan := Translated(Scan(u.d, u.cu, die.nextOff, 1, true, ret));
      && jump.Done? && scan.Done? && jump.code == scan.code
      && (jump.code == DW_DLV_OK ==> jump.die.(name := 0) == scan.die.(name := 0))
  {
    hide Scan, HeadDie, FirstDie, EncodeHead, EncodeTree, CorrectShortcut, ValidForest, AfterForest, SiblingOutcome;
    SiblingIsNext(u, ts, off);
    ListParts(u, ts, off);
    ScanFindsSibling(u, ts[0], off, ts[1..], ret);
    SiblingAt(u, ts[0], off, ts[1..], name, ret);
    if ts[1..] != [] {
      var carried := AfterForest(u, ts[0].kids, off + |EncodeHead(u, ts[0])|, ret);
      FirstIgnoresName(u, ts[1..], off + |EncodeTree(u, ts[0])|, ret.name, carried.name);
    }
  }

  lemma SiblingAt(u: Unit, t: Tree, off: nat, rest: seq<Tree>, name: nat, ret: Die)
    requires ValidTree(u, t) && ValidForest(u, rest) && u.d.Valid() && SiblingStep(u, t, off, rest)
    ensures SiblingOutcome(u.d, u.cu, HeadDie(u, t, off, name), ret)
         == var carried := Residue(u, t, off, ret);
            if rest == [] then Done(DW_DLV_NO_ENTRY, carried)
            else Done(DW_DLV_OK, FirstDie(u, rest, off + |EncodeTree(u, t)|, carried.name))
  {
    hide SiblingOutcome, HeadDie, FirstDie, EncodeTree, Residue, ValidForest, ValidTree, Unit.Ready;
  }

  lemma FirstIgnoresName(u: Unit, ts: seq<Tree>, off: nat, n: nat, m: nat)
    requires ValidForest(u, ts) && ts != []
    ensures FirstDie(u, ts, off, n).(name := 0) == FirstDie(u, ts, off, m).(name := 0)
  {
    hide HeadDie;
    assert ValidTree(u, ts[0]);
    HeadIgnoresName(u, ts[0], off, n, m);
  }
}
