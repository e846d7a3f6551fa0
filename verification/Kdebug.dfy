/** `debuginfo_rip`: the loops over compilation units and over their top-level entries. */
module Kdebug {
  import opened Machine
  import opened FixedWidth
  import opened AbbrevTable
  import opened DieReader
  import opened DieTree
  import opened DieValues
  import opened DieWalk
  import opened CompUnits
  import opened SourceLine

  /** `Ripdebuginfo` but for the arguments: file, line, function name and address. */
  datatype RipInfo = RipInfo(file: nat, line: int, fnName: nat, fnAddr: nat)

  /** `list_func_die` up to the arguments; `lines` is .debug_line. */
  method ListFuncDie(d: Sections, cu: CU, lines: seq<byte>, die: DieBuffer, cuDie: DieBuffer, addr: uint64,
                     info: RipInfo)
    returns (found: bool, r: RipInfo)
    requires die.Valid() && cuDie.Valid()
    requires DieMatches(die.Snapshot(), addr) ==>
      LineFrom(d.order, cu.addrSize, lines, cuDie.Snapshot().attrs, addr).Line?
    ensures found ==> LineFrom(d.order, cu.addrSize, lines, cuDie.Snapshot().attrs, addr) == Line(r.line)
    ensures found == DieMatches(die.Snapshot(), addr)
    ensures found ==> r.file == cuDie.name && r.fnName == die.name
    ensures found ==> r.fnAddr == die.Snapshot().attrs[AttrIndex(die.Snapshot().attrs, DW_AT_LOW_PC)].u0
    ensures !found ==> r == info
  {
    found, r := false, info;
    if die.tag == DW_TAG_SUBPROGRAM {
      var low := AttrFind(die, DW_AT_LOW_PC);
      var high := AttrFind(die, DW_AT_HIGH_PC);
      if low >= 0 && die.attrs[low].u0 < addr && high >= 0 && die.attrs[high].u0 > addr {
        var line := SrcLines(d.order, cu.addrSize, lines, cuDie, addr);
        found, r := true, RipInfo(cuDie.name, line, die.name, die.attrs[low].u0);
      }
    }
  }

  /** The unit entry as it was read. */
  function RootDie(d: Sections, c: CompUnit, name: nat): Die
    requires ValidHead(UnitOf(d, c), c.root)
  {
    HeadDie(UnitOf(d, c), c.root, c.cu.dieOffset, name)
  }

  /** The line table of the unit, read under the header cu. */
  function LineAt(d: Sections, lines: seq<byte>, cu: CU, home: CompUnit, addr: uint64): LineNumber
    requires ValidHead(UnitOf(d, home), home.root)
  {
    LineFrom(d.order, cu.addrSize, lines, RootDie(d, home, 0).attrs, addr)
  }

  lemma RootAttrs(d: Sections, c: CompUnit, name: nat)
    requires ValidHead(UnitOf(d, c), c.root)
    ensures RootDie(d, c, name).attrs == RootDie(d, c, 0).attrs
  {
    hide HeadDie;
    HeadIgnoresName(UnitOf(d, c), c.root, c.cu.dieOffset, name, 0);
  }

  /** What the query reports about the entry that was found: its address, the strings encoded as its name and
      as the name of the unit whose entry was read last, and the line that unit's table answers with. */
  ghost predicate Reports(d: Sections, lines: seq<byte>, hit: Hit, home: CompUnit, addr: uint64, info: RipInfo)
    requires hit.Hit?
  {
    var u := UnitOf(d, hit.c);
    && ValidHead(u, hit.t) && HasPc(u, hit.t, 0x11) && info.fnAddr == Pc(u, hit.t, 0x11)
    && (exists before: nat :: NameRead(u, hit.t, before, info.fnName))
    && FileRead(d, home, info.file)
    && LineAt(d, lines, hit.c.cu, home, addr) == Line(info.line)
  }

  ghost predicate FileRead(d: Sections, home: CompUnit, name: nat) {
    ValidHead(UnitOf(d, home), home.root) && exists before: nat :: NameRead(UnitOf(d, home), home.root, before, name)
  }

  lemma ReportsHit(d: Sections, lines: seq<byte>, c: CompUnit, t: Tree, off: nat, name: nat, info: RipInfo,
                   home: CompUnit, addr: uint64)
    requires var u := UnitOf(d, c); ValidHead(u, t) && PlainPcs(u, t)
    requires UnitOf(d, c).Holds(off, EncodeHead(UnitOf(d, c), t))
    requires var die := HeadDie(UnitOf(d, c), t, off, name);
      && DieMatches(die, addr)
      && info.fnAddr == die.attrs[AttrIndex(die.attrs, DW_AT_LOW_PC)].u0
      && info.fnName == die.name
    requires FileRead(d, home, info.file) && LineAt(d, lines, c.cu, home, addr) == Line(info.line)
    ensures Reports(d, lines, Hit(c, t, off), home, addr, info)
  {
    hide HeadDie, EncodeHead, AttrIndex, PcIndex, ValidValues, Lookup, NameRead, FileRead, Pc, LineAt;
    PcFound(UnitOf(d, c), t, off, name, DW_AT_LOW_PC);
    NameIsString(UnitOf(d, c), t, off, name);
  }

  /** The buffer holds the entry of the unit. */
  ghost predicate HoldsRoot(d: Sections, c: CompUnit, cuDie: DieBuffer, name: nat)
    requires cuDie.Valid()
    reads cuDie, cuDie.attrs
  {
    ValidHead(UnitOf(d, c), c.root) && cuDie.Snapshot() == RootDie(d, c, name)
  }

  /** If anything is found, the line table of the unit can be read. */
  ghost predicate LineReady(d: Sections, lines: seq<byte>, hit: Hit, home: CompUnit, addr: uint64) {
    hit.Hit? && ValidHead(UnitOf(d, home), home.root) ==> LineAt(d, lines, hit.c.cu, home, addr).Line?
  }

  /** A nonempty list being walked: where it lies, and that its walk is well defined. */
  ghost predicate Walking(d: Sections, c: CompUnit, ts: seq<Tree>, off: nat) {
    var u := UnitOf(d, c);
    && d.Valid() && 2 <= c.cu.version && ts != []
    && ListAt(u, ts, off) && CorrectShortcuts(u, ts, off) && PlainList(u, ts)
  }

  lemma WalkingHead(d: Sections, c: CompUnit, ts: seq<Tree>, off: nat)
    requires Walking(d, c, ts, off)
    ensures var u := UnitOf(d, c);
      && ValidTree(u, ts[0]) && PlainPcs(u, ts[0]) && u.Holds(off, EncodeHead(u, ts[0]))
      && ValidForest(u, ts[1..]) && SiblingStep(u, ts[0], off, ts[1..])
      && (ts[1..] != [] ==> Walking(d, c, ts[1..], off + |EncodeTree(u, ts[0])|))
  {
    hide SiblingStep, EncodeTree, CorrectShortcut;
    ListParts(UnitOf(d, c), ts, off);
    TreeParts(UnitOf(d, c), ts[0], off);
    SiblingIsNext(UnitOf(d, c), ts, off);
  }

  /** What one step of the enumeration finds. */
  lemma NextFound(d: Sections, c: CompUnit, ts: seq<Tree>, off: nat, name: nat, ret: Die) returns (name': nat)
    requires Walking(d, c, ts, off)
    ensures var u := UnitOf(d, c);
      && ts != [] && d.Valid() && ValidForest(u, ts) && ValidTree(u, ts[0]) && ValidForest(u, ts[1..])
      && var next, at := SiblingOutcome(d, c.cu, FirstDie(u, ts, off, name), ret), off + |EncodeTree(u, ts[0])|;
      && next.Done? && (next.code < 0 <==> ts[1..] == [])
      && (ts[1..] != [] ==> next.die == FirstDie(u, ts[1..], at, name') && Walking(d, c, ts[1..], at))
  {
    hide SiblingStep, EncodeTree, HeadDie, SiblingOutcome, Residue, AbOf, PlainPcs, CorrectShortcuts;
    var u := UnitOf(d, c);
    WalkingHead(d, c, ts, off);
    SiblingAt(u, ts[0], off, ts[1..], name, ret);
    name' := Residue(u, ts[0], off, ret).name;
  }

  /** One step of the enumeration: the next entry of the list into `die2`. */
  method NextEntry(d: Sections, cu: CU, die: DieBuffer, die2: DieBuffer,
                   ghost c: CompUnit, ghost ts: seq<Tree>, ghost off: nat, ghost name: nat)
    returns (ret: int, ghost name': nat)
    requires Walking(d, c, ts, off) && cu == c.cu
    requires die.Valid() && die2.Valid() && die != die2 && die.attrs != die2.attrs
    requires die.Snapshot() == FirstDie(UnitOf(d, c), ts, off, name)
    modifies die2, die2.attrs
    ensures ts != [] && die2.Valid() && (ret < 0 <==> ts[1..] == [])
    ensures ts[1..] != [] ==> Walking(d, c, ts[1..], off + |EncodeTree(UnitOf(d, c), ts[0])|)
    ensures ret >= 0 ==>
      die2.Snapshot() == FirstDie(UnitOf(d, c), ts[1..], off + |EncodeTree(UnitOf(d, c), ts[0])|, name')
  {
    hide EncodeTree, FirstDie, SiblingOutcome, Walking, ValidForest, ValidTree, UnitOf;
    name' := NextFound(d, c, ts, off, name, die2.Snapshot());
    ret := SiblingOf(d, die, die2, cu);
  }

  lemma FirstOfWalk(d: Sections, c: CompUnit, ts: seq<Tree>, off: nat, addr: nat, name: nat)
    requires Walking(d, c, ts, off)
    ensures var u := UnitOf(d, c);
      && ts != [] && ValidTree(u, ts[0]) && PlainPcs(u, ts[0]) && u.Holds(off, EncodeHead(u, ts[0]))
      && FirstDie(u, ts, off, name) == HeadDie(u, ts[0], off, name)
      && ValidForest(u, ts[1..])
      && var rest := FirstInList(d, c, ts[1..], off + |EncodeTree(u, ts[0])|, addr);
         FirstInList(d, c, ts, off, addr)
         == if DieMatches(FirstDie(u, ts, off, name), addr) then Hit(c, ts[0], off) else rest
  {
    hide HeadDie, EncodeTree, FunctionAt, DieMatches, PlainPcs, CorrectShortcuts;
    WalkingHead(d, c, ts, off);
    MatchIsFunction(UnitOf(d, c), ts[0], off, name, addr);
  }

  /** The loop over the top-level entries, with the first of them in `die`. */
  method ScanList(d: Sections, cu: CU, lines: seq<byte>, addr: uint64, cuDie: DieBuffer, die: DieBuffer,
                  die2: DieBuffer, info: RipInfo, ghost c: CompUnit, ghost list: seq<Tree>, ghost at: nat,
                  ghost name: nat, ghost home: CompUnit, ghost rootName: nat)
    returns (found: bool, r: RipInfo)
    requires Walking(d, c, list, at) && cu == c.cu
    requires cuDie.Valid() && die.Valid() && die2.Valid()
    requires die != die2 && die != cuDie && die2 != cuDie
    requires die.attrs != die2.attrs && die.attrs != cuDie.attrs && die2.attrs != cuDie.attrs
    requires die.Snapshot() == FirstDie(UnitOf(d, c), list, at, name)
    requires FileRead(d, home, cuDie.name) && HoldsRoot(d, home, cuDie, rootName)
    requires LineReady(d, lines, FirstInList(d, c, list, at, addr), home, addr)
    modifies die, die.attrs, die2, die2.attrs
    ensures die.Valid() && die2.Valid()
    ensures found == FirstInList(d, c, list, at, addr).Hit?
    ensures found ==> Reports(d, lines, FirstInList(d, c, list, at, addr), home, addr, r)
    ensures !found ==> r == info
  {
    hide HeadDie, FirstDie, EncodeTree, EncodeHead, DieMatches, Reports, FirstInList, Walking, PlainPcs;
    hide ValidValues, NameRead, FileRead, LineFrom, RootDie;
    RootAttrs(d, home, rootName);
    ghost var u := UnitOf(d, c);
    ghost var ts: seq<Tree>, off: nat, nm: nat := list, at, name;
    WalkingForest(d, c, list, at);
    ghost var goal := FirstInList(d, c, list, at, addr);
    while true
      invariant die.Valid() && die2.Valid()
      invariant Walking(d, c, ts, off) && ValidForest(u, ts) && ts != []
      invariant die.Snapshot() == FirstDie(u, ts, off, nm)
      invariant FirstInList(d, c, ts, off, addr) == goal && HoldsRoot(d, home, cuDie, rootName)
      decreases |ts|
    {
      FirstOfWalk(d, c, ts, off, addr, nm);
      found, r := ListFuncDie(d, cu, lines, die, cuDie, addr, info);
      if found {
        ReportsHit(d, lines, c, ts[0], off, nm, r, home, addr);
        return;
      }
      var ret;
      ghost var nm';
      ret, nm' := NextEntry(d, cu, die, die2, c, ts, off, nm);
      if ret < 0 {
        LastOfList(d, c, ts[1..], off + |EncodeTree(u, ts[0])|, addr);
        return;
      }
      die.CopyFrom(die2);
      ts, off, nm := ts[1..], off + |EncodeTree(u, ts[0])|, nm';
    }
  }

  lemma WalkingForest(d: Sections, c: CompUnit, ts: seq<Tree>, off: nat)
    requires Walking(d, c, ts, off)
    ensures ts != [] && ValidForest(UnitOf(d, c), ts)
  {
  }

  lemma LastOfList(d: Sections, c: CompUnit, ts: seq<Tree>, off: nat, addr: nat)
    requires ts == [] && ValidForest(UnitOf(d, c), ts)
    ensures FirstInList(d, c, ts, off, addr) == Miss
  {
  }

  // ----- the places the enumeration comes to -----

  /** What lies behind the section, where `_get_next_cu` reads one header too many because it tests `>` and
      not `>=`: the last unit, and the declarations and the list of entries that are found when the
      children of its entry are read once more, under that header. */
  datatype Behind = Behind(home: CompUnit, decls: seq<Decl>, ts: seq<Tree>)

  /** A unit, or the place behind the last one. */
  datatype Place = UnitHere(c: CompUnit) | After(b: Behind)

  /** The unit whose entry is in the buffer once the search of the place has begun. */
  function HomeOf(p: Place): CompUnit {
    match p
    case UnitHere(c) => c
    case After(b) => b.home
  }

  ghost predicate Flagged(d: Sections, c: CompUnit) {
    var u := UnitOf(d, c); Known(u, c.root.code) && AbOf(u, c.root.code).children == DW_CHILDREN_YES
  }

  /** The header is that of a unit too short for it. */
  predicate Short(cu: CU) { cu.nextOffset <= cu.dieOffset }

  /** The list that is searched under the header cu, if any is. */
  datatype Listing = NoList | Listing(c: CompUnit, list: seq<Tree>, at: nat)

  ghost function KidsOf(d: Sections, c: CompUnit): nat
    requires ValidHead(UnitOf(d, c), c.root)
  {
    c.cu.dieOffset + |EncodeHead(UnitOf(d, c), c.root)|
  }

  /** At a unit, its children, if its entry is flagged; behind the last one the same bytes under the header
      cu, if that is too short and the last unit entry is flagged. */
  ghost function ListHere(d: Sections, cu: CU, p: Place): Listing
    requires ValidHead(UnitOf(d, HomeOf(p)), HomeOf(p).root)
  {
    var home := HomeOf(p);
    if !Flagged(d, home) then NoList
    else
      match p
      case UnitHere(c) => Listing(c, c.root.kids, KidsOf(d, home))
      case After(b) => if Short(cu) then Listing(CompUnit(cu, b.decls, home.root), b.ts, KidsOf(d, home)) else NoList
  }

  ghost predicate PlaceOk(d: Sections, cu: CU, p: Place) {
    && d.Valid() && Searchable(d, HomeOf(p), HomeOf(p).cu.offset) && ValidHead(UnitOf(d, HomeOf(p)), HomeOf(p).root)
    && (p.UnitHere? ==> cu == p.c.cu)
    && (p.After? ==> d.infoSize <= cu.dieOffset)
    && var l := ListHere(d, cu, p);
    (l.Listing? ==> Walking(d, l.c, l.list, l.at) && ValidForest(UnitOf(d, l.c), l.list))
  }

  ghost function FoundAt(d: Sections, cu: CU, p: Place, addr: nat): Hit
    requires PlaceOk(d, cu, p)
  {
    match ListHere(d, cu, p)
    case NoList => Miss
    case Listing(c, list, at) => FirstInList(d, c, list, at, addr)
  }

  lemma SearchableParts(d: Sections, c: CompUnit)
    requires Searchable(d, c, c.cu.offset)
    ensures var u := UnitOf(d, c);
      && d.Valid() && 2 <= c.cu.version && ValidTree(u, c.root)
      && u.Holds(c.cu.dieOffset, EncodeTree(u, c.root)) && u.Holds(c.cu.dieOffset, EncodeHead(u, c.root))
      && (Flagged(d, c) ==> Walking(d, c, c.root.kids, KidsOf(d, c)) && ValidForest(u, c.root.kids))
  {
    hide EncodeHead, EncodeTree, CorrectShortcuts, CorrectShortcut, PlainPcs;
    TreeParts(UnitOf(d, c), c.root, c.cu.dieOffset);
  }

  /** The unit entry is found where the header ends. Behind the last unit, the search for one reports that
      there is none exactly when the unit is longer than its header; otherwise it reports success without
      reading anything, and the entry of the unit before stays in the buffer. */
  lemma RootFound(d: Sections, cu: CU, p: Place, prev: Die, rootName: nat)
    requires PlaceOk(d, cu, p) && (p.After? ==> prev == RootDie(d, p.b.home, rootName))
    ensures d.Valid() && ValidHead(UnitOf(d, HomeOf(p)), HomeOf(p).root)
    ensures OffDieOutcome(d, cu, cu.dieOffset, prev)
         == match p
            case UnitHere(c) => Done(DW_DLE_NONE, RootDie(d, c, prev.name))
            case After(_) => Done(if Short(cu) then DW_DLV_OK else DW_DLE_NO_ENTRY, prev)
    ensures FileRead(d, HomeOf(p), RootDie(d, HomeOf(p), if p.UnitHere? then prev.name else rootName).name)
  {
    hide ReadEntry, EncodeHead, HeadDie, EncodeTree, ValidForest, CorrectShortcuts, NameRead, Walking;
    hide ListHere, Searchable;
    var home := HomeOf(p);
    var u := UnitOf(d, home);
    SearchableParts(d, home);
    if p.UnitHere? {
      ReadUndoesEncode(u, home.root, cu.dieOffset, prev);
    }
    NameIsString(u, home.root, home.cu.dieOffset, if p.UnitHere? then prev.name else rootName);
  }

  /** Then the list is walked, if there is one. */
  lemma KidsFound(d: Sections, cu: CU, p: Place, name: nat, ret: Die)
    requires PlaceOk(d, cu, p) && (p.After? ==> Short(cu))
    ensures var l := ListHere(d, cu, p);
      ChildOutcome(d, cu, RootDie(d, HomeOf(p), name), ret)
      == if l.NoList? then Done(DW_DLE_NO_ENTRY, ret)
         else Done(DW_DLV_OK, FirstDie(UnitOf(d, l.c), l.list, l.at, ret.name))
  {
    hide Scan, EncodeHead, HeadDie, FirstDie, EncodeTree, CorrectShortcuts, PlainList, Searchable, ValidForest;
    SearchableParts(d, HomeOf(p));
    var l := ListHere(d, cu, p);
    if l.Listing? {
      FirstOfList(UnitOf(d, l.c), l.list, l.at, 1, false, ret);
    }
  }

  /** The locals of `debuginfo_rip`, whose contents are whatever the stack held. */
  ghost predicate Separate(cuDie: DieBuffer, die: DieBuffer, die2: DieBuffer)
    reads cuDie, die, die2
  {
    && cuDie.Valid() && die.Valid() && die2.Valid()
    && die != die2 && die != cuDie && die2 != cuDie
    && die.attrs != die2.attrs && die.attrs != cuDie.attrs && die2.attrs != cuDie.attrs
  }

  /** The body of the loop over units. */
  method SearchUnit(d: Sections, cu: CU, lines: seq<byte>, addr: uint64, cuDie: DieBuffer, die: DieBuffer,
                    die2: DieBuffer, info: RipInfo, ghost p: Place, ghost rootName: nat)
    returns (found: bool, r: RipInfo, ghost name: nat)
    requires PlaceOk(d, cu, p) && Separate(cuDie, die, die2)
    requires p.After? ==> HoldsRoot(d, p.b.home, cuDie, rootName)
    requires LineReady(d, lines, FoundAt(d, cu, p, addr), HomeOf(p), addr)
    modifies cuDie, cuDie.attrs, die, die.attrs, die2, die2.attrs
    ensures Separate(cuDie, die, die2) && HoldsRoot(d, HomeOf(p), cuDie, name)
    ensures found == FoundAt(d, cu, p, addr).Hit?
    ensures found ==> Reports(d, lines, FoundAt(d, cu, p, addr), HomeOf(p), addr, r)
    ensures !found ==> r == info
  {
    hide OffDieOutcome, ChildOutcome, RootDie, FirstDie, Reports, FirstInList, Searchable, Walking, FileRead;
    hide ValidForest, ValidHead, KidsOf;
    found, r, name := false, info, if p.UnitHere? then cuDie.name else rootName;
    RootFound(d, cu, p, cuDie.Snapshot(), rootName);
    var ret := OffDie(d, cu.dieOffset, cuDie, cu);
    if ret == DW_DLE_NO_ENTRY {
      return;
    }
    KidsFound(d, cu, p, name, die.Snapshot());
    ghost var dieName := die.name;
    ret := Child(d, cu, cuDie, die);
    if ret != DW_DLE_NO_ENTRY {
      ghost var l := ListHere(d, cu, p);
      found, r := ScanList(d, cu, lines, addr, cuDie, die, die2, info, l.c, l.list, l.at, dieName, HomeOf(p), name);
    }
  }

  // ----- the section, and what is behind it -----

  /** The memory behind the section can be read as a header, and, if that is too short for itself and the
      last unit entry is flagged, as a list of entries under it. */
  ghost predicate BehindOk(d: Sections, b: Behind) {
    && d.Valid()
    && var r := ReadHeader(d, d.infoSize, b.home.cu);
    r.Header? && (r.ret == 0 ==> PlaceOk(d, r.cu, After(b)))
  }

  /** What is found behind the section. */
  ghost function FoundBehind(d: Sections, b: Behind, addr: nat): Hit
    requires BehindOk(d, b)
  {
    var r := ReadHeader(d, d.infoSize, b.home.cu);
    if r.ret != 0 then Miss else FoundAt(d, r.cu, After(b), addr)
  }

  /** What the query finds: the first function of the section that holds the address, or else the first one
      behind the section. */
  ghost function Answer(d: Sections, cs: seq<CompUnit>, off: nat, addr: nat, b: Behind): Hit
    requires AllSearchable(d, cs, off)
    requires FirstFunction(d, cs, off, addr).Miss? ==> BehindOk(d, b)
  {
    match FirstFunction(d, cs, off, addr)
    case Miss => FoundBehind(d, b, addr)
    case hit => hit
  }

  /** Something is found that the section does not hold if and only if the bytes behind it make a header of a
      unit of version 2 to 4 that is too short for that header, the last unit entry is flagged, and the list
      behind that entry, read under this header, has a match. */
  lemma AnswerExact(d: Sections, cs: seq<CompUnit>, addr: nat, b: Behind)
    requires AllSearchable(d, cs, 0) && FirstFunction(d, cs, 0, addr).Miss? && BehindOk(d, b)
    ensures var r := ReadHeader(d, d.infoSize, b.home.cu);
      Answer(d, cs, 0, addr, b) != FirstFunction(d, cs, 0, addr)
      <==> && r.ret == 0 && Short(r.cu) && Flagged(d, b.home)
           && FirstInList(d, CompUnit(r.cu, b.decls, b.home.root), b.ts, KidsOf(d, b.home), addr).Hit?
  {
    hide ReadHeader, AllSearchable, FirstFunction, FirstInList, Walking, Searchable, Flagged, KidsOf, ValidForest;
  }

  /** A header of a known version does not depend on the one read before. */
  lemma HeaderForgets(d: Sections, curr: nat, cu1: CU, cu2: CU)
    requires d.Valid() && curr <= d.infoSize
    ensures var r1, r2 := ReadHeader(d, curr, cu1), ReadHeader(d, curr, cu2);
      && (r1.Header? <==> r2.Header?)
      && (r1.Header? ==> r1.ret == r2.ret && r1.next == r2.next && (r1.ret == 0 ==> r1.cu == r2.cu))
  {
    hide ReadFixed;
  }

  lemma NextUnit(d: Sections, cs: seq<CompUnit>, off: nat, old_cu: CU, addr: nat)
    requires AllSearchable(d, cs, off) && cs != []
    ensures off == cs[0].cu.offset && off + 4 <= cs[0].cu.nextOffset <= d.infoSize && d.Valid()
    ensures ReadHeader(d, off, old_cu) == Header(0, cs[0].cu, cs[0].cu.nextOffset)
    ensures PlaceOk(d, cs[0].cu, UnitHere(cs[0])) && AllSearchable(d, cs[1..], cs[0].cu.nextOffset)
    ensures FoundAt(d, cs[0].cu, UnitHere(cs[0]), addr).Hit? ==>
      FoundAt(d, cs[0].cu, UnitHere(cs[0]), addr).c == cs[0]
    ensures FirstFunction(d, cs, off, addr) ==
      var hit := FoundAt(d, cs[0].cu, UnitHere(cs[0]), addr);
      if hit.Hit? then hit else FirstFunction(d, cs[1..], cs[0].cu.nextOffset, addr)
  {
    hide EncodeHeader, EncodeTree, ValidTree, CorrectShortcuts, PlainList, ReadHeader, Walking, ValidForest, EncodeHead;
    var u := UnitOf(d, cs[0]);
    HoldsPrefix(u, off, EncodeHeader(d.order, cs[0].cu));
    HeaderRoundTrip(d, cs[0].cu, old_cu);
    SearchableParts(d, cs[0]);
    UnitFound(d, cs[0], addr);
  }

  /** A unit entry that is not flagged has no children to search. */
  lemma UnitFound(d: Sections, c: CompUnit, addr: nat)
    requires Searchable(d, c, c.cu.offset)
    ensures ValidTree(UnitOf(d, c), c.root) && PlaceOk(d, c.cu, UnitHere(c))
    ensures var hit := FoundAt(d, c.cu, UnitHere(c), addr); InUnit(d, c, addr) == hit && (hit.Hit? ==> hit.c == c)
  {
    hide EncodeHead, Walking, CorrectShortcuts, PlainList;
    SearchableParts(d, c);
    LaterHit(d, c, c.root.kids, KidsOf(d, c), addr, Coded);
    if !Flagged(d, c) {
      LastOfList(d, c, c.root.kids, KidsOf(d, c), addr);
    }
  }

  lemma NoUnit(d: Sections, cs: seq<CompUnit>, cu: CU, addr: nat)
    requires AllSearchable(d, cs, d.infoSize)
    ensures cs == [] && FirstFunction(d, cs, d.infoSize, addr) == Miss
  {
    if cs != [] {
      NextUnit(d, cs, d.infoSize, cu, addr);
      assert false;
    }
  }

  /** Where the enumeration stands: at the first of `cs`, or beyond the section. */
  ghost predicate Standing(d: Sections, cs: seq<CompUnit>, curr: nat, addr: nat, b: Behind) {
    curr <= d.infoSize ==> AllSearchable(d, cs, curr) && (FirstFunction(d, cs, curr, addr).Miss? ==> BehindOk(d, b))
  }

  /** The unit whose entry is in the buffer when that is found. */
  ghost function AnswerHome(d: Sections, cs: seq<CompUnit>, off: nat, addr: nat, b: Behind): CompUnit
    requires AllSearchable(d, cs, off)
  {
    match FirstFunction(d, cs, off, addr)
    case Miss => b.home
    case Hit(c, _, _) => c
  }

  ghost function Remaining(d: Sections, cs: seq<CompUnit>, curr: nat, addr: nat, b: Behind): (Hit, CompUnit)
    requires Standing(d, cs, curr, addr, b)
  {
    if curr <= d.infoSize then (Answer(d, cs, curr, addr, b), AnswerHome(d, cs, curr, addr, b)) else (Miss, b.home)
  }

  ghost function PlaceAt(d: Sections, cs: seq<CompUnit>, curr: nat, b: Behind): Place {
    if curr < d.infoSize && cs != [] then UnitHere(cs[0]) else After(b)
  }

  /** One header read: past the section, at a unit, or the header behind the last unit. */
  lemma HeaderStep(d: Sections, cs: seq<CompUnit>, curr: nat, old_cu: CU, addr: nat, b: Behind)
    requires d.Valid() && Standing(d, cs, curr, addr, b)
    ensures var r := ReadHeader(d, curr, old_cu);
      && r.Header?
      && (r.ret != 0 ==> Remaining(d, cs, curr, addr, b).0 == Miss)
      && (r.ret == 0 ==>
           var here := PlaceAt(d, cs, curr, b);
           var next := if here.After? then [] else cs[1..];
           && curr <= d.infoSize && curr < r.next
           && (here.After? <==> curr == d.infoSize) && (here.After? <==> cs == [])
           && PlaceOk(d, r.cu, here)
           && var hit := FoundAt(d, r.cu, here, addr);
           && (hit.Hit? ==> Remaining(d, cs, curr, addr, b) == (hit, HomeOf(here)))
           && (hit.Miss? ==>
                && Standing(d, next, r.next, addr, b)
                && Remaining(d, cs, curr, addr, b) == Remaining(d, next, r.next, addr, b)))
  {
    hide PlaceOk, FoundAt, Searchable;
    if curr < d.infoSize {
      assert cs != [];
      hide BehindOk, FoundBehind, ReadHeader, AllSearchable;
      NextUnit(d, cs, curr, old_cu, addr);
    } else if curr == d.infoSize {
      hide ReadHeader, AllSearchable;
      NoUnit(d, cs, old_cu, addr);
      HeaderForgets(d, curr, old_cu, b.home.cu);
      HeaderGrows(d, curr, old_cu);
    }
  }

  lemma HeaderGrows(d: Sections, curr: nat, old_cu: CU)
    requires d.Valid() && curr <= d.infoSize
    ensures var r := ReadHeader(d, curr, old_cu); r.Header? ==> r.next > curr
  {
    hide ReadFixed;
  }

  /** `debuginfo_rip` on the units `cs` that make up .debug_info, which is not empty: it returns 0 exactly when
      some top-level subprogram has low_pc < addr < high_pc, or else something is found behind the section,
      and then reports the first such entry. Only where the section has none need what is behind it be
      readable. */
  method DebuginfoRip(d: Sections, lines: seq<byte>, addr: uint64, unknown: nat, cu0: CU, cuDie: DieBuffer,
                      die: DieBuffer, die2: DieBuffer, ghost cs: seq<CompUnit>, ghost b: Behind)
    returns (ret: int, info: RipInfo)
    requires d.Valid() && d.infoSize > 0 && AllSearchable(d, cs, 0) && Separate(cuDie, die, die2)
    requires cs != [] ==> b.home == cs[|cs| - 1]
    requires FirstFunction(d, cs, 0, addr).Miss? ==> BehindOk(d, b)
    requires LineReady(d, lines, Answer(d, cs, 0, addr, b), AnswerHome(d, cs, 0, addr, b), addr)
    modifies cuDie, cuDie.attrs, die, die.attrs, die2, die2.attrs
    ensures ret == if Answer(d, cs, 0, addr, b).Hit? then 0 else -1
    ensures ret == 0 ==> Reports(d, lines, Answer(d, cs, 0, addr, b), AnswerHome(d, cs, 0, addr, b), addr, info)
    ensures ret != 0 ==> info == RipInfo(unknown, 0, unknown, addr)
  {
    hide Reports, ReadHeader, AllSearchable, FirstFunction, FoundAt, PlaceOk, BehindOk, HoldsRoot, Answer, AnswerHome;
    hide LineAt, ValidHead;
    info := RipInfo(unknown, 0, unknown, addr);
    var dbg := new Debug(d);
    var cu, more, found := cu0, 0, false;
    ghost var k, rootName: nat := 0, 0;
    ghost var goal := (Answer(d, cs, 0, addr, b), AnswerHome(d, cs, 0, addr, b));
    while true
      invariant Separate(cuDie, die, die2) && dbg.d == d && fresh(dbg)
      invariant info == RipInfo(unknown, 0, unknown, addr) && 0 <= k <= |cs|
      invariant k == 0 ==> dbg.currOff == 0
      invariant k > 0 && dbg.currOff <= d.infoSize ==> HoldsRoot(d, cs[k - 1], cuDie, rootName)
      invariant Standing(d, cs[k..], dbg.currOff, addr, b) && Remaining(d, cs[k..], dbg.currOff, addr, b) == goal
      decreases if dbg.currOff <= d.infoSize then d.infoSize + 1 - dbg.currOff else 0
    {
      ghost var here := PlaceAt(d, cs[k..], dbg.currOff, b);
      HeaderStep(d, cs[k..], dbg.currOff, cu, addr, b);
      more, cu := dbg.GetNextCu(cu);
      if more != 0 {
        return -1, info;
      }
      found, info, rootName := SearchUnit(d, cu, lines, addr, cuDie, die, die2, info, here, rootName);
      if found {
        return 0, info;
      }
      k := if here.After? then |cs| else k + 1;
    }
  }
}
