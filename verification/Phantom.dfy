/** The header behind the section at work: an input on which `debuginfo_rip` reports a function although
    no unit of the section holds the address. */
module Phantom {
  import opened Machine
  import opened Leb128
  import opened FixedWidth
  import opened AbbrevTable
  import opened DieReader
  import opened DieTree
  import opened DieWalk
  import opened CompUnits
  import opened Kdebug

  /** `debuginfo_rip` refuses lower addresses. */
  const ULIM := 0x80_03c0_0000

  const LOW := 0x80_0420_0000
  const HIGH := 0x80_0420_0100

  const PC_SPECS := [(DW_AT_LOW_PC, DW_FORM_ADDR), (DW_AT_HIGH_PC, DW_FORM_ADDR)]

  /** The unit's abbreviations: a unit entry, and a variable that carries two addresses. */
  const UNIT_DECLS := [Decl(1, 0x11, 1, []), Decl(2, 0x34, 0, PC_SPECS)]

  /** Another table, where the second code is that of a subprogram. */
  const OTHER_DECLS := [Decl(2, DW_TAG_SUBPROGRAM, 0, PC_SPECS)]

  const ENTRY := Tree(2, [Number(LOW), Number(HIGH)], [])
  const ROOT := Tree(1, [], [ENTRY])
  const UNIT_CU := CU(0, 26, 4, 4, 2, 0, 8, 30, 11)

  /** A header of length 0 in the memory behind the section. */
  function PhantomCU(): CU {
    CU(30, 0, 4, 4, 2, |EncodeTable(UNIT_DECLS)|, 8, 34, 41)
  }

  /** The bytes of the entry and of its list. */
  function EntryBytes(): (e: seq<byte>)
    ensures |e| == 17
  {
    [2] + (EncodeFixed(Lsb, LOW, 8) + EncodeFixed(Lsb, HIGH, 8))
  }

  function Input(): Sections {
    Sections(Lsb, EncodeHeader(Lsb, UNIT_CU) + ([1] + (EntryBytes() + [0])) + EncodeHeader(Lsb, PhantomCU()), 30, 0,
             EncodeTable(UNIT_DECLS) + EncodeTable(OTHER_DECLS), 0)
  }

  function OnlyUnit(): CompUnit {
    CompUnit(UNIT_CU, UNIT_DECLS, ROOT)
  }

  /** What is read behind the section. */
  function BehindIt(): Behind {
    Behind(OnlyUnit(), OTHER_DECLS, [ENTRY])
  }

  function PhantomUnit(): Unit {
    Unit(Input(), PhantomCU(), OTHER_DECLS)
  }

  // ----- its parts -----

  lemma InputShape()
    ensures var d := Input();
      && d.Valid() && d.order == Lsb && d.infoSize == 30 && |d.info| == 41 && |d.abbrev| > |EncodeTable(UNIT_DECLS)|
      && d.info[0..11] == EncodeHeader(Lsb, UNIT_CU) && EncodeHeader(Lsb, PhantomCU()) <= d.info[30..]
      && d.info[11..30] == [1] + (EntryBytes() + [0]) && d.info[12..30] == EntryBytes() + [0]
      && EncodeTable(UNIT_DECLS) <= d.abbrev[0..]
      && EncodeTable(OTHER_DECLS) <= d.abbrev[|EncodeTable(UNIT_DECLS)|..]
  {
    hide EncodeTable, EncodeFixed, EntryBytes;
    assert |EncodeHeader(Lsb, UNIT_CU)| == 11 && |EncodeHeader(Lsb, PhantomCU())| == 11;
    hide EncodeHeader;
    assert Input().abbrev[|EncodeTable(UNIT_DECLS)|..] == EncodeTable(OTHER_DECLS);
    assert Input().abbrev[0..] == Input().abbrev;
    assert Input().info[11..30] == [1] + (EntryBytes() + [0]);
    assert Input().info[12..30] == Input().info[11..30][1..] == EntryBytes() + [0];
  }

  lemma TableLength()
    ensures |EncodeTable(UNIT_DECLS)| == 15
  {
    var e := EncodeSpecs(PC_SPECS);
    assert PC_SPECS[1..] == [PC_SPECS[1]] && PC_SPECS[1..][1..] == [];
    assert |EncodeSpecs(PC_SPECS[1..])| == 4 && |e| == 6;
    assert |EncodeDecl(UNIT_DECLS[0])| == 5 && |EncodeDecl(UNIT_DECLS[1])| == 9;
    var rest := UNIT_DECLS[1..];
    assert rest == [UNIT_DECLS[1]] && rest[1..] == [];
    assert |EncodeTable(rest)| == 10;
  }

  lemma PcSpecsPlaced(off: nat)
    ensures var defs := PlacedSpecs(PC_SPECS, off);
      && |defs| == 2 && defs[0].attrib == DW_AT_LOW_PC && defs[1].attrib == DW_AT_HIGH_PC
      && defs[0].form == defs[1].form == DW_FORM_ADDR
  {
    var rest := PC_SPECS[1..];
    assert rest == [PC_SPECS[1]] && rest[1..] == [];
  }

  lemma DeclsFound(u: Unit)
    requires u.Ready() && (u.decls == UNIT_DECLS || u.decls == OTHER_DECLS)
    ensures Known(u, 2) && u.decls == OTHER_DECLS ==> AbOf(u, 2).tag == DW_TAG_SUBPROGRAM
    ensures Known(u, 2) && u.decls == UNIT_DECLS ==> AbOf(u, 2).tag == 0x34
    ensures Known(u, 2) && AbOf(u, 2).children == 0 && |AbOf(u, 2).attrs| == 2
    ensures AbOf(u, 2).attrs[0].attrib == DW_AT_LOW_PC && AbOf(u, 2).attrs[0].form == DW_FORM_ADDR
    ensures AbOf(u, 2).attrs[1].attrib == DW_AT_HIGH_PC && AbOf(u, 2).attrs[1].form == DW_FORM_ADDR
    ensures u.decls == UNIT_DECLS ==> Known(u, 1) && AbOf(u, 1).children == 1 && AbOf(u, 1).attrs == []
  {
    hide PlacedSpecs, EncodeDecl;
    var o, rest := u.cu.abbrevOffset, u.decls;
    if u.decls == UNIT_DECLS {
      rest, o := u.decls[1..], o + |EncodeDecl(u.decls[0])|;
      assert rest[0] == UNIT_DECLS[1];
      assert Lookup(u.decls, u.cu.abbrevOffset, 2) == Lookup(rest, o, 2);
    }
    assert Lookup(rest, o, 2) == Found(Placed(rest[0], o));
    PcSpecsPlaced(o + |EncodeUleb(2)| + |EncodeUleb(rest[0].tag)| + 1);
  }

  /** The entry is the same bytes under either table. */
  lemma EntryThere(u: Unit)
    requires u.Ready() && (u.decls == UNIT_DECLS || u.decls == OTHER_DECLS)
    requires u.d.order == Lsb && u.cu.addrSize == 8 && u.cu.version == 2
    ensures ValidTree(u, ENTRY) && PlainPcs(u, ENTRY)
    ensures EncodeTree(u, ENTRY) == EntryBytes()
    ensures HasPc(u, ENTRY, DW_AT_LOW_PC) && HasPc(u, ENTRY, DW_AT_HIGH_PC)
    ensures Pc(u, ENTRY, DW_AT_LOW_PC) == LOW && Pc(u, ENTRY, DW_AT_HIGH_PC) == HIGH
  {
    DeclsFound(u);
    hide Lookup, Unit.Ready, EncodeFixed, StandardLayout, EncodeAttr, ValidAttr, Supported;
    var defs := AbOf(u, 2).attrs;
    AddressLayout(u);
    assert EncodeValues(u, defs[1..], ENTRY.values[1..]) == EncodeFixed(Lsb, HIGH, 8) by {
      assert ENTRY.values[1..][1..] == [];
    }
    assert EncodeValues(u, defs, ENTRY.values) == EncodeFixed(Lsb, LOW, 8) + EncodeFixed(Lsb, HIGH, 8);
    assert DefIndex(defs, DW_AT_LOW_PC) == 0 && DefIndex(defs, DW_AT_HIGH_PC) == 1;
  }

  lemma AddressLayout(u: Unit)
    requires u.d.order == Lsb && u.cu.addrSize == 8
    ensures ValidAttr(u, DW_FORM_ADDR, Number(LOW)) && ValidAttr(u, DW_FORM_ADDR, Number(HIGH))
    ensures Supported(u.cu, DW_FORM_ADDR, Number(LOW)) && Supported(u.cu, DW_FORM_ADDR, Number(HIGH))
    ensures EncodeAttr(u, DW_FORM_ADDR, Number(LOW)) == EncodeFixed(Lsb, LOW, 8)
    ensures EncodeAttr(u, DW_FORM_ADDR, Number(HIGH)) == EncodeFixed(Lsb, HIGH, 8)
  {
    Pow2Values();
    hide Pow2, EncodeFixed;
  }

  lemma RootThere(u: Unit)
    requires u.Ready() && u.decls == UNIT_DECLS && u.d.order == Lsb && u.cu.addrSize == 8 && u.cu.version == 2
    ensures ValidTree(u, ROOT) && EncodeHead(u, ROOT) == [1] && EncodeTree(u, ROOT) == [1] + (EntryBytes() + [0])
    ensures AbOf(u, 1).children == DW_CHILDREN_YES
    ensures ValidForest(u, ROOT.kids) && CorrectShortcuts(u, ROOT.kids, 12) && PlainList(u, ROOT.kids)
  {
    hide Lookup, Unit.Ready, EncodeHead, ValidHead, PlainPcs, EntryBytes;
    DeclsFound(u);
    EntryThere(u);
    assert EncodeForest(u, ROOT.kids[1..]) == [];
    assert EncodeForest(u, ROOT.kids) == EntryBytes();
    RootHead(u);
    NoShortcut(u, 12);
    assert CorrectShortcuts(u, ROOT.kids[1..], 12 + |EncodeTree(u, ENTRY)|);
  }

  lemma NoShortcut(u: Unit, off: nat)
    requires u.Ready() && (u.decls == UNIT_DECLS || u.decls == OTHER_DECLS) && ValidTree(u, ENTRY)
    ensures CorrectShortcut(u, ENTRY, off)
  {
    hide Lookup, Unit.Ready, EncodeTree;
    DeclsFound(u);
  }

  lemma RootHead(u: Unit)
    requires Known(u, 1) && AbOf(u, 1).attrs == [] && AbOf(u, 1).children == 1
    ensures ValidHead(u, ROOT) && EncodeHead(u, ROOT) == [1]
  {
  }

  lemma InputReady()
    ensures UnitOf(Input(), OnlyUnit()).Ready() && PhantomUnit().Ready()
  {
    hide EncodeTable, EncodeHeader, EntryBytes;
    InputShape();
  }

  /** The section is one of the given units, and no function of them holds the address. */
  ghost predicate NoneHolds(d: Sections, cus: seq<CompUnit>, addr: nat) {
    AllSearchable(d, cus, 0) && FirstFunction(d, cus, 0, addr) == Miss
  }

  ghost predicate FlaggedUnit(d: Sections, c: CompUnit, kids: nat) {
    && Searchable(d, c, 0) && ValidHead(UnitOf(d, c), c.root)
    && Flagged(d, c) && KidsOf(d, c) == kids
  }

  /** The bytes of a unit, where its header says. */
  lemma UnitFrom(d: Sections, c: CompUnit)
    requires d.Valid() && ValidHeader(c.cu) && c.cu.offset == 0 && ValidTree(UnitOf(d, c), c.root)
    requires 0 <= c.cu.dieOffset <= c.cu.nextOffset <= d.infoSize <= |d.info|
    requires d.info[0..c.cu.dieOffset] == EncodeHeader(d.order, c.cu)
    requires d.info[c.cu.dieOffset..c.cu.nextOffset] == EncodeTree(UnitOf(d, c), c.root)
    ensures UnitAt(d, c, 0)
  {
    hide EncodeHeader, EncodeTree, ValidTree, ValidHeader, Sections.Valid;
  }

  lemma UnitThere()
    ensures UnitAt(Input(), OnlyUnit(), 0) && KidsOf(Input(), OnlyUnit()) == 12
  {
    hide EncodeTable, EncodeHeader, Unit.Ready, Lookup, EncodeHead, EncodeTree, EntryBytes, ValidTree, ValidHead;
    hide PlainList, CorrectShortcuts, UnitAt, ValidHeader, Sections.Valid;
    InputReady();
    InputShape();
    RootThere(UnitOf(Input(), OnlyUnit()));
    RootIsHead(UnitOf(Input(), OnlyUnit()));
    UnitHeader();
    UnitFrom(Input(), OnlyUnit());
  }

  lemma UnitHeader()
    ensures ValidHeader(UNIT_CU)
  {
    Pow2Values();
    hide Pow2;
  }

  lemma RootIsHead(u: Unit)
    requires ValidTree(u, ROOT)
    ensures ValidHead(u, ROOT) && Known(u, 1)
  {
    hide Lookup, ValidValues;
  }

  /** The input is a section of one unit, with a flagged entry. */
  lemma UnitSearchable()
    ensures FlaggedUnit(Input(), OnlyUnit(), 12)
  {
    hide Unit.Ready, Lookup, EncodeHead, EncodeTree, EntryBytes, ValidHead, UnitAt, Input, PlainList, CorrectShortcuts;
    InputReady();
    InputShape();
    RootThere(UnitOf(Input(), OnlyUnit()));
    RootIsHead(UnitOf(Input(), OnlyUnit()));
    UnitThere();
  }

  /** A section of one unit with one entry that is no function at the address. */
  lemma OneEntry(d: Sections, c: CompUnit, e: Tree, addr: nat)
    requires Searchable(d, c, 0) && c.cu.nextOffset == d.infoSize && c.root.kids == [e]
    requires ValidTree(UnitOf(d, c), e) && !FunctionAt(UnitOf(d, c), e, addr)
    ensures NoneHolds(d, [c], addr)
  {
    hide FunctionAt, EncodeHead, EncodeTree, CorrectShortcuts, PlainList, ValidHead, ValidHeader, EncodeHeader;
    assert [c][1..] == [] && [e][1..] == [];
    assert AllSearchable(d, [c], 0);
    assert FirstInList(d, c, [e], KidsOf(d, c), addr) == Miss;
    assert InUnit(d, c, addr) == Miss;
    assert FirstFunction(d, [c][1..], c.cu.nextOffset, addr) == Miss;
    assert FirstFunction(d, [c], 0, addr) == Miss;
  }

  /** No function of it holds an address. */
  lemma UnitMisses(addr: nat)
    ensures NoneHolds(Input(), [OnlyUnit()], addr)
  {
    hide Unit.Ready, Lookup, EncodeHead, EncodeTree, EntryBytes, Searchable, Input, NoneHolds, ValidTree, FunctionAt;
    InputShape();
    UnitSearchable();
    EntryMissed(addr);
    OneEntry(Input(), OnlyUnit(), ENTRY, addr);
  }

  lemma EntryMissed(addr: nat)
    ensures var u := UnitOf(Input(), OnlyUnit());
      && ValidTree(u, ENTRY) && ValidHead(u, ENTRY) && !FunctionAt(u, ENTRY, addr)
  {
    hide Unit.Ready, Lookup, EncodeHead, EncodeTree, EntryBytes, Input, HasPc, Pc;
    var u := UnitOf(Input(), OnlyUnit());
    InputReady();
    InputShape();
    DeclsFound(u);
    EntryThere(u);
  }

  lemma PhantomHeader()
    ensures Input().Valid()
    ensures ReadHeader(Input(), 30, UNIT_CU) == Header(0, PhantomCU(), 34)
  {
    hide EncodeTable, EncodeHeader, ReadHeader, EntryBytes;
    InputShape();
    TableLength();
    Pow2Values();
    HeaderRoundTrip(Input(), PhantomCU(), UNIT_CU);
  }

  /** Under the header behind the section the entry is a function. */
  lemma PhantomList(addr: nat)
    requires LOW < addr < HIGH
    ensures Walking(Input(), CompUnit(PhantomCU(), OTHER_DECLS, ROOT), [ENTRY], 12)
    ensures ValidForest(PhantomUnit(), [ENTRY])
    ensures FirstInList(Input(), CompUnit(PhantomCU(), OTHER_DECLS, ROOT), [ENTRY], 12, addr).Hit?
  {
    hide EncodeTable, EncodeHeader, Unit.Ready, Lookup, EncodeHead, ValidValues, EncodeTree, EntryBytes;
    var d, u := Input(), PhantomUnit();
    InputReady();
    InputShape();
    DeclsFound(u);
    EntryThere(u);
    assert [ENTRY][1..] == [];
    assert EncodeForest(u, [ENTRY][1..]) == [];
    assert EncodeForest(u, [ENTRY]) == EntryBytes();
    NoShortcut(u, 12);
    assert u.Holds(12, EntryBytes() + [0]);
    assert ListAt(u, [ENTRY], 12);
    assert PlainList(u, [ENTRY][1..]);
    assert CorrectShortcuts(u, [ENTRY][1..], 12 + |EncodeTree(u, ENTRY)|);
    assert CorrectShortcuts(u, ENTRY.kids, 12 + |EncodeHead(u, ENTRY)|);
    assert CorrectShortcuts(u, [ENTRY], 12);
    assert PlainList(u, [ENTRY]);
  }

  /** The query answers with what is behind the section. */
  ghost predicate AnswersBehind(d: Sections, cus: seq<CompUnit>, b: Behind, addr: nat) {
    AllSearchable(d, cus, 0) && d.infoSize > 0 && BehindOk(d, b) && Answer(d, cus, 0, addr, b).Hit?
  }

  /** On the input no unit holds any address; yet the query returns 0 for every address between two that
      both lie above ULIM. */
  lemma PhantomReports(addr: nat)
    requires LOW < addr < HIGH
    ensures LOW >= ULIM && NoneHolds(Input(), [OnlyUnit()], addr)
    ensures AnswersBehind(Input(), [OnlyUnit()], BehindIt(), addr)
  {
    hide EncodeTable, EncodeHeader, ReadHeader, AllSearchable, FirstFunction, FirstInList, Walking, Searchable;
    hide Flagged, KidsOf, ValidForest, ValidHead, EntryBytes;
    UnitMisses(addr);
    UnitSearchable();
    PhantomHeader();
    PhantomList(addr);
  }
}
