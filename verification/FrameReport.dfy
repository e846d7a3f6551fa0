/** What callers learn of the rule table: `dwarf_get_fde_info_for_all_regs` copies three fields of each
    entry, and with them some rules of section 6.4.1 of DWARF 4 and not others. */
module FrameReport {
  import opened Machine
  import opened FrameMachine
  import opened FrameTable
  import opened FrameRules
  import opened FrameRun

  const DW_REG_TABLE_SIZE := 66

  /** A column of `Dwarf_Regtable`. */
  datatype Column = Column(relevant: bool, regnum: uint16, offset: uint64)

  /** The kind of the rule and the address of its expression are not copied. */
  function ToColumn(e: Entry): Column {
    Column(e.relevant, e.regnum, e.value)
  }

  /** The rule a column stands for: an offset from the CFA, or a register with two reserved numbers,
      DW_FRAME_UNDEFINED_VAL and DW_FRAME_SAME_VAL. */
  function Reading(k: Column): Rule {
    if k.relevant then Offset(Signed64(k.offset))
    else if k.regnum == 1034 then Undef
    else if k.regnum == 1035 then Same
    else Register(k.regnum)
  }

  function CfaReading(k: Column): CfaRule {
    RegisterPlus(k.regnum, Signed64(k.offset))
  }

  // ----- which rules survive the copy -----

  /** Offsets that fit 64 bits, undefined, same value, registers of 16 bits but for the reserved ones, and
      what a restore brings back; no val_offset and no expression. */
  predicate Survives(c: Setup, i: Inst) {
    match i
    case OffsetRule(_, n, kind) => kind == DW_EXPR_OFFSET && Int64(n * c.daf)
    case RegisterRule(_, other) =>
      other < 0x1_0000 && other != DW_FRAME_UNDEFINED_VAL && other != DW_FRAME_SAME_VAL
    case ExpressionRule(_, _, _, _) => false
    case _ => true
  }

  /** The caller reads the rule an instruction prescribes exactly when that is one of those. */
  lemma RuleSurvives(c: Setup, i: Inst, e: Entry, init: Entry)
    requires Checked(i) >= 0 && ProperKind(i)
    ensures Reading(ToColumn(NewEntry(c, i, e, init))) == Prescribed(c, i, Reading(ToColumn(init))) <==> Survives(c, i)
  {
    match i
    case OffsetRule(_, n, _) => SignedOfUnsigned(n * c.daf);
    case _ =>
  }

  predicate CfaSurvives(c: Setup, i: Inst) {
    ExpressibleCfa(c, i) && !i.DefCfaExpression?
  }

  lemma CfaRuleSurvives(c: Setup, i: Inst, e: Entry)
    ensures CfaReading(ToColumn(NewCfa(c, i, e))) == PrescribedCfa(c, i, CfaReading(ToColumn(e))) <==> CfaSurvives(c, i)
  {
    match i
    case DefCfa(_, n, factored) => SignedOfUnsigned(if factored then n * c.daf else n);
    case DefCfaOffset(n, factored) => SignedOfUnsigned(if factored then n * c.daf else n);
    case _ =>
  }

  /** The rules lost are lost to every reading of a column, not only to this one: what the instruction and
      another one prescribe differs, and the columns they leave do not. */
  ghost predicate Lost(c: Setup, i: Inst, j: Inst, e: Entry, init: Entry) {
    && Checked(i) >= 0 && Checked(j) >= 0
    && ToColumn(NewEntry(c, i, e, init)) == ToColumn(NewEntry(c, j, e, init))
    && (forall r: Rule :: Prescribed(c, i, r) != Prescribed(c, j, r))
    && forall read: Column -> Rule, r: Rule ::
         !(read(ToColumn(NewEntry(c, i, e, init))) == Prescribed(c, i, r)
           && read(ToColumn(NewEntry(c, j, e, init))) == Prescribed(c, j, r))
  }

  /** A val_offset and an offset, two expressions, a register number that is too large or reserved and a
      rule without an offset. */
  lemma LostToEveryReading(c: Setup, reg: uint64, n: int, other: uint64, kind: nat, len: uint64, block: nat,
                           e: Entry, init: Entry)
    ensures Lost(c, OffsetRule(reg, n, DW_EXPR_VAL_OFFSET), OffsetRule(reg, n, DW_EXPR_OFFSET), e, init)
    ensures Lost(c, ExpressionRule(reg, kind, len, block), ExpressionRule(reg, kind, len, block + 1), e, init)
    ensures other >= 0x1_0000 ==> Lost(c, RegisterRule(reg, other), RegisterRule(reg, other % 0x1_0000), e, init)
    ensures Lost(c, RegisterRule(reg, DW_FRAME_UNDEFINED_VAL), UndefinedRule(reg), e, init)
    ensures Lost(c, RegisterRule(reg, DW_FRAME_SAME_VAL), SameValue(reg), e, init)
  {
  }

  /** Of the CFA's rule an expression is lost in the same way. */
  lemma CfaLostToEveryReading(c: Setup, len: uint64, block: nat, e: Entry, read: Column -> CfaRule, r: CfaRule)
    ensures var i, j := DefCfaExpression(len, block), DefCfaExpression(len, block + 1);
      !(read(ToColumn(NewCfa(c, i, e))) == PrescribedCfa(c, i, r)
        && read(ToColumn(NewCfa(c, j, e))) == PrescribedCfa(c, j, r))
  {
  }

  // ----- the table of rules -----

  /** A row of section 6.4.1: the rule for the CFA and the rules for the registers. */
  datatype Rules = Rules(cfa: CfaRule, regs: seq<Rule>)

  /** What an instruction prescribes for a row, given the initial row. */
  function Prescribe(c: Setup, i: Inst, r: Rules, init: Rules): (q: Rules)
    requires InRange(i, |r.regs|) && |init.regs| == |r.regs|
    ensures |q.regs| == |r.regs|
  {
    var k := Checked(i);
    Rules(PrescribedCfa(c, i, r.cfa), if k < 0 then r.regs else r.regs[k := Prescribed(c, i, init.regs[k])])
  }

  datatype RuleBuild = RuleBuild(r: Rules, stack: seq<Rules>)

  ghost predicate RulesFit(b: RuleBuild, init: Rules) {
    |init.regs| == |b.r.regs| && forall k :: 0 <= k < |b.stack| ==> |b.stack[k].regs| == |b.r.regs|
  }

  /** Section 6.4.3 on rows of rules. */
  function RuleStep(c: Setup, i: Inst, b: RuleBuild, init: Rules): (q: RuleBuild)
    requires RulesFit(b, init)
    ensures RulesFit(q, init) && |q.r.regs| == |b.r.regs|
  {
    match i
    case Remember => RuleBuild(b.r, b.stack + [b.r])
    case RestoreState => if b.stack == [] then b else RuleBuild(b.stack[|b.stack| - 1], b.stack[..|b.stack| - 1])
    case i => if InRange(i, |b.r.regs|) then b.(r := Prescribe(c, i, b.r, init)) else b
  }

  /** The unwind table of section 6.4.1. */
  function RuleRows(c: Setup, code: seq<Inst>, loc: uint64, b: RuleBuild, init: Rules): (rows: seq<Row<Rules>>)
    requires RulesFit(b, init)
    ensures |rows| > 0 && rows[0].loc == loc
    decreases |code|
  {
    hide RulesFit, RuleStep;
    if code == [] then [Row(loc, b.r)]
    else
      var i := code[0];
      var rows := RuleRows(c, code[1..], LocAfter(c, i, loc), RuleStep(c, i, b, init), init);
      if i.Advance? || i.SetLoc? then [Row(loc, b.r)] + rows else rows
  }

  // ----- column by column -----

  /** A column of the table of rules: that of the CFA or that of a register. */
  datatype Col = Cfa | Reg(k: nat)

  /** In the column x the table reads as the row of rules. */
  ghost predicate Agree(t: Table, r: Rules, x: Col) {
    && |t.rules| == |r.regs|
    && match x
       case Cfa => CfaReading(ToColumn(t.cfa)) == r.cfa
       case Reg(k) => k < |t.rules| ==> Reading(ToColumn(t.rules[k])) == r.regs[k]
  }

  /** An instruction that concerns the column leaves a rule there that survives the copy. */
  predicate SurvivesAt(c: Setup, i: Inst, x: Col) {
    match x
    case Cfa => CfaSurvives(c, i)
    case Reg(k) => Checked(i) == k ==> Survives(c, i)
  }

  /** What is read in a column after the instruction is what the instruction prescribes there, exactly when
      its rule survives. */
  lemma ColumnSurvives(c: Setup, i: Inst, t: Table, init: Table, r: Rules, rinit: Rules, x: Col)
    requires InRange(i, |t.rules|) && |init.rules| == |t.rules| && ProperKind(i)
    requires Agree(t, r, x) && Agree(init, rinit, x) && |rinit.regs| == |r.regs| && (x.Reg? ==> x.k < |t.rules|)
    ensures Agree(Apply(c, i, t, init), Prescribe(c, i, r, rinit), x) <==> SurvivesAt(c, i, x)
  {
    hide Survives, CfaSurvives, PrescribedCfa, Prescribed, NewEntry, NewCfa, Reading, CfaReading;
    match x
    case Cfa => CfaRuleSurvives(c, i, t.cfa);
    case Reg(k) =>
      if Checked(i) == k {
        RuleSurvives(c, i, t.rules[k], init.rules[k]);
      }
  }

  ghost predicate AgreeBuild(b: Build, rb: RuleBuild, x: Col) {
    && Agree(b.t, rb.r, x) && |b.stack| == |rb.stack|
    && forall k :: 0 <= k < |b.stack| ==> Agree(b.stack[k], rb.stack[k], x)
  }

  lemma AgreeFits(b: Build, rb: RuleBuild, init: Table, rinit: Rules, x: Col)
    requires Fits(b, init) && AgreeBuild(b, rb, x) && Agree(init, rinit, x)
    ensures RulesFit(rb, rinit)
  {
  }

  lemma AgreeStep(c: Setup, i: Inst, b: Build, rb: RuleBuild, init: Table, rinit: Rules, x: Col)
    requires Fits(b, init) && AgreeBuild(b, rb, x) && Agree(init, rinit, x)
    requires ProperKind(i) && SurvivesAt(c, i, x) && (x.Reg? ==> x.k < |b.t.rules|)
    ensures RulesFit(rb, rinit) && AgreeBuild(BuildStep(c, i, b, init), RuleStep(c, i, rb, rinit), x)
  {
    hide Apply, Prescribe, SurvivesAt, ProperKind, Reading, CfaReading;
    AgreeFits(b, rb, init, rinit, x);
    if !i.Remember? && !i.RestoreState? && InRange(i, |b.t.rules|) {
      ColumnSurvives(c, i, b.t, init, rb.r, rinit, x);
    }
  }

  ghost predicate AllSurviveAt(c: Setup, code: seq<Inst>, x: Col) {
    forall k :: 0 <= k < |code| ==> SurvivesAt(c, code[k], x)
  }

  ghost predicate AllProper(code: seq<Inst>) {
    forall k :: 0 <= k < |code| ==> ProperKind(code[k])
  }

  /** The same rows at the same locations, in the column x. */
  ghost predicate AgreeRows(rows: seq<Row<Table>>, rs: seq<Row<Rules>>, x: Col) {
    && |rows| == |rs|
    && forall k :: 0 <= k < |rows| ==> rows[k].loc == rs[k].loc && Agree(rows[k].table, rs[k].table, x)
  }

  lemma AgreeCons(loc: uint64, t: Table, r: Rules, rows: seq<Row<Table>>, rs: seq<Row<Rules>>, x: Col)
    requires Agree(t, r, x) && AgreeRows(rows, rs, x)
    ensures AgreeRows([Row(loc, t)] + rows, [Row(loc, r)] + rs, x)
  {
    hide Agree;
  }

  /** The complete table of entries, read in a column, is that column of the table of rules. */
  lemma {:induction false} RowsRead(c: Setup, code: seq<Inst>, loc: uint64, b: Build, rb: RuleBuild,
                                    init: Table, rinit: Rules, x: Col)
    requires Fits(b, init) && AgreeBuild(b, rb, x) && Agree(init, rinit, x) && (x.Reg? ==> x.k < |b.t.rules|)
    requires AllProper(code) && AllSurviveAt(c, code, x)
    ensures RulesFit(rb, rinit)
    ensures AgreeRows(FullRows(c, code, loc, b, init), RuleRows(c, code, loc, rb, rinit), x)
    decreases |code|
  {
    AgreeFits(b, rb, init, rinit, x);
    if code != [] {
      hide BuildStep, RuleStep, Fits, RulesFit, SurvivesAt, ProperKind, LocAfter, Agree, AgreeRows;
      var i := code[0];
      var b', rb' := BuildStep(c, i, b, init), RuleStep(c, i, rb, rinit);
      AgreeStep(c, i, b, rb, init, rinit, x);
      RowsRead(c, code[1..], LocAfter(c, i, loc), b', rb', init, rinit, x);
      if i.Advance? || i.SetLoc? {
        AgreeCons(loc, b.t, rb.r, FullRows(c, code[1..], LocAfter(c, i, loc), b', init),
                  RuleRows(c, code[1..], LocAfter(c, i, loc), rb', rinit), x);
      }
    }
  }

  lemma {:induction false} BeforeRead(rows: seq<Row<Table>>, rs: seq<Row<Rules>>, pc: uint64, x: Col)
    requires AgreeRows(rows, rs, x)
    ensures Before(rs, pc) == Before(rows, pc)
    decreases |rows|
  {
    hide Agree;
    if rows != [] {
      BeforeRead(rows[1..], rs[1..], pc, x);
    }
  }

  lemma InForceRead(rows: seq<Row<Table>>, rs: seq<Row<Rules>>, pc: uint64, x: Col)
    requires AgreeRows(rows, rs, x) && |rows| > 0 && rows[0].loc <= pc
    ensures |rs| > 0 && rs[0].loc <= pc && Agree(InForce(rows, pc).table, InForce(rs, pc).table, x)
  {
    hide Agree;
    BeforeRead(rows, rs, pc, x);
  }

  /** Instructions decoded from bytes carry no other kinds. */
  lemma {:induction false} DecodedProper(c: Setup, insts: seq<byte>, p: nat)
    requires DecodeFrom(c, insts, p).Got?
    ensures AllProper(DecodeFrom(c, insts, p).value)
    decreases |insts| - p
  {
    if p < |insts| {
      hide Decode, ProperKind;
      DecodedKind(c, insts, p);
      DecodedProper(c, insts, p + Decode(c, insts, p).size);
    }
  }

  /** Every register keeps its value, and the CFA is register 0: the rules before any instruction. */
  function DefaultRules(size: nat): (r: Rules)
    ensures |r.regs| == size
  {
    Rules(RegisterPlus(0, 0), seq(size, _ => Same))
  }

  /** The rules after the initial instructions of a CIE. */
  function InitialRow(cie: Setup, code: seq<Inst>, size: nat): (r: Rules)
    ensures |r.regs| == size
  {
    var rows := RuleRows(cie, code, 0, RuleBuild(DefaultRules(size), []), DefaultRules(size));
    SizedRows(cie, code, 0, RuleBuild(DefaultRules(size), []), DefaultRules(size));
    rows[|rows| - 1].table
  }

  lemma {:induction false} SizedRows(c: Setup, code: seq<Inst>, loc: uint64, b: RuleBuild, init: Rules)
    requires RulesFit(b, init)
    ensures forall row :: row in RuleRows(c, code, loc, b, init) ==> |row.table.regs| == |b.r.regs|
    decreases |code|
  {
    if code != [] {
      hide RulesFit, RuleStep;
      SizedRows(c, code[1..], LocAfter(c, code[0], loc), RuleStep(c, code[0], b, init), init);
    }
  }

  lemma BlankRead(size: nat, x: Col)
    ensures Agree(Blank(size), DefaultRules(size), x)
    ensures AgreeBuild(Build(Blank(size), []), RuleBuild(DefaultRules(size), []), x)
  {
    assert Signed64(0) == 0;
  }

  lemma InitialRead(cie: Setup, code: seq<Inst>, size: nat, x: Col)
    requires AllProper(code) && AllSurviveAt(cie, code, x) && (x.Reg? ==> x.k < size)
    ensures Agree(InitialRules(cie, code, size), InitialRow(cie, code, size), x)
  {
    hide RuleRows, FullRows, AllSurviveAt, AllProper, Agree;
    BlankRead(size, x);
    RowsRead(cie, code, 0, Build(Blank(size), []), RuleBuild(DefaultRules(size), []), Blank(size),
             DefaultRules(size), x);
  }

  // ----- the copy -----

  /** The caller's columns after the copy: the CFA's rule in its column, if there is such a column, and the
      rules of the registers in the others. */
  function ReportOf(before: seq<Column>, t: Table, cfa: nat): (r: seq<Column>)
    ensures |r| == |before|
    ensures forall i :: 0 <= i < |r| ==>
      r[i] == if i == cfa then ToColumn(t.cfa) else if i < |t.rules| then ToColumn(t.rules[i]) else before[i]
  {
    seq(|before|, i requires 0 <= i < |before| =>
      if i == cfa then ToColumn(t.cfa) else if i < |t.rules| then ToColumn(t.rules[i]) else before[i])
  }

  /** `dwarf_get_fde_info_for_all_regs`, for a pc in the range of the FDE; for any other the routine
      stores through a null pointer, as it does when the table cannot be built. */
  method GetFdeInfoForAllRegs(cie: Setup, initInst: seq<byte>, fde: Setup, inst: seq<byte>, initloc: uint64,
                              adrange: uint64, pcReq: uint64, rt: RegTable, shadow: RegTable, report: array<Column>)
    returns (ret: int, rowPc: uint64)
    requires Apart(rt, shadow) && report.Length == DW_REG_TABLE_SIZE
    requires initloc <= pcReq < ToU64(initloc + adrange)
    requires InternalTable(cie, initInst, fde, inst, initloc, pcReq, rt.rules.Length).Done?
    modifies rt, rt.rules, shadow, shadow.rules, report
    ensures var out := InternalTable(cie, initInst, fde, inst, initloc, pcReq, rt.rules.Length);
      ret == DW_DLE_NONE && rowPc == out.rowPc && report[..] == ReportOf(old(report[..]), out.rt, fde.cfaColumn)
  {
    hide InternalTable;
    ghost var t := InternalTable(cie, initInst, fde, inst, initloc, pcReq, rt.rules.Length).rt;
    ret, rowPc := GetInternalTable(cie, initInst, fde, inst, initloc, pcReq, rt, shadow);
    assert rt.cfa == t.cfa && rt.rules[..] == t.rules;
    CopyColumns(rt, fde.cfaColumn, report);
  }

  /** The copies of that routine, field by field. */
  method CopyColumns(rt: RegTable, cfa: uint16, report: array<Column>)
    requires report.Length == DW_REG_TABLE_SIZE
    modifies report
    ensures report[..] == ReportOf(old(report[..]), Table(rt.cfa, rt.rules[..]), cfa)
  {
    if cfa < DW_REG_TABLE_SIZE {
      report[cfa] := Column(rt.cfa.relevant, rt.cfa.regnum, rt.cfa.value);
    }
    var i := 0;
    while i < DW_REG_TABLE_SIZE && i < rt.rules.Length
      invariant 0 <= i <= DW_REG_TABLE_SIZE && i <= rt.rules.Length
      invariant forall k :: 0 <= k < DW_REG_TABLE_SIZE ==>
        report[k] == if k == cfa then ToColumn(rt.cfa) else if k < i then ToColumn(rt.rules[k]) else old(report[k])
    {
      if i != cfa {
        report[i] := Column(rt.rules[i].relevant, rt.rules[i].regnum, rt.rules[i].value);
      }
      i := i + 1;
    }
  }

  /** The column of the report that stands for x, if there is one. */
  function ColumnOf(x: Col, cfa: nat): nat {
    match x
    case Cfa => cfa
    case Reg(k) => k
  }

  /** From bytes to the caller's columns, for a CIE and an FDE on which one shadow suffices: in the column of
      any register other than the one that stands for the CFA, and in that of the CFA if the report has it,
      the caller reads the rule that the unwind table of the standard has in force at pc, provided the
      instructions for this column survive the copy, whatever those for others do. */
  lemma ReportIsRuleInForce(cie: Setup, initInst: seq<byte>, fde: Setup, inst: seq<byte>, initloc: uint64,
                            pcReq: uint64, size: nat, before: seq<Column>, x: Col)
    requires DecodeFrom(cie, initInst, 0).Got? && DecodeFrom(fde, inst, 0).Got? && initloc <= pcReq
    requires Sound(cie, DecodeFrom(cie, initInst, 0).value, Build(Blank(size), []), Blank(size), Blank(size))
    requires var init := InitialRules(cie, DecodeFrom(cie, initInst, 0).value, size);
      Sound(fde, DecodeFrom(fde, inst, 0).value, Build(init, []), init, init)
    requires AllSurviveAt(cie, DecodeFrom(cie, initInst, 0).value, x)
    requires AllSurviveAt(fde, DecodeFrom(fde, inst, 0).value, x)
    requires ColumnOf(x, fde.cfaColumn) < |before| && (x.Reg? ==> x.k < size && x.k != fde.cfaColumn)
    ensures var out := InternalTable(cie, initInst, fde, inst, initloc, pcReq, size);
      var init := InitialRow(cie, DecodeFrom(cie, initInst, 0).value, size);
      var rows := RuleRows(fde, DecodeFrom(fde, inst, 0).value, initloc, RuleBuild(init, []), init);
      && out.Done?
      && var k := ReportOf(before, out.rt, fde.cfaColumn)[ColumnOf(x, fde.cfaColumn)];
      && |InForce(rows, pcReq).table.regs| == |out.rt.rules| == size
      && match x
         case Cfa => CfaReading(k) == InForce(rows, pcReq).table.cfa
         case Reg(reg) => Reading(k) == InForce(rows, pcReq).table.regs[reg]
  {
    hide Sound, DecodeFrom, FullRows, RuleRows, InternalTable, AllSurviveAt, AllProper, InitialRow, InitialRules;
    hide InForce, AgreeRows, CfaReading, Reading;
    var pre, code := DecodeFrom(cie, initInst, 0).value, DecodeFrom(fde, inst, 0).value;
    var init, rinit := InitialRules(cie, pre, size), InitialRow(cie, pre, size);
    var rows := FullRows(fde, code, initloc, Build(init, []), init);
    var rs := RuleRows(fde, code, initloc, RuleBuild(rinit, []), rinit);
    DecodedProper(cie, initInst, 0);
    DecodedProper(fde, inst, 0);
    InternalTableIsRowInForce(cie, initInst, fde, inst, initloc, pcReq, size);
    InitialRead(cie, pre, size, x);
    RowsRead(fde, code, initloc, Build(init, []), RuleBuild(rinit, []), init, rinit, x);
    InForceRead(rows, rs, pcReq, x);
    InForceSize(rows, pcReq, size);
  }

  lemma InForceSize(rows: seq<Row<Table>>, pc: uint64, size: nat)
    requires RowsOf(rows, size) && |rows| > 0 && rows[0].loc <= pc
    ensures |InForce(rows, pc).table.rules| == size
  {
  }

  /** The caller learns the rule for the CFA exactly when its column is one of the columns of the report;
      the default column, DW_FRAME_CFA_COL3, is not. */
  lemma CfaReported(before: seq<Column>, t: Table, cfa: nat)
    ensures (forall e: Entry :: ReportOf(before, Table(e, t.rules), cfa) == ReportOf(before, t, cfa))
      <==> cfa >= |before|
    ensures |before| == DW_REG_TABLE_SIZE ==> DW_FRAME_CFA_COL3 >= |before|
  {
    if cfa < |before| {
      var e := t.cfa.(relevant := !t.cfa.relevant);
      assert ReportOf(before, Table(e, t.rules), cfa)[cfa] == ToColumn(e);
      assert ToColumn(e) != ToColumn(t.cfa) == ReportOf(before, t, cfa)[cfa];
    }
  }
}
