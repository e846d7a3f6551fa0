/** The complete unwind table of section 6.4.1 of DWARF 4, with its initial rules and its stack of
    remembered rows, and the proof that the early-exit machine reports the row in force. */
module FrameTable {
  import opened Machine
  import opened FrameMachine

  /** A row: where it begins, and its rules in some form. */
  datatype Row<+T> = Row(loc: uint64, table: T)

  /** Every instruction of a program from p on. */
  function DecodeFrom(c: Setup, insts: seq<byte>, p: nat): Read<seq<Inst>>
    decreases |insts| - p
  {
    if p >= |insts| then Got([], 0)
    else
      match Decode(c, insts, p)
      case Fault => Fault
      case Got(i, n) =>
        match DecodeFrom(c, insts, p + n)
        case Fault => Fault
        case Got(code, m) => Got([i] + code, n + m)
  }

  /** Tables, or rows, of n registers. */
  ghost predicate TablesOf(ts: seq<Table>, n: nat) {
    forall k :: 0 <= k < |ts| ==> |ts[k].rules| == n
  }

  ghost predicate RowsOf(rows: seq<Row<Table>>, n: nat) {
    forall k :: 0 <= k < |rows| ==> |rows[k].table.rules| == n
  }

  lemma MoreRows(r: Row<Table>, rows: seq<Row<Table>>)
    requires RowsOf(rows, |r.table.rules|)
    ensures RowsOf([r] + rows, |r.table.rules|)
  {
  }

  /** The row being built, and the rows remembered. */
  datatype Build = Build(t: Table, stack: seq<Table>)

  ghost predicate Fits(b: Build, init: Table) {
    |init.rules| == |b.t.rules| && TablesOf(b.stack, |b.t.rules|)
  }

  lemma PushPop(b: Build, init: Table)
    requires Fits(b, init)
    ensures Fits(Build(b.t, b.stack + [b.t]), init)
    ensures b.stack != [] ==>
      && |b.stack[|b.stack| - 1].rules| == |b.t.rules|
      && Fits(Build(b.stack[|b.stack| - 1], b.stack[..|b.stack| - 1]), init)
  {
  }

  /** An instruction of the complete interpretation (section 6.4.3): the initial rules and the stack are
      separate from the row being built. */
  function BuildStep(c: Setup, i: Inst, b: Build, init: Table): (r: Build)
    requires Fits(b, init)
    ensures Fits(r, init) && |r.t.rules| == |b.t.rules|
  {
    hide Apply, Fits, InRange;
    PushPop(b, init);
    FitsApply(c, i, b, init);
    match i
    case Remember => Build(b.t, b.stack + [b.t])
    case RestoreState => if b.stack == [] then b else Build(b.stack[|b.stack| - 1], b.stack[..|b.stack| - 1])
    case i => if InRange(i, |b.t.rules|) then b.(t := Apply(c, i, b.t, init)) else b
  }

  lemma FitsApply(c: Setup, i: Inst, b: Build, init: Table)
    requires Fits(b, init)
    ensures |init.rules| == |b.t.rules|
    ensures InRange(i, |b.t.rules|) ==> Fits(b.(t := Apply(c, i, b.t, init)), init)
  {
    hide Apply;
  }

  function LocAfter(c: Setup, i: Inst, loc: uint64): uint64 {
    match i
    case Advance(d) => ToU64(loc + d * c.caf)
    case SetLoc(a) => a
    case _ => loc
  }

  /** All rows of the table from the current one on. A location instruction closes a row. */
  function FullRows(c: Setup, code: seq<Inst>, loc: uint64, b: Build, init: Table): (rows: seq<Row<Table>>)
    requires Fits(b, init)
    ensures |rows| > 0 && rows[0].loc == loc && RowsOf(rows, |b.t.rules|)
    decreases |code|
  {
    if code == [] then [Row(loc, b.t)]
    else
      hide Fits, RowsOf, BuildStep, LocAfter;
      var i := code[0];
      var rows := FullRows(c, code[1..], LocAfter(c, i, loc), BuildStep(c, i, b, init), init);
      MoreRows(Row(loc, b.t), rows);
      if i.Advance? || i.SetLoc? then [Row(loc, b.t)] + rows else rows
  }

  /** Number of rows before the first whose location exceeds pc. */
  function Before<T>(rows: seq<Row<T>>, pc: uint64): (k: nat)
    ensures k <= |rows|
    ensures forall i :: 0 <= i < k ==> rows[i].loc <= pc
    ensures k < |rows| ==> rows[k].loc > pc
  {
    if rows == [] || pc < rows[0].loc then 0
    else
      var k := Before(rows[1..], pc);
      assert forall i :: 1 <= i < k + 1 ==> rows[i] == rows[1..][i - 1];
      k + 1
  }

  /** The row in force at pc. */
  function InForce<T>(rows: seq<Row<T>>, pc: uint64): Row<T>
    requires |rows| > 0 && rows[0].loc <= pc
  {
    rows[Before(rows, pc) - 1]
  }

  lemma RowsCons(c: Setup, i: Inst, rest: seq<Inst>, loc: uint64, b: Build, init: Table)
    requires Fits(b, init)
    ensures var rows := FullRows(c, rest, LocAfter(c, i, loc), BuildStep(c, i, b, init), init);
      FullRows(c, [i] + rest, loc, b, init) == if i.Advance? || i.SetLoc? then [Row(loc, b.t)] + rows else rows
  {
    hide BuildStep, LocAfter, Fits;
    assert ([i] + rest)[1..] == rest;
  }

  lemma InForceCons<T>(r: Row<T>, tail: seq<Row<T>>, pc: uint64)
    requires r.loc <= pc && |tail| > 0
    ensures InForce([r] + tail, pc) == if tail[0].loc <= pc then InForce(tail, pc) else r
  {
    assert ([r] + tail)[1..] == tail;
  }

  // ----- the programs on which one shadow table suffices -----

  /** What the standard asks of a program: registers of the table, a state to restore. The machine asks
      for no set_loc besides. */
  predicate Placed(i: Inst, size: nat, depth: nat) {
    && !i.SetLoc? && !i.Illegal?
    && InRange(i, size)
    && (i.RestoreState? ==> depth > 0)
  }

  function Depth(i: Inst, depth: nat): nat {
    if i.Remember? then depth + 1 else if i.RestoreState? && depth > 0 then depth - 1 else depth
  }

  predicate WellFormed(code: seq<Inst>, size: nat, depth: nat) {
    code == [] || (Placed(code[0], size, depth) && WellFormed(code[1..], size, Depth(code[0], depth)))
  }

  /** With `last` the table remembered last, or the initial one: the state to be restored is the one
      remembered last, the rule to be restored is the same in it as in the initial table. */
  ghost predicate RightAt(i: Inst, b: Build, init: Table, last: Table)
    requires Placed(i, |b.t.rules|, |b.stack|) && Fits(b, init) && |last.rules| == |b.t.rules|
  {
    match i
    case RestoreState => b.stack[|b.stack| - 1] == last
    case Restore(reg) => last.rules[reg] == init.rules[reg]
    case _ => true
  }

  /** The programs on which the shadow does for both the initial rules and the stack: every restore
      and every restore_state is right where it stands. */
  ghost predicate Sound(c: Setup, code: seq<Inst>, b: Build, init: Table, last: Table)
    requires Fits(b, init) && |last.rules| == |b.t.rules|
    decreases |code|
  {
    code == [] ||
    (&& Placed(code[0], |b.t.rules|, |b.stack|) && RightAt(code[0], b, init, last)
     && Sound(c, code[1..], BuildStep(c, code[0], b, init), init, if code[0].Remember? then b.t else last))
  }

  /** The machine has built the row that the complete interpretation has. */
  ghost predicate Together(s: State, b: Build, init: Table) {
    s.Valid() && Fits(b, init) && s.rt == b.t && (b.stack != [] ==> s.saved)
  }

  /** One instruction other than a location: the machine stays together with the complete interpretation
      exactly when the instruction is right where it stands. */
  lemma StepTogether(c: Setup, i: Inst, s: State, pcReq: uint64, b: Build, init: Table)
    requires Together(s, b, init) && Placed(i, |b.t.rules|, |b.stack|) && !i.Advance?
    ensures s.Valid() && Fits(b, init)
    ensures var e := Exec(c, i, s, pcReq);
      && e.Next? && e.s.pc == s.pc && e.s.shadow == (if i.Remember? then b.t else s.shadow)
      && (Together(e.s, BuildStep(c, i, b, init), init) <==> RightAt(i, b, init, s.shadow))
  {
    hide NewEntry, NewCfa;
    var e := Exec(c, i, s, pcReq);
    if i.Restore? {
      RestoreDiffers(c, i.reg, s.rt, s.shadow, init);
    } else if !i.Remember? && !i.RestoreState? {
      InitUnused(c, i, s.rt, s.shadow, init);
    }
  }

  /** Only DW_CFA_restore looks at the initial rules. */
  lemma InitUnused(c: Setup, i: Inst, t: Table, init1: Table, init2: Table)
    requires !i.Restore? && InRange(i, |t.rules|)
    requires |init1.rules| == |t.rules| == |init2.rules|
    ensures Apply(c, i, t, init1) == Apply(c, i, t, init2)
  {
  }

  lemma RestoreDiffers(c: Setup, reg: uint64, t: Table, init1: Table, init2: Table)
    requires reg < |t.rules| == |init1.rules| == |init2.rules|
    ensures Apply(c, Restore(reg), t, init1) == Apply(c, Restore(reg), t, init2)
      <==> init1.rules[reg] == init2.rules[reg]
  {
    assert Apply(c, Restore(reg), t, init1).rules[reg] == init1.rules[reg];
    assert Apply(c, Restore(reg), t, init2).rules[reg] == init2.rules[reg];
  }

  /** A location instruction closes the row; the machine stops when the next one lies beyond pcReq. */
  lemma AdvanceStep(c: Setup, i: Inst, rest: seq<Inst>, s: State, pcReq: uint64, b: Build, init: Table)
    requires Together(s, b, init) && i.Advance? && s.pc <= pcReq
    ensures s.Valid() && Fits(b, init) && BuildStep(c, i, b, init) == b
    ensures var rows := FullRows(c, [i] + rest, s.pc, b, init);
      var e := Exec(c, i, s, pcReq);
      && (e.Exit? ==> e.s == s && InForce(rows, pcReq) == Row(s.pc, s.rt))
      && (e.Next? ==> Together(e.s, b, init) && e.s.shadow == s.shadow && e.s.pc <= pcReq)
      && (e.Next? ==> InForce(rows, pcReq) == InForce(FullRows(c, rest, e.s.pc, b, init), pcReq))
      && (e.Next? || e.Exit?)
  {
    hide FullRows, InForce;
    assert BuildStep(c, i, b, init) == b;
    RowsCons(c, i, rest, s.pc, b, init);
    InForceCons(Row(s.pc, b.t), FullRows(c, rest, ToU64(s.pc + i.delta * c.caf), b, init), pcReq);
  }

  lemma SoundStep(c: Setup, i: Inst, rest: seq<Inst>, b: Build, init: Table, last: Table)
    requires Fits(b, init) && |last.rules| == |b.t.rules| && Sound(c, [i] + rest, b, init, last)
    ensures Placed(i, |b.t.rules|, |b.stack|) && RightAt(i, b, init, last)
    ensures Sound(c, rest, BuildStep(c, i, b, init), init, if i.Remember? then b.t else last)
  {
    hide BuildStep, Fits, RightAt, Placed;
    assert ([i] + rest)[1..] == rest;
  }

  /** The early-exit machine refines the full table: on every program on which one shadow suffices it
      reports the row in force at pcReq. */
  lemma {:induction false} EarlyExitIsRowInForce(c: Setup, insts: seq<byte>, p: nat, s: State, pcReq: uint64,
                                                b: Build, init: Table)
    requires DecodeFrom(c, insts, p).Got? && Together(s, b, init) && s.pc <= pcReq
    requires Sound(c, DecodeFrom(c, insts, p).value, b, init, s.shadow)
    ensures var rows := FullRows(c, DecodeFrom(c, insts, p).value, s.pc, b, init);
      var out := Run(c, insts, p, s, pcReq);
      out.Done? && out.rt == InForce(rows, pcReq).table
    decreases |insts| - p
  {
    hide Decode, Exec, Sound, Together, FullRows, InForce, BuildStep, RightAt, Placed, Run, DecodeFrom;
    TogetherFits(s, b, init);
    if p >= |insts| {
      NoMore(c, insts, p, s, pcReq, b, init);
    } else {
      var i, n, rest := DecodeStep(c, insts, p);
      SoundStep(c, i, rest, b, init, s.shadow);
      RunStep(c, insts, p, s, pcReq);
      var e := Exec(c, i, s, pcReq);
      if i.Advance? {
        AdvanceStep(c, i, rest, s, pcReq, b, init);
        if e.Next? {
          EarlyExitIsRowInForce(c, insts, p + n, e.s, pcReq, b, init);
        }
      } else {
        OtherStep(c, i, rest, s, pcReq, b, init);
        EarlyExitIsRowInForce(c, insts, p + n, e.s, pcReq, BuildStep(c, i, b, init), init);
      }
    }
  }

  lemma NoMore(c: Setup, insts: seq<byte>, p: nat, s: State, pcReq: uint64, b: Build, init: Table)
    requires p >= |insts| && Together(s, b, init) && s.pc <= pcReq
    ensures s.Valid() && Fits(b, init) && DecodeFrom(c, insts, p) == Got([], 0)
    ensures Run(c, insts, p, s, pcReq) == Done(s.rt, s.rowPc)
    ensures InForce(FullRows(c, [], s.pc, b, init), pcReq).table == s.rt
  {
    OneRow(c, s.pc, b, init, pcReq);
  }

  /** The first instruction of a program that decodes. */
  lemma DecodeStep(c: Setup, insts: seq<byte>, p: nat) returns (i: Inst, n: nat, rest: seq<Inst>)
    requires p < |insts| && DecodeFrom(c, insts, p).Got?
    ensures Decode(c, insts, p) == Got(i, n) && n > 0
    ensures DecodeFrom(c, insts, p + n).Got? && DecodeFrom(c, insts, p + n).value == rest
    ensures DecodeFrom(c, insts, p).value == [i] + rest
  {
    hide Decode;
    i, n := Decode(c, insts, p).value, Decode(c, insts, p).size;
    rest := DecodeFrom(c, insts, p + n).value;
  }

  lemma RunStep(c: Setup, insts: seq<byte>, p: nat, s: State, pcReq: uint64)
    requires p < |insts| && s.Valid() && Decode(c, insts, p).Got?
    ensures var d := Decode(c, insts, p);
      var e := Exec(c, d.value, s, pcReq);
      && (e.Next? ==> Run(c, insts, p, s, pcReq) == Run(c, insts, p + d.size, e.s, pcReq))
      && (e.Exit? ==> Run(c, insts, p, s, pcReq) == Done(e.s.rt, e.s.rowPc))
  {
    hide Decode, Exec;
  }

  lemma TogetherFits(s: State, b: Build, init: Table)
    requires Together(s, b, init)
    ensures s.Valid() && Fits(b, init) && |s.shadow.rules| == |b.t.rules|
  {
  }

  /** Any other instruction that is right makes no row and keeps the machine together. */
  lemma OtherStep(c: Setup, i: Inst, rest: seq<Inst>, s: State, pcReq: uint64, b: Build, init: Table)
    requires Together(s, b, init) && Placed(i, |b.t.rules|, |b.stack|) && !i.Advance? && RightAt(i, b, init, s.shadow)
    ensures s.Valid() && Fits(b, init)
    ensures var e, next := Exec(c, i, s, pcReq), BuildStep(c, i, b, init);
      && e.Next? && e.s.pc == s.pc && Together(e.s, next, init)
      && e.s.shadow == (if i.Remember? then b.t else s.shadow)
      && FullRows(c, [i] + rest, s.pc, b, init) == FullRows(c, rest, s.pc, next, init)
  {
    hide Exec, FullRows, BuildStep, RightAt, Fits;
    StepTogether(c, i, s, pcReq, b, init);
    RowsCons(c, i, rest, s.pc, b, init);
  }

  // ----- whole programs: exactly when one shadow suffices -----

  /** After every instruction the machine, running without a limit, is together with the complete
      interpretation. */
  ghost predicate AlwaysTogether(c: Setup, code: seq<Inst>, s: State, b: Build, init: Table)
    decreases |code|
  {
    && Together(s, b, init)
    && (code == [] ||
        (var e := Exec(c, code[0], s, TWO_64 - 1);
         e.Next? && AlwaysTogether(c, code[1..], e.s, BuildStep(c, code[0], b, init), init)))
  }

  /** For every program the standard allows: after every instruction the machine has the table of the
      complete interpretation if and only if every restore_state restores what was remembered last and
      every restore finds the initial rule there. */
  lemma {:induction false} TogetherIffSound(c: Setup, code: seq<Inst>, s: State, b: Build, init: Table)
    requires Together(s, b, init) && WellFormed(code, |b.t.rules|, |b.stack|)
    ensures s.Valid() && Fits(b, init) && |s.shadow.rules| == |b.t.rules|
    ensures AlwaysTogether(c, code, s, b, init) <==> Sound(c, code, b, init, s.shadow)
    decreases |code|
  {
    hide Exec, Together, BuildStep, RightAt;
    TogetherFits(s, b, init);
    if code != [] {
      var i := code[0];
      var e, b' := Exec(c, i, s, TWO_64 - 1), BuildStep(c, i, b, init);
      DepthBuilt(c, i, b, init);
      if i.Advance? {
        NeverExits(c, i, s, b, init);
        TogetherIffSound(c, code[1..], e.s, b', init);
      } else {
        StepTogether(c, i, s, TWO_64 - 1, b, init);
        if RightAt(i, b, init, s.shadow) {
          TogetherIffSound(c, code[1..], e.s, b', init);
        }
      }
    }
  }

  // ----- rows alone -----

  /** A program in which a rule is restored wrongly, and overwritten before its row closes. */
  const OVERWRITTEN := [UndefinedRule(0), Remember, Restore(0), UndefinedRule(0)]

  /** The table it ends with. */
  function Unset(init: Table): Table
    requires |init.rules| == 1
  {
    Table(init.cfa, [init.rules[0].(relevant := false, regnum := DW_FRAME_UNDEFINED_VAL)])
  }

  lemma UnsetSteps(c: Setup, t: Table, init: Table)
    requires |init.rules| == |t.rules| == 1 && (t == init || t == Unset(init))
    ensures Apply(c, UndefinedRule(0), t, init) == Unset(init)
    ensures Apply(c, Restore(0), t, init) == init
    ensures Apply(c, Restore(0), t, Unset(init)) == Unset(init)
  {
    var e := init.rules[0].(relevant := false, regnum := DW_FRAME_UNDEFINED_VAL);
    assert t.rules[0 := e] == [e] && t.rules[0 := init.rules[0]] == init.rules;
  }

  lemma OverwrittenRun(c: Setup, loc: uint64, init: Table)
    requires |init.rules| == 1
    ensures After(c, OVERWRITTEN, Start(init, loc)).Next?
    ensures After(c, OVERWRITTEN, Start(init, loc)).s.rt == Unset(init)
  {
    hide Apply, After, Unset;
    var u, start := UndefinedRule(0), Start(init, loc);
    UnsetSteps(c, init, init);
    UnsetSteps(c, Unset(init), init);
    UnsetAgain(c, init);
    AfterOne(c, [], u, start);
    AfterOne(c, [u], Remember, start);
    AfterOne(c, [u, Remember], Restore(0), start);
    AfterOne(c, [u, Remember, Restore(0)], u, start);
    assert [] + [u] == [u] && [u] + [Remember] == [u, Remember];
    assert [u, Remember] + [Restore(0)] == [u, Remember, Restore(0)];
    assert [u, Remember, Restore(0)] + [u] == OVERWRITTEN;
  }

  lemma UnsetAgain(c: Setup, init: Table)
    requires |init.rules| == 1
    ensures |Unset(init).rules| == 1
    ensures Apply(c, UndefinedRule(0), Unset(init), Unset(init)) == Unset(init)
  {
    assert Unset(init).rules[0 := Unset(init).rules[0]] == Unset(init).rules;
  }

  lemma OverwrittenRows(c: Setup, loc: uint64, init: Table)
    requires |init.rules| == 1
    ensures FullRows(c, OVERWRITTEN, loc, Build(init, []), init) == [Row(loc, Unset(init))]
  {
    hide Apply, Unset, FullRows;
    var u, r := UndefinedRule(0), Restore(0);
    UnsetSteps(c, init, init);
    UnsetSteps(c, Unset(init), init);
    UnsetAgain(c, init);
    var t := Unset(init);
    RowsCons(c, u, [Remember, r, u], loc, Build(init, []), init);
    RowsCons(c, Remember, [r, u], loc, Build(t, []), init);
    RowsCons(c, r, [u], loc, Build(t, [t]), init);
    RowsCons(c, u, [], loc, Build(init, [t]), init);
    OneRow(c, loc, Build(t, [t]), init, loc);
    assert [u] + [Remember, r, u] == OVERWRITTEN && [u] + [] == [u];
    assert [Remember] + [r, u] == [Remember, r, u] && [r] + [u] == [r, u];
    assert [] + [t] == [t];
  }

  /** For the rows alone soundness is sufficient and not necessary: such a restore does no harm. */
  lemma OverwrittenIsHarmless(c: Setup, loc: uint64, init: Table)
    requires |init.rules| == 1 && init.rules[0].regnum != DW_FRAME_UNDEFINED_VAL
    ensures WellFormed(OVERWRITTEN, 1, 0) && !Sound(c, OVERWRITTEN, Build(init, []), init, init)
    ensures After(c, OVERWRITTEN, Start(init, loc)).Next?
    ensures FullRows(c, OVERWRITTEN, loc, Build(init, []), init)
         == [Row(loc, After(c, OVERWRITTEN, Start(init, loc)).s.rt)]
  {
    hide Apply, FullRows, After;
    OverwrittenRun(c, loc, init);
    OverwrittenRows(c, loc, init);
    UnsetSteps(c, init, init);
    var code := OVERWRITTEN;
    assert code[1..] == [Remember, Restore(0), UndefinedRule(0)];
    assert code[1..][1..] == [Restore(0), UndefinedRule(0)];
    assert code[1..][1..][1..] == [UndefinedRule(0)];
  }

  lemma AfterOne(c: Setup, code: seq<Inst>, i: Inst, s: State)
    requires s.Valid()
    ensures After(c, code + [i], s)
      == match After(c, code, s)
         case Next(s1) => Exec(c, i, s1, TWO_64 - 1)
         case other => other
    ensures After(c, [], s) == Next(s)
  {
    hide Exec;
    assert (code + [i])[..|code|] == code;
  }

  lemma DepthBuilt(c: Setup, i: Inst, b: Build, init: Table)
    requires Fits(b, init) && Placed(i, |b.t.rules|, |b.stack|)
    ensures |BuildStep(c, i, b, init).stack| == Depth(i, |b.stack|)
  {
    hide Apply;
  }

  /** Without a limit an advance goes on. */
  lemma NeverExits(c: Setup, i: Inst, s: State, b: Build, init: Table)
    requires Together(s, b, init) && i.Advance?
    ensures s.Valid() && Fits(b, init) && BuildStep(c, i, b, init) == b && RightAt(i, b, init, s.shadow)
    ensures var e := Exec(c, i, s, TWO_64 - 1);
      e.Next? && e.s.shadow == s.shadow && Together(e.s, b, init)
  {
  }

  /** Sufficient by syntax alone: no nested remember_state, and no restore once anything was remembered. */
  datatype Phase = Fresh | Open | Closed

  predicate InDomain(code: seq<Inst>, size: nat, phase: Phase) {
    code == [] ||
    match code[0]
    case SetLoc(_) => false
    case Illegal => false
    case Remember => !phase.Open? && InDomain(code[1..], size, Open)
    case RestoreState => phase.Open? && InDomain(code[1..], size, Closed)
    case Restore(reg) => phase.Fresh? && reg < size && InDomain(code[1..], size, phase)
    case i => InRange(i, size) && InDomain(code[1..], size, phase)
  }

  lemma {:induction false} DomainIsSound(c: Setup, code: seq<Inst>, b: Build, init: Table, last: Table, phase: Phase)
    requires Fits(b, init) && |last.rules| == |b.t.rules| && InDomain(code, |b.t.rules|, phase)
    requires match phase
      case Fresh => last == init && b.stack == []
      case Open => b.stack == [last]
      case Closed => b.stack == []
    ensures Sound(c, code, b, init, last)
    decreases |code|
  {
    hide Apply;
    if code != [] {
      var i, b' := code[0], BuildStep(c, code[0], b, init);
      if i.Remember? {
        DomainIsSound(c, code[1..], b', init, b.t, Open);
      } else if i.RestoreState? {
        DomainIsSound(c, code[1..], b', init, last, Closed);
      } else {
        DomainIsSound(c, code[1..], b', init, last, phase);
      }
    }
  }

  // ----- what the shadow holds -----

  /** The machine after a program, running without a limit. */
  function After(c: Setup, code: seq<Inst>, s: State): (r: Step)
    requires s.Valid()
    ensures r.Next? ==> r.s.Valid() && |r.s.rt.rules| == |s.rt.rules|
  {
    if code == [] then Next(s)
    else
      match After(c, code[..|code| - 1], s)
      case Next(s1) => Exec(c, code[|code| - 1], s1, TWO_64 - 1)
      case other => other
  }

  /** The complete interpretation after a program. */
  function BuildAll(c: Setup, code: seq<Inst>, b: Build, init: Table): (r: Build)
    requires Fits(b, init)
    ensures Fits(r, init) && |r.t.rules| == |b.t.rules|
  {
    hide Fits, BuildStep;
    if code == [] then b else BuildStep(c, code[|code| - 1], BuildAll(c, code[..|code| - 1], b, init), init)
  }

  /** t is the table of the machine just before the last remember_state of the program, or the table the
      run started with if there is none. */
  ghost predicate LastRemembered(c: Setup, code: seq<Inst>, s: State, t: Table)
    requires s.Valid()
  {
    || ((forall j :: 0 <= j < |code| ==> !code[j].Remember?) && t == s.shadow)
    || (exists k :: 0 <= k < |code| && RememberedAt(c, code, s, k, t))
  }

  ghost predicate RememberedAt(c: Setup, code: seq<Inst>, s: State, k: nat, t: Table)
    requires s.Valid() && k < |code|
  {
    && code[k].Remember? && (forall j :: k < j < |code| ==> !code[j].Remember?)
    && After(c, code[..k], s).Next? && t == After(c, code[..k], s).s.rt
  }

  /** After any program the shadow holds what was remembered last. */
  lemma {:induction false} ShadowIsLastRemembered(c: Setup, code: seq<Inst>, s: State)
    requires s.Valid() && After(c, code, s).Next?
    ensures LastRemembered(c, code, s, After(c, code, s).s.shadow)
    decreases |code|
  {
    hide Exec;
    if code != [] {
      var n := |code| - 1;
      var front, i := code[..n], code[n];
      var before, after := After(c, front, s).s, After(c, code, s).s;
      ShadowStep(c, i, before);
      if i.Remember? {
        assert RememberedAt(c, code, s, n, after.shadow);
      } else {
        ShadowIsLastRemembered(c, front, s);
        if !forall j :: 0 <= j < n ==> !front[j].Remember? {
          var k :| 0 <= k < n && RememberedAt(c, front, s, k, before.shadow);
          assert front[..k] == code[..k];
          assert RememberedAt(c, code, s, k, after.shadow);
        }
      }
    }
  }

  lemma ShadowStep(c: Setup, i: Inst, s: State)
    requires s.Valid() && Exec(c, i, s, TWO_64 - 1).Next?
    ensures Exec(c, i, s, TWO_64 - 1).s.shadow == if i.Remember? then s.rt else s.shadow
    ensures s.saved || i.Remember? ==> Exec(c, i, s, TWO_64 - 1).s.saved
  {
    hide Apply;
  }

  /** Behind any program, restore takes the rule remembered last, and is right exactly when that is the
      initial rule. */
  lemma RestoreAfterRemember(c: Setup, code: seq<Inst>, init: Table, pc: uint64, reg: uint64) returns (last: Table)
    requires After(c, code, Start(init, pc)).Next? && reg < |init.rules|
    ensures LastRemembered(c, code, Start(init, pc), last) && |last.rules| == |init.rules|
    ensures var s := After(c, code, Start(init, pc)).s;
      var e := Exec(c, Restore(reg), s, TWO_64 - 1);
      && e.Next? && e.s.rt.rules[reg] == last.rules[reg]
      && (e.s.rt == Apply(c, Restore(reg), s.rt, init) <==> last.rules[reg] == init.rules[reg])
  {
    hide After, LastRemembered;
    ShadowIsLastRemembered(c, code, Start(init, pc));
    var s := After(c, code, Start(init, pc)).s;
    last := s.shadow;
    RestoreDiffers(c, reg, s.rt, s.shadow, init);
  }

  lemma {:induction false} StackIsSaved(c: Setup, code: seq<Inst>, s: State, b: Build, init: Table)
    requires s.Valid() && Fits(b, init) && After(c, code, s).Next? && b.stack == []
    ensures BuildAll(c, code, b, init).stack != [] ==> After(c, code, s).s.saved
    decreases |code|
  {
    hide Exec, Apply, Fits;
    if code != [] {
      var n := |code| - 1;
      StackIsSaved(c, code[..n], s, b, init);
      ShadowStep(c, code[n], After(c, code[..n], s).s);
    }
  }

  /** Behind any program with a state to restore, on which the machine has built the right row so far:
      restore_state brings back the table remembered last, and is right exactly when that is the top of
      the stack of the complete interpretation. */
  lemma RestoreStateExact(c: Setup, code: seq<Inst>, init: Table, pc: uint64) returns (last: Table)
    requires After(c, code, Start(init, pc)).Next?
    requires var b := BuildAll(c, code, Build(init, []), init);
      b.stack != [] && After(c, code, Start(init, pc)).s.rt == b.t
    ensures LastRemembered(c, code, Start(init, pc), last)
    ensures var b := BuildAll(c, code, Build(init, []), init);
      var e := Exec(c, RestoreState, After(c, code, Start(init, pc)).s, TWO_64 - 1);
      && e.Next? && e.s.rt == last
      && (e.s.rt == BuildStep(c, RestoreState, b, init).t <==> last == b.stack[|b.stack| - 1])
  {
    hide After, LastRemembered, BuildAll, Apply;
    ShadowIsLastRemembered(c, code, Start(init, pc));
    StackIsSaved(c, code, Start(init, pc), Build(init, []), init);
    last := After(c, code, Start(init, pc)).s.shadow;
  }

  // ----- set_loc -----

  /** DW_CFA_set_loc ends the run, whatever follows it. What it reports is right for every continuation
      of the program exactly when the new location lies beyond the pc asked for. */
  lemma SetLocEnds(c: Setup, a: uint64, s: State, pcReq: uint64, b: Build, init: Table)
    requires Together(s, b, init) && s.pc <= pcReq
    ensures s.Valid() && Fits(b, init)
    ensures Exec(c, SetLoc(a), s, pcReq) == Exit(s)
    ensures (forall rest :: InForce(FullRows(c, [SetLoc(a)] + rest, s.pc, b, init), pcReq).table == s.rt) <==> pcReq < a
  {
    hide FullRows, InForce, BuildStep;
    forall rest
      ensures pcReq < a ==> InForce(FullRows(c, [SetLoc(a)] + rest, s.pc, b, init), pcReq).table == s.rt
    {
      RowsCons(c, SetLoc(a), rest, s.pc, b, init);
      InForceCons(Row(s.pc, b.t), FullRows(c, rest, a, BuildStep(c, SetLoc(a), b, init), init), pcReq);
    }
    if a <= pcReq {
      var other := [DefCfaOffset(if b.t.cfa.value == 0 then 1 else 0, false)];
      SetLocMisses(c, a, s.pc, pcReq, b, init);
      assert InForce(FullRows(c, [SetLoc(a)] + other, s.pc, b, init), pcReq).table != s.rt;
    }
  }

  /** A change of the CFA behind a set_loc that is reached. */
  lemma SetLocMisses(c: Setup, a: uint64, loc: uint64, pcReq: uint64, b: Build, init: Table)
    requires Fits(b, init) && loc <= pcReq && a <= pcReq
    ensures var i := DefCfaOffset(if b.t.cfa.value == 0 then 1 else 0, false);
      InForce(FullRows(c, [SetLoc(a)] + [i], loc, b, init), pcReq).table != b.t
  {
    hide FullRows, InForce;
    var i := DefCfaOffset(if b.t.cfa.value == 0 then 1 else 0, false);
    var b1 := BuildStep(c, SetLoc(a), b, init);
    RowsCons(c, SetLoc(a), [i], loc, b, init);
    InForceCons(Row(loc, b.t), FullRows(c, [i], a, b1, init), pcReq);
    assert [i] + [] == [i];
    RowsCons(c, i, [], a, b1, init);
    OneRow(c, a, BuildStep(c, i, b1, init), init, pcReq);
    assert b1.t.cfa == b.t.cfa;
    assert BuildStep(c, i, b1, init).t.cfa.value != b.t.cfa.value;
  }

  lemma OneRow(c: Setup, loc: uint64, b: Build, init: Table, pc: uint64)
    requires Fits(b, init) && loc <= pc
    ensures FullRows(c, [], loc, b, init) == [Row(loc, b.t)]
    ensures InForce(FullRows(c, [], loc, b, init), pc) == Row(loc, b.t)
  {
  }

  // ----- locations -----

  /** No advance passes the end of the address space. */
  predicate NoWrap(c: Setup, code: seq<Inst>, loc: uint64) {
    code == [] ||
    match code[0]
    case Advance(d) => loc + d * c.caf < TWO_64 && NoWrap(c, code[1..], loc + d * c.caf)
    case SetLoc(a) => loc <= a && NoWrap(c, code[1..], a)
    case _ => NoWrap(c, code[1..], loc)
  }

  ghost predicate Sorted<T>(rows: seq<Row<T>>) {
    forall i, j :: 0 <= i < j < |rows| ==> rows[i].loc <= rows[j].loc
  }

  lemma SortedCons<T>(r: Row<T>, tail: seq<Row<T>>)
    requires Sorted(tail) && |tail| > 0 && r.loc <= tail[0].loc
    ensures Sorted([r] + tail)
  {
  }

  lemma NoWrapStep(c: Setup, code: seq<Inst>, loc: uint64)
    requires code != [] && NoWrap(c, code, loc)
    ensures var i, rest := code[0], code[1..];
      loc <= LocAfter(c, i, loc) && NoWrap(c, rest, LocAfter(c, i, loc))
  {
  }

  lemma {:induction false} RowsSorted(c: Setup, code: seq<Inst>, loc: uint64, b: Build, init: Table)
    requires Fits(b, init) && NoWrap(c, code, loc)
    ensures Sorted(FullRows(c, code, loc, b, init))
    decreases |code|
  {
    if code != [] {
      hide Fits, RowsOf, Sorted, BuildStep, NoWrap, LocAfter;
      var i, rest := code[0], code[1..];
      NoWrapStep(c, code, loc);
      RowsSorted(c, rest, LocAfter(c, i, loc), BuildStep(c, i, b, init), init);
      if i.Advance? || i.SetLoc? {
        SortedCons(Row(loc, b.t), FullRows(c, rest, LocAfter(c, i, loc), BuildStep(c, i, b, init), init));
      }
    }
  }

  /** The row in force is then the last of all rows that begin at or below pc. */
  lemma InForceIsGreatest<T>(rows: seq<Row<T>>, pc: uint64)
    requires |rows| > 0 && rows[0].loc <= pc && Sorted(rows)
    ensures var k := Before(rows, pc);
      k > 0 && InForce(rows, pc) == rows[k - 1] && forall i :: 0 <= i < |rows| ==> (rows[i].loc <= pc <==> i < k)
  {
    assert Before(rows, pc) > 0;
  }

  lemma ExecBounds(c: Setup, i: Inst, rest: seq<Inst>, s: State, pcReq: uint64, lo: uint64)
    requires s.Valid() && NoWrap(c, [i] + rest, s.pc) && lo <= s.rowPc <= pcReq && lo <= s.pc <= pcReq
    ensures var e := Exec(c, i, s, pcReq);
      && (e.Exit? ==> e.s == s)
      && (e.Next? ==> e.s.Valid() && lo <= e.s.rowPc <= pcReq && lo <= e.s.pc <= pcReq && NoWrap(c, rest, e.s.pc))
  {
    hide Apply, NoWrap, InRange;
    assert ([i] + rest)[1..] == rest;
    NoWrapStep(c, [i] + rest, s.pc);
  }

  /** `*row_pc` lies between the first location and the requested one. */
  lemma {:induction false} RowPcBounds(c: Setup, insts: seq<byte>, p: nat, s: State, pcReq: uint64, lo: uint64)
    requires s.Valid() && DecodeFrom(c, insts, p).Got? && NoWrap(c, DecodeFrom(c, insts, p).value, s.pc)
    requires lo <= s.rowPc <= pcReq && lo <= s.pc <= pcReq
    ensures Run(c, insts, p, s, pcReq).Done? ==> lo <= Run(c, insts, p, s, pcReq).rowPc <= pcReq
    decreases |insts| - p
  {
    hide Decode, Apply, NoWrap, Exec;
    if p < |insts| {
      var i, n := Decode(c, insts, p).value, Decode(c, insts, p).size;
      var rest := DecodeFrom(c, insts, p + n).value;
      assert DecodeFrom(c, insts, p).value == [i] + rest;
      ExecBounds(c, i, rest, s, pcReq, lo);
      var e := Exec(c, i, s, pcReq);
      if e.Next? {
        RowPcBounds(c, insts, p + n, e.s, pcReq, lo);
      }
    }
  }

  // ----- CIE and FDE together -----

  function Blank(size: nat): Table {
    Table(ZERO_ENTRY, seq(size, _ => ZERO_ENTRY.(regnum := DW_FRAME_SAME_VAL)))
  }

  /** `_dwarf_frame_get_internal_table`: the CIE's instructions without a limit, then the FDE's. */
  function InternalTable(cie: Setup, initInst: seq<byte>, fde: Setup, inst: seq<byte>, initloc: uint64,
                         pcReq: uint64, size: nat): Outcome
  {
    match Run(cie, initInst, 0, Start(Blank(size), 0), TWO_64 - 1)
    case Undefined => Undefined
    case Failed(code) => Failed(code)
    case Done(rt, rowPc) =>
      if pcReq >= initloc then Run(fde, inst, 0, Start(rt, initloc), pcReq) else Done(rt, rowPc)
  }

  /** The rules after the initial instructions: the last row of the CIE's table. */
  function InitialRules(cie: Setup, code: seq<Inst>, size: nat): (t: Table)
    ensures |t.rules| == size
  {
    var rows := FullRows(cie, code, 0, Build(Blank(size), []), Blank(size));
    rows[|rows| - 1].table
  }

  /** For programs on which one shadow suffices, the table reported for pc is the row in force at pc of
      the FDE's complete table, built on the rules that the CIE's complete table ends with. */
  lemma InternalTableIsRowInForce(cie: Setup, initInst: seq<byte>, fde: Setup, inst: seq<byte>, initloc: uint64,
                                  pcReq: uint64, size: nat)
    requires DecodeFrom(cie, initInst, 0).Got? && DecodeFrom(fde, inst, 0).Got? && initloc <= pcReq
    requires Sound(cie, DecodeFrom(cie, initInst, 0).value, Build(Blank(size), []), Blank(size), Blank(size))
    requires var init := InitialRules(cie, DecodeFrom(cie, initInst, 0).value, size);
      Sound(fde, DecodeFrom(fde, inst, 0).value, Build(init, []), init, init)
    ensures var init := InitialRules(cie, DecodeFrom(cie, initInst, 0).value, size);
      var code := DecodeFrom(fde, inst, 0).value;
      var out := InternalTable(cie, initInst, fde, inst, initloc, pcReq, size);
      && out.Done?
      && out.rt == InForce(FullRows(fde, code, initloc, Build(init, []), init), pcReq).table
      && (NoWrap(fde, code, initloc) ==> initloc <= out.rowPc <= pcReq)
  {
    hide Run, DecodeFrom, FullRows, Sound;
    var blank := Blank(size);
    EarlyExitIsRowInForce(cie, initInst, 0, Start(blank, 0), TWO_64 - 1, Build(blank, []), blank);
    var rows := FullRows(cie, DecodeFrom(cie, initInst, 0).value, 0, Build(blank, []), blank);
    assert Before(rows, TWO_64 - 1) == |rows|;
    var init := InitialRules(cie, DecodeFrom(cie, initInst, 0).value, size);
    EarlyExitIsRowInForce(fde, inst, 0, Start(init, initloc), pcReq, Build(init, []), init);
    if NoWrap(fde, DecodeFrom(fde, inst, 0).value, initloc) {
      RowPcBounds(fde, inst, 0, Start(init, initloc), pcReq, initloc);
    }
  }
}
