/** The matrix that section 6.2 of DWARF 4 makes of a line-number program, with a row for every
    end_sequence, and when the answer of the machine is the row of the sequence that holds the pc. */
module LineMatrix {
  import opened Machine
  import opened Leb128
  import opened FixedWidth
  import opened LineProgram

  /** The rows that opcodes make, and one more for every end_sequence. */
  function Matrix(h: Params, ops: seq<Op>, r: Regs): seq<Row>
    requires forall i :: 0 <= i < |ops| ==> Executable(h, ops[i])
  {
    if ops == [] then []
    else
      var m := Moved(h, ops[0], r);
      if MakesRow(ops[0]) then [RowOf(m)] + Matrix(h, ops[1..], AfterRow(m))
      else if ops[0].EndSequence? then [RowOf(r).(endseq := true)] + Matrix(h, ops[1..], m)
      else Matrix(h, ops[1..], m)
  }

  /** The instructions from row i up to the next row hold pc. */
  predicate HoldsPc(rows: seq<Row>, pc: uint64, i: nat) {
    i + 1 < |rows| && !rows[i].endseq && rows[i].addr <= pc < rows[i + 1].addr
  }

  /** The row the standard assigns to pc: the first that holds it, or none. */
  function StandardRow(rows: seq<Row>, pc: uint64): (i: nat)
    ensures i <= |rows|
  {
    if rows == [] || HoldsPc(rows, pc, 0) then 0 else StandardRow(rows[1..], pc) + 1
  }

  lemma {:induction false} StandardIsFirst(rows: seq<Row>, pc: uint64)
    ensures forall j :: 0 <= j < StandardRow(rows, pc) ==> !HoldsPc(rows, pc, j)
    ensures StandardRow(rows, pc) < |rows| ==> HoldsPc(rows, pc, StandardRow(rows, pc))
  {
    if rows != [] && !HoldsPc(rows, pc, 0) {
      StandardIsFirst(rows[1..], pc);
      assert forall j :: 1 <= j < |rows| ==> rows[j] == rows[1..][j - 1];
      assert forall j :: 1 <= j < |rows| ==> (HoldsPc(rows, pc, j) <==> HoldsPc(rows[1..], pc, j - 1));
    }
  }

  // ----- the rows of the machine -----

  /** The rows that do not end a sequence. */
  function Plain(rows: seq<Row>): (p: seq<Row>)
    ensures |p| <= |rows|
  {
    if rows == [] then [] else (if rows[0].endseq then [] else [rows[0]]) + Plain(rows[1..])
  }

  lemma PlainCons(row: Row, rows: seq<Row>)
    ensures Plain([row] + rows) == (if row.endseq then [] else [row]) + Plain(rows)
  {
    assert ([row] + rows)[1..] == rows;
  }

  /** The machine makes exactly the rows of the matrix that end no sequence. */
  lemma {:induction false} RowsArePlain(h: Params, ops: seq<Op>, r: Regs)
    requires forall i :: 0 <= i < |ops| ==> Executable(h, ops[i])
    ensures Rows(h, ops, r) == Plain(Matrix(h, ops, r))
  {
    hide Moved;
    if ops != [] {
      var m := Moved(h, ops[0], r);
      var next := if MakesRow(ops[0]) then AfterRow(m) else m;
      RowsArePlain(h, ops[1..], next);
      PlainCons(RowOf(m), Matrix(h, ops[1..], next));
      PlainCons(RowOf(r).(endseq := true), Matrix(h, ops[1..], next));
    }
  }

  lemma ConsSplit(a: seq<Row>, b: seq<Row>)
    requires a != []
    ensures a == [a[0]] + a[1..] && a + b == [a[0]] + (a[1..] + b)
  {
  }

  lemma {:induction false} PlainSplit(a: seq<Row>, b: seq<Row>)
    ensures Plain(a + b) == Plain(a) + Plain(b)
  {
    hide Plain;
    if a == [] {
      NoRows();
      assert a + b == b;
    } else {
      PlainSplit(a[1..], b);
      ConsSplit(a, b);
      PlainCons(a[0], a[1..]);
      PlainCons(a[0], a[1..] + b);
    }
  }

  lemma {:induction false} PlainMembers(rows: seq<Row>)
    ensures forall x :: x in Plain(rows) <==> x in rows && !x.endseq
  {
    if rows != [] {
      PlainMembers(rows[1..]);
      assert rows == [rows[0]] + rows[1..];
    }
  }

  /** Rows that do not go beyond pc are all passed over. */
  lemma {:induction false} BeforeSplit(a: seq<Row>, b: seq<Row>, pc: uint64)
    requires forall x :: x in a ==> x.addr <= pc
    ensures Before(a + b, pc) == |a| + Before(b, pc)
  {
    if a == [] {
      assert a + b == b;
    } else {
      BeforeSplit(a[1..], b, pc);
      assert (a + b)[1..] == a[1..] + b;
    }
  }

  /** The lookup ends between a and b exactly when nothing in a, and the first of b, goes beyond pc. */
  lemma BeforeExact(a: seq<Row>, b: seq<Row>, pc: uint64)
    ensures Before(a + b, pc) == |a| <==> (forall x :: x in a ==> x.addr <= pc) && (b == [] || b[0].addr > pc)
  {
    if Before(a + b, pc) == |a| {
      BeforeSplits(a + b, pc);
      assert forall k :: 0 <= k < |a| ==> (a + b)[k] == a[k];
    } else if forall x :: x in a ==> x.addr <= pc {
      BeforeSplit(a, b, pc);
    }
  }

  // ----- when the answer is the standard's -----

  /** The machine answers with row i of the matrix, having counted the rows up to it; or with no row, if
      there is no row i. */
  ghost predicate Answers(run: Result, rows: seq<Row>, i: nat) {
    if i < |rows| then run == Done(rows[i], |Plain(rows[..i + 1])|) else run == Done(NO_ROW, 0)
  }

  /** The first row that ends no sequence lies beyond pc, if there is one. */
  predicate StartsBeyond(rows: seq<Row>, pc: uint64) {
    Plain(rows) == [] || Plain(rows)[0].addr > pc
  }

  /** No row up to the i-th lies beyond pc, other than to end a sequence, and the next one that ends none
      does. If there is no row i, the first one does. */
  ghost predicate Reached(rows: seq<Row>, pc: uint64, i: nat) {
    if i < |rows| then
      && (forall j :: 0 <= j <= i && !rows[j].endseq ==> rows[j].addr <= pc)
      && StartsBeyond(rows[i + 1..], pc)
    else StartsBeyond(rows, pc)
  }

  lemma Around(rows: seq<Row>, i: nat)
    requires i < |rows|
    ensures rows == rows[..i + 1] + rows[i + 1..] && rows[..i + 1] == rows[..i] + [rows[i]]
  {
  }

  lemma PlainOne(row: Row)
    requires !row.endseq
    ensures Plain([row]) == [row]
  {
  }

  lemma PlainUpTo(rows: seq<Row>, i: nat)
    requires i < |rows| && !rows[i].endseq
    ensures Plain(rows) == Plain(rows[..i + 1]) + Plain(rows[i + 1..])
    ensures Plain(rows[..i + 1]) == Plain(rows[..i]) + [rows[i]]
  {
    hide Plain;
    Around(rows, i);
    PlainSplit(rows[..i + 1], rows[i + 1..]);
    PlainSplit(rows[..i], [rows[i]]);
    PlainOne(rows[i]);
  }

  lemma NoRows()
    ensures Plain([]) == []
  {
  }

  /** The lookup in the machine's rows is the row wanted exactly when that is reached. */
  lemma LookupExact(rows: seq<Row>, pc: uint64, i: nat)
    requires i < |rows| ==> !rows[i].endseq
    ensures Answers(Done(AnswerFrom(Plain(rows), pc), Before(Plain(rows), pc)), rows, i) <==> Reached(rows, pc, i)
  {
    hide Plain, Before;
    if i < |rows| {
      var a, b := Plain(rows[..i + 1]), Plain(rows[i + 1..]);
      PlainUpTo(rows, i);
      PlainMembers(rows[..i + 1]);
      BeforeExact(a, b, pc);
      assert forall j :: 0 <= j <= i ==> rows[j] == rows[..i + 1][j];
    } else {
      BeforeExact([], Plain(rows), pc);
      assert [] + Plain(rows) == Plain(rows);
    }
  }

  /** The machine makes no row at the end of a sequence, and goes from one sequence to the next without a
      look at where they lie. On a program of any number of sequences, in any order, its answer is the row
      the standard assigns to pc exactly when no row in front of that one lies beyond pc and the next one
      does; where the standard assigns none, exactly when the first row lies beyond pc. */
  lemma EndSequenceMissed(h: Params, s: seq<byte>, pc: uint64)
    requires DecodeAll(h, s).Got?
    ensures var rows := Matrix(h, DecodeAll(h, s).value, ResetRegs(h));
      var i := StandardRow(rows, pc);
      Answers(Run(h, s, ResetRegs(h), pc, NO_ROW, 0), rows, i) <==> Reached(rows, pc, i)
  {
    hide Run, DecodeAll, Rows, Matrix, LastBefore, Before, Answers, Reached, Plain;
    var ops := DecodeAll(h, s).value;
    var rows := Matrix(h, ops, ResetRegs(h));
    EarlyExitIsLookup(h, s, ResetRegs(h), pc, NO_ROW, 0);
    RowsArePlain(h, ops, ResetRegs(h));
    StandardIsFirst(rows, pc);
    LookupExact(rows, pc, StandardRow(rows, pc));
  }

  /** In a matrix whose addresses never fall, every pc that lies in a sequence is answered right. */
  lemma RisingIsReached(rows: seq<Row>, pc: uint64)
    requires Nondecreasing(rows) && StandardRow(rows, pc) < |rows|
    ensures Reached(rows, pc, StandardRow(rows, pc))
  {
    hide Plain;
    hide StandardRow;
    var i := StandardRow(rows, pc);
    StandardIsFirst(rows, pc);
    var tail := rows[i + 1..];
    PlainMembers(tail);
    if Plain(tail) != [] {
      assert Plain(tail)[0] in tail;
      var k :| 0 <= k < |tail| && tail[k] == Plain(tail)[0];
      assert tail[k] == rows[i + 1 + k];
    }
  }

  // ----- sequences in falling order -----

  /** A sequence of one row at a, for eight bytes. */
  function OneRow(h: Params, a: uint64): seq<byte> {
    [0, 9, DW_LNE_SET_ADDRESS] + EncodeFixed(h.order, a, 8) + [DW_LNS_COPY, DW_LNS_ADVANCE_PC, 8]
    + [0, 1, DW_LNE_END_SEQUENCE]
  }

  function OneRowOps(a: uint64): seq<Op> {
    [SetAddress(a), Copy, AdvancePc(8), EndSequence]
  }

  predicate Ordinary(h: Params) {
    h.addrSize == 8 && h.minlen == 1 && h.opbase > DW_LNS_ADVANCE_PC
  }

  lemma ByteNumber(v: byte, rest: seq<byte>)
    requires v < 128
    ensures Uleb([v] + rest) == Got(v, 1)
  {
    assert EncodeUleb(v) == [v] && EncodeUleb(v) <= [v] + rest;
    UlebRoundTrip(v, [v] + rest);
  }

  lemma ShortOps(h: Params)
    requires Ordinary(h)
    ensures DecodeAll(h, [DW_LNS_COPY]) == Got([Copy], 1)
    ensures DecodeAll(h, [DW_LNS_ADVANCE_PC, 8]) == Got([AdvancePc(8)], 2)
    ensures DecodeAll(h, [0, 1, DW_LNE_END_SEQUENCE]) == Got([EndSequence], 3)
  {
    hide Uleb;
    ByteNumber(8, []);
    ByteNumber(1, [DW_LNE_END_SEQUENCE]);
    assert [DW_LNS_ADVANCE_PC, 8][1..] == [8] + [];
    assert [0, 1, DW_LNE_END_SEQUENCE][1..] == [1] + [DW_LNE_END_SEQUENCE];
  }

  lemma AddressOp(h: Params, a: uint64)
    requires Ordinary(h)
    ensures var s := [0, 9, DW_LNE_SET_ADDRESS] + EncodeFixed(h.order, a, 8);
      DecodeAll(h, s) == Got([SetAddress(a)], |s|)
  {
    hide Uleb, ReadFixed, EncodeFixed;
    var e := EncodeFixed(h.order, a, 8);
    var s := [0, 9, DW_LNE_SET_ADDRESS] + e;
    ByteNumber(9, [DW_LNE_SET_ADDRESS] + e);
    assert s[1..] == [9] + ([DW_LNE_SET_ADDRESS] + e) && s[1..][2..] == e;
    Pow2Values();
    FixedRoundTrip(h.order, a, 8, e);
  }

  lemma OneRowDecodes(h: Params, a: uint64)
    requires Ordinary(h)
    ensures DecodeAll(h, OneRow(h, a)) == Got(OneRowOps(a), |OneRow(h, a)|)
  {
    hide DecodeAll, EncodeFixed;
    var s1, s2 := [0, 9, DW_LNE_SET_ADDRESS] + EncodeFixed(h.order, a, 8), [DW_LNS_COPY];
    var s3, s4 := [DW_LNS_ADVANCE_PC, 8], [0, 1, DW_LNE_END_SEQUENCE];
    AddressOp(h, a);
    ShortOps(h);
    DecodeConcat(h, s3, s4);
    DecodeConcat(h, s2, s3 + s4);
    DecodeConcat(h, s1, s2 + (s3 + s4));
    assert OneRow(h, a) == s1 + (s2 + (s3 + s4));
    assert [SetAddress(a)] + ([Copy] + ([AdvancePc(8)] + [EndSequence])) == OneRowOps(a);
  }

  lemma OneRowMatrix(h: Params, a: uint64, rest: seq<Op>)
    requires h.minlen == 1 && a + 8 < TWO_64 && forall i :: 0 <= i < |rest| ==> Executable(h, rest[i])
    ensures forall i :: 0 <= i < |OneRowOps(a) + rest| ==> Executable(h, (OneRowOps(a) + rest)[i])
    ensures var row := RowOf(ResetRegs(h).(address := a));
      Matrix(h, OneRowOps(a) + rest, ResetRegs(h))
      == [row, row.(addr := a + 8, endseq := true)] + Matrix(h, rest, ResetRegs(h))
  {
    hide Matrix, Moved, AfterRow, RowOf, ToU64, ResetRegs, Executable;
    OneRowMoves(h, a);
    FourOps(SetAddress(a), Copy, AdvancePc(8), EndSequence, rest);
    var move := [AdvancePc(8)] + ([EndSequence] + rest);
    var r := ResetRegs(h).(address := a);
    EndOfRow(h, a, rest);
    MatrixStep(h, Copy, move, r);
    MatrixStep(h, SetAddress(a), [Copy] + move, ResetRegs(h));
    TwoRows(RowOf(r), RowOf(r).(addr := a + 8, endseq := true), Matrix(h, rest, ResetRegs(h)));
  }

  lemma EndOfRow(h: Params, a: uint64, rest: seq<Op>)
    requires h.minlen == 1 && a + 8 < TWO_64 && forall i :: 0 <= i < |rest| ==> Executable(h, rest[i])
    ensures var ops := [AdvancePc(8)] + ([EndSequence] + rest);
      forall i :: 0 <= i < |ops| ==> Executable(h, ops[i])
    ensures var r := ResetRegs(h).(address := a);
      Matrix(h, [AdvancePc(8)] + ([EndSequence] + rest), r)
      == [RowOf(r).(addr := a + 8, endseq := true)] + Matrix(h, rest, ResetRegs(h))
  {
    hide Matrix, Moved, AfterRow, RowOf, ToU64, ResetRegs, Executable;
    OneRowMoves(h, a);
    var r := ResetRegs(h).(address := a);
    MatrixStep(h, EndSequence, rest, r.(address := a + 8));
    MatrixStep(h, AdvancePc(8), [EndSequence] + rest, r);
  }

  lemma OneRowMoves(h: Params, a: uint64)
    requires h.minlen == 1 && a + 8 < TWO_64
    ensures var r := ResetRegs(h).(address := a);
      && Moved(h, SetAddress(a), ResetRegs(h)) == r == Moved(h, Copy, r) == AfterRow(r)
      && Moved(h, AdvancePc(8), r) == r.(address := a + 8)
      && RowOf(r.(address := a + 8)) == RowOf(r).(addr := a + 8)
      && Moved(h, EndSequence, r.(address := a + 8)) == ResetRegs(h)
      && Executable(h, SetAddress(a)) && Executable(h, Copy)
      && Executable(h, AdvancePc(8)) && Executable(h, EndSequence)
  {
  }

  lemma FourOps(a: Op, b: Op, c: Op, d: Op, rest: seq<Op>)
    ensures [a, b, c, d] + rest == [a] + ([b] + ([c] + ([d] + rest)))
  {
  }

  lemma TwoRows(a: Row, b: Row, rest: seq<Row>)
    ensures [a, b] + rest == [a] + ([b] + rest)
  {
  }

  lemma MatrixStep(h: Params, op: Op, ops: seq<Op>, r: Regs)
    requires Executable(h, op) && forall i :: 0 <= i < |ops| ==> Executable(h, ops[i])
    ensures forall i :: 0 <= i < |[op] + ops| ==> Executable(h, ([op] + ops)[i])
    ensures var m := Moved(h, op, r);
      Matrix(h, [op] + ops, r)
      == if MakesRow(op) then [RowOf(m)] + Matrix(h, ops, AfterRow(m))
         else (if op.EndSequence? then [RowOf(r).(endseq := true)] else []) + Matrix(h, ops, m)
  {
    hide Moved;
    assert ([op] + ops)[1..] == ops;
    assert [] + Matrix(h, ops, Moved(h, op, r)) == Matrix(h, ops, Moved(h, op, r));
  }

  /** Two sequences, the higher one first: the standard assigns the lower one's row to its eight bytes, and
      the machine answers that there is none. */
  lemma FallingSequences(h: Params, low: uint64, high: uint64, pc: uint64)
    requires Ordinary(h) && low + 8 <= high && high + 8 < TWO_64 && low <= pc < low + 8
    ensures var s := OneRow(h, high) + OneRow(h, low);
      && DecodeAll(h, s).Got?
      && var rows := Matrix(h, DecodeAll(h, s).value, ResetRegs(h));
      && StandardRow(rows, pc) == 2 && |rows| == 4 && rows[2].addr == low
      && Run(h, s, ResetRegs(h), pc, NO_ROW, 0) == Done(NO_ROW, 0)
  {
    hide DecodeAll, Run, OneRow, Matrix, Rows;
    var s := OneRow(h, high) + OneRow(h, low);
    OneRowDecodes(h, high);
    OneRowDecodes(h, low);
    DecodeConcat(h, OneRow(h, high), OneRow(h, low));
    var ops := OneRowOps(high) + OneRowOps(low);
    assert OneRowOps(low) + [] == OneRowOps(low);
    OneRowMatrix(h, low, []);
    OneRowMatrix(h, high, OneRowOps(low));
    NoOps(h);
    var rows := Matrix(h, ops, ResetRegs(h));
    assert |rows| == 4;
    EarlyExitIsLookup(h, s, ResetRegs(h), pc, NO_ROW, 0);
    RowsArePlain(h, ops, ResetRegs(h));
    FirstPlain(rows);
    ThirdHolds(rows, pc);
  }

  lemma NoOps(h: Params)
    ensures Matrix(h, [], ResetRegs(h)) == []
  {
  }

  lemma FirstPlain(rows: seq<Row>)
    requires rows != [] && !rows[0].endseq
    ensures Plain(rows) != [] && Plain(rows)[0] == rows[0]
  {
  }

  lemma ThirdHolds(rows: seq<Row>, pc: uint64)
    requires |rows| == 4 && HoldsPc(rows, pc, 2) && !HoldsPc(rows, pc, 0) && !HoldsPc(rows, pc, 1)
    ensures StandardRow(rows, pc) == 2
  {
    StandardIsFirst(rows, pc);
    var i := StandardRow(rows, pc);
    assert !(i > 2);
    assert HoldsPc(rows, pc, i);
  }
}
