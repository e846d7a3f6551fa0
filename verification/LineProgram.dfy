/** The line-number machine of `_dwarf_lineno_run_program`: decoding and execution of its opcodes,
    the early exit at a requested pc, and its relation to the full row matrix of section 6.2. */
module LineProgram {
  import opened Machine
  import opened Leb128
  import opened FixedWidth

  const DW_LNS_COPY := 0x01
  const DW_LNS_ADVANCE_PC := 0x02
  const DW_LNS_ADVANCE_LINE := 0x03
  const DW_LNS_SET_FILE := 0x04
  const DW_LNS_SET_COLUMN := 0x05
  const DW_LNS_NEGATE_STMT := 0x06
  const DW_LNS_SET_BASIC_BLOCK := 0x07
  const DW_LNS_CONST_ADD_PC := 0x08
  const DW_LNS_FIXED_ADVANCE_PC := 0x09
  const DW_LNS_SET_PROLOGUE_END := 0x0a
  const DW_LNS_SET_EPILOGUE_BEGIN := 0x0b
  const DW_LNS_SET_ISA := 0x0c

  const DW_LNE_END_SEQUENCE := 0x01
  const DW_LNE_SET_ADDRESS := 0x02
  const DW_LNE_DEFINE_FILE := 0x03

  /** What the program header fixes: minimum instruction length, default statement flag, and the
      line base, line range and opcode base of special opcodes. */
  datatype Params = Params(minlen: byte, defstmt: byte, lbase: int, lrange: byte, opbase: byte,
                           order: Endian, addrSize: int)
  {
    predicate Valid() { -128 <= lbase < 128 }
  }

  /** The registers of the machine. */
  datatype Regs = Regs(address: uint64, file: uint64, line: uint64, column: uint64, stmt: int,
                       block: bool, prologueEnd: bool, epilogueBegin: bool)

  /** `_Dwarf_Line`. */
  datatype Row = Row(addr: uint64, symndx: nat, fileno: uint64, lineno: uint64, column: int64, bblock: bool,
                     stmt: int, endseq: bool)

  const NO_ROW := Row(0, 0, 0, 0, 0, false, 0, false)

  function ResetRegs(h: Params): Regs {
    Regs(0, 1, 1, 0, h.defstmt, false, false, false)
  }

  /** The row the registers describe; the end_sequence register is always clear when a row is made. */
  function RowOf(r: Regs): Row {
    Row(r.address, 0, r.file, r.line, Signed64(r.column), r.block, r.stmt, false)
  }

  // ----- opcodes -----

  datatype Op =
    | EndSequence
    | SetAddress(a: uint64)
    | DefineFile
    | Skip
    | Copy
    | AdvancePc(n: uint64)
    | AdvanceLine(d: int64)
    | SetFile(n: uint64)
    | SetColumn(n: uint64)
    | NegateStmt
    | SetBasicBlock
    | ConstAddPc
    | FixedAdvancePc(n: uint64)
    | SetPrologueEnd
    | SetEpilogueBegin
    | Special(code: byte)

  /** Length of a NUL-terminated string with its terminator. */
  function StringSize(s: seq<byte>): (r: Read<nat>)
    ensures r.Got? ==> 0 < r.value <= |s|
  {
    if s == [] then Fault
    else if s[0] == 0 then Got(1, 0)
    else
      match StringSize(s[1..])
      case Fault => Fault
      case Got(n, _) => Got(n + 1, 0)
  }

  /** `_dwarf_lineno_add_file`: a name and three numbers, all passed over. */
  function FileSize(s: seq<byte>): (r: Read<nat>)
    ensures r.Got? ==> 0 < r.value <= |s|
  {
    match StringSize(s)
    case Fault => Fault
    case Got(n, _) =>
      match Uleb(s[n..])
      case Fault => Fault
      case Got(_, a) =>
        match Uleb(s[n + a..])
        case Fault => Fault
        case Got(_, b) =>
          match Uleb(s[n + a + b..])
          case Fault => Fault
          case Got(_, c) => Got(n + a + b + c, 0)
  }

  /** An extended opcode, after its introducing zero byte. The length is heeded only for opcodes the
      machine does not know; these may reach past the end of the program. */
  function DecodeExtended(h: Params, s: seq<byte>): (r: Read<Op>)
    ensures r.Got? ==> 0 < r.size
  {
    match Uleb(s)
    case Fault => Fault
    case Got(opsize, n) =>
      if n >= |s| then Fault
      else if s[n] == DW_LNE_END_SEQUENCE then Got(EndSequence, n + 1)
      else if s[n] == DW_LNE_SET_ADDRESS then
        match ReadFixed(h.order, s[n + 1..], h.addrSize)
        case Fault => Fault
        case Got(a, k) => Got(SetAddress(a), n + 1 + k)
      else if s[n] == DW_LNE_DEFINE_FILE then
        match FileSize(s[n + 1..])
        case Fault => Fault
        case Got(k, _) => Got(DefineFile, n + 1 + k)
      else Got(Skip, n + opsize)
  }

  /** A standard opcode, after its own byte. One unknown to the machine is taken to have no operands. */
  function DecodeStandard(h: Params, code: byte, s: seq<byte>): (r: Read<Op>) {
    if code == DW_LNS_COPY then Got(Copy, 0)
    else if code == DW_LNS_NEGATE_STMT then Got(NegateStmt, 0)
    else if code == DW_LNS_SET_BASIC_BLOCK then Got(SetBasicBlock, 0)
    else if code == DW_LNS_CONST_ADD_PC then (if h.lrange == 0 then Fault else Got(ConstAddPc, 0))
    else if code == DW_LNS_SET_PROLOGUE_END then Got(SetPrologueEnd, 0)
    else if code == DW_LNS_SET_EPILOGUE_BEGIN then Got(SetEpilogueBegin, 0)
    else if code == DW_LNS_ADVANCE_LINE then
      match Sleb(s)
      case Fault => Fault
      case Got(d, n) => Got(AdvanceLine(d), n)
    else if code == DW_LNS_FIXED_ADVANCE_PC then
      match ReadFixed(h.order, s, 2)
      case Fault => Fault
      case Got(v, n) => Got(FixedAdvancePc(v), n)
    else if code in {DW_LNS_ADVANCE_PC, DW_LNS_SET_FILE, DW_LNS_SET_COLUMN, DW_LNS_SET_ISA} then
      match Uleb(s)
      case Fault => Fault
      case Got(v, n) =>
        Got(if code == DW_LNS_ADVANCE_PC then AdvancePc(v) else if code == DW_LNS_SET_FILE then SetFile(v)
            else if code == DW_LNS_SET_COLUMN then SetColumn(v) else Skip, n)
    else Got(Skip, 0)
  }

  function Decode(h: Params, s: seq<byte>): (r: Read<Op>)
    requires s != []
    ensures r.Got? ==> 0 < r.size
  {
    if s[0] == 0 then
      match DecodeExtended(h, s[1..])
      case Fault => Fault
      case Got(op, n) => Got(op, n + 1)
    else if s[0] < h.opbase then
      match DecodeStandard(h, s[0], s[1..])
      case Fault => Fault
      case Got(op, n) => Got(op, n + 1)
    else if h.lrange == 0 then Fault
    else Got(Special(s[0]), 1)
  }

  /** LINE(x) and ADDRESS(x). */
  function LineDelta(h: Params, x: int): int
    requires h.lrange > 0
  {
    h.lbase + (x - h.opbase) % h.lrange
  }

  function AddressDelta(h: Params, x: int): int
    requires h.lrange > 0
  {
    ((x - h.opbase) / h.lrange) * h.minlen
  }

  predicate Executable(h: Params, op: Op) {
    op.Special? || op.ConstAddPc? ==> h.lrange > 0
  }

  /** The registers when a row is made, or after an opcode that makes none. */
  function Moved(h: Params, op: Op, r: Regs): Regs
    requires Executable(h, op)
  {
    match op
    case EndSequence => ResetRegs(h)
    case SetAddress(a) => r.(address := a)
    case AdvancePc(n) => r.(address := ToU64(r.address + n * h.minlen))
    case AdvanceLine(d) => r.(line := ToU64(r.line + d))
    case SetFile(n) => r.(file := n)
    case SetColumn(n) => r.(column := n)
    case NegateStmt => r.(stmt := if r.stmt == 0 then 1 else 0)
    case SetBasicBlock => r.(block := true)
    case ConstAddPc => r.(address := ToU64(r.address + AddressDelta(h, 255)))
    case FixedAdvancePc(n) => r.(address := ToU64(r.address + n))
    case SetPrologueEnd => r.(prologueEnd := true)
    case SetEpilogueBegin => r.(epilogueBegin := true)
    case Special(x) =>
      r.(line := ToU64(r.line + LineDelta(h, x)), address := ToU64(r.address + AddressDelta(h, x)))
    case _ => r
  }

  predicate MakesRow(op: Op) { op.Copy? || op.Special? }

  function AfterRow(r: Regs): Regs {
    r.(block := false, prologueEnd := false, epilogueBegin := false)
  }

  lemma DecodeExecutable(h: Params, s: seq<byte>)
    requires s != [] && Decode(h, s).Got?
    ensures Executable(h, Decode(h, s).value)
  {
    hide Uleb, Sleb, ReadFixed, FileSize;
  }

  // ----- the machine, with its early exit -----

  datatype Result = Undefined | Done(row: Row, count: nat)

  function Run(h: Params, s: seq<byte>, r: Regs, pc: uint64, row: Row, count: nat): Result
    decreases |s|
  {
    if s == [] then Done(row, count)
    else
      match Decode(h, s)
      case Fault => Undefined
      case Got(op, n) =>
        DecodeExecutable(h, s);
        var m := Moved(h, op, r);
        var rest := if n >= |s| then [] else s[n..];
        if !MakesRow(op) then Run(h, rest, m, pc, row, count)
        else if pc < m.address then Done(row, count)
        else Run(h, rest, AfterRow(m), pc, RowOf(m), count + 1)
  }

  // ----- the full row matrix -----

  /** All opcodes of a program, and the bytes they take. */
  function DecodeAll(h: Params, s: seq<byte>): (r: Read<seq<Op>>)
    ensures r.Got? ==> r.size >= |s| && forall i :: 0 <= i < |r.value| ==> Executable(h, r.value[i])
  {
    if s == [] then Got([], 0)
    else
      match Decode(h, s)
      case Fault => Fault
      case Got(op, n) =>
        DecodeExecutable(h, s);
        if n >= |s| then Got([op], n)
        else
          match DecodeAll(h, s[n..])
          case Fault => Fault
          case Got(ops, m) => Got([op] + ops, n + m)
  }

  /** Every row a program makes when it is executed to its end. */
  function Rows(h: Params, ops: seq<Op>, r: Regs): seq<Row>
    requires forall i :: 0 <= i < |ops| ==> Executable(h, ops[i])
  {
    if ops == [] then []
    else
      var m := Moved(h, ops[0], r);
      if MakesRow(ops[0]) then [RowOf(m)] + Rows(h, ops[1..], AfterRow(m)) else Rows(h, ops[1..], m)
  }

  /** Number of rows before the first whose address exceeds pc. */
  function Before(rows: seq<Row>, pc: uint64): (k: nat)
    ensures k <= |rows|
  {
    if rows == [] || pc < rows[0].addr then 0 else Before(rows[1..], pc) + 1
  }

  lemma {:induction false} BeforeSplits(rows: seq<Row>, pc: uint64)
    ensures forall i :: 0 <= i < Before(rows, pc) ==> rows[i].addr <= pc
    ensures Before(rows, pc) < |rows| ==> rows[Before(rows, pc)].addr > pc
    decreases |rows|
  {
    if rows != [] && pc >= rows[0].addr {
      BeforeSplits(rows[1..], pc);
      assert forall i :: 1 <= i < Before(rows, pc) ==> rows[i] == rows[1..][i - 1];
    }
  }

  lemma BeforeCons(m: Regs, tail: seq<Row>, pc: uint64)
    ensures Before([RowOf(m)] + tail, pc) == if pc < m.address then 0 else Before(tail, pc) + 1
  {
    assert ([RowOf(m)] + tail)[1..] == tail;
  }

  /** One opcode of a program that decodes. */
  lemma DecodeAllStep(h: Params, s: seq<byte>)
    requires s != [] && DecodeAll(h, s).Got?
    ensures Decode(h, s).Got? && Executable(h, Decode(h, s).value)
    ensures var rest := Rest(s, Decode(h, s).size);
      && DecodeAll(h, rest).Got? && DecodeAll(h, s).value == [Decode(h, s).value] + DecodeAll(h, rest).value
  {
    hide Decode;
    DecodeExecutable(h, s);
  }

  function Rest(s: seq<byte>, n: nat): seq<byte> {
    if n >= |s| then [] else s[n..]
  }

  lemma RunStep(h: Params, s: seq<byte>, r: Regs, pc: uint64, row: Row, count: nat)
    requires s != [] && Decode(h, s).Got? && Executable(h, Decode(h, s).value)
    ensures var op, rest := Decode(h, s).value, Rest(s, Decode(h, s).size);
      var m := Moved(h, op, r);
      Run(h, s, r, pc, row, count) ==
      if !MakesRow(op) then Run(h, rest, m, pc, row, count)
      else if pc < m.address then Done(row, count)
      else Run(h, rest, AfterRow(m), pc, RowOf(m), count + 1)
  {
    hide Decode, Moved;
  }

  lemma RowsStep(h: Params, op: Op, ops: seq<Op>, r: Regs)
    requires Executable(h, op) && forall i :: 0 <= i < |ops| ==> Executable(h, ops[i])
    ensures var m := Moved(h, op, r);
      Rows(h, [op] + ops, r) == if MakesRow(op) then [RowOf(m)] + Rows(h, ops, AfterRow(m)) else Rows(h, ops, m)
  {
    hide Moved;
    assert ([op] + ops)[1..] == ops;
  }

  /** The last row before the first one whose address exceeds pc, or the one given. */
  function LastBefore(rows: seq<Row>, pc: uint64, row: Row): Row {
    if Before(rows, pc) == 0 then row else rows[Before(rows, pc) - 1]
  }

  /** A lookup in a matrix with one more row in front. */
  lemma LookupCons(m: Regs, tail: seq<Row>, pc: uint64, row: Row)
    ensures var rows := [RowOf(m)] + tail;
      && Before(rows, pc) == (if pc < m.address then 0 else Before(tail, pc) + 1)
      && LastBefore(rows, pc, row) == if pc < m.address then row else LastBefore(tail, pc, RowOf(m))
  {
    hide RowOf;
    BeforeCons(m, tail, pc);
  }

  lemma LookupEnd(h: Params, r: Regs, pc: uint64, row: Row, count: nat)
    ensures DecodeAll(h, []) == Got([], 0) && Rows(h, [], r) == [] && Before([], pc) == 0
    ensures LastBefore([], pc, row) == row && Run(h, [], r, pc, row, count) == Done(row, count)
  {
  }

  /** The machine with its early exit is a lookup in the full matrix: it stops with the last row
      before the first one whose address exceeds pc, and has counted the rows up to it. */
  lemma {:induction false} EarlyExitIsLookup(h: Params, s: seq<byte>, r: Regs, pc: uint64, row: Row, count: nat)
    requires DecodeAll(h, s).Got?
    ensures var rows := Rows(h, DecodeAll(h, s).value, r);
      Run(h, s, r, pc, row, count) == Done(LastBefore(rows, pc, row), count + Before(rows, pc))
    decreases |s|
  {
    hide Decode, Moved, Run, DecodeAll, Rows, RowOf, Before, Executable, LastBefore;
    if s == [] {
      LookupEnd(h, r, pc, row, count);
    } else {
      DecodeAllStep(h, s);
      var op, rest := Decode(h, s).value, Rest(s, Decode(h, s).size);
      var m, ops := Moved(h, op, r), DecodeAll(h, rest).value;
      RunStep(h, s, r, pc, row, count);
      RowsStep(h, op, ops, r);
      if !MakesRow(op) {
        EarlyExitIsLookup(h, rest, m, pc, row, count);
      } else {
        LookupCons(m, Rows(h, ops, AfterRow(m)), pc, row);
        if pc >= m.address {
          EarlyExitIsLookup(h, rest, AfterRow(m), pc, RowOf(m), count + 1);
        }
      }
    }
  }

  ghost predicate Nondecreasing(rows: seq<Row>) {
    forall i, j :: 0 <= i < j < |rows| ==> rows[i].addr <= rows[j].addr
  }

  /** With nondecreasing addresses, `dwarf_srclines` reports the greatest row not above pc, and
      zeros exactly when there is none. */
  lemma GreatestRow(h: Params, s: seq<byte>, pc: uint64)
    requires DecodeAll(h, s).Got?
    requires Nondecreasing(Rows(h, DecodeAll(h, s).value, ResetRegs(h)))
    ensures var rows := Rows(h, DecodeAll(h, s).value, ResetRegs(h));
      var result := Run(h, s, ResetRegs(h), pc, NO_ROW, 0);
      && result.Done? && result.count <= |rows|
      && (forall i :: 0 <= i < |rows| ==> (rows[i].addr <= pc <==> i < result.count))
      && result.row == if result.count == 0 then NO_ROW else rows[result.count - 1]
  {
    hide Run, DecodeAll;
    BeforeSplits(Rows(h, DecodeAll(h, s).value, ResetRegs(h)), pc);
    EarlyExitIsLookup(h, s, ResetRegs(h), pc, NO_ROW, 0);
  }

  // ----- expanding special opcodes -----

  lemma {:induction false} StringExtend(s: seq<byte>, t: seq<byte>)
    requires StringSize(s).Got?
    ensures StringSize(s + t) == StringSize(s)
  {
    assert (s + t)[0] == s[0];
    if s[0] != 0 {
      assert (s + t)[1..] == s[1..] + t;
      StringExtend(s[1..], t);
    }
  }

  lemma FileExtend(s: seq<byte>, t: seq<byte>)
    requires FileSize(s).Got?
    ensures FileSize(s + t) == FileSize(s)
  {
    hide StringSize, Uleb;
    StringExtend(s, t);
    var n := StringSize(s).value;
    assert (s + t)[n..] == s[n..] + t;
    UlebExtend(s[n..], t);
    var a := Uleb(s[n..]).size;
    assert (s + t)[n + a..] == s[n + a..] + t;
    UlebExtend(s[n + a..], t);
    var b := Uleb(s[n + a..]).size;
    assert (s + t)[n + a + b..] == s[n + a + b..] + t;
    UlebExtend(s[n + a + b..], t);
  }

  lemma ExtendedExtend(h: Params, s: seq<byte>, t: seq<byte>)
    requires DecodeExtended(h, s).Got?
    ensures DecodeExtended(h, s + t) == DecodeExtended(h, s)
  {
    hide Uleb, ReadFixed, FileSize;
    UlebExtend(s, t);
    var n := Uleb(s).size;
    assert (s + t)[n + 1..] == s[n + 1..] + t;
    assert (s + t)[n] == s[n];
    FixedExtend(h.order, s[n + 1..], t, h.addrSize);
    if s[n] == DW_LNE_DEFINE_FILE {
      FileExtend(s[n + 1..], t);
    }
  }

  /** An opcode is decoded from its own bytes alone. */
  lemma DecodeExtend(h: Params, s: seq<byte>, t: seq<byte>)
    requires s != [] && Decode(h, s).Got?
    ensures Decode(h, s + t) == Decode(h, s)
  {
    hide Uleb, Sleb, ReadFixed, DecodeExtended;
    assert (s + t)[0] == s[0] && (s + t)[1..] == s[1..] + t;
    UlebExtend(s[1..], t);
    FixedExtend(h.order, s[1..], t, 2);
    if s[0] == 0 {
      ExtendedExtend(h, s[1..], t);
    }
  }

  /** A program that ends where its last opcode ends. */
  ghost predicate Whole(h: Params, s: seq<byte>) {
    DecodeAll(h, s).Got? && DecodeAll(h, s).size == |s|
  }

  lemma {:induction false} DecodeConcat(h: Params, a: seq<byte>, b: seq<byte>)
    requires Whole(h, a) && DecodeAll(h, b).Got?
    ensures DecodeAll(h, a + b).Got?
    ensures DecodeAll(h, a + b).value == DecodeAll(h, a).value + DecodeAll(h, b).value
    ensures DecodeAll(h, a + b).size == |a| + DecodeAll(h, b).size
    decreases |a|
  {
    hide Decode;
    if a == [] {
      assert a + b == b;
    } else {
      DecodeExtend(h, a, b);
      var n := Decode(h, a).size;
      if n >= |a| {
        assert (a + b)[n..] == b;
        if b == [] { assert a + b == a; }
      } else {
        assert (a + b)[n..] == a[n..] + b;
        DecodeConcat(h, a[n..], b);
      }
    }
  }

  lemma QuotientBound(a: nat, b: nat)
    requires b > 0
    ensures 0 <= a / b <= a
  {
    var q := a / b;
    assert a == q * b + a % b;
    assert q * b == q + q * (b - 1);
    NonNegative(q, b - 1);
  }

  lemma NonNegative(a: nat, b: nat)
    ensures a * b >= 0
  {
  }

  /** The operation advance of a special opcode. */
  function PcSteps(h: Params, x: byte): (r: nat)
    requires h.Valid() && h.opbase <= x && h.lrange > 0
    ensures r <= 255
  {
    QuotientBound(x - h.opbase, h.lrange);
    (x - h.opbase) / h.lrange
  }

  /** advance_line, advance_pc and copy in place of the special opcode x. */
  function Expansion(h: Params, x: byte): seq<byte>
    requires h.Valid() && h.opbase <= x && h.lrange > 0
  {
    ([DW_LNS_ADVANCE_LINE] + EncodeSleb(LineDelta(h, x)))
    + (([DW_LNS_ADVANCE_PC] + EncodeUleb(PcSteps(h, x))) + [DW_LNS_COPY])
  }

  function ExpandedOps(h: Params, x: byte): seq<Op>
    requires h.Valid() && h.opbase <= x && h.lrange > 0
  {
    [AdvanceLine(LineDelta(h, x)), AdvancePc(PcSteps(h, x)), Copy]
  }

  lemma DecodeOne(h: Params, s: seq<byte>)
    requires s != [] && Decode(h, s).Got? && Decode(h, s).size == |s|
    ensures Whole(h, s) && DecodeAll(h, s).value == [Decode(h, s).value]
  {
    hide Decode;
  }

  lemma LineDeltaBound(h: Params, x: byte)
    requires h.Valid() && h.opbase <= x && h.lrange > 0
    ensures -TWO_31 <= LineDelta(h, x) < TWO_31
  {
  }

  lemma ExpansionDecodes(h: Params, x: byte)
    requires h.Valid() && DW_LNS_ADVANCE_LINE < h.opbase <= x && h.lrange > 0
    ensures Whole(h, Expansion(h, x)) && DecodeAll(h, Expansion(h, x)).value == ExpandedOps(h, x)
  {
    hide EncodeSleb, EncodeUleb, Uleb, Sleb, LineDelta, PcSteps;
    var line, pc := LineDelta(h, x), PcSteps(h, x);
    LineDeltaBound(h, x);
    var a, b, c := [DW_LNS_ADVANCE_LINE] + EncodeSleb(line), [DW_LNS_ADVANCE_PC] + EncodeUleb(pc), [DW_LNS_COPY];
    SlebRoundTrip(line, EncodeSleb(line));
    UlebRoundTrip(pc, EncodeUleb(pc));
    assert a[1..] == EncodeSleb(line) && b[1..] == EncodeUleb(pc);
    DecodeOne(h, a);
    DecodeOne(h, b);
    DecodeOne(h, c);
    DecodeConcat(h, b, c);
    DecodeConcat(h, a, b + c);
  }

  lemma {:induction false} RowsConcat(h: Params, a: seq<Op>, b: seq<Op>, c: seq<Op>, r: Regs)
    requires forall i :: 0 <= i < |a| ==> Executable(h, a[i])
    requires forall i :: 0 <= i < |b| ==> Executable(h, b[i])
    requires forall i :: 0 <= i < |c| ==> Executable(h, c[i])
    requires forall r' :: Rows(h, b, r') == Rows(h, c, r')
    ensures Rows(h, a + b, r) == Rows(h, a + c, r)
    decreases |a|
  {
    hide Moved;
    if a == [] {
      assert a + b == b && a + c == c;
    } else {
      assert (a + b)[1..] == a[1..] + b && (a + c)[1..] == a[1..] + c;
      var m := Moved(h, a[0], r);
      RowsConcat(h, a[1..], b, c, if MakesRow(a[0]) then AfterRow(m) else m);
    }
  }

  /** The three opcodes move the registers and make the row that the special opcode does. */
  lemma ExpansionRows(h: Params, x: byte, rest: seq<Op>, r: Regs)
    requires h.Valid() && h.opbase <= x && h.lrange > 0
    requires forall i :: 0 <= i < |rest| ==> Executable(h, rest[i])
    ensures Rows(h, ExpandedOps(h, x) + rest, r) == Rows(h, [Special(x)] + rest, r)
  {
    var e := ExpandedOps(h, x) + rest;
    assert e[1..][1..][1..] == rest;
    assert ([Special(x)] + rest)[1..] == rest;
    var r1 := Moved(h, e[0], r);
    var r2 := Moved(h, e[1], r1);
    assert r2 == Moved(h, Special(x), r);
    assert Rows(h, e, r) == Rows(h, e[1..], r1);
    assert Rows(h, e[1..], r1) == Rows(h, e[1..][1..], r2);
  }

  /** Replacing a special opcode by its expansion, anywhere in a program, changes neither the answer
      for any pc nor the number of rows counted. */
  lemma ExpansionPreservesMeaning(h: Params, pre: seq<byte>, x: byte, post: seq<byte>, pc: uint64)
    requires h.Valid() && DW_LNS_ADVANCE_LINE < h.opbase <= x && h.lrange > 0
    requires Whole(h, pre) && DecodeAll(h, post).Got?
    ensures Run(h, pre + ([x] + post), ResetRegs(h), pc, NO_ROW, 0)
         == Run(h, pre + (Expansion(h, x) + post), ResetRegs(h), pc, NO_ROW, 0)
  {
    hide Run, Expansion, ExpandedOps, Moved;
    var p, q := DecodeAll(h, pre).value, DecodeAll(h, post).value;
    SpecialDecodes(h, x);
    ExpansionDecodes(h, x);
    hide DecodeAll;
    DecodeConcat(h, [x], post);
    DecodeConcat(h, pre, [x] + post);
    DecodeConcat(h, Expansion(h, x), post);
    DecodeConcat(h, pre, Expansion(h, x) + post);
    forall r: Regs
      ensures Rows(h, ExpandedOps(h, x) + q, r) == Rows(h, [Special(x)] + q, r)
    {
      ExpansionRows(h, x, q, r);
    }
    RowsConcat(h, p, ExpandedOps(h, x) + q, [Special(x)] + q, ResetRegs(h));
    EarlyExitIsLookup(h, pre + ([x] + post), ResetRegs(h), pc, NO_ROW, 0);
    EarlyExitIsLookup(h, pre + (Expansion(h, x) + post), ResetRegs(h), pc, NO_ROW, 0);
  }

  lemma SpecialDecodes(h: Params, x: byte)
    requires 0 < h.opbase <= x && h.lrange > 0
    ensures Whole(h, [x]) && DecodeAll(h, [x]).value == [Special(x)]
  {
  }

  // ----- section 6.2.5.1 and the end of a sequence -----

  /** Encoding a line and address advance as a special opcode and executing it gives them back. */
  lemma SpecialOpcodeDelta(h: Params, lineInc: int, opAdvance: nat, r: Regs)
    requires h.lrange > 0 && h.lbase <= lineInc < h.lbase + h.lrange
    requires (lineInc - h.lbase) + h.lrange * opAdvance + h.opbase < 256
    ensures var x := (lineInc - h.lbase) + h.lrange * opAdvance + h.opbase;
      && h.opbase <= x
      && Moved(h, Special(x), r)
         == r.(line := ToU64(r.line + lineInc), address := ToU64(r.address + opAdvance * h.minlen))
  {
    var d, n: nat := lineInc - h.lbase, h.lrange;
    assert 0 <= n * opAdvance;
    QuotientRemainder(d, n, opAdvance);
  }

  lemma MulAtLeast(n: nat, z: int)
    ensures z >= 1 ==> n * z >= n
    ensures z <= -1 ==> n * z + n <= 0
  {
  }

  lemma Distribute(n: nat, a: int, b: int)
    ensures n * (a - b) == n * a - n * b
  {
  }

  lemma QuotientRemainder(d: nat, n: nat, q: nat)
    requires d < n
    ensures (d + n * q) % n == d && (d + n * q) / n == q
  {
    var p := n * q;
    var v := d + p;
    var k, m := v / n, v % n;
    assert v == n * k + m && 0 <= m < n;
    Distribute(n, q, k);
    MulAtLeast(n, q - k);
  }

  function AnswerFrom(rows: seq<Row>, pc: uint64): Row {
    LastBefore(rows, pc, NO_ROW)
  }

  // ----- the routine -----

  /** The registers as locals of the routine. */
  class Registers {
    var address: uint64
    var file: uint64
    var line: uint64
    var column: uint64
    var stmt: int
    var block: bool
    var endSequence: bool
    var prologueEnd: bool
    var epilogueBegin: bool

    function Snapshot(): Regs
      reads this
    {
      Regs(address, file, line, column, stmt, block, prologueEnd, epilogueBegin)
    }

    constructor (h: Params)
      ensures Snapshot() == ResetRegs(h) && !endSequence
    {
      address, file, line, column, stmt := 0, 1, 1, 0, h.defstmt;
      block, endSequence, prologueEnd, epilogueBegin := false, false, false, false;
    }

    /** RESET_REGISTERS. */
    method Reset(h: Params)
      modifies this
      ensures Snapshot() == ResetRegs(h) && !endSequence
    {
      address, file, line, column, stmt := 0, 1, 1, 0, h.defstmt;
      block, endSequence, prologueEnd, epilogueBegin := false, false, false, false;
    }

    method ClearFlags()
      modifies this
      ensures Snapshot() == AfterRow(old(Snapshot())) && endSequence == old(endSequence)
    {
      block, prologueEnd, epilogueBegin := false, false, false;
    }

    /** The extended opcode behind the zero byte at `p - 1`. */
    method Extended(h: Params, prog: seq<byte>, p: nat) returns (p': nat)
      requires !endSequence
      requires p <= |prog| && DecodeExtended(h, prog[p..]).Got?
      modifies this
      ensures !endSequence
      ensures p' == p + DecodeExtended(h, prog[p..]).size
      ensures Executable(h, DecodeExtended(h, prog[p..]).value) && !MakesRow(DecodeExtended(h, prog[p..]).value)
      ensures Snapshot() == Moved(h, DecodeExtended(h, prog[p..]).value, old(Snapshot()))
    {
      hide Uleb, ReadFixed, FileSize;
      var opsize;
      opsize, p' := DecodeUleb128(prog, p);
      if prog[p'] == DW_LNE_END_SEQUENCE {
        p' := p' + 1;
        endSequence := true;
        Reset(h);
      } else if prog[p'] == DW_LNE_SET_ADDRESS {
        var a;
        a, p' := DecodeAt(h.order, prog, p' + 1, h.addrSize);
        address := a;
      } else if prog[p'] == DW_LNE_DEFINE_FILE {
        p' := AddFile(prog, p' + 1);
      } else {
        p' := p' + opsize;
      }
    }

    /** The standard opcodes that change the address. */
    method StandardAddress(h: Params, code: byte, prog: seq<byte>, p: nat) returns (p': nat)
      requires 0 < code < h.opbase && p <= |prog| && DecodeStandard(h, code, prog[p..]).Got?
      requires code in {2, 8, 9}
      modifies `address
      ensures p' == p + DecodeStandard(h, code, prog[p..]).size
      ensures Executable(h, DecodeStandard(h, code, prog[p..]).value)
      ensures !MakesRow(DecodeStandard(h, code, prog[p..]).value)
      ensures Snapshot() == Moved(h, DecodeStandard(h, code, prog[p..]).value, old(Snapshot()))
    {
      hide Uleb, Sleb, ReadFixed;
      p' := p;
      var n;
      if code == 2 {
        n, p' := DecodeUleb128(prog, p);
        address := ToU64(address + n * h.minlen);
      } else if code == 8 {
        address := ToU64(address + AddressDelta(h, 255));
      } else {
        n, p' := DecodeAt(h.order, prog, p, 2);
        address := ToU64(address + n);
      }
    }

    /** The standard opcode whose operands begin at `p`, other than copy. */
    method Standard(h: Params, code: byte, prog: seq<byte>, p: nat) returns (p': nat)
      requires 0 < code < h.opbase && p <= |prog| && DecodeStandard(h, code, prog[p..]).Got?
      requires code != DW_LNS_COPY
      modifies this
      ensures endSequence == old(endSequence)
      ensures p' == p + DecodeStandard(h, code, prog[p..]).size
      ensures Executable(h, DecodeStandard(h, code, prog[p..]).value)
      ensures !MakesRow(DecodeStandard(h, code, prog[p..]).value)
      ensures Snapshot() == Moved(h, DecodeStandard(h, code, prog[p..]).value, old(Snapshot()))
    {
      hide Uleb, Sleb, ReadFixed, AddressDelta;
      p' := p;
      if code in {2, 8, 9} {
        p' := StandardAddress(h, code, prog, p);
        return;
      }
      var n;
      match code {
        case 3 => n, p' := DecodeSleb128(prog, p); line := ToU64(line + n);
        case 4 => file, p' := DecodeUleb128(prog, p);
        case 5 => column, p' := DecodeUleb128(prog, p);
        case 6 => stmt := if stmt == 0 then 1 else 0;
        case 7 => block := true;
        case 10 => prologueEnd := true;
        case 11 => epilogueBegin := true;
        case 12 => n, p' := DecodeUleb128(prog, p);
        case _ =>
      }
    }
  }

  /** `_dwarf_lineno_add_file`. */
  method AddFile(prog: seq<byte>, p: nat) returns (src: nat)
    requires p <= |prog| && FileSize(prog[p..]).Got?
    ensures src == p + FileSize(prog[p..]).value
  {
    hide Uleb, StringSize;
    src := StringLength(prog, p);
    var skip;
    skip, src := DecodeUleb128(prog, src);
    skip, src := DecodeUleb128(prog, src);
    skip, src := DecodeUleb128(prog, src);
  }

  /** `src += strlen(fname) + 1`. */
  method StringLength(prog: seq<byte>, p: nat) returns (src: nat)
    requires p <= |prog| && StringSize(prog[p..]).Got?
    ensures src == p + StringSize(prog[p..]).value
  {
    src := p;
    while prog[src] != 0
      decreases |prog| - src
      invariant p <= src < |prog| && StringSize(prog[src..]).Got?
      invariant src + StringSize(prog[src..]).value == p + StringSize(prog[p..]).value
    {
      assert prog[src..][1..] == prog[src + 1..];
      src := src + 1;
    }
    src := src + 1;
  }

  /** The part of `_Dwarf_LineInfo` that the program writes. */
  class LineInfo {
    var row: Row
    var lnlen: nat

    constructor ()
      ensures row == NO_ROW && lnlen == 0
    {
      row, lnlen := NO_ROW, 0;
    }

    /** APPEND_ROW, without the early exit. */
    method Append(r: Registers)
      requires !r.endSequence
      modifies this
      ensures row == RowOf(r.Snapshot()) && lnlen == old(lnlen) + 1
    {
      row := Row(r.address, 0, r.file, r.line, Signed64(r.column), r.block, r.stmt, r.endSequence);
      lnlen := lnlen + 1;
    }
  }

  /** One opcode: the new position, and whether the early exit of APPEND_ROW was taken. */
  method StepProgram(h: Params, prog: seq<byte>, p: nat, pc: uint64, r: Registers, li: LineInfo)
    returns (p': nat, exit: bool)
    requires p < |prog| && Decode(h, prog[p..]).Got? && !r.endSequence
    modifies r, li
    ensures !r.endSequence
    ensures p' == p + Decode(h, prog[p..]).size
    ensures Executable(h, Decode(h, prog[p..]).value)
    ensures var op := Decode(h, prog[p..]).value;
      var m := Moved(h, op, old(r.Snapshot()));
      if !MakesRow(op) then !exit && r.Snapshot() == m && li.row == old(li.row) && li.lnlen == old(li.lnlen)
      else if pc < m.address then exit && li.row == old(li.row) && li.lnlen == old(li.lnlen)
      else !exit && r.Snapshot() == AfterRow(m) && li.row == RowOf(m) && li.lnlen == old(li.lnlen) + 1
  {
    hide DecodeExtended, DecodeStandard, LineDelta, AddressDelta;
    exit := false;
    var code := prog[p];
    assert prog[p..][1..] == prog[p + 1..];
    CopyDecodes(h, prog[p + 1..]);
    if code == 0 {
      p' := r.Extended(h, prog, p + 1);
    } else if code < h.opbase && code != DW_LNS_COPY {
      p' := r.Standard(h, code, prog, p + 1);
    } else {
      p' := p + 1;
      if code >= h.opbase {
        r.line := ToU64(r.line + LineDelta(h, code));
        r.address := ToU64(r.address + AddressDelta(h, code));
      }
      if pc < r.address {
        exit := true;
      } else {
        li.Append(r);
        r.ClearFlags();
      }
    }
  }

  lemma CopyDecodes(h: Params, s: seq<byte>)
    ensures DecodeStandard(h, DW_LNS_COPY, s) == Got(Copy, 0)
  {
  }

  /** `_dwarf_lineno_run_program`. */
  method RunProgram(h: Params, prog: seq<byte>, pc: uint64, li: LineInfo)
    requires Run(h, prog, ResetRegs(h), pc, li.row, li.lnlen).Done?
    modifies li
    ensures old(Run(h, prog, ResetRegs(h), pc, li.row, li.lnlen)) == Done(li.row, li.lnlen)
  {
    hide Decode, Moved;
    var r := new Registers(h);
    ghost var goal := Run(h, prog, ResetRegs(h), pc, li.row, li.lnlen);
    var p, exit := 0, false;
    assert prog[0..] == prog;
    while p < |prog|
      invariant 0 <= p && !r.endSequence && fresh(r)
      invariant Run(h, if p < |prog| then prog[p..] else [], r.Snapshot(), pc, li.row, li.lnlen) == goal
      decreases |prog| - p
    {
      ghost var n := Decode(h, prog[p..]).size;
      assert n < |prog[p..]| ==> prog[p..][n..] == prog[p + n..];
      p, exit := StepProgram(h, prog, p, pc, r, li);
      if exit {
        return;
      }
    }
  }
}