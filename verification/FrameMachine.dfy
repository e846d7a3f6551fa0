/** The call-frame machine of `_dwarf_frame_run_inst`: its instructions, its rule table and its
    single shadow table, which serves both as the initial rules and as the remembered state. */
module FrameMachine {
  import opened Machine
  import opened Leb128
  import opened FixedWidth

  const DW_DLE_NONE := 0
  const DW_DLE_FRAME_INSTR_EXEC_ERROR := 21
  const DW_DLE_DF_REG_NUM_TOO_HIGH := 24

  const DW_EXPR_OFFSET := 0
  const DW_EXPR_VAL_OFFSET := 1
  const DW_EXPR_EXPRESSION := 2
  const DW_EXPR_VAL_EXPRESSION := 3

  const DW_FRAME_UNDEFINED_VAL := 1034
  const DW_FRAME_SAME_VAL := 1035
  const DW_FRAME_CFA_COL3 := 1436
  const DW_FRAME_LAST_REG_NUM := 66

  /** `Dwarf_Regtable_Entry3`. */
  datatype Entry = Entry(relevant: bool, kind: nat, regnum: uint16, value: uint64, block: nat)

  /** `Dwarf_Regtable3`. */
  datatype Table = Table(cfa: Entry, rules: seq<Entry>)

  const ZERO_ENTRY := Entry(false, 0, 0, 0, 0)

  /** What the run depends on besides the instructions: byte order, pointer size, the alignment
      factors of the CIE, the address of the first instruction and the column that stands for the CFA. */
  datatype Setup = Setup(order: Endian, pointerSize: int, caf: uint64, daf: int64, base: nat, cfaColumn: uint16)

  // ----- instructions -----

  datatype Inst =
    | Nop
    | SetLoc(a: uint64)
    | Advance(delta: uint64)
    | OffsetRule(reg: uint64, n: int, kind: nat)
    | Restore(reg: uint64)
    | UndefinedRule(reg: uint64)
    | SameValue(reg: uint64)
    | RegisterRule(reg: uint64, other: uint64)
    | ExpressionRule(reg: uint64, kind: nat, len: uint64, block: nat)
    | Remember
    | RestoreState
    | DefCfa(reg: uint64, n: int, factored: bool)
    | DefCfaRegister(reg: uint64)
    | DefCfaOffset(n: int, factored: bool)
    | DefCfaExpression(len: uint64, block: nat)
    | Illegal

  /** Operands of the shapes that occur, at position p. */
  function U(insts: seq<byte>, p: nat): Read<uint64> {
    if p > |insts| then Fault else Uleb(insts[p..])
  }

  function UU(insts: seq<byte>, p: nat): Read<(uint64, uint64)> {
    match U(insts, p)
    case Fault => Fault
    case Got(a, n) =>
      match U(insts, p + n)
      case Fault => Fault
      case Got(b, m) => Got((a, b), n + m)
  }

  function S(insts: seq<byte>, p: nat): Read<int64> {
    if p > |insts| then Fault else Sleb(insts[p..])
  }

  function US(insts: seq<byte>, p: nat): Read<(uint64, int64)> {
    match U(insts, p)
    case Fault => Fault
    case Got(a, n) =>
      match S(insts, p + n)
      case Fault => Fault
      case Got(b, m) => Got((a, b), n + m)
  }

  function F(c: Setup, insts: seq<byte>, p: nat, n: int): Read<uint64> {
    if p > |insts| then Fault else ReadFixed(c.order, insts[p..], n)
  }

  /** Location and state instructions with low opcodes. */
  function DecodeLocation(c: Setup, low6: byte, insts: seq<byte>, p: nat): Read<Inst>
    requires 1 <= low6 <= 4
  {
    match F(c, insts, p, if low6 == 1 then c.pointerSize else if low6 == 2 then 1 else if low6 == 3 then 2 else 4)
    case Fault => Fault
    case Got(v, n) => Got(if low6 == 1 then SetLoc(v) else Advance(v), n)
  }

  /** Register rules with low opcodes. */
  function DecodeRule(c: Setup, low6: byte, insts: seq<byte>, p: nat): Read<Inst>
    requires low6 in {0x05, 0x06, 0x07, 0x08, 0x09, 0x11, 0x14, 0x15}
  {
    if low6 in {0x06, 0x07, 0x08} then
      match U(insts, p)
      case Fault => Fault
      case Got(reg, n) =>
        Got(if low6 == 0x06 then Restore(reg) else if low6 == 0x07 then UndefinedRule(reg) else SameValue(reg), n)
    else if low6 in {0x11, 0x15} then
      match US(insts, p)
      case Fault => Fault
      case Got(v, n) => Got(OffsetRule(v.0, v.1, if low6 == 0x11 then DW_EXPR_OFFSET else DW_EXPR_VAL_OFFSET), n)
    else
      match UU(insts, p)
      case Fault => Fault
      case Got(v, n) =>
        Got(if low6 == 0x09 then RegisterRule(v.0, v.1)
            else OffsetRule(v.0, v.1, if low6 == 0x05 then DW_EXPR_OFFSET else DW_EXPR_VAL_OFFSET), n)
  }

  /** Rules by expression: the block is passed over. */
  function DecodeExpression(c: Setup, low6: byte, insts: seq<byte>, p: nat): Read<Inst>
    requires low6 == 0x0f || low6 == 0x10 || low6 == 0x16
  {
    if low6 == 0x0f then
      match U(insts, p)
      case Fault => Fault
      case Got(len, n) => Got(DefCfaExpression(len, c.base + p + n), n + len)
    else
      match UU(insts, p)
      case Fault => Fault
      case Got(v, n) =>
        Got(ExpressionRule(v.0, if low6 == 0x10 then DW_EXPR_EXPRESSION else DW_EXPR_VAL_EXPRESSION,
                           v.1, c.base + p + n), n + v.1)
  }

  /** Rules for the CFA. */
  function DecodeCfa(low6: byte, insts: seq<byte>, p: nat): Read<Inst>
    requires low6 in {0x0c, 0x0d, 0x0e, 0x12, 0x13}
  {
    if low6 == 0x0c then
      match UU(insts, p)
      case Fault => Fault
      case Got(v, n) => Got(DefCfa(v.0, v.1, false), n)
    else if low6 == 0x12 then
      match US(insts, p)
      case Fault => Fault
      case Got(v, n) => Got(DefCfa(v.0, v.1, true), n)
    else if low6 == 0x13 then
      match S(insts, p)
      case Fault => Fault
      case Got(v, n) => Got(DefCfaOffset(v, true), n)
    else
      match U(insts, p)
      case Fault => Fault
      case Got(v, n) => Got(if low6 == 0x0d then DefCfaRegister(v) else DefCfaOffset(v, false), n)
  }

  function DecodeLow(c: Setup, low6: byte, insts: seq<byte>, p: nat): Read<Inst> {
    if low6 == 0 then Got(Nop, 0)
    else if low6 <= 4 then DecodeLocation(c, low6, insts, p)
    else if low6 in {0x05, 0x06, 0x07, 0x08, 0x09, 0x11, 0x14, 0x15} then DecodeRule(c, low6, insts, p)
    else if low6 == 0x0a then Got(Remember, 0)
    else if low6 == 0x0b then Got(RestoreState, 0)
    else if low6 in {0x0c, 0x0d, 0x0e, 0x12, 0x13} then DecodeCfa(low6, insts, p)
    else if low6 == 0x0f || low6 == 0x10 || low6 == 0x16 then DecodeExpression(c, low6, insts, p)
    else Got(Illegal, 0)
  }

  /** The instruction at p: two high bits select advance_loc, offset or restore, otherwise the six
      low bits are the opcode. */
  function Decode(c: Setup, insts: seq<byte>, p: nat): (r: Read<Inst>)
    requires p < |insts|
    ensures r.Got? ==> r.size > 0
  {
    var high2, low6 := insts[p] / 64, insts[p] % 64;
    if high2 == 1 then Got(Advance(low6), 1)
    else if high2 == 2 then
      match U(insts, p + 1)
      case Fault => Fault
      case Got(n, k) => Got(OffsetRule(low6, n, DW_EXPR_OFFSET), k + 1)
    else if high2 == 3 then Got(Restore(low6), 1)
    else
      match DecodeLow(c, low6, insts, p + 1)
      case Fault => Fault
      case Got(i, k) => Got(i, k + 1)
  }

  // ----- effects on the table -----

  function Factored(c: Setup, n: int): uint64 { ToU64(n * c.daf) }

  /** The register an instruction checks against the size of the table. */
  function Checked(i: Inst): (reg: int)
  {
    match i
    case OffsetRule(reg, _, _) => reg
    case Restore(reg) => reg
    case UndefinedRule(reg) => reg
    case SameValue(reg) => reg
    case RegisterRule(reg, _) => reg
    case ExpressionRule(reg, _, _, _) => reg
    case _ => -1
  }

  /** The new entry of the register named by a rule. */
  function NewEntry(c: Setup, i: Inst, e: Entry, init: Entry): Entry {
    match i
    case OffsetRule(_, n, kind) =>
      e.(relevant := true, kind := kind, regnum := c.cfaColumn, value := Factored(c, n))
    case Restore(_) => init
    case UndefinedRule(_) => e.(relevant := false, regnum := DW_FRAME_UNDEFINED_VAL)
    case SameValue(_) => e.(relevant := false, regnum := DW_FRAME_SAME_VAL)
    case RegisterRule(_, other) => e.(relevant := false, regnum := other % 0x1_0000)
    case ExpressionRule(_, kind, len, block) => e.(relevant := false, kind := kind, value := len, block := block)
    case _ => e
  }

  /** The new CFA rule. */
  function NewCfa(c: Setup, i: Inst, e: Entry): Entry {
    match i
    case DefCfa(reg, n, factored) =>
      Entry(true, DW_EXPR_OFFSET, reg % 0x1_0000, if factored then Factored(c, n) else ToU64(n), e.block)
    case DefCfaRegister(reg) => e.(regnum := reg % 0x1_0000)
    case DefCfaOffset(n, factored) =>
      e.(relevant := true, kind := DW_EXPR_OFFSET, value := if factored then Factored(c, n) else ToU64(n))
    case DefCfaExpression(len, block) => e.(relevant := false, kind := DW_EXPR_EXPRESSION, value := len, block := block)
    case _ => e
  }

  predicate InRange(i: Inst, size: nat) { Checked(i) < size }

  function Apply(c: Setup, i: Inst, t: Table, init: Table): (r: Table)
    requires InRange(i, |t.rules|) && |init.rules| == |t.rules|
    ensures |r.rules| == |t.rules|
  {
    var k := Checked(i);
    Table(NewCfa(c, i, t.cfa),
          if k < 0 then t.rules else t.rules[k := NewEntry(c, i, t.rules[k], init.rules[k])])
  }

  /** Instructions after which `*row_pc` is the current location. */
  predicate SetsRowPc(i: Inst) {
    !(i.Nop? || i.SetLoc? || i.Advance? || i.SameValue? || i.Remember? || i.Illegal?)
  }

  // ----- the machine as it is coded -----

  datatype State = State(rt: Table, shadow: Table, saved: bool, pc: uint64, rowPc: uint64) {
    ghost predicate Valid() { |rt.rules| == |shadow.rules| }
  }

  /** One instruction: on to the next, out of the loop, an error, or a failed assertion. */
  datatype Step = Next(s: State) | Exit(s: State) | Error(code: int) | Panic

  function Exec(c: Setup, i: Inst, s: State, pcReq: uint64): (r: Step)
    requires s.Valid()
    ensures r.Next? ==> r.s.Valid() && |r.s.rt.rules| == |s.rt.rules|
  {
    var s' := if SetsRowPc(i) then s.(rowPc := s.pc) else s;
    match i
    case Illegal => Error(DW_DLE_FRAME_INSTR_EXEC_ERROR)
    case SetLoc(_) => Exit(s)
    case Advance(d) =>
      var pc := ToU64(s.pc + d * c.caf);
      if pcReq < pc then Exit(s) else Next(s.(pc := pc))
    case Remember => Next(s.(shadow := s.rt, saved := true))
    case RestoreState => if s.saved then Next(s'.(rt := s.shadow)) else Panic
    case _ =>
      if !InRange(i, |s.rt.rules|) then Error(DW_DLE_DF_REG_NUM_TOO_HIGH)
      else Next(s'.(rt := Apply(c, i, s.rt, s.shadow)))
  }

  datatype Outcome = Undefined | Failed(code: int) | Done(rt: Table, rowPc: uint64)

  function Run(c: Setup, insts: seq<byte>, p: nat, s: State, pcReq: uint64): (r: Outcome)
    requires s.Valid()
    ensures r.Failed? ==> r.code != DW_DLE_NONE
    decreases |insts| - p
  {
    if p >= |insts| then Done(s.rt, s.rowPc)
    else
      match Decode(c, insts, p)
      case Fault => Undefined
      case Got(i, n) =>
        match Exec(c, i, s, pcReq)
        case Next(s') => Run(c, insts, p + n, s', pcReq)
        case Exit(s') => Done(s'.rt, s'.rowPc)
        case Error(code) => Failed(code)
        case Panic => Undefined
  }

  /** A run begins with the table copied into the shadow and nothing remembered. */
  function Start(rt: Table, pc: uint64): State {
    State(rt, rt, false, pc, pc)
  }
}
