/** Sections 6.4.2 and 7.23 of DWARF 4 on their own: the call frame instructions, their bytes, and what
    each does to the row being built. The interpreter decodes exactly these bytes to these effects. */
module CfiStandard {
  import opened Machine
  import opened Leb128
  import opened FixedWidth
  import opened FrameMachine
  import opened FrameTable
  import opened FrameRules
  import opened FrameReport

  datatype Op =
    | AdvanceLoc(delta: nat)
    | Offset(reg: nat, n: nat)
    | Restore(reg: nat)
    | Nop
    | SetLoc(address: nat)
    | AdvanceLoc1(delta: nat)
    | AdvanceLoc2(delta: nat)
    | AdvanceLoc4(delta: nat)
    | OffsetExtended(reg: nat, n: nat)
    | RestoreExtended(reg: nat)
    | Undefined(reg: nat)
    | SameValue(reg: nat)
    | Register(reg: nat, other: nat)
    | RememberState
    | RestoreState
    | DefCfa(reg: nat, n: nat)
    | DefCfaRegister(reg: nat)
    | DefCfaOffset(n: nat)
    | DefCfaExpression(block: seq<byte>)
    | Expression(reg: nat, block: seq<byte>)
    | OffsetExtendedSf(reg: nat, s: int)
    | DefCfaSf(reg: nat, s: int)
    | DefCfaOffsetSf(s: int)
    | ValOffset(reg: nat, n: nat)
    | ValOffsetSf(reg: nat, s: int)
    | ValExpression(reg: nat, block: seq<byte>)

  // ----- their bytes -----

  predicate FitsSigned(s: int) { -TWO_31 <= s < TWO_31 }

  /** The operands fit their encodings; LEB128 numbers, as far as they are read right. */
  ghost predicate Fits(c: Setup, op: Op) {
    match op
    case AdvanceLoc(delta) => delta < 0x40
    case Offset(reg, n) => reg < 0x40 && n < TWO_31
    case Restore(reg) => reg < 0x40
    case SetLoc(a) => Width(c.pointerSize) && a < Pow2(8 * c.pointerSize)
    case AdvanceLoc1(delta) => delta < 0x100
    case AdvanceLoc2(delta) => delta < 0x1_0000
    case AdvanceLoc4(delta) => delta < TWO_32
    case OffsetExtended(reg, n) => reg < TWO_31 && n < TWO_31
    case RestoreExtended(reg) => reg < TWO_31
    case Undefined(reg) => reg < TWO_31
    case SameValue(reg) => reg < TWO_31
    case Register(reg, other) => reg < TWO_31 && other < TWO_31
    case DefCfa(reg, n) => reg < TWO_31 && n < TWO_31
    case DefCfaRegister(reg) => reg < TWO_31
    case DefCfaOffset(n) => n < TWO_31
    case DefCfaExpression(block) => |block| < TWO_31
    case Expression(reg, block) => reg < TWO_31 && |block| < TWO_31
    case OffsetExtendedSf(reg, s) => reg < TWO_31 && FitsSigned(s)
    case DefCfaSf(reg, s) => reg < TWO_31 && FitsSigned(s)
    case DefCfaOffsetSf(s) => FitsSigned(s)
    case ValOffset(reg, n) => reg < TWO_31 && n < TWO_31
    case ValOffsetSf(reg, s) => reg < TWO_31 && FitsSigned(s)
    case ValExpression(reg, block) => reg < TWO_31 && |block| < TWO_31
    case _ => true
  }

  /** The first byte: three instructions carry an operand in its low six bits. */
  function Opcode(c: Setup, op: Op): byte
    requires Fits(c, op)
  {
    match op
    case AdvanceLoc(delta) => 0x40 + delta
    case Offset(reg, _) => 0x80 + reg
    case Restore(reg) => 0xc0 + reg
    case Nop => 0x00
    case SetLoc(_) => 0x01
    case AdvanceLoc1(_) => 0x02
    case AdvanceLoc2(_) => 0x03
    case AdvanceLoc4(_) => 0x04
    case OffsetExtended(_, _) => 0x05
    case RestoreExtended(_) => 0x06
    case Undefined(_) => 0x07
    case SameValue(_) => 0x08
    case Register(_, _) => 0x09
    case RememberState => 0x0a
    case RestoreState => 0x0b
    case DefCfa(_, _) => 0x0c
    case DefCfaRegister(_) => 0x0d
    case DefCfaOffset(_) => 0x0e
    case DefCfaExpression(_) => 0x0f
    case Expression(_, _) => 0x10
    case OffsetExtendedSf(_, _) => 0x11
    case DefCfaSf(_, _) => 0x12
    case DefCfaOffsetSf(_) => 0x13
    case ValOffset(_, _) => 0x14
    case ValOffsetSf(_, _) => 0x15
    case ValExpression(_, _) => 0x16
  }

  /** The operands behind it. */
  function Operands(c: Setup, op: Op): seq<byte>
    requires Fits(c, op)
  {
    match op
    case Offset(_, n) => EncodeUleb(n)
    case SetLoc(a) => EncodeFixed(c.order, a, c.pointerSize)
    case AdvanceLoc1(delta) => EncodeFixed(c.order, delta, 1)
    case AdvanceLoc2(delta) => EncodeFixed(c.order, delta, 2)
    case AdvanceLoc4(delta) => EncodeFixed(c.order, delta, 4)
    case OffsetExtended(reg, n) => EncodeUleb(reg) + EncodeUleb(n)
    case RestoreExtended(reg) => EncodeUleb(reg)
    case Undefined(reg) => EncodeUleb(reg)
    case SameValue(reg) => EncodeUleb(reg)
    case Register(reg, other) => EncodeUleb(reg) + EncodeUleb(other)
    case DefCfa(reg, n) => EncodeUleb(reg) + EncodeUleb(n)
    case DefCfaRegister(reg) => EncodeUleb(reg)
    case DefCfaOffset(n) => EncodeUleb(n)
    case DefCfaExpression(block) => EncodeUleb(|block|) + block
    case Expression(reg, block) => EncodeUleb(reg) + EncodeUleb(|block|) + block
    case OffsetExtendedSf(reg, s) => EncodeUleb(reg) + EncodeSleb(s)
    case DefCfaSf(reg, s) => EncodeUleb(reg) + EncodeSleb(s)
    case DefCfaOffsetSf(s) => EncodeSleb(s)
    case ValOffset(reg, n) => EncodeUleb(reg) + EncodeUleb(n)
    case ValOffsetSf(reg, s) => EncodeUleb(reg) + EncodeSleb(s)
    case ValExpression(reg, block) => EncodeUleb(reg) + EncodeUleb(|block|) + block
    case _ => []
  }

  function Encode(c: Setup, op: Op): (e: seq<byte>)
    requires Fits(c, op)
    ensures |e| > 0
  {
    [Opcode(c, op)] + Operands(c, op)
  }

  /** The block of an expression, which ends the instruction, begins there. */
  function BlockAt(op: Op): nat {
    match op
    case DefCfaExpression(block) => 1 + |EncodeUleb(|block|)|
    case Expression(reg, block) => 1 + |EncodeUleb(reg)| + |EncodeUleb(|block|)|
    case ValExpression(reg, block) => 1 + |EncodeUleb(reg)| + |EncodeUleb(|block|)|
    case _ => 0
  }

  // ----- their effects -----

  /** The register whose rule an instruction sets (section 6.4.2.3). */
  function Target(op: Op): (reg: int) {
    match op
    case Offset(reg, _) => reg
    case Restore(reg) => reg
    case OffsetExtended(reg, _) => reg
    case RestoreExtended(reg) => reg
    case Undefined(reg) => reg
    case SameValue(reg) => reg
    case Register(reg, _) => reg
    case Expression(reg, _) => reg
    case OffsetExtendedSf(reg, _) => reg
    case ValOffset(reg, _) => reg
    case ValOffsetSf(reg, _) => reg
    case ValExpression(reg, _) => reg
    case _ => -1
  }

  /** The rule it sets, given the initial one; `at` is where its block lies in memory. */
  function RuleOf(daf: int, op: Op, at: nat, init: Rule): Rule {
    match op
    case Offset(_, n) => Rule.Offset(n * daf)
    case OffsetExtended(_, n) => Rule.Offset(n * daf)
    case OffsetExtendedSf(_, s) => Rule.Offset(s * daf)
    case ValOffset(_, n) => Rule.ValOffset(n * daf)
    case ValOffsetSf(_, s) => Rule.ValOffset(s * daf)
    case Undefined(_) => Undef
    case SameValue(_) => Same
    case Register(_, other) => Rule.Register(other)
    case Expression(_, block) => Rule.Expression(|block|, at)
    case ValExpression(_, block) => Rule.ValExpression(|block|, at)
    case _ => init
  }

  /** The rule for the CFA (section 6.4.2.2): one that sets only the register or only the offset keeps the
      other, and needs a rule that has it. */
  function CfaOf(daf: int, op: Op, at: nat, r: CfaRule): CfaRule {
    match op
    case DefCfa(reg, n) => RegisterPlus(reg, n)
    case DefCfaSf(reg, s) => RegisterPlus(reg, s * daf)
    case DefCfaRegister(reg) => if r.RegisterPlus? then RegisterPlus(reg, r.n) else r
    case DefCfaOffset(n) => if r.RegisterPlus? then RegisterPlus(r.reg, n) else r
    case DefCfaOffsetSf(s) => if r.RegisterPlus? then RegisterPlus(r.reg, s * daf) else r
    case DefCfaExpression(block) => CfaExpression(|block|, at)
    case _ => r
  }

  /** The location after it (section 6.4.2.1), on 64 bits. */
  function Location(caf: nat, op: Op, loc: nat): nat {
    match op
    case SetLoc(a) => a
    case AdvanceLoc(delta) => (loc + delta * caf) % 0x1_0000_0000_0000_0000
    case AdvanceLoc1(delta) => (loc + delta * caf) % 0x1_0000_0000_0000_0000
    case AdvanceLoc2(delta) => (loc + delta * caf) % 0x1_0000_0000_0000_0000
    case AdvanceLoc4(delta) => (loc + delta * caf) % 0x1_0000_0000_0000_0000
    case _ => loc
  }

  /** Instructions that close the row (section 6.4.2.1). */
  predicate ClosesRow(op: Op) {
    op.SetLoc? || op.AdvanceLoc? || op.AdvanceLoc1? || op.AdvanceLoc2? || op.AdvanceLoc4?
  }

  /** One instruction at position p of a program (section 6.4.3): the row being built and the stack of
      section 6.4.2.4. Registers beyond the table have no rule. */
  function OpStep(c: Setup, op: Op, p: nat, b: RuleBuild, init: Rules): (q: RuleBuild)
    requires RulesFit(b, init)
    ensures RulesFit(q, init) && |q.r.regs| == |b.r.regs|
  {
    var at, n, k := c.base + p + BlockAt(op), |b.stack|, Target(op);
    if op.RememberState? then b.(stack := b.stack + [b.r])
    else if op.RestoreState? then if n == 0 then b else RuleBuild(b.stack[n - 1], b.stack[..n - 1])
    else if k < 0 then b.(r := b.r.(cfa := CfaOf(c.daf, op, at, b.r.cfa)))
    else if k < |b.r.regs| then b.(r := b.r.(regs := b.r.regs[k := RuleOf(c.daf, op, at, init.regs[k])]))
    else b
  }

  // ----- decoding -----

  lemma AddressFits(c: Setup, op: Op)
    requires Fits(c, op)
    ensures op.SetLoc? ==> op.address < TWO_64
  {
    Pow2Values();
    hide Pow2;
  }

  /** The instruction that the interpreter carries out for one at position p. */
  function Translate(c: Setup, op: Op, p: nat): Inst
    requires Fits(c, op)
  {
    var at := c.base + p + BlockAt(op);
    AddressFits(c, op);
    match op
    case AdvanceLoc(delta) => Advance(delta)
    case Offset(reg, n) => OffsetRule(reg, n, DW_EXPR_OFFSET)
    case Restore(reg) => Inst.Restore(reg)
    case Nop => Inst.Nop
    case SetLoc(a) => Inst.SetLoc(a)
    case AdvanceLoc1(delta) => Advance(delta)
    case AdvanceLoc2(delta) => Advance(delta)
    case AdvanceLoc4(delta) => Advance(delta)
    case OffsetExtended(reg, n) => OffsetRule(reg, n, DW_EXPR_OFFSET)
    case RestoreExtended(reg) => Inst.Restore(reg)
    case Undefined(reg) => UndefinedRule(reg)
    case SameValue(reg) => Inst.SameValue(reg)
    case Register(reg, other) => RegisterRule(reg, other)
    case RememberState => Remember
    case RestoreState => Inst.RestoreState
    case DefCfa(reg, n) => Inst.DefCfa(reg, n, false)
    case DefCfaRegister(reg) => Inst.DefCfaRegister(reg)
    case DefCfaOffset(n) => Inst.DefCfaOffset(n, false)
    case DefCfaExpression(block) => Inst.DefCfaExpression(|block|, at)
    case Expression(reg, block) => ExpressionRule(reg, DW_EXPR_EXPRESSION, |block|, at)
    case OffsetExtendedSf(reg, s) => OffsetRule(reg, s, DW_EXPR_OFFSET)
    case DefCfaSf(reg, s) => Inst.DefCfa(reg, s, true)
    case DefCfaOffsetSf(s) => Inst.DefCfaOffset(s, true)
    case ValOffset(reg, n) => OffsetRule(reg, n, DW_EXPR_VAL_OFFSET)
    case ValOffsetSf(reg, s) => OffsetRule(reg, s, DW_EXPR_VAL_OFFSET)
    case ValExpression(reg, block) => ExpressionRule(reg, DW_EXPR_VAL_EXPRESSION, |block|, at)
  }

  /** The bytes e lie at p. */
  predicate LieAt(insts: seq<byte>, p: nat, e: seq<byte>) {
    p <= |insts| && e <= insts[p..]
  }

  lemma LieSplit(insts: seq<byte>, p: nat, a: seq<byte>, b: seq<byte>)
    requires LieAt(insts, p, a + b)
    ensures LieAt(insts, p, a) && LieAt(insts, p + |a|, b)
  {
    PrefixSplit(a, b, insts[p..]);
    assert insts[p + |a|..] == insts[p..][|a|..];
  }

  lemma ReadsU(insts: seq<byte>, p: nat, v: nat)
    requires v < TWO_31 && LieAt(insts, p, EncodeUleb(v))
    ensures U(insts, p) == Got(v, |EncodeUleb(v)|)
  {
    hide Uleb, EncodeUleb;
    UlebRoundTrip(v, insts[p..]);
  }

  lemma ReadsS(insts: seq<byte>, p: nat, v: int)
    requires FitsSigned(v) && LieAt(insts, p, EncodeSleb(v))
    ensures S(insts, p) == Got(v, |EncodeSleb(v)|)
  {
    hide Sleb, EncodeSleb;
    SlebRoundTrip(v, insts[p..]);
  }

  lemma ReadsUU(insts: seq<byte>, p: nat, v: nat, w: nat)
    requires v < TWO_31 && w < TWO_31 && LieAt(insts, p, EncodeUleb(v) + EncodeUleb(w))
    ensures UU(insts, p) == Got((v, w), |EncodeUleb(v)| + |EncodeUleb(w)|)
  {
    hide U, EncodeUleb, LieAt;
    LieSplit(insts, p, EncodeUleb(v), EncodeUleb(w));
    ReadsU(insts, p, v);
    ReadsU(insts, p + |EncodeUleb(v)|, w);
  }

  lemma ReadsUS(insts: seq<byte>, p: nat, v: nat, w: int)
    requires v < TWO_31 && FitsSigned(w) && LieAt(insts, p, EncodeUleb(v) + EncodeSleb(w))
    ensures US(insts, p) == Got((v, w), |EncodeUleb(v)| + |EncodeSleb(w)|)
  {
    hide U, S, EncodeUleb, EncodeSleb, LieAt;
    LieSplit(insts, p, EncodeUleb(v), EncodeSleb(w));
    ReadsU(insts, p, v);
    ReadsS(insts, p + |EncodeUleb(v)|, w);
  }

  lemma ReadsF(c: Setup, insts: seq<byte>, p: nat, v: nat, n: nat)
    requires Width(n) && v < Pow2(8 * n) && LieAt(insts, p, EncodeFixed(c.order, v, n))
    ensures F(c, insts, p, n) == Got(v, n)
  {
    hide ReadFixed, EncodeFixed;
    FixedRoundTrip(c.order, v, n, insts[p..]);
  }

  /** The first byte decides between the three instructions with an operand in it and an opcode. */
  lemma FirstByte(c: Setup, op: Op, insts: seq<byte>, p: nat)
    requires Fits(c, op) && LieAt(insts, p, Encode(c, op))
    ensures p < |insts| && insts[p] == Opcode(c, op) && LieAt(insts, p + 1, Operands(c, op))
  {
    hide Operands, Fits, Opcode;
    LieSplit(insts, p, [Opcode(c, op)], Operands(c, op));
    assert insts[p] == insts[p..][0];
  }

  lemma LowOpcode(c: Setup, code: byte, insts: seq<byte>, p: nat)
    requires p < |insts| && insts[p] == code < 0x40
    ensures Decode(c, insts, p)
      == match DecodeLow(c, code, insts, p + 1)
         case Fault => Fault
         case Got(i, k) => Got(i, k + 1)
  {
    hide DecodeLow, U;
  }

  lemma DecodesHigh(c: Setup, op: Op, insts: seq<byte>, p: nat)
    requires Fits(c, op) && LieAt(insts, p, Encode(c, op)) && (op.AdvanceLoc? || op.Offset? || op.Restore?)
    ensures p < |insts| && Decode(c, insts, p) == Got(Translate(c, op, p), |Encode(c, op)|)
  {
    hide U, DecodeLow, EncodeUleb, LieAt;
    FirstByte(c, op, insts, p);
    if op.Offset? {
      ReadsU(insts, p + 1, op.n);
    }
  }

  lemma DecodesLocation(c: Setup, op: Op, insts: seq<byte>, p: nat)
    requires Fits(c, op) && LieAt(insts, p, Encode(c, op))
    requires op.SetLoc? || op.AdvanceLoc1? || op.AdvanceLoc2? || op.AdvanceLoc4?
    ensures p < |insts| && Decode(c, insts, p) == Got(Translate(c, op, p), |Encode(c, op)|)
  {
    FirstByte(c, op, insts, p);
    Widths();
    hide Decode, F, EncodeFixed, LieAt, Pow2;
    hide DecodeRule, DecodeExpression, DecodeCfa;
    LowOpcode(c, Opcode(c, op), insts, p);
    match op
    case SetLoc(a) => ReadsF(c, insts, p + 1, a, c.pointerSize);
    case AdvanceLoc1(delta) => ReadsF(c, insts, p + 1, delta, 1);
    case AdvanceLoc2(delta) => ReadsF(c, insts, p + 1, delta, 2);
    case AdvanceLoc4(delta) => ReadsF(c, insts, p + 1, delta, 4);
  }

  lemma Widths()
    ensures Pow2(8 * 1) == 0x100 && Pow2(8 * 2) == 0x1_0000 && Pow2(8 * 4) == TWO_32
  {
    Pow2Values();
  }

  lemma DecodesRule(c: Setup, op: Op, insts: seq<byte>, p: nat)
    requires Fits(c, op) && LieAt(insts, p, Encode(c, op))
    requires Target(op) >= 0 && !(op.Offset? || op.Restore? || op.Expression? || op.ValExpression?)
    ensures p < |insts| && Decode(c, insts, p) == Got(Translate(c, op, p), |Encode(c, op)|)
  {
    FirstByte(c, op, insts, p);
    hide Decode, U, S, UU, US, EncodeUleb, EncodeSleb, LieAt;
    hide DecodeLocation, DecodeExpression, DecodeCfa;
    LowOpcode(c, Opcode(c, op), insts, p);
    match op
    case OffsetExtended(reg, n) => ReadsUU(insts, p + 1, reg, n);
    case ValOffset(reg, n) => ReadsUU(insts, p + 1, reg, n);
    case Register(reg, other) => ReadsUU(insts, p + 1, reg, other);
    case OffsetExtendedSf(reg, s) => ReadsUS(insts, p + 1, reg, s);
    case ValOffsetSf(reg, s) => ReadsUS(insts, p + 1, reg, s);
    case RestoreExtended(reg) => ReadsU(insts, p + 1, reg);
    case Undefined(reg) => ReadsU(insts, p + 1, reg);
    case SameValue(reg) => ReadsU(insts, p + 1, reg);
  }

  lemma DecodesCfa(c: Setup, op: Op, insts: seq<byte>, p: nat)
    requires Fits(c, op) && LieAt(insts, p, Encode(c, op))
    requires op.DefCfa? || op.DefCfaSf? || op.DefCfaRegister? || op.DefCfaOffset? || op.DefCfaOffsetSf?
    ensures p < |insts| && Decode(c, insts, p) == Got(Translate(c, op, p), |Encode(c, op)|)
  {
    FirstByte(c, op, insts, p);
    CfaOperands(c, op, insts, p + 1);
    hide Decode, EncodeUleb, EncodeSleb, LieAt, DecodeCfa;
    LowOpcode(c, Opcode(c, op), insts, p);
  }

  lemma CfaOperands(c: Setup, op: Op, insts: seq<byte>, p: nat)
    requires Fits(c, op) && LieAt(insts, p, Operands(c, op)) && p > 0
    requires op.DefCfa? || op.DefCfaSf? || op.DefCfaRegister? || op.DefCfaOffset? || op.DefCfaOffsetSf?
    ensures Opcode(c, op) in {0x0c, 0x0d, 0x0e, 0x12, 0x13}
    ensures DecodeCfa(Opcode(c, op), insts, p) == Got(Translate(c, op, p - 1), |Operands(c, op)|)
  {
    hide U, S, UU, US, EncodeUleb, EncodeSleb, LieAt;
    match op
    case DefCfa(reg, n) => ReadsUU(insts, p, reg, n);
    case DefCfaSf(reg, s) => ReadsUS(insts, p, reg, s);
    case DefCfaRegister(reg) => ReadsU(insts, p, reg);
    case DefCfaOffset(n) => ReadsU(insts, p, n);
    case DefCfaOffsetSf(s) => ReadsS(insts, p, s);
  }

  lemma ReadsBlock(c: Setup, code: byte, insts: seq<byte>, p: nat, reg: nat, block: seq<byte>)
    requires (code == 0x10 || code == 0x16) && reg < TWO_31 && |block| < TWO_31
    requires LieAt(insts, p, EncodeUleb(reg) + EncodeUleb(|block|) + block)
    ensures var n := |EncodeUleb(reg)| + |EncodeUleb(|block|)|;
      var kind := if code == 0x10 then DW_EXPR_EXPRESSION else DW_EXPR_VAL_EXPRESSION;
      && DecodeExpression(c, code, insts, p)
         == Got(ExpressionRule(reg, kind, |block|, c.base + p + n), n + |block|)
      && LieAt(insts, p + n, block)
  {
    hide U, UU, EncodeUleb, LieAt;
    LieSplit(insts, p, EncodeUleb(reg) + EncodeUleb(|block|), block);
    ReadsUU(insts, p, reg, |block|);
  }

  /** The block is passed over, and its address kept. */
  lemma DecodesExpression(c: Setup, op: Op, insts: seq<byte>, p: nat)
    requires Fits(c, op) && LieAt(insts, p, Encode(c, op)) && (op.Expression? || op.ValExpression?)
    ensures p < |insts| && Decode(c, insts, p) == Got(Translate(c, op, p), |Encode(c, op)|)
    ensures LieAt(insts, p + BlockAt(op), op.block)
  {
    FirstByte(c, op, insts, p);
    hide Decode, EncodeUleb, LieAt, DecodeExpression;
    LowOpcode(c, Opcode(c, op), insts, p);
    ReadsBlock(c, Opcode(c, op), insts, p + 1, op.reg, op.block);
  }

  lemma DecodesCfaExpression(c: Setup, op: Op, insts: seq<byte>, p: nat)
    requires Fits(c, op) && LieAt(insts, p, Encode(c, op)) && op.DefCfaExpression?
    ensures p < |insts| && Decode(c, insts, p) == Got(Translate(c, op, p), |Encode(c, op)|)
    ensures LieAt(insts, p + BlockAt(op), op.block)
  {
    FirstByte(c, op, insts, p);
    hide Decode, U, EncodeUleb, LieAt;
    hide DecodeLocation, DecodeRule, DecodeCfa;
    LowOpcode(c, 0x0f, insts, p);
    LieSplit(insts, p + 1, EncodeUleb(|op.block|), op.block);
    ReadsU(insts, p + 1, |op.block|);
  }

  /** Decoding undoes encoding, for every instruction of the standard, wherever it lies. */
  lemma DecodeUndoesEncode(c: Setup, op: Op, insts: seq<byte>, p: nat)
    requires Fits(c, op) && LieAt(insts, p, Encode(c, op))
    ensures p < |insts| && Decode(c, insts, p) == Got(Translate(c, op, p), |Encode(c, op)|)
  {
    hide Decode, LieAt, Encode, Fits, Translate;
    if op.AdvanceLoc? || op.Offset? || op.Restore? {
      DecodesHigh(c, op, insts, p);
    } else if op.SetLoc? || op.AdvanceLoc1? || op.AdvanceLoc2? || op.AdvanceLoc4? {
      DecodesLocation(c, op, insts, p);
    } else if op.DefCfaExpression? {
      DecodesCfaExpression(c, op, insts, p);
    } else if op.Expression? || op.ValExpression? {
      DecodesExpression(c, op, insts, p);
    } else if Target(op) >= 0 {
      DecodesRule(c, op, insts, p);
    } else if op.Nop? || op.RememberState? || op.RestoreState? {
      DecodesPlain(c, op, insts, p);
    } else {
      DecodesCfa(c, op, insts, p);
    }
  }

  lemma DecodesPlain(c: Setup, op: Op, insts: seq<byte>, p: nat)
    requires Fits(c, op) && LieAt(insts, p, Encode(c, op)) && (op.Nop? || op.RememberState? || op.RestoreState?)
    ensures p < |insts| && Decode(c, insts, p) == Got(Translate(c, op, p), |Encode(c, op)|)
  {
    FirstByte(c, op, insts, p);
    hide Decode, LieAt;
    LowOpcode(c, Opcode(c, op), insts, p);
  }

  /** No other byte begins an instruction. */
  lemma NoOtherOpcode(c: Setup, insts: seq<byte>, p: nat)
    requires p < |insts|
    ensures Decode(c, insts, p) == Got(Illegal, 1) <==> 0x17 <= insts[p] < 0x40
  {
    hide U, S, UU, US, F;
  }

  // ----- programs -----

  ghost predicate AllFit(c: Setup, ops: seq<Op>) {
    forall k :: 0 <= k < |ops| ==> Fits(c, ops[k])
  }

  function EncodeAll(c: Setup, ops: seq<Op>): seq<byte>
    requires AllFit(c, ops)
  {
    if ops == [] then [] else Encode(c, ops[0]) + EncodeAll(c, ops[1..])
  }

  function TranslateAll(c: Setup, ops: seq<Op>, p: nat): (code: seq<Inst>)
    requires AllFit(c, ops)
    ensures |code| == |ops|
  {
    if ops == [] then []
    else [Translate(c, ops[0], p)] + TranslateAll(c, ops[1..], p + |Encode(c, ops[0])|)
  }

  /** The bytes of a program decode to its instructions, one for one. */
  lemma {:induction false} ProgramDecodes(c: Setup, ops: seq<Op>, insts: seq<byte>, p: nat)
    requires AllFit(c, ops) && p <= |insts| && insts[p..] == EncodeAll(c, ops)
    ensures DecodeFrom(c, insts, p) == Got(TranslateAll(c, ops, p), |EncodeAll(c, ops)|)
    decreases |ops|
  {
    hide Decode, Encode, Translate, Fits;
    if ops != [] {
      var e := Encode(c, ops[0]);
      LieSplit(insts, p, e, EncodeAll(c, ops[1..]));
      assert insts[p..][|e|..] == EncodeAll(c, ops[1..]);
      assert insts[p + |e|..] == insts[p..][|e|..];
      DecodeUndoesEncode(c, ops[0], insts, p);
      ProgramDecodes(c, ops[1..], insts, p + |e|);
    }
  }

  /** The unwind table of section 6.4.1 for a program whose rest, from position p on, is ops. */
  function OpRows(c: Setup, ops: seq<Op>, p: nat, loc: uint64, b: RuleBuild, init: Rules): (rows: seq<Row<Rules>>)
    requires AllFit(c, ops) && RulesFit(b, init)
    ensures |rows| > 0 && rows[0].loc == loc
    decreases |ops|
  {
    hide RulesFit, OpStep, Fits;
    if ops == [] then [Row(loc, b.r)]
    else
      AddressFits(c, ops[0]);
      var rows := OpRows(c, ops[1..], p + |Encode(c, ops[0])|, Location(c.caf, ops[0], loc),
                         OpStep(c, ops[0], p, b, init), init);
      if ClosesRow(ops[0]) then [Row(loc, b.r)] + rows else rows
  }

  lemma LocationIsStandard(c: Setup, op: Op, p: nat, loc: uint64)
    requires Fits(c, op)
    ensures LocAfter(c, Translate(c, op, p), loc) == Location(c.caf, op, loc)
    ensures var i := Translate(c, op, p); (i.Advance? || i.SetLoc?) <==> ClosesRow(op)
  {
    hide BlockAt;
  }

  /** What an instruction does to the row, the stack and the location is what its translation prescribes. */
  lemma StepIsStandard(c: Setup, op: Op, p: nat, b: RuleBuild, init: Rules, loc: uint64)
    requires Fits(c, op) && RulesFit(b, init)
    ensures RuleStep(c, Translate(c, op, p), b, init) == OpStep(c, op, p, b, init)
    ensures LocAfter(c, Translate(c, op, p), loc) == Location(c.caf, op, loc)
    ensures var i := Translate(c, op, p); (i.Advance? || i.SetLoc?) <==> ClosesRow(op)
  {
    hide EncodeUleb, LocAfter, Location, ClosesRow;
    LocationIsStandard(c, op, p, loc);
  }

  lemma {:induction false} RowsAreStandard(c: Setup, ops: seq<Op>, p: nat, loc: uint64, b: RuleBuild, init: Rules)
    requires AllFit(c, ops) && RulesFit(b, init)
    ensures RuleRows(c, TranslateAll(c, ops, p), loc, b, init) == OpRows(c, ops, p, loc, b, init)
    decreases |ops|
  {
    hide Encode, Translate, Fits, OpStep, RuleStep, LocAfter, Location, ClosesRow, RulesFit;
    if ops != [] {
      AddressFits(c, ops[0]);
      StepIsStandard(c, ops[0], p, b, init, loc);
      var code, p' := TranslateAll(c, ops, p), p + |Encode(c, ops[0])|;
      assert code[0] == Translate(c, ops[0], p) && code[1..] == TranslateAll(c, ops[1..], p');
      RowsAreStandard(c, ops[1..], p', Location(c.caf, ops[0], loc), OpStep(c, ops[0], p, b, init), init);
    }
  }

  // ----- what survives -----

  /** The rule that the instruction leaves in a column is one that the columns of the report can hold: an offset
      from the CFA of 64 bits, undefined, same value, a register of 16 bits whose number does not stand for these
      two, and what a restore brings back; for the CFA, a register of 16 bits and an offset of 64 bits. */
  predicate Shown(c: Setup, op: Op, x: Col) {
    match x
    case Cfa => CfaShown(c.daf, op)
    case Reg(k) => Target(op) == k ==> RuleShown(c.daf, op)
  }

  predicate CfaShown(daf: int, op: Op) {
    match op
    case DefCfa(reg, _) => reg < 0x1_0000
    case DefCfaSf(reg, s) => reg < 0x1_0000 && -TWO_63 <= s * daf < TWO_63
    case DefCfaRegister(reg) => reg < 0x1_0000
    case DefCfaOffsetSf(s) => -TWO_63 <= s * daf < TWO_63
    case DefCfaExpression(_) => false
    case _ => true
  }

  predicate RuleShown(daf: int, op: Op) {
    match op
    case Offset(_, n) => -TWO_63 <= n * daf < TWO_63
    case OffsetExtended(_, n) => -TWO_63 <= n * daf < TWO_63
    case OffsetExtendedSf(_, s) => -TWO_63 <= s * daf < TWO_63
    case Register(_, other) => other < 0x1_0000 && other != 1034 && other != 1035
    case ValOffset(_, _) => false
    case ValOffsetSf(_, _) => false
    case Expression(_, _) => false
    case ValExpression(_, _) => false
    case _ => true
  }

  ghost predicate AllShown(c: Setup, ops: seq<Op>, x: Col) {
    forall k :: 0 <= k < |ops| ==> Shown(c, ops[k], x)
  }

  lemma ShownSurvives(c: Setup, op: Op, p: nat, x: Col)
    requires Fits(c, op)
    ensures SurvivesAt(c, Translate(c, op, p), x) <==> Shown(c, op, x)
  {
    hide EncodeUleb;
  }

  lemma {:induction false} AllSurvive(c: Setup, ops: seq<Op>, p: nat, x: Col)
    requires AllFit(c, ops) && AllShown(c, ops, x)
    ensures AllSurviveAt(c, TranslateAll(c, ops, p), x)
    decreases |ops|
  {
    hide Fits, Translate, Encode, Shown, SurvivesAt;
    if ops != [] {
      ShownSurvives(c, ops[0], p, x);
      AllSurvive(c, ops[1..], p + |Encode(c, ops[0])|, x);
    }
  }

  // ----- from encoded programs to the report -----

  /** No nested remember_state, and no restore once anything was remembered: programs on which the one
      shadow table suffices. */
  predicate Ordinary(ops: seq<Op>, size: nat, phase: Phase) {
    ops == [] ||
    match ops[0]
    case SetLoc(_) => false
    case RememberState => !phase.Open? && Ordinary(ops[1..], size, Open)
    case RestoreState => phase.Open? && Ordinary(ops[1..], size, Closed)
    case Restore(reg) => phase.Fresh? && reg < size && Ordinary(ops[1..], size, phase)
    case RestoreExtended(reg) => phase.Fresh? && reg < size && Ordinary(ops[1..], size, phase)
    case op => Target(op) < size && Ordinary(ops[1..], size, phase)
  }

  lemma {:induction false} OrdinaryInDomain(c: Setup, ops: seq<Op>, p: nat, size: nat, phase: Phase)
    requires AllFit(c, ops) && Ordinary(ops, size, phase)
    ensures InDomain(TranslateAll(c, ops, p), size, phase)
    decreases |ops|
  {
    hide Fits, Encode;
    if ops != [] {
      var p' := p + |Encode(c, ops[0])|;
      var next := if ops[0].RememberState? then Open else if ops[0].RestoreState? then Closed else phase;
      OrdinaryInDomain(c, ops[1..], p', size, next);
      assert TranslateAll(c, ops, p)[1..] == TranslateAll(c, ops[1..], p');
    }
  }

  /** The rules after the initial instructions of a CIE. */
  function InitialOps(cie: Setup, ops: seq<Op>, size: nat): (r: Rules)
    requires AllFit(cie, ops)
    ensures |r.regs| == size
  {
    var b := RuleBuild(DefaultRules(size), []);
    RowsAreStandard(cie, ops, 0, 0, b, DefaultRules(size));
    SizedRows(cie, TranslateAll(cie, ops, 0), 0, b, DefaultRules(size));
    var rows := OpRows(cie, ops, 0, 0, b, DefaultRules(size));
    rows[|rows| - 1].table
  }

  /** One shadow table suffices for the two programs. */
  ghost predicate SoundPair(cie: Setup, initCode: seq<Inst>, fde: Setup, code: seq<Inst>, size: nat) {
    var init := InitialRules(cie, initCode, size);
    && Sound(cie, initCode, Build(Blank(size), []), Blank(size), Blank(size))
    && Sound(fde, code, Build(init, []), init, init)
  }

  lemma OrdinaryIsSound(cie: Setup, initOps: seq<Op>, fde: Setup, ops: seq<Op>, size: nat)
    requires AllFit(cie, initOps) && AllFit(fde, ops)
    requires Ordinary(initOps, size, Fresh) && Ordinary(ops, size, Fresh)
    ensures SoundPair(cie, TranslateAll(cie, initOps, 0), fde, TranslateAll(fde, ops, 0), size)
  {
    hide Sound, InDomain, Ordinary, InitialRules;
    var initCode, code := TranslateAll(cie, initOps, 0), TranslateAll(fde, ops, 0);
    var init := InitialRules(cie, initCode, size);
    OrdinaryInDomain(cie, initOps, 0, size, Fresh);
    OrdinaryInDomain(fde, ops, 0, size, Fresh);
    DomainIsSound(cie, initCode, Build(Blank(size), []), Blank(size), Blank(size), Fresh);
    DomainIsSound(fde, code, Build(init, []), init, init, Fresh);
  }

  /** For a CIE and an FDE given by their instructions: when the interpreter runs over their bytes, the caller
      reads, in the column of any register and of the CFA, the rule that the standard's table has in force
      at pc, provided one shadow suffices and the instructions for this column can be shown. */
  lemma ReportIsStandard(cie: Setup, initOps: seq<Op>, fde: Setup, ops: seq<Op>, initloc: uint64, pcReq: uint64,
                         size: nat, before: seq<Column>, x: Col)
    requires AllFit(cie, initOps) && AllFit(fde, ops) && initloc <= pcReq
    requires SoundPair(cie, TranslateAll(cie, initOps, 0), fde, TranslateAll(fde, ops, 0), size)
    requires AllShown(cie, initOps, x) && AllShown(fde, ops, x)
    requires ColumnOf(x, fde.cfaColumn) < |before| && (x.Reg? ==> x.k < size && x.k != fde.cfaColumn)
    ensures var out := InternalTable(cie, EncodeAll(cie, initOps), fde, EncodeAll(fde, ops), initloc, pcReq, size);
      var init := InitialOps(cie, initOps, size);
      var rows := OpRows(fde, ops, 0, initloc, RuleBuild(init, []), init);
      && out.Done?
      && var k := ReportOf(before, out.rt, fde.cfaColumn)[ColumnOf(x, fde.cfaColumn)];
      && |InForce(rows, pcReq).table.regs| == |out.rt.rules| == size
      && match x
         case Cfa => CfaReading(k) == InForce(rows, pcReq).table.cfa
         case Reg(reg) => Reading(k) == InForce(rows, pcReq).table.regs[reg]
  {
    hide Sound, DecodeFrom, FullRows, RuleRows, OpRows, InternalTable, AllSurviveAt, AllProper, InitialRules;
    hide InForce, CfaReading, Reading, AllFit, AllShown, EncodeAll, TranslateAll;
    var init := InitialOps(cie, initOps, size);
    var initBytes, bytes := EncodeAll(cie, initOps), EncodeAll(fde, ops);
    assert initBytes[0..] == initBytes && bytes[0..] == bytes;
    ProgramDecodes(cie, initOps, initBytes, 0);
    ProgramDecodes(fde, ops, bytes, 0);
    AllSurvive(cie, initOps, 0, x);
    AllSurvive(fde, ops, 0, x);
    RowsAreStandard(cie, initOps, 0, 0, RuleBuild(DefaultRules(size), []), DefaultRules(size));
    RowsAreStandard(fde, ops, 0, initloc, RuleBuild(init, []), init);
    ReportIsRuleInForce(cie, initBytes, fde, bytes, initloc, pcReq, size, before, x);
  }

  // ----- where the row reported begins -----

  /** Instructions that set a rule or restore a row, as far as the code takes note of them: it leaves out
      same_value. */
  predicate Noted(op: Op) {
    (Target(op) >= 0 && !op.SameValue?) || op.RestoreState?
    || op.DefCfa? || op.DefCfaSf? || op.DefCfaRegister? || op.DefCfaOffset? || op.DefCfaOffsetSf?
    || op.DefCfaExpression?
  }

  /** The location of the last one noted among those up to pcReq; `row` if there is none. A set_loc ends the run. */
  function LastNoted(caf: nat, ops: seq<Op>, loc: nat, pcReq: nat, row: nat): nat {
    if ops == [] || ops[0].SetLoc? then row
    else if ClosesRow(ops[0]) && pcReq < Location(caf, ops[0], loc) then row
    else LastNoted(caf, ops[1..], Location(caf, ops[0], loc), pcReq, if Noted(ops[0]) then loc else row)
  }

  lemma StepNotes(c: Setup, op: Op, p: nat, s: State, pcReq: uint64)
    requires Fits(c, op) && s.Valid()
    ensures var e := Exec(c, Translate(c, op, p), s, pcReq);
      var ends := op.SetLoc? || (ClosesRow(op) && pcReq < Location(c.caf, op, s.pc));
      && (e.Exit? ==> e.s == s && ends)
      && (e.Next? ==> e.s.Valid() && !ends && e.s.pc == Location(c.caf, op, s.pc))
      && (e.Next? ==> e.s.rowPc == if Noted(op) then s.pc else s.rowPc)
  {
    hide Apply, BlockAt, InRange;
  }

  /** `*row_pc` is the location of the last instruction noted. */
  lemma {:induction false} RowPcIsLastNoted(c: Setup, ops: seq<Op>, insts: seq<byte>, p: nat, s: State, pcReq: uint64)
    requires AllFit(c, ops) && p <= |insts| && insts[p..] == EncodeAll(c, ops) && s.Valid()
    ensures var out := Run(c, insts, p, s, pcReq);
      out.Done? ==> out.rowPc == LastNoted(c.caf, ops, s.pc, pcReq, s.rowPc)
    decreases |ops|
  {
    hide Decode, Encode, Translate, Fits, Exec, Noted, Location, ClosesRow;
    if ops != [] {
      var e := Encode(c, ops[0]);
      LieSplit(insts, p, e, EncodeAll(c, ops[1..]));
      assert insts[p..][|e|..] == EncodeAll(c, ops[1..]);
      assert insts[p + |e|..] == insts[p..][|e|..];
      DecodeUndoesEncode(c, ops[0], insts, p);
      StepNotes(c, ops[0], p, s, pcReq);
      var x := Exec(c, Translate(c, ops[0], p), s, pcReq);
      if x.Next? {
        RowPcIsLastNoted(c, ops[1..], insts, p + |e|, x.s, pcReq);
      }
    }
  }

  /** Every location instruction is followed by one that is noted, before the next of them and the end. */
  predicate Settled(ops: seq<Op>, open: bool) {
    if ops == [] then !open
    else
      && !ops[0].SetLoc? && (ClosesRow(ops[0]) ==> !open)
      && Settled(ops[1..], ClosesRow(ops[0]) || (open && !Noted(ops[0])))
  }

  /** In such a program it is where the row in force begins. */
  lemma {:induction false} RowPcIsRowStart(c: Setup, ops: seq<Op>, p: nat, loc: uint64, pcReq: uint64, row: uint64,
                                           b: RuleBuild, init: Rules, open: bool)
    requires AllFit(c, ops) && RulesFit(b, init) && Settled(ops, open) && loc <= pcReq && (!open ==> row == loc)
    ensures LastNoted(c.caf, ops, loc, pcReq, row) == InForce(OpRows(c, ops, p, loc, b, init), pcReq).loc
    decreases |ops|
  {
    hide OpStep, RulesFit, Fits, Noted, Location, Encode, InForce;
    if ops == [] {
      OneRuleRow(loc, b.r, pcReq);
    } else {
      AddressFits(c, ops[0]);
      Stays(c.caf, ops[0], loc);
      var op, loc' := ops[0], Location(c.caf, ops[0], loc);
      var p', b' := p + |Encode(c, op)|, OpStep(c, op, p, b, init);
      var open' := ClosesRow(op) || (open && !Noted(op));
      var rows := OpRows(c, ops[1..], p', loc', b', init);
      if ClosesRow(op) {
        InForceCons(Row(loc, b.r), rows, pcReq);
      }
      if loc' <= pcReq {
        RowPcIsRowStart(c, ops[1..], p', loc', pcReq, if Noted(op) then loc else row, b', init, open');
      }
    }
  }

  lemma OneRuleRow(loc: uint64, r: Rules, pcReq: uint64)
    requires loc <= pcReq
    ensures InForce([Row(loc, r)], pcReq) == Row(loc, r)
  {
  }

  lemma Stays(caf: nat, op: Op, loc: uint64)
    ensures !ClosesRow(op) ==> Location(caf, op, loc) == loc
    ensures ClosesRow(op) ==> !Noted(op)
    ensures !op.SetLoc? ==> Location(caf, op, loc) < TWO_64
  {
  }
}
