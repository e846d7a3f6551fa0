/** The rules of section 6.4.1 of DWARF 4, and which of them each instruction of section 6.4.2 prescribes. */
module FrameRules {
  import opened Machine
  import opened FrameMachine

  datatype Rule =
    | Undef
    | Same
    | Offset(n: int)
    | ValOffset(n: int)
    | Register(reg: nat)
    | Expression(len: nat, block: nat)
    | ValExpression(len: nat, block: nat)

  datatype CfaRule = RegisterPlus(reg: nat, n: int) | CfaExpression(len: nat, block: nat)

  /** The rule an instruction prescribes (section 6.4.2.3), given the initial rule of its register. */
  function Prescribed(c: Setup, i: Inst, init: Rule): Rule
    requires Checked(i) >= 0
  {
    match i
    case OffsetRule(_, n, kind) => if kind == DW_EXPR_VAL_OFFSET then ValOffset(n * c.daf) else Offset(n * c.daf)
    case UndefinedRule(_) => Undef
    case SameValue(_) => Same
    case RegisterRule(_, other) => Register(other)
    case ExpressionRule(_, kind, len, block) =>
      if kind == DW_EXPR_EXPRESSION then Expression(len, block) else ValExpression(len, block)
    case _ => init
  }

  predicate Int64(x: int) { -TWO_63 <= x < TWO_63 }

  /** The kinds that decoded instructions carry. */
  predicate ProperKind(i: Inst) {
    match i
    case OffsetRule(_, _, kind) => kind == DW_EXPR_OFFSET || kind == DW_EXPR_VAL_OFFSET
    case ExpressionRule(_, kind, _, _) => kind == DW_EXPR_EXPRESSION || kind == DW_EXPR_VAL_EXPRESSION
    case _ => true
  }

  lemma DecodedKind(c: Setup, insts: seq<byte>, p: nat)
    requires p < |insts| && Decode(c, insts, p).Got?
    ensures ProperKind(Decode(c, insts, p).value)
  {
    hide U, UU, US, S, F;
  }

  lemma SignedOfUnsigned(x: int)
    ensures Signed64(ToU64(x)) == x <==> Int64(x)
  {
  }

  /** The CFA rule an instruction prescribes (section 6.4.2.2); changing only the register or only the
      offset presupposes a rule of that kind. */
  function PrescribedCfa(c: Setup, i: Inst, r: CfaRule): CfaRule {
    match i
    case DefCfa(reg, n, factored) => RegisterPlus(reg, if factored then n * c.daf else n)
    case DefCfaRegister(reg) => if r.RegisterPlus? then RegisterPlus(reg, r.n) else r
    case DefCfaOffset(n, factored) =>
      if r.RegisterPlus? then RegisterPlus(r.reg, if factored then n * c.daf else n) else r
    case DefCfaExpression(len, block) => CfaExpression(len, block)
    case _ => r
  }

  predicate ExpressibleCfa(c: Setup, i: Inst) {
    match i
    case DefCfa(reg, n, factored) => reg < 0x1_0000 && Int64(if factored then n * c.daf else n)
    case DefCfaRegister(reg) => reg < 0x1_0000
    case DefCfaOffset(n, factored) => Int64(if factored then n * c.daf else n)
    case _ => true
  }
}
