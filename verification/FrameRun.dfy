/** `_dwarf_frame_regtable_copy`, `_dwarf_frame_run_inst` and `_dwarf_frame_get_internal_table` on
    rule tables updated in place. */
module FrameRun {
  import opened Machine
  import opened Leb128
  import opened FixedWidth
  import opened FrameMachine
  import opened FrameTable

  /** `Dwarf_Regtable3` with its array of rules. */
  class RegTable {
    var cfa: Entry
    const rules: array<Entry>

    constructor (size: nat)
      ensures rules.Length == size && fresh(rules)
      ensures forall k :: 0 <= k < size ==> rules[k] == ZERO_ENTRY
      ensures cfa == ZERO_ENTRY
    {
      cfa := ZERO_ENTRY;
      rules := new Entry[size](_ => ZERO_ENTRY);
    }

    function Contents(): Table
      reads this, rules
    {
      Table(cfa, rules[..])
    }
  }

  /** The smaller table is copied, and what the destination has beyond it becomes undefined. */
  function Copied(dest: seq<Entry>, src: seq<Entry>): (r: seq<Entry>)
    ensures |r| == |dest|
    ensures |src| == |dest| ==> r == src
  {
    seq(|dest|, k requires 0 <= k < |dest| =>
      if k < |src| then src[k] else dest[k].(regnum := DW_FRAME_UNDEFINED_VAL))
  }

  /** `_dwarf_frame_regtable_copy`. */
  method RegtableCopy(dest: RegTable, src: RegTable)
    requires dest != src && dest.rules != src.rules
    modifies dest, dest.rules
    ensures dest.cfa == src.cfa
    ensures dest.rules[..] == Copied(old(dest.rules[..]), src.rules[..])
    ensures dest.rules.Length == src.rules.Length ==> dest.Contents() == src.Contents()
  {
    dest.cfa := src.cfa;
    ghost var was := dest.rules[..];
    var i := 0;
    while i < dest.rules.Length && i < src.rules.Length
      invariant 0 <= i <= dest.rules.Length && i <= src.rules.Length && dest.cfa == src.cfa
      invariant forall k :: 0 <= k < i ==> dest.rules[k] == src.rules[k]
      invariant forall k :: i <= k < dest.rules.Length ==> dest.rules[k] == was[k]
    {
      dest.rules[i] := src.rules[i];
      i := i + 1;
    }
    ghost var m := i;
    while i < dest.rules.Length
      invariant m <= i <= dest.rules.Length && dest.cfa == src.cfa
      invariant forall k :: 0 <= k < m ==> dest.rules[k] == src.rules[k]
      invariant forall k :: m <= k < i ==> dest.rules[k] == was[k].(regnum := DW_FRAME_UNDEFINED_VAL)
      invariant forall k :: i <= k < dest.rules.Length ==> dest.rules[k] == was[k]
    {
      dest.rules[i] := dest.rules[i].(regnum := DW_FRAME_UNDEFINED_VAL);
      i := i + 1;
    }
    assert dest.rules[..] == Copied(was, src.rules[..]);
  }

  // ----- operands -----

  method ReadU(insts: seq<byte>, p: nat) returns (a: uint64, p': nat)
    requires U(insts, p).Got?
    ensures p <= p' && U(insts, p) == Got(a, p' - p)
  {
    hide Uleb;
    a, p' := DecodeUleb128(insts, p);
  }

  method ReadUU(insts: seq<byte>, p: nat) returns (a: uint64, b: uint64, p': nat)
    requires UU(insts, p).Got?
    ensures p <= p' && UU(insts, p) == Got((a, b), p' - p)
  {
    hide U;
    a, p' := ReadU(insts, p);
    b, p' := ReadU(insts, p');
  }

  method ReadS(insts: seq<byte>, p: nat) returns (a: int64, p': nat)
    requires S(insts, p).Got?
    ensures p <= p' && S(insts, p) == Got(a, p' - p)
  {
    hide Sleb;
    a, p' := DecodeSleb128(insts, p);
  }

  method ReadUS(insts: seq<byte>, p: nat) returns (a: uint64, b: int64, p': nat)
    requires US(insts, p).Got?
    ensures p <= p' && US(insts, p) == Got((a, b), p' - p)
  {
    hide U, S;
    a, p' := ReadU(insts, p);
    b, p' := ReadS(insts, p');
  }

  method LocationAt(c: Setup, low6: byte, insts: seq<byte>, p: nat) returns (i: Inst, p': nat)
    requires 1 <= low6 <= 4 && DecodeLocation(c, low6, insts, p).Got?
    ensures p <= p' && DecodeLocation(c, low6, insts, p) == Got(i, p' - p)
  {
    hide ReadFixed;
    var v;
    v, p' := DecodeAt(c.order, insts, p,
                      if low6 == 1 then c.pointerSize else if low6 == 2 then 1 else if low6 == 3 then 2 else 4);
    i := if low6 == 1 then SetLoc(v) else Advance(v);
  }

  method RuleAt(c: Setup, low6: byte, insts: seq<byte>, p: nat) returns (i: Inst, p': nat)
    requires low6 in {0x05, 0x06, 0x07, 0x08, 0x09, 0x11, 0x14, 0x15} && DecodeRule(c, low6, insts, p).Got?
    ensures p <= p' && DecodeRule(c, low6, insts, p) == Got(i, p' - p)
  {
    hide U, S, UU, US;
    var reg, other, n;
    if low6 == 0x06 || low6 == 0x07 || low6 == 0x08 {
      reg, p' := ReadU(insts, p);
      i := if low6 == 0x06 then Restore(reg) else if low6 == 0x07 then UndefinedRule(reg) else SameValue(reg);
    } else if low6 == 0x11 || low6 == 0x15 {
      reg, n, p' := ReadUS(insts, p);
      i := OffsetRule(reg, n, if low6 == 0x11 then DW_EXPR_OFFSET else DW_EXPR_VAL_OFFSET);
    } else {
      reg, other, p' := ReadUU(insts, p);
      i := if low6 == 0x09 then RegisterRule(reg, other)
           else OffsetRule(reg, other, if low6 == 0x05 then DW_EXPR_OFFSET else DW_EXPR_VAL_OFFSET);
    }
  }

  method ExpressionAt(c: Setup, low6: byte, insts: seq<byte>, p: nat) returns (i: Inst, p': nat)
    requires (low6 == 0x0f || low6 == 0x10 || low6 == 0x16) && DecodeExpression(c, low6, insts, p).Got?
    ensures p <= p' && DecodeExpression(c, low6, insts, p) == Got(i, p' - p)
  {
    hide U, UU;
    var reg, len;
    if low6 == 0x0f {
      len, p' := ReadU(insts, p);
      i := DefCfaExpression(len, c.base + p');
    } else {
      reg, len, p' := ReadUU(insts, p);
      i := ExpressionRule(reg, if low6 == 0x10 then DW_EXPR_EXPRESSION else DW_EXPR_VAL_EXPRESSION, len, c.base + p');
    }
    p' := p' + len;
  }

  method CfaAt(low6: byte, insts: seq<byte>, p: nat) returns (i: Inst, p': nat)
    requires low6 in {0x0c, 0x0d, 0x0e, 0x12, 0x13} && DecodeCfa(low6, insts, p).Got?
    ensures p <= p' && DecodeCfa(low6, insts, p) == Got(i, p' - p)
  {
    hide U, S, UU, US;
    var reg, n, s;
    if low6 == 0x0c {
      reg, n, p' := ReadUU(insts, p);
      i := DefCfa(reg, n, false);
    } else if low6 == 0x12 {
      reg, s, p' := ReadUS(insts, p);
      i := DefCfa(reg, s, true);
    } else if low6 == 0x13 {
      s, p' := ReadS(insts, p);
      i := DefCfaOffset(s, true);
    } else {
      n, p' := ReadU(insts, p);
      i := if low6 == 0x0d then DefCfaRegister(n) else DefCfaOffset(n, false);
    }
  }

  /** The instruction at p, and the pointer behind it. */
  method InstAt(c: Setup, insts: seq<byte>, p: nat) returns (i: Inst, p': nat)
    requires p < |insts| && Decode(c, insts, p).Got?
    ensures p < p' && Decode(c, insts, p) == Got(i, p' - p)
  {
    hide U, DecodeLocation, DecodeRule, DecodeExpression, DecodeCfa;
    var high2, low6 := insts[p] / 64, insts[p] % 64;
    p' := p + 1;
    i := Illegal;
    if high2 == 1 {
      i := Advance(low6);
    } else if high2 == 2 {
      var n;
      n, p' := ReadU(insts, p');
      i := OffsetRule(low6, n, DW_EXPR_OFFSET);
    } else if high2 == 3 {
      i := Restore(low6);
    } else if low6 == 0 {
      i := Nop;
    } else if low6 <= 4 {
      i, p' := LocationAt(c, low6, insts, p');
    } else if low6 in {0x05, 0x06, 0x07, 0x08, 0x09, 0x11, 0x14, 0x15} {
      i, p' := RuleAt(c, low6, insts, p');
    } else if low6 == 0x0a {
      i := Remember;
    } else if low6 == 0x0b {
      i := RestoreState;
    } else if low6 in {0x0c, 0x0d, 0x0e, 0x12, 0x13} {
      i, p' := CfaAt(low6, insts, p');
    } else if low6 == 0x0f || low6 == 0x10 || low6 == 0x16 {
      i, p' := ExpressionAt(c, low6, insts, p');
    }
  }

  // ----- effects -----

  /** Two tables of the same size that share nothing. */
  ghost predicate Apart(rt: RegTable, shadow: RegTable) {
    rt != shadow && rt.rules != shadow.rules && rt.rules.Length == shadow.rules.Length
  }

  /** The register rules, assigned field by field. */
  method SetRule(c: Setup, i: Inst, rt: RegTable, shadow: RegTable)
    requires Apart(rt, shadow) && 0 <= Checked(i) < rt.rules.Length
    modifies rt.rules
    ensures rt.Contents() == Apply(c, i, old(rt.Contents()), shadow.Contents())
  {
    match i
    case OffsetRule(reg, n, kind) =>
      rt.rules[reg] := rt.rules[reg].(relevant := true, kind := kind, regnum := c.cfaColumn,
                                           value := ToU64(n * c.daf));
    case Restore(reg) =>
      rt.rules[reg] := shadow.rules[reg];
    case UndefinedRule(reg) =>
      rt.rules[reg] := rt.rules[reg].(relevant := false, regnum := DW_FRAME_UNDEFINED_VAL);
    case SameValue(reg) =>
      rt.rules[reg] := rt.rules[reg].(relevant := false, regnum := DW_FRAME_SAME_VAL);
    case RegisterRule(reg, other) =>
      rt.rules[reg] := rt.rules[reg].(relevant := false, regnum := other % 0x1_0000);
    case ExpressionRule(reg, kind, len, block) =>
      rt.rules[reg] := rt.rules[reg].(relevant := false, kind := kind, value := len, block := block);
  }

  /** The CFA rules. */
  method SetCfa(c: Setup, i: Inst, rt: RegTable)
    requires Checked(i) < 0
    modifies rt`cfa
    ensures rt.cfa == NewCfa(c, i, old(rt.cfa))
  {
    var e := rt.cfa;
    match i
    case DefCfa(reg, n, factored) =>
      rt.cfa := e.(relevant := true, kind := DW_EXPR_OFFSET, regnum := reg % 0x1_0000,
                   value := if factored then ToU64(n * c.daf) else ToU64(n));
    case DefCfaRegister(reg) =>
      rt.cfa := e.(regnum := reg % 0x1_0000);
    case DefCfaOffset(n, factored) =>
      rt.cfa := e.(relevant := true, kind := DW_EXPR_OFFSET, value := if factored then ToU64(n * c.daf) else ToU64(n));
    case DefCfaExpression(len, block) =>
      rt.cfa := e.(relevant := false, kind := DW_EXPR_EXPRESSION, value := len, block := block);
    case _ =>
  }

  /** The locals of a run. */
  class Cursor {
    var pc: uint64
    var rowPc: uint64
    var saved: bool

    constructor (pc: uint64)
      ensures this.pc == rowPc == pc && !saved
    {
      this.pc, rowPc, saved := pc, pc, false;
    }

    ghost function State(rt: RegTable, shadow: RegTable): State
      reads this, rt, rt.rules, shadow, shadow.rules
    {
      FrameMachine.State(rt.Contents(), shadow.Contents(), saved, pc, rowPc)
    }
  }

  datatype Flow = Go | Leave | Bad(code: int)

  /** The effect of one instruction; `k` holds the locals of the run. */
  method ExecInst(c: Setup, i: Inst, rt: RegTable, shadow: RegTable, k: Cursor, pcReq: uint64) returns (flow: Flow)
    requires Apart(rt, shadow) && !Exec(c, i, k.State(rt, shadow), pcReq).Panic?
    modifies rt, rt.rules, shadow, shadow.rules, k
    ensures match old(Exec(c, i, k.State(rt, shadow), pcReq))
      case Next(s) => flow == Go && k.State(rt, shadow) == s
      case Exit(s) => flow == Leave && rt.Contents() == s.rt && k.rowPc == s.rowPc
      case Error(code) => flow == Bad(code)
      case Panic => false
  {
    hide NewCfa, NewEntry;
    if i.Advance? {
      var pc := ToU64(k.pc + i.delta * c.caf);
      if pcReq < pc {
        return Leave;
      }
      k.pc := pc;
      return Go;
    }
    if i.Illegal? {
      return Bad(DW_DLE_FRAME_INSTR_EXEC_ERROR);
    }
    if i.SetLoc? {
      return Leave;
    }
    if SetsRowPc(i) {
      k.rowPc := k.pc;
    }
    flow := Go;
    if i.Remember? {
      RegtableCopy(shadow, rt);
      k.saved := true;
    } else if i.RestoreState? {
      RegtableCopy(rt, shadow);
    } else if Checked(i) >= rt.rules.Length {
      flow := Bad(DW_DLE_DF_REG_NUM_TOO_HIGH);
    } else if Checked(i) >= 0 {
      SetRule(c, i, rt, shadow);
    } else {
      SetCfa(c, i, rt);
    }
  }

  /** `_dwarf_frame_run_inst`. */
  method RunInst(c: Setup, rt: RegTable, shadow: RegTable, insts: seq<byte>, pc: uint64, pcReq: uint64)
    returns (ret: int, rowPc: uint64)
    requires Apart(rt, shadow)
    requires Run(c, insts, 0, Start(rt.Contents(), pc), pcReq) != Undefined
    modifies rt, rt.rules, shadow, shadow.rules
    ensures match old(Run(c, insts, 0, Start(rt.Contents(), pc), pcReq))
      case Undefined => false
      case Failed(code) => ret == code
      case Done(t, row) => ret == DW_DLE_NONE && rt.Contents() == t && rowPc == row
  {
    hide Decode, Exec;
    var k := new Cursor(pc);
    ghost var goal := Run(c, insts, 0, Start(rt.Contents(), pc), pcReq);
    RegtableCopy(shadow, rt);
    var p := 0;
    var flow := Go;
    while p < |insts| && flow == Go
      invariant 0 <= p && fresh(k) && k.State(rt, shadow).Valid()
      invariant flow == Go ==> Run(c, insts, p, k.State(rt, shadow), pcReq) == goal
      invariant flow == Leave ==> goal == Done(rt.Contents(), k.rowPc)
      invariant flow.Bad? ==> goal == Failed(flow.code)
      decreases |insts| - p
    {
      var i;
      i, p := InstAt(c, insts, p);
      flow := ExecInst(c, i, rt, shadow, k, pcReq);
    }
    ret := if flow.Bad? then flow.code else DW_DLE_NONE;
    rowPc := k.rowPc;
  }

  /** `_dwarf_frame_get_internal_table`. */
  method GetInternalTable(cie: Setup, initInst: seq<byte>, fde: Setup, inst: seq<byte>, initloc: uint64,
                          pcReq: uint64, rt: RegTable, shadow: RegTable)
    returns (ret: int, rowPc: uint64)
    requires Apart(rt, shadow)
    requires InternalTable(cie, initInst, fde, inst, initloc, pcReq, rt.rules.Length) != Undefined
    modifies rt, rt.rules, shadow, shadow.rules
    ensures match InternalTable(cie, initInst, fde, inst, initloc, pcReq, rt.rules.Length)
      case Undefined => false
      case Failed(code) => ret == code
      case Done(t, row) => ret == DW_DLE_NONE && rt.Contents() == t && rowPc == row
  {
    hide Run;
    rt.cfa := ZERO_ENTRY;
    var i := 0;
    while i < rt.rules.Length
      invariant 0 <= i <= rt.rules.Length && rt.cfa == ZERO_ENTRY
      invariant forall k :: 0 <= k < i ==> rt.rules[k] == ZERO_ENTRY.(regnum := DW_FRAME_SAME_VAL)
    {
      rt.rules[i] := ZERO_ENTRY;
      rt.rules[i] := rt.rules[i].(regnum := DW_FRAME_SAME_VAL);
      i := i + 1;
    }
    assert rt.Contents() == Blank(rt.rules.Length);
    ret, rowPc := RunInst(cie, rt, shadow, initInst, 0, TWO_64 - 1);
    if ret == DW_DLE_NONE && pcReq >= initloc {
      ret, rowPc := RunInst(fde, rt, shadow, inst, initloc, pcReq);
    }
  }
}
