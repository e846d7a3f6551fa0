/** Section 6.2.5 of DWARF 4 on its own: the opcodes of a line-number program, their bytes, what each does
    to the registers, and the matrix they make. The machine decodes exactly these bytes to these effects. */
module LineStandard {
  import opened Machine
  import opened Leb128
  import opened FixedWidth
  import opened LineProgram
  import opened LineMatrix
  import opened LineHeader

  datatype Opcode =
    | Special(code: byte)
    | Copy
    | AdvancePc(n: nat)
    | AdvanceLine(d: int)
    | SetFile(n: nat)
    | SetColumn(n: nat)
    | NegateStmt
    | SetBasicBlock
    | ConstAddPc
    | FixedAdvancePc(n: nat)
    | SetPrologueEnd
    | SetEpilogueBegin
    | SetIsa(n: nat)
    | EndSequence
    | SetAddress(a: nat)
    | DefineFile(file: File)
    | OtherExtended(code: byte, data: seq<byte>)
    | OtherStandard(code: byte)

  // ----- their bytes -----

  /** A standard opcode counts as one below the opcode base; operands fit their encodings, LEB128 numbers as
      far as they are read right. */
  ghost predicate Fits(h: Params, op: Opcode) {
    match op
    case Special(x) => 0 < x && h.opbase <= x && h.lrange > 0
    case Copy => 0x01 < h.opbase
    case AdvancePc(n) => 0x02 < h.opbase && n < TWO_31
    case AdvanceLine(d) => 0x03 < h.opbase && -TWO_31 <= d < TWO_31
    case SetFile(n) => 0x04 < h.opbase && n < TWO_31
    case SetColumn(n) => 0x05 < h.opbase && n < TWO_31
    case NegateStmt => 0x06 < h.opbase
    case SetBasicBlock => 0x07 < h.opbase
    case ConstAddPc => 0x08 < h.opbase && h.lrange > 0
    case FixedAdvancePc(n) => 0x09 < h.opbase && n < 0x1_0000
    case SetPrologueEnd => 0x0a < h.opbase
    case SetEpilogueBegin => 0x0b < h.opbase
    case SetIsa(n) => 0x0c < h.opbase && n < TWO_31
    case EndSequence => true
    case SetAddress(a) => Width(h.addrSize) && a < Pow2(8 * h.addrSize)
    case DefineFile(f) => ValidFile(f) && |EncodeFile(f)| + 1 < TWO_31
    case OtherExtended(code, data) => code > 0x03 && |data| + 1 < TWO_31
    case OtherStandard(code) => 0x0c < code < h.opbase
  }

  /** Extended opcodes stand behind a zero byte and their length (section 7.21). */
  function Extended(code: byte, data: seq<byte>): (e: seq<byte>)
    ensures |e| > 0
  {
    [0x00] + (EncodeUleb(1 + |data|) + ([code] + data))
  }

  function Encode(h: Params, op: Opcode): (e: seq<byte>)
    requires Fits(h, op)
    ensures |e| > 0
  {
    match op
    case Special(x) => [x]
    case Copy => [0x01]
    case AdvancePc(n) => [0x02] + EncodeUleb(n)
    case AdvanceLine(d) => [0x03] + EncodeSleb(d)
    case SetFile(n) => [0x04] + EncodeUleb(n)
    case SetColumn(n) => [0x05] + EncodeUleb(n)
    case NegateStmt => [0x06]
    case SetBasicBlock => [0x07]
    case ConstAddPc => [0x08]
    case FixedAdvancePc(n) => [0x09] + EncodeFixed(h.order, n, 2)
    case SetPrologueEnd => [0x0a]
    case SetEpilogueBegin => [0x0b]
    case SetIsa(n) => [0x0c] + EncodeUleb(n)
    case EndSequence => Extended(0x01, [])
    case SetAddress(a) => Extended(0x02, EncodeFixed(h.order, a, h.addrSize))
    case DefineFile(f) => Extended(0x03, EncodeFile(f))
    case OtherExtended(code, data) => Extended(code, data)
    case OtherStandard(code) => [code]
  }

  // ----- their effects -----

  /** The registers at the beginning of a sequence (section 6.2.2). */
  function Initial(h: Params): Regs {
    Regs(0, 1, 1, 0, h.defstmt, false, false, false)
  }

  /** The address after the special opcode x (section 6.2.5.1), on 64 bits. */
  function AdvancedBy(h: Params, x: byte, address: uint64): uint64
    requires h.lrange > 0
  {
    (address + h.minlen * ((x - h.opbase) / h.lrange)) % 0x1_0000_0000_0000_0000
  }

  /** What each opcode does to the registers, before a row is made (sections 6.2.5.1 to 6.2.5.3), on 64 bits. */
  function Effect(h: Params, op: Opcode, r: Regs): Regs
    requires Fits(h, op)
  {
    match op
    case Special(x) =>
      r.(address := AdvancedBy(h, x, r.address),
         line := (r.line + h.lbase + (x - h.opbase) % h.lrange) % 0x1_0000_0000_0000_0000)
    case AdvancePc(n) => r.(address := (r.address + h.minlen * n) % 0x1_0000_0000_0000_0000)
    case AdvanceLine(d) => r.(line := (r.line + d) % 0x1_0000_0000_0000_0000)
    case SetFile(n) => r.(file := n)
    case SetColumn(n) => r.(column := n)
    case NegateStmt => r.(stmt := if r.stmt == 0 then 1 else 0)
    case SetBasicBlock => r.(block := true)
    case ConstAddPc => r.(address := AdvancedBy(h, 255, r.address))
    case FixedAdvancePc(n) => r.(address := (r.address + n) % 0x1_0000_0000_0000_0000)
    case SetPrologueEnd => r.(prologueEnd := true)
    case SetEpilogueBegin => r.(epilogueBegin := true)
    case EndSequence => Initial(h)
    case SetAddress(a) => AddressFits(h, op); r.(address := a)
    case _ => r
  }

  lemma AddressFits(h: Params, op: Opcode)
    requires Fits(h, op) && op.SetAddress?
    ensures op.a < TWO_64
  {
    Pow2Values();
    hide Pow2;
  }

  /** A row of the matrix, with or without the mark of the end of a sequence. */
  function Appended(r: Regs, end: bool): Row {
    Row(r.address, 0, r.file, r.line, Signed64(r.column), r.block, r.stmt, end)
  }

  ghost predicate AllFit(h: Params, ops: seq<Opcode>) {
    forall k :: 0 <= k < |ops| ==> Fits(h, ops[k])
  }

  /** The matrix: special opcodes and copy append a row and clear three flags, end_sequence appends a marked
      one with the registers as they are and resets them. */
  function StandardMatrix(h: Params, ops: seq<Opcode>, r: Regs): seq<Row>
    requires AllFit(h, ops)
  {
    if ops == [] then []
    else
      var m := Effect(h, ops[0], r);
      if ops[0].Special? || ops[0].Copy? then
        [Appended(m, false)]
        + StandardMatrix(h, ops[1..], m.(block := false, prologueEnd := false, epilogueBegin := false))
      else if ops[0].EndSequence? then [Appended(r, true)] + StandardMatrix(h, ops[1..], m)
      else StandardMatrix(h, ops[1..], m)
  }

  // ----- decoding -----

  /** What the machine carries out for an opcode. */
  function Translate(h: Params, op: Opcode): (o: Op)
    requires Fits(h, op)
    ensures Executable(h, o)
  {
    match op
    case Special(x) => Op.Special(x)
    case Copy => Op.Copy
    case AdvancePc(n) => Op.AdvancePc(n)
    case AdvanceLine(d) => Op.AdvanceLine(d)
    case SetFile(n) => Op.SetFile(n)
    case SetColumn(n) => Op.SetColumn(n)
    case NegateStmt => Op.NegateStmt
    case SetBasicBlock => Op.SetBasicBlock
    case ConstAddPc => Op.ConstAddPc
    case FixedAdvancePc(n) => Op.FixedAdvancePc(n)
    case SetPrologueEnd => Op.SetPrologueEnd
    case SetEpilogueBegin => Op.SetEpilogueBegin
    case EndSequence => Op.EndSequence
    case SetAddress(a) => AddressFits(h, op); Op.SetAddress(a)
    case DefineFile(_) => Op.DefineFile
    case _ => Skip
  }

  lemma SpecialMoves(h: Params, x: byte, r: Regs)
    requires h.lrange > 0
    ensures ToU64(r.address + AddressDelta(h, x)) == AdvancedBy(h, x, r.address)
    ensures ToU64(r.line + LineDelta(h, x)) == (r.line + h.lbase + (x - h.opbase) % h.lrange) % 0x1_0000_0000_0000_0000
  {
    Commute(h.minlen, (x - h.opbase) / h.lrange);
  }

  lemma Commute(a: int, b: int)
    ensures a * b == b * a
  {
  }

  /** Every opcode does to the registers what the standard says. */
  lemma MovedIsStandard(h: Params, op: Opcode, r: Regs)
    requires Fits(h, op)
    ensures Moved(h, Translate(h, op), r) == Effect(h, op, r)
    ensures MakesRow(Translate(h, op)) <==> op.Special? || op.Copy?
    ensures Translate(h, op).EndSequence? <==> op.EndSequence?
  {
    hide Pow2, AddressDelta, LineDelta, AdvancedBy, ValidFile, EncodeFile;
    if op.Special? {
      SpecialMoves(h, op.code, r);
    } else if op.ConstAddPc? {
      SpecialMoves(h, 255, r);
    } else if op.AdvancePc? {
      Commute(h.minlen, op.n);
    }
  }

  lemma StandardDecodes(h: Params, op: Opcode, t: seq<byte>)
    requires Fits(h, op) && !op.Special?
    requires !(op.EndSequence? || op.SetAddress? || op.DefineFile? || op.OtherExtended?)
    ensures var s := Encode(h, op) + t; LineProgram.Decode(h, s) == Got(Translate(h, op), |Encode(h, op)|)
  {
    hide Uleb, Sleb, ReadFixed, EncodeUleb, EncodeSleb, EncodeFixed;
    var s := Encode(h, op) + t;
    match op
    case AdvancePc(n) => Behind(0x02, EncodeUleb(n), t); UlebThere(n, t);
    case AdvanceLine(d) => Behind(0x03, EncodeSleb(d), t); SlebRoundTrip(d, EncodeSleb(d) + t);
    case SetFile(n) => Behind(0x04, EncodeUleb(n), t); UlebThere(n, t);
    case SetColumn(n) => Behind(0x05, EncodeUleb(n), t); UlebThere(n, t);
    case FixedAdvancePc(n) =>
      Behind(0x09, EncodeFixed(h.order, n, 2), t);
      TwoBytes();
      FixedRoundTrip(h.order, n, 2, EncodeFixed(h.order, n, 2) + t);
    case SetIsa(n) => Behind(0x0c, EncodeUleb(n), t); UlebThere(n, t);
    case _ =>
  }

  lemma TwoBytes()
    ensures Pow2(8 * 2) == 0x1_0000
  {
    Pow2Values();
  }

  lemma Behind(code: byte, e: seq<byte>, t: seq<byte>)
    ensures var s := [code] + e + t; s[0] == code && s[1..] == e + t
  {
  }

  lemma ExtendedDecodes(h: Params, op: Opcode, t: seq<byte>)
    requires Fits(h, op) && (op.EndSequence? || op.SetAddress? || op.DefineFile? || op.OtherExtended?)
    ensures var s := Encode(h, op) + t; LineProgram.Decode(h, s) == Got(Translate(h, op), |Encode(h, op)|)
  {
    hide Uleb, ReadFixed, EncodeUleb, EncodeFixed, FileSize, EncodeFile, ValidFile, Pow2;
    match op
    case EndSequence => BehindLength(0x01, [], t);
    case SetAddress(a) =>
      var e := EncodeFixed(h.order, a, h.addrSize);
      BehindLength(0x02, e, t);
      FixedRoundTrip(h.order, a, h.addrSize, e + t);
    case DefineFile(f) => BehindLength(0x03, EncodeFile(f), t); FileStops(f, t);
    case OtherExtended(code, data) => BehindLength(code, data, t);
  }

  lemma BehindLength(code: byte, data: seq<byte>, t: seq<byte>)
    requires 1 + |data| < TWO_31
    ensures var s := Extended(code, data) + t;
      var n := |EncodeUleb(1 + |data|)|;
      && s[0] == 0 && Uleb(s[1..]) == Got(1 + |data|, n) && n + 1 < |s[1..]| + 1
      && s[1..][n] == code && s[1..][n + 1..] == data + t && |s| == 2 + n + |data| + |t|
  {
    hide Uleb, EncodeUleb;
    var e := EncodeUleb(1 + |data|);
    var s := Extended(code, data) + t;
    assert s[1..] == e + ([code] + data + t);
    UlebThere(1 + |data|, [code] + data + t);
    assert s[1..][|e| + 1..] == data + t;
  }

  /** Decoding undoes encoding, for every opcode, whatever follows. */
  lemma DecodeUndoesEncode(h: Params, op: Opcode, t: seq<byte>)
    requires Fits(h, op)
    ensures var s := Encode(h, op) + t; LineProgram.Decode(h, s) == Got(Translate(h, op), |Encode(h, op)|)
  {
    hide LineProgram.Decode, Encode, Translate;
    if op.Special? {
      SpecialDecodesBack(h, op, t);
    } else if op.EndSequence? || op.SetAddress? || op.DefineFile? || op.OtherExtended? {
      ExtendedDecodes(h, op, t);
    } else {
      StandardDecodes(h, op, t);
    }
  }

  lemma SpecialDecodesBack(h: Params, op: Opcode, t: seq<byte>)
    requires Fits(h, op) && op.Special?
    ensures var s := Encode(h, op) + t; LineProgram.Decode(h, s) == Got(Translate(h, op), |Encode(h, op)|)
  {
  }

  function Numbers(args: seq<nat>): (e: seq<byte>)
    ensures args != [] ==> |e| > 0
  {
    if args == [] then [] else EncodeUleb(args[0]) + Numbers(args[1..])
  }

  /** An opcode that the machine does not know has as many LEB128 operands as the header says (section 6.2.4,
      standard_opcode_lengths); the machine passes over it right exactly when it has none. */
  lemma UnknownOpcodeExact(h: Params, code: byte, args: seq<nat>, t: seq<byte>)
    requires 0x0c < code < h.opbase
    ensures LineProgram.Decode(h, [code] + Numbers(args) + t) == Got(Skip, 1 + |Numbers(args)|) <==> args == []
  {
    assert ([code] + Numbers(args) + t)[0] == code;
  }

  // ----- programs -----

  function EncodeAll(h: Params, ops: seq<Opcode>): seq<byte>
    requires AllFit(h, ops)
  {
    if ops == [] then [] else Encode(h, ops[0]) + EncodeAll(h, ops[1..])
  }

  function TranslateAll(h: Params, ops: seq<Opcode>): (o: seq<Op>)
    requires AllFit(h, ops)
    ensures forall k :: 0 <= k < |o| ==> Executable(h, o[k])
  {
    if ops == [] then [] else [Translate(h, ops[0])] + TranslateAll(h, ops[1..])
  }

  /** The bytes of a program decode to its opcodes, one for one. */
  lemma {:induction false} ProgramDecodes(h: Params, ops: seq<Opcode>)
    requires AllFit(h, ops)
    ensures DecodeAll(h, EncodeAll(h, ops)) == Got(TranslateAll(h, ops), |EncodeAll(h, ops)|)
    decreases |ops|
  {
    hide LineProgram.Decode, Encode, Translate, Fits, Executable;
    if ops != [] {
      var e, rest := Encode(h, ops[0]), EncodeAll(h, ops[1..]);
      DecodeUndoesEncode(h, ops[0], rest);
      ProgramDecodes(h, ops[1..]);
      assert (e + rest)[|e|..] == rest;
      if rest == [] {
        NothingLeft(h, ops[1..]);
        assert e + rest == e && [Translate(h, ops[0])] + [] == [Translate(h, ops[0])];
      }
    }
  }

  lemma NothingLeft(h: Params, ops: seq<Opcode>)
    requires AllFit(h, ops) && EncodeAll(h, ops) == []
    ensures ops == [] && TranslateAll(h, ops) == []
  {
    hide Fits, Encode;
  }

  /** The matrix of the opcodes decoded is the standard's. */
  lemma {:induction false} MatrixIsStandard(h: Params, ops: seq<Opcode>, r: Regs)
    requires AllFit(h, ops)
    ensures Matrix(h, TranslateAll(h, ops), r) == StandardMatrix(h, ops, r)
    decreases |ops|
  {
    hide Fits, Effect, Moved, Translate, Encode;
    if ops != [] {
      var o, m := Translate(h, ops[0]), Effect(h, ops[0], r);
      MovedIsStandard(h, ops[0], r);
      MatrixStep(h, o, TranslateAll(h, ops[1..]), r);
      MatrixIsStandard(h, ops[1..], if MakesRow(o) then AfterRow(m) else m);
    }
  }

  /** The answer on the bytes of a program, against the matrix of its opcodes: the row that the standard assigns
      to pc, exactly when that is reached. */
  lemma AnswerIsStandard(h: Params, ops: seq<Opcode>, pc: uint64)
    requires AllFit(h, ops)
    ensures var rows := StandardMatrix(h, ops, Initial(h));
      var i := StandardRow(rows, pc);
      Answers(Run(h, EncodeAll(h, ops), Initial(h), pc, NO_ROW, 0), rows, i) <==> Reached(rows, pc, i)
  {
    hide Run, DecodeAll, Matrix, StandardMatrix, EncodeAll, TranslateAll, Answers, Reached, StandardRow, AllFit;
    ProgramDecodes(h, ops);
    MatrixIsStandard(h, ops, Initial(h));
    EndSequenceMissed(h, EncodeAll(h, ops), pc);
  }
}
