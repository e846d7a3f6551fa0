/** `dwarf_srclines`: from the entry of a unit to the line of an address. */
module SourceLine {
  import opened Machine
  import opened FixedWidth
  import opened AbbrevTable
  import opened DieReader
  import opened DieTree
  import opened DieValues
  import LineProgram
  import LineMatrix
  import LineHeader
  import LineStandard

  const DW_AT_STMT_LIST := 0x10

  /** A line number as an int, or a section that cannot be read. */
  datatype LineNumber = Unreadable | Line(n: int)

  /** The line the query reports for the attributes of a unit entry: the one of the row that the line table at
      DW_AT_stmt_list answers with, and 0 if there is none or its header is bad. */
  function LineFrom(order: Endian, addrSize: int, lines: seq<byte>, attrs: seq<Attribute>, addr: uint64): LineNumber {
    var k := AttrIndex(attrs, DW_AT_STMT_LIST);
    if k == |attrs| then Line(0)
    else if attrs[k].u0 > |lines| then Unreadable
    else
      match LineHeader.Answered(order, addrSize, lines, attrs[k].u0, addr, LineProgram.NO_ROW, 0)
      case Unanswered => Unreadable
      case Failed => Line(0)
      case Found(row, _) => Line(Signed32(row.lineno % TWO_32))
  }

  /** `dwarf_srclines` into a line that was cleared, and what `list_func_die` takes from it. */
  method SrcLines(order: Endian, addrSize: int, lines: seq<byte>, cuDie: DieBuffer, addr: uint64) returns (n: int)
    requires cuDie.Valid() && LineFrom(order, addrSize, lines, cuDie.Snapshot().attrs, addr).Line?
    ensures LineFrom(order, addrSize, lines, cuDie.Snapshot().attrs, addr) == Line(n)
  {
    hide LineHeader.Answered;
    n := 0;
    var k := AttrFind(cuDie, DW_AT_STMT_LIST);
    if k >= 0 {
      var li := new LineProgram.LineInfo();
      var ret := LineHeader.LinenoInit(order, addrSize, lines, cuDie.attrs[k].u0, addr, li);
      if ret == DW_DLE_NONE {
        n := Signed32(li.row.lineno % TWO_32);
      }
    }
  }

  // ----- what the line is -----

  /** The first DW_AT_stmt_list (0x10) of an entry. */
  ghost predicate LineTableAt(u: Unit, t: Tree, n: nat)
    requires ValidHead(u, t)
  {
    exists k :: 0 <= k < |t.values| && FirstStmtList(u, t, k) && Innermost(t.values[k]) == Number(n)
  }

  ghost predicate FirstStmtList(u: Unit, t: Tree, k: nat)
    requires ValidHead(u, t) && k < |t.values|
  {
    && AbOf(u, t.code).attrs[k].attrib == 0x10
    && forall j :: 0 <= j < k ==> AbOf(u, t.code).attrs[j].attrib != 0x10
  }

  /** The entry read leads to the line table that was encoded for it. */
  lemma TableFound(u: Unit, t: Tree, off: nat, name: nat, n: nat)
    requires ValidHead(u, t) && LineTableAt(u, t, n)
    ensures var attrs := HeadDie(u, t, off, name).attrs;
      var k := AttrIndex(attrs, DW_AT_STMT_LIST); k < |attrs| && attrs[k].u0 == n
  {
    hide HeadDie, Innermost, ValidValues, Lookup, AttrIndex;
    var die := HeadDie(u, t, off, name);
    var k :| 0 <= k < |t.values| && FirstStmtList(u, t, k) && Innermost(t.values[k]) == Number(n);
    forall i | 0 <= i < |t.values|
      ensures die.attrs[i].attrib == AbOf(u, t.code).attrs[i].attrib
    {
      HeadAttrAt(u, t, off, name, i);
    }
    HeadAttrAt(u, t, off, name, k);
    var j := AttrIndex(die.attrs, DW_AT_STMT_LIST);
    assert !(j < k) && !(k < j);
  }

  /** From the unit entry to the line of the standard: on an encoded line table the line reported is that of
      the row that the standard's matrix assigns to the address, wherever that row is reached. */
  lemma LineIsStandard(u: Unit, t: Tree, off: nat, name: nat, n: nat, addrSize: int, lines: seq<byte>, size: nat,
                       table: LineHeader.Header, prog: seq<byte>, addr: uint64)
    requires ValidHead(u, t) && LineTableAt(u, t, n)
    requires (size == 4 || size == 8) && LineHeader.ValidLineHeader(table) && |LineHeader.EncodeTail(table)| < TWO_31
    requires n <= |lines| && LineHeader.EncodeLines(u.d.order, size, table, prog) <= lines[n..]
    requires |LineHeader.EncodeBody(u.d.order, size, table, prog)| < (if size == 4 then 0xffff_ffff else TWO_64)
    requires LineProgram.DecodeAll(LineHeader.ParamsOf(u.d.order, addrSize, table), prog).Got?
    ensures var h := LineHeader.ParamsOf(u.d.order, addrSize, table);
      var rows := LineMatrix.Matrix(h, LineProgram.DecodeAll(h, prog).value, LineProgram.ResetRegs(h));
      var i := LineMatrix.StandardRow(rows, addr);
      LineMatrix.Reached(rows, addr, i) ==>
        LineFrom(u.d.order, addrSize, lines, HeadDie(u, t, off, name).attrs, addr)
        == Line(if i < |rows| then Signed32(rows[i].lineno % TWO_32) else 0)
  {
    hide HeadDie, LineHeader.Answered, LineHeader.EncodeLines, LineHeader.EncodeBody, LineHeader.EncodeTail;
    hide LineHeader.ValidLineHeader, LineProgram.DecodeAll, LineProgram.Run, LineProgram.Rows, LineProgram.Before;
    hide LineProgram.LastBefore, LineMatrix.Matrix, LineMatrix.Reached, LineMatrix.StandardRow, LineMatrix.Plain;
    var h := LineHeader.ParamsOf(u.d.order, addrSize, table);
    TableFound(u, t, off, name, n);
    LineHeader.LineTableLookup(u.d.order, addrSize, lines, n, size, table, prog, addr);
    LineProgram.EarlyExitIsLookup(h, prog, LineProgram.ResetRegs(h), addr, LineProgram.NO_ROW, 0);
    LineMatrix.EndSequenceMissed(h, prog, addr);
    LastOfNothing();
  }

  /** The same for a program given by the opcodes of section 6.2.5. */
  lemma LineOfOpcodes(u: Unit, t: Tree, off: nat, name: nat, n: nat, addrSize: int, lines: seq<byte>, size: nat,
                      table: LineHeader.Header, ops: seq<LineStandard.Opcode>, addr: uint64)
    requires ValidHead(u, t) && LineTableAt(u, t, n)
    requires (size == 4 || size == 8) && LineHeader.ValidLineHeader(table) && |LineHeader.EncodeTail(table)| < TWO_31
    requires LineStandard.AllFit(LineHeader.ParamsOf(u.d.order, addrSize, table), ops)
    requires var prog := LineStandard.EncodeAll(LineHeader.ParamsOf(u.d.order, addrSize, table), ops);
      && n <= |lines| && LineHeader.EncodeLines(u.d.order, size, table, prog) <= lines[n..]
      && |LineHeader.EncodeBody(u.d.order, size, table, prog)| < (if size == 4 then 0xffff_ffff else TWO_64)
    ensures var h := LineHeader.ParamsOf(u.d.order, addrSize, table);
      var rows := LineStandard.StandardMatrix(h, ops, LineStandard.Initial(h));
      var i := LineMatrix.StandardRow(rows, addr);
      LineMatrix.Reached(rows, addr, i) ==>
        LineFrom(u.d.order, addrSize, lines, HeadDie(u, t, off, name).attrs, addr)
        == Line(if i < |rows| then Signed32(rows[i].lineno % TWO_32) else 0)
  {
    hide HeadDie, LineFrom, LineHeader.EncodeLines, LineHeader.EncodeBody, LineHeader.EncodeTail, LineTableAt;
    hide ValidHead, LineHeader.ValidLineHeader, LineProgram.DecodeAll, LineMatrix.Matrix, LineMatrix.Reached;
    hide LineStandard.AllFit, LineMatrix.StandardRow, LineStandard.EncodeAll, LineStandard.TranslateAll;
    hide LineStandard.StandardMatrix;
    var h := LineHeader.ParamsOf(u.d.order, addrSize, table);
    LineStandard.ProgramDecodes(h, ops);
    LineStandard.MatrixIsStandard(h, ops, LineStandard.Initial(h));
    LineIsStandard(u, t, off, name, n, addrSize, lines, size, table, LineStandard.EncodeAll(h, ops), addr);
  }

  lemma LastOfNothing()
    ensures LineProgram.NO_ROW.lineno == 0 && Signed32(0 % TWO_32) == 0
  {
  }
}
