/** The text screen of console.c: 25 rows of 80 cells, scrolled by an overlapping copy. */
module Screen {
  import opened Machine

  const CRT_ROWS := 25
  const CRT_COLS := 80
  const CRT_SIZE := CRT_ROWS * CRT_COLS
  const BLANK: uint16 := 0x0720

  const BACKSPACE := 8
  const TAB := 9
  const NEWLINE := 10
  const RETURN := 13

  // ----- memmove -----

  /** The C `memmove`, within one array: backwards when the destination starts inside the source. */
  method MemMove<T>(a: array<T>, dst: nat, src: nat, n: nat)
    requires dst + n <= a.Length && src + n <= a.Length
    modifies a
    ensures a[..] == old(a[..dst] + a[src..src + n] + a[dst + n..])
  {
    ghost var was := a[..];
    var s, d, left := src, dst, n;
    if s < d && s + left > d {
      s, d := s + left, d + left;
      while left > 0
        invariant 0 <= left <= n && s == src + left && d == dst + left
        invariant forall i :: 0 <= i < d ==> a[i] == was[i]
        invariant forall i :: d <= i < dst + n ==> a[i] == was[i - dst + src]
        invariant forall i :: dst + n <= i < a.Length ==> a[i] == was[i]
      {
        d, s := d - 1, s - 1;
        a[d] := a[s];
        left := left - 1;
      }
    } else {
      while left > 0
        invariant 0 <= left <= n && s == src + (n - left) && d == dst + (n - left)
        invariant forall i :: 0 <= i < dst ==> a[i] == was[i]
        invariant forall i :: dst <= i < d ==> a[i] == was[i - dst + src]
        invariant forall i :: d <= i < a.Length ==> a[i] == was[i]
      {
        assert a[s] == was[s];
        a[d] := a[s];
        d, s := d + 1, s + 1;
        left := left - 1;
      }
    }
    assert a[dst..dst + n] == was[src..src + n];
  }

  // ----- the paper the screen shows a part of -----

  /** An endless sheet: the cells written, the cursor, and the deepest row it has been on. */
  datatype Paper = Paper(cells: map<nat, uint16>, pos: nat, deepest: nat)

  function At(p: Paper, x: nat): uint16 {
    if x in p.cells then p.cells[x] else BLANK
  }

  /** The first row on the screen: the deepest row is the last one. */
  function Top(p: Paper): nat
    requires p.deepest >= CRT_ROWS - 1
  {
    p.deepest - (CRT_ROWS - 1)
  }

  predicate ValidPaper(p: Paper) {
    && p.deepest >= CRT_ROWS - 1
    && CRT_COLS * Top(p) <= p.pos < CRT_COLS * (p.deepest + 1)
    && forall x :: x in p.cells ==> x < CRT_COLS * (p.deepest + 1)
  }

  /** The character with the attribute it gets when it has none. */
  function Attributed(c: uint32): uint32 {
    if c < 256 then c + 0x0700 else c
  }

  function Deepen(p: Paper): Paper {
    if p.pos / CRT_COLS > p.deepest then p.(deepest := p.pos / CRT_COLS) else p
  }

  function Type(p: Paper, cell: uint16): (r: Paper)
    requires ValidPaper(p)
    ensures ValidPaper(r) && p.deepest <= r.deepest
  {
    Deepen(p.(cells := p.cells[p.pos := cell], pos := p.pos + 1))
  }

  /** Back one cell, which is blanked, but not off the top of the screen. */
  function Rubout(p: Paper, a: uint32): (r: Paper)
    requires ValidPaper(p)
    ensures ValidPaper(r) && p.deepest <= r.deepest
  {
    if p.pos > CRT_COLS * Top(p) then
      p.(cells := p.cells[p.pos - 1 := (a - a % 256 + ' ' as int) % 0x1_0000], pos := p.pos - 1)
    else p
  }

  function Return(p: Paper): (r: Paper)
    requires ValidPaper(p)
    ensures ValidPaper(r) && p.deepest <= r.deepest
  {
    p.(pos := p.pos - p.pos % CRT_COLS)
  }

  function Newline(p: Paper): (r: Paper)
    requires ValidPaper(p)
    ensures ValidPaper(r) && p.deepest <= r.deepest
  {
    Deepen(p.(pos := p.pos + CRT_COLS - p.pos % CRT_COLS))
  }

  /** What a character does to the sheet. */
  function Put(p: Paper, c: uint32): (r: Paper)
    requires ValidPaper(p)
    ensures ValidPaper(r) && p.deepest <= r.deepest
    decreases if c % 256 == TAB then 1 else 0
  {
    var a := Attributed(c);
    var low := a % 256;
    if low == BACKSPACE then Rubout(p, a)
    else if low == NEWLINE then Newline(p)
    else if low == RETURN then Return(p)
    else if low == TAB then
      var blank: uint32 := ' ' as int;
      Put(Put(Put(Put(Put(p, blank), blank), blank), blank), blank)
    else Type(p, a % 0x1_0000)
  }

  // ----- the screen -----

  class Cga {
    const crtBuf: array<uint16>
    var crtPos: nat
    ghost var paper: Paper

    /** The screen shows the rows of the sheet from the top row on, the cursor is on it, and below it the
        sheet is blank. */
    ghost predicate Valid()
      reads this, crtBuf
    {
      && crtBuf.Length == CRT_SIZE && ValidPaper(paper)
      && paper.pos == CRT_COLS * Top(paper) + crtPos && crtPos < CRT_SIZE
      && forall k :: 0 <= k < CRT_SIZE ==> crtBuf[k] == At(paper, CRT_COLS * Top(paper) + k)
    }

    constructor (crtBuf: array<uint16>, crtPos: nat)
      requires crtBuf.Length == CRT_SIZE && crtPos < CRT_SIZE
      ensures Valid() && this.crtBuf == crtBuf && this.crtPos == crtPos
      ensures Top(paper) == 0 && crtBuf[..] == old(crtBuf[..])
    {
      this.crtBuf, this.crtPos := crtBuf, crtPos;
      paper := Paper(map k: nat | k < CRT_SIZE :: crtBuf[k], crtPos, CRT_ROWS - 1);
    }

    /** The screen before a scroll: the sheet is already `next`, the screen still shows the rows from the
        old top on, and the cursor may have left it by at most a row. */
    ghost predicate Unscrolled(top: nat, next: Paper)
      reads this, crtBuf
    {
      && crtBuf.Length == CRT_SIZE && ValidPaper(next) && crtPos < CRT_SIZE + CRT_COLS
      && next.pos == CRT_COLS * top + crtPos
      && Top(next) == top + (if crtPos >= CRT_SIZE then 1 else 0)
      && (forall x :: x in next.cells ==> x < CRT_COLS * (top + CRT_ROWS))
      && forall k :: 0 <= k < CRT_SIZE ==> crtBuf[k] == At(next, CRT_COLS * top + k)
    }

    /** Everything moves up a row, and the last row is blanked. */
    method ShiftUp()
      requires crtBuf.Length == CRT_SIZE
      modifies crtBuf
      ensures forall k :: 0 <= k < CRT_SIZE - CRT_COLS ==> crtBuf[k] == old(crtBuf[CRT_COLS + k])
      ensures forall k :: CRT_SIZE - CRT_COLS <= k < CRT_SIZE ==> crtBuf[k] == BLANK
    {
      ghost var was := crtBuf[..];
      MemMove(crtBuf, 0, CRT_COLS, CRT_SIZE - CRT_COLS);
      assert forall k :: 0 <= k < CRT_SIZE - CRT_COLS ==> crtBuf[k] == crtBuf[..][k] == was[CRT_COLS + k];
      var i := CRT_SIZE - CRT_COLS;
      while i < CRT_SIZE
        invariant CRT_SIZE - CRT_COLS <= i <= CRT_SIZE
        invariant forall k :: 0 <= k < CRT_SIZE - CRT_COLS ==> crtBuf[k] == was[CRT_COLS + k]
        invariant forall k :: CRT_SIZE - CRT_COLS <= k < i ==> crtBuf[k] == BLANK
      {
        crtBuf[i] := 0x0700 + ' ' as int;
        i := i + 1;
      }
    }

    /** The end of `cga_putc`: when the cursor has left the screen, everything moves up a row. */
    method Scroll(ghost top: nat, ghost next: Paper)
      requires Unscrolled(top, next)
      modifies this, crtBuf
      ensures Valid() && paper == next
    {
      if crtPos >= CRT_SIZE {
        ShiftUp();
        crtPos := crtPos - CRT_COLS;
        forall k | 0 <= k < CRT_SIZE
          ensures crtBuf[k] == At(next, CRT_COLS * Top(next) + k)
        {
          if k < CRT_SIZE - CRT_COLS {
            assert CRT_COLS * top + (CRT_COLS + k) == CRT_COLS * Top(next) + k;
          }
        }
      }
      paper := next;
    }

    method Erase(a: uint32)
      requires Valid()
      modifies this, crtBuf
      ensures Valid() && paper == Rubout(old(paper), a)
    {
      ghost var next := Rubout(paper, a);
      if crtPos > 0 {
        crtPos := crtPos - 1;
        crtBuf[crtPos] := (a - a % 256 + ' ' as int) % 0x1_0000;
      }
      paper := next;
    }

    method NextLine()
      requires Valid()
      modifies this, crtBuf
      ensures Valid() && paper == Newline(old(paper))
    {
      ghost var top, next := Top(paper), Newline(paper);
      crtPos := crtPos + CRT_COLS;
      crtPos := crtPos - crtPos % CRT_COLS;
      Scroll(top, next);
    }

    method LineStart()
      requires Valid()
      modifies this
      ensures Valid() && paper == Return(old(paper))
    {
      ghost var next := Return(paper);
      crtPos := crtPos - crtPos % CRT_COLS;
      paper := next;
    }

    method Write(cell: uint16)
      requires Valid()
      modifies this, crtBuf
      ensures Valid() && paper == Type(old(paper), cell)
    {
      ghost var top, next := Top(paper), Type(paper, cell);
      crtBuf[crtPos] := cell;
      crtPos := crtPos + 1;
      Scroll(top, next);
    }

    /** `cga_putc`: the sheet takes the character, the screen and the cursor follow. */
    method CgaPutc(c: uint32)
      requires Valid()
      modifies this, crtBuf
      ensures Valid() && paper == Put(old(paper), c)
      decreases if c % 256 == TAB then 1 else 0
    {
      hide Type, Newline, Return, Rubout, Valid, ValidPaper;
      var a := if c < 256 then c + 0x0700 else c;
      var low := a % 256;
      if low == BACKSPACE {
        Erase(a);
      } else if low == NEWLINE {
        NextLine();
      } else if low == RETURN {
        LineStart();
      } else if low == TAB {
        CgaPutc(' ' as int);
        CgaPutc(' ' as int);
        CgaPutc(' ' as int);
        CgaPutc(' ' as int);
        CgaPutc(' ' as int);
      } else {
        Write(a % 0x1_0000);
      }
    }
  }

  // ----- any run of characters -----

  function PutAll(p: Paper, cs: seq<uint32>): (r: Paper)
    requires ValidPaper(p)
    ensures ValidPaper(r)
  {
    if cs == [] then p else Put(PutAll(p, cs[..|cs| - 1]), cs[|cs| - 1])
  }

  lemma LowByteKept(c: uint32)
    ensures Attributed(c) % 256 == c % 256
  {
  }

  lemma PieceKeeps(p: Paper, a: uint32, cell: uint16, x: nat)
    requires ValidPaper(p) && x < CRT_COLS * Top(p)
    ensures At(Rubout(p, a), x) == At(Newline(p), x) == At(Return(p), x) == At(Type(p, cell), x) == At(p, x)
  {
  }

  lemma {:induction false} PutKeeps(p: Paper, c: uint32, x: nat)
    requires ValidPaper(p) && x < CRT_COLS * Top(p)
    ensures At(Put(p, c), x) == At(p, x) && Top(p) <= Top(Put(p, c))
    decreases if c % 256 == TAB then 1 else 0
  {
    hide At, Type, Rubout, Newline, Return, ValidPaper, Attributed;
    LowByteKept(c);
    PieceKeeps(p, Attributed(c), Attributed(c) % 0x1_0000, x);
    if c % 256 == TAB {
      var blank: uint32 := ' ' as int;
      var p1 := Put(p, blank);
      var p2 := Put(p1, blank);
      var p3 := Put(p2, blank);
      var p4 := Put(p3, blank);
      PutKeeps(p, blank, x);
      PutKeeps(p1, blank, x);
      PutKeeps(p2, blank, x);
      PutKeeps(p3, blank, x);
      PutKeeps(p4, blank, x);
    }
  }

  /** What has scrolled off the screen never changes, whatever is printed. */
  lemma {:induction false} ScrolledOffIsFinal(p: Paper, cs: seq<uint32>, x: nat)
    requires ValidPaper(p) && x < CRT_COLS * Top(p)
    ensures At(PutAll(p, cs), x) == At(p, x) && Top(p) <= Top(PutAll(p, cs))
    decreases |cs|
  {
    if cs != [] {
      ScrolledOffIsFinal(p, cs[..|cs| - 1], x);
      PutKeeps(PutAll(p, cs[..|cs| - 1]), cs[|cs| - 1], x);
    }
  }

  predicate IsPlain(c: uint32) {
    c % 256 != BACKSPACE && c % 256 != TAB && c % 256 != NEWLINE && c % 256 != RETURN
  }

  function CellOf(c: uint32): uint16 {
    Attributed(c) % 0x1_0000
  }

  /** A character without an attribute is black on white (0x07); any other one is the low 16 bits. */
  lemma CellOfCharacter(c: uint32)
    ensures CellOf(c) == if c < 0x100 then 0x0700 + c else c % 0x1_0000
  {
  }

  lemma PutPlain(p: Paper, c: uint32)
    requires ValidPaper(p) && IsPlain(c)
    ensures Put(p, c) == Type(p, CellOf(c))
  {
    hide Type, Attributed;
    LowByteKept(c);
  }

  lemma TypeCell(p: Paper, cell: uint16)
    requires ValidPaper(p)
    ensures Type(p, cell).pos == p.pos + 1
    ensures forall x: nat :: At(Type(p, cell), x) == if x == p.pos then cell else At(p, x)
  {
  }

  /** Ordinary characters fill consecutive cells, across line ends and scrolls, and change no others. */
  lemma {:induction false} PlainText(p: Paper, cs: seq<uint32>)
    requires ValidPaper(p) && forall k :: 0 <= k < |cs| ==> IsPlain(cs[k])
    ensures PutAll(p, cs).pos == p.pos + |cs|
    ensures forall k :: 0 <= k < |cs| ==> At(PutAll(p, cs), p.pos + k) == CellOf(cs[k])
    ensures forall x: nat :: x < p.pos || x >= p.pos + |cs| ==> At(PutAll(p, cs), x) == At(p, x)
    decreases |cs|
  {
    hide Put, At, Type, ValidPaper, CellOf;
    if cs != [] {
      var before := PutAll(p, cs[..|cs| - 1]);
      PlainText(p, cs[..|cs| - 1]);
      PutPlain(before, cs[|cs| - 1]);
      TypeCell(before, CellOf(cs[|cs| - 1]));
    }
  }

  // ----- the control characters -----

  /** The same cells, and the cursor there. */
  ghost predicate OnlyMoved(p: Paper, q: Paper, pos: nat) {
    q.pos == pos && forall x: nat :: At(q, x) == At(p, x)
  }

  /** A newline moves the cursor to the first cell of the next row, a return to the first cell of its own. */
  lemma LineEnds(p: Paper, c: uint32)
    requires ValidPaper(p)
    ensures c % 256 == 0x0a ==> OnlyMoved(p, Put(p, c), (p.pos / 80 + 1) * 80)
    ensures c % 256 == 0x0d ==> OnlyMoved(p, Put(p, c), p.pos / 80 * 80)
  {
    hide Attributed, ValidPaper;
    LowByteKept(c);
  }

  /** A tab is five blanks. */
  lemma TabIsBlanks(p: Paper, c: uint32)
    requires ValidPaper(p) && c % 256 == 0x09
    ensures Put(p, c).pos == p.pos + 5
    ensures forall x: nat :: At(Put(p, c), x) == if p.pos <= x < p.pos + 5 then 0x0720 else At(p, x)
  {
    hide Type, ValidPaper, At;
    LowByteKept(c);
    var p1 := Type(p, BLANK);
    var p2 := Type(p1, BLANK);
    var p3 := Type(p2, BLANK);
    var p4 := Type(p3, BLANK);
    assert CellOf(0x20) == BLANK;
    PutPlain(p, 0x20);
    PutPlain(p1, 0x20);
    PutPlain(p2, 0x20);
    PutPlain(p3, 0x20);
    PutPlain(p4, 0x20);
    TypeCell(p, BLANK);
    TypeCell(p1, BLANK);
    TypeCell(p2, BLANK);
    TypeCell(p3, BLANK);
    TypeCell(p4, BLANK);
  }

  /** A backspace behind an ordinary character takes it back: the cursor is where it was, its cell is blank, and
      no other cell has changed. */
  lemma BackspaceUndoes(p: Paper, c: uint32)
    requires ValidPaper(p) && IsPlain(c)
    ensures var q := Put(Put(p, c), 0x08);
      q.pos == p.pos && forall x: nat :: At(q, x) == if x == p.pos then 0x0720 else At(p, x)
  {
    PutPlain(p, c);
    TypeCell(p, CellOf(c));
    Backspace(Type(p, CellOf(c)));
  }

  /** Elsewhere it blanks the cell in front of the cursor, except in the first cell of the screen. */
  lemma Backspace(p: Paper)
    requires ValidPaper(p)
    ensures var q := Put(p, 0x08);
      if p.pos > 80 * Top(p) then
        q.pos == p.pos - 1 && forall x: nat :: At(q, x) == if x == p.pos - 1 then 0x0720 else At(p, x)
      else q == p
  {
    hide ValidPaper, Top, At;
    assert Put(p, 0x08) == Rubout(p, 0x0708);
    RuboutCell(p);
  }

  lemma RuboutCell(p: Paper)
    requires ValidPaper(p)
    ensures var q := Rubout(p, 0x0708);
      if p.pos > 80 * Top(p) then
        q.pos == p.pos - 1 && forall x: nat :: At(q, x) == if x == p.pos - 1 then 0x0720 else At(p, x)
      else q == p
  {
  }
}
