/** `_dwarf_lineno_init`: the header of a line-number program in the layout of versions 2 and 3 of
    DWARF (section 6.2.4), its sanity checks, and the run of the program behind it. */
module LineHeader {
  import opened Machine
  import opened Leb128
  import opened FixedWidth
  import opened LineProgram

  const DW_DLE_NONE := 0
  const DW_DLE_DEBUG_LINE_LENGTH_BAD := 15

  /** Outcome of reading a header: parameters, where the program starts and where it ends. */
  datatype Opened = Unopened | BadLength | Ready(h: Params, start: nat, end: nat)

  function Signed8(x: byte): int {
    if x < 128 then x else x - 256
  }

  /** End of the include directories: the position of the empty string that closes them. */
  function DirsEnd(sec: seq<byte>, p: nat): (r: Read<nat>)
    ensures r.Got? ==> p <= r.value < |sec|
    decreases |sec| - p
  {
    if p >= |sec| then Fault
    else if sec[p] == 0 then Got(p, 0)
    else
      match StringSize(sec[p..])
      case Fault => Fault
      case Got(n, _) => DirsEnd(sec, p + n)
  }

  /** End of the file list, likewise. */
  function FilesEnd(sec: seq<byte>, p: nat): (r: Read<nat>)
    ensures r.Got? ==> p <= r.value < |sec|
    decreases |sec| - p
  {
    if p >= |sec| then Fault
    else if sec[p] == 0 then Got(p, 0)
    else
      match FileSize(sec[p..])
      case Fault => Fault
      case Got(n, _) => FilesEnd(sec, p + n)
  }

  /** From the length field on. */
  function Open(order: Endian, addrSize: int, sec: seq<byte>, offset: nat): Opened
    requires offset <= |sec|
  {
    match ReadFixed(order, sec[offset..], 4)
    case Fault => Unopened
    case Got(word, _) =>
      if offset + 4 > |sec| then Unopened
      else if word != 0xffff_ffff then OpenSized(order, addrSize, sec, offset + 4, word, 4)
      else
        match ReadFixed(order, sec[offset + 4..], 8)
        case Fault => Unopened
        case Got(long, _) =>
          if offset + 12 > |sec| then Unopened else OpenSized(order, addrSize, sec, offset + 12, long, 8)
  }

  function OpenSized(order: Endian, addrSize: int, sec: seq<byte>, offset: nat, length: uint64, size: nat): Opened
    requires offset <= |sec| && (size == 4 || size == 8)
  {
    if length > |sec| - offset then BadLength
    else if offset + 2 > |sec| then Unopened
    else
      match ReadFixed(order, sec[offset + 2..], size)
      case Fault => Unopened
      case Got(hdrlen, _) =>
        if offset + 2 + size > |sec| then Unopened
        else OpenTail(order, addrSize, sec, offset + 2 + size, hdrlen, offset + length)
  }

  /** From the minimum instruction length on; `hdroff` is where the header length counts from. */
  function OpenTail(order: Endian, addrSize: int, sec: seq<byte>, hdroff: nat, hdrlen: uint64, end: nat): (r: Opened)
    requires hdroff <= |sec|
    ensures r.Ready? ==> r.end == end
  {
    if hdroff + 5 > |sec| then Unopened
    else
      var h := Params(sec[hdroff], sec[hdroff + 1], Signed8(sec[hdroff + 2]), sec[hdroff + 3], sec[hdroff + 4],
                      order, addrSize);
      if Signed32(hdrlen % TWO_32) - 5 < h.opbase - 1 then BadLength
      else
        match DirsEnd(sec, hdroff + 5 + Opcodes(h))
        case Fault => Unopened
        case Got(dirs, _) =>
          match FilesEnd(sec, dirs + 1)
          case Fault => Unopened
          case Got(files, _) =>
            if files + 1 - hdroff != hdrlen then BadLength else Ready(h, files + 1, end)
  }

  /** Number of entries in the operand-count array that are read. */
  function Opcodes(h: Params): nat {
    if h.opbase > 0 then h.opbase - 1 else 0
  }

  /** What the routine leaves: its code, the row and the row count. */
  datatype Answer = Unanswered | Failed | Found(row: Row, count: nat)

  function Answered(order: Endian, addrSize: int, sec: seq<byte>, offset: nat, pc: uint64, row: Row, count: nat): Answer
    requires offset <= |sec|
  {
    match Open(order, addrSize, sec, offset)
    case Unopened => Unanswered
    case BadLength => Failed
    case Ready(h, start, end) =>
      if end > |sec| then Unanswered
      else if start >= end then Found(row, count)
      else
        match Run(h, sec[start..end], ResetRegs(h), pc, row, count)
        case Undefined => Unanswered
        case Done(r, n) => Found(r, n)
  }

  // ----- the header as it is laid out -----

  datatype File = File(name: seq<byte>, dir: nat, time: nat, length: nat)

  /** A line-number header. */
  datatype Header = Header(version: nat, minlen: byte, defstmt: byte, lbase: int, lrange: byte, opbase: byte,
                           operands: seq<byte>, dirs: seq<seq<byte>>, files: seq<File>)

  ghost predicate Name(s: seq<byte>) { s != [] && 0 !in s }

  ghost predicate ValidLineHeader(t: Header) {
    && t.version < 0x1_0000 && -128 <= t.lbase < 128
    && t.opbase > 0 && |t.operands| == t.opbase - 1
    && (forall i :: 0 <= i < |t.dirs| ==> Name(t.dirs[i]))
    && (forall i :: 0 <= i < |t.files| ==> ValidFile(t.files[i]))
  }

  ghost predicate ValidFile(f: File) {
    Name(f.name) && f.dir < TWO_31 && f.time < TWO_31 && f.length < TWO_31
  }

  function EncodeName(s: seq<byte>): seq<byte> { s + [0] }

  function EncodeFile(f: File): seq<byte> {
    EncodeName(f.name) + (EncodeUleb(f.dir) + (EncodeUleb(f.time) + EncodeUleb(f.length)))
  }

  function EncodeDirs(dirs: seq<seq<byte>>): seq<byte> {
    if dirs == [] then [0] else EncodeName(dirs[0]) + EncodeDirs(dirs[1..])
  }

  function EncodeFiles(files: seq<File>): seq<byte> {
    if files == [] then [0] else EncodeFile(files[0]) + EncodeFiles(files[1..])
  }

  function FixedFields(t: Header): (e: seq<byte>)
    ensures |e| == 5
  {
    [t.minlen, t.defstmt, t.lbase % 256, t.lrange, t.opbase]
  }

  function EncodeTail(t: Header): seq<byte> {
    FixedFields(t) + (t.operands + (EncodeDirs(t.dirs) + EncodeFiles(t.files)))
  }

  /** Length, version, header length, the rest, and the program. */
  function EncodeLines(order: Endian, size: nat, t: Header, prog: seq<byte>): seq<byte> {
    var tail := EncodeTail(t);
    (if size == 4 then EncodeFixed(order, 2 + size + |tail| + |prog|, 4)
     else EncodeFixed(order, 0xffff_ffff, 4) + EncodeFixed(order, 2 + size + |tail| + |prog|, 8))
    + EncodeBody(order, size, t, prog)
  }

  function EncodeBody(order: Endian, size: nat, t: Header, prog: seq<byte>): seq<byte> {
    EncodeFixed(order, t.version, 2) + (EncodeFixed(order, |EncodeTail(t)|, size) + (EncodeTail(t) + prog))
  }

  function ParamsOf(order: Endian, addrSize: int, t: Header): Params {
    Params(t.minlen, t.defstmt, t.lbase, t.lrange, t.opbase, order, addrSize)
  }

  lemma {:induction false} NameStops(s: seq<byte>, rest: seq<byte>)
    requires 0 !in s
    ensures StringSize(EncodeName(s) + rest) == Got(|s| + 1, 0)
  {
    var e := EncodeName(s) + rest;
    if s == [] {
      assert e[0] == 0;
    } else {
      assert e[0] == s[0];
      assert e[1..] == EncodeName(s[1..]) + rest;
      NameStops(s[1..], rest);
    }
  }

  lemma AtSuffix(sec: seq<byte>, p: nat, a: seq<byte>, b: seq<byte>)
    requires p <= |sec| && a + b <= sec[p..]
    ensures p + |a| <= |sec| && a <= sec[p..] && b <= sec[p + |a|..]
    ensures sec[p..] == a + sec[p + |a|..]
  {
    PrefixSplit(a, b, sec[p..]);
    assert sec[p..][|a|..] == sec[p + |a|..];
    assert sec[p..][..|a|] == a;
  }

  lemma {:induction false} DirsRoundTrip(sec: seq<byte>, p: nat, dirs: seq<seq<byte>>)
    requires p <= |sec| && EncodeDirs(dirs) <= sec[p..]
    requires forall i :: 0 <= i < |dirs| ==> Name(dirs[i])
    ensures DirsEnd(sec, p) == Got(p + |EncodeDirs(dirs)| - 1, 0)
    decreases |dirs|
  {
    hide StringSize;
    if dirs == [] {
      assert sec[p] == sec[p..][0] == 0;
    } else {
      var e := EncodeName(dirs[0]);
      AtSuffix(sec, p, e, EncodeDirs(dirs[1..]));
      assert sec[p] == e[0] == dirs[0][0];
      NameStops(dirs[0], sec[p + |e|..]);
      DirsRoundTrip(sec, p + |e|, dirs[1..]);
    }
  }

  lemma UlebThere(v: nat, rest: seq<byte>)
    requires v < TWO_31
    ensures Uleb(EncodeUleb(v) + rest) == Got(v, |EncodeUleb(v)|)
  {
    UlebRoundTrip(v, EncodeUleb(v) + rest);
  }

  lemma FileStops(f: File, rest: seq<byte>)
    requires ValidFile(f)
    ensures FileSize(EncodeFile(f) + rest) == Got(|EncodeFile(f)|, 0)
  {
    hide StringSize, Uleb, EncodeUleb;
    var n, a, b, c := EncodeName(f.name), EncodeUleb(f.dir), EncodeUleb(f.time), EncodeUleb(f.length);
    var s := EncodeFile(f) + rest;
    assert s == n + (a + (b + (c + rest)));
    NameStops(f.name, a + (b + (c + rest)));
    assert s[|n|..] == a + (b + (c + rest));
    UlebThere(f.dir, b + (c + rest));
    assert s[|n| + |a|..] == b + (c + rest);
    UlebThere(f.time, c + rest);
    assert s[|n| + |a| + |b|..] == c + rest;
    UlebThere(f.length, rest);
  }

  lemma {:induction false} FilesRoundTrip(sec: seq<byte>, p: nat, files: seq<File>)
    requires p <= |sec| && EncodeFiles(files) <= sec[p..]
    requires forall i :: 0 <= i < |files| ==> ValidFile(files[i])
    ensures FilesEnd(sec, p) == Got(p + |EncodeFiles(files)| - 1, 0)
    decreases |files|
  {
    hide FileSize;
    if files == [] {
      assert sec[p] == sec[p..][0] == 0;
    } else {
      var e := EncodeFile(files[0]);
      AtSuffix(sec, p, e, EncodeFiles(files[1..]));
      assert sec[p] == e[0] == files[0].name[0];
      FileStops(files[0], sec[p + |e|..]);
      FilesRoundTrip(sec, p + |e|, files[1..]);
    }
  }

  lemma TailRoundTrip(order: Endian, addrSize: int, sec: seq<byte>, p: nat, t: Header, end: nat)
    requires p <= |sec| && EncodeTail(t) <= sec[p..] && ValidLineHeader(t) && |EncodeTail(t)| < TWO_31
    ensures OpenTail(order, addrSize, sec, p, |EncodeTail(t)|, end)
         == Ready(ParamsOf(order, addrSize, t), p + |EncodeTail(t)|, end)
  {
    hide DirsEnd, FilesEnd, EncodeDirs, EncodeFiles, ValidFile, Name;
    var f, lists := FixedFields(t), EncodeDirs(t.dirs) + EncodeFiles(t.files);
    AtSuffix(sec, p, f, t.operands + lists);
    assert forall i :: 0 <= i < 5 ==> sec[p + i] == sec[p..][i] == f[i];
    AtSuffix(sec, p + 5, t.operands, lists);
    var q := p + 5 + |t.operands|;
    AtSuffix(sec, q, EncodeDirs(t.dirs), EncodeFiles(t.files));
    DirsRoundTrip(sec, q, t.dirs);
    FilesRoundTrip(sec, q + |EncodeDirs(t.dirs)|, t.files);
    ListsNonempty(t);
  }

  lemma ListsNonempty(t: Header)
    ensures |EncodeDirs(t.dirs)| > 0 && |EncodeFiles(t.files)| > 0
  {
  }

  lemma FixedThere(order: Endian, v: nat, n: nat, rest: seq<byte>, sec: seq<byte>, p: nat)
    requires Width(n) && v < Pow2(8 * n) && p <= |sec| && EncodeFixed(order, v, n) + rest <= sec[p..]
    ensures ReadFixed(order, sec[p..], n) == Got(v, n) && p + n <= |sec| && rest <= sec[p + n..]
  {
    hide ReadFixed, EncodeFixed;
    AtSuffix(sec, p, EncodeFixed(order, v, n), rest);
    FixedRoundTrip(order, v, n, sec[p..]);
  }

  lemma BodyRoundTrip(order: Endian, addrSize: int, sec: seq<byte>, p: nat, size: nat, t: Header, prog: seq<byte>)
    requires (size == 4 || size == 8) && ValidLineHeader(t) && |EncodeTail(t)| < TWO_31
    requires p <= |sec| && EncodeBody(order, size, t, prog) <= sec[p..]
    requires |EncodeBody(order, size, t, prog)| < TWO_64
    ensures var start := p + 2 + size + |EncodeTail(t)|;
      && OpenSized(order, addrSize, sec, p, |EncodeBody(order, size, t, prog)|, size)
         == Ready(ParamsOf(order, addrSize, t), start, start + |prog|)
      && start + |prog| <= |sec| && sec[start..start + |prog|] == prog
  {
    hide ReadFixed, EncodeFixed, EncodeTail, OpenTail, ValidLineHeader;
    Pow2Values();
    hide Pow2;
    assert t.version < 0x1_0000 by { VersionFits(t); }
    var tail := EncodeTail(t);
    FixedThere(order, t.version, 2, EncodeFixed(order, |tail|, size) + (tail + prog), sec, p);
    FixedThere(order, |tail|, size, tail + prog, sec, p + 2);
    AtSuffix(sec, p + 2 + size, tail, prog);
    TailRoundTrip(order, addrSize, sec, p + 2 + size, t, p + |EncodeBody(order, size, t, prog)|);
    var start := p + 2 + size + |tail|;
    assert sec[start..][..|prog|] == prog;
  }

  lemma VersionFits(t: Header)
    requires ValidLineHeader(t)
    ensures t.version < 0x1_0000
  {
  }

  /** The unit length in front of a body, in four or in twelve bytes. */
  lemma UnitLength(order: Endian, addrSize: int, sec: seq<byte>, offset: nat, size: nat, t: Header, prog: seq<byte>)
    requires (size == 4 || size == 8) && offset <= |sec| && EncodeLines(order, size, t, prog) <= sec[offset..]
    requires |EncodeBody(order, size, t, prog)| < (if size == 4 then 0xffff_ffff else TWO_64)
    ensures |EncodeBody(order, size, t, prog)| <= |EncodeLines(order, size, t, prog)|
    ensures var body := EncodeBody(order, size, t, prog);
      var p := offset + |EncodeLines(order, size, t, prog)| - |body|;
      && p <= |sec| && body <= sec[p..]
      && Open(order, addrSize, sec, offset) == OpenSized(order, addrSize, sec, p, |body|, size)
  {
    hide ReadFixed, EncodeFixed, EncodeBody, OpenSized, EncodeTail;
    Pow2Values();
    hide Pow2;
    var body := EncodeBody(order, size, t, prog);
    BodyLength(order, size, t, prog);
    if size == 4 {
      FixedThere(order, |body|, 4, body, sec, offset);
    } else {
      var mark, long := EncodeFixed(order, 0xffff_ffff, 4), EncodeFixed(order, |body|, 8);
      assert EncodeLines(order, size, t, prog) == mark + (long + body);
      FixedThere(order, 0xffff_ffff, 4, long + body, sec, offset);
      FixedThere(order, |body|, 8, body, sec, offset + 4);
    }
  }

  /** Opening an encoded line table finds its parameters and exactly its program. */
  lemma OpenRoundTrip(order: Endian, addrSize: int, sec: seq<byte>, offset: nat, size: nat, t: Header, prog: seq<byte>)
    requires (size == 4 || size == 8) && ValidLineHeader(t) && |EncodeTail(t)| < TWO_31
    requires offset <= |sec| && EncodeLines(order, size, t, prog) <= sec[offset..]
    requires |EncodeBody(order, size, t, prog)| < (if size == 4 then 0xffff_ffff else TWO_64)
    ensures var start := offset + |EncodeLines(order, size, t, prog)| - |prog|;
      && Open(order, addrSize, sec, offset) == Ready(ParamsOf(order, addrSize, t), start, start + |prog|)
      && start + |prog| <= |sec| && sec[start..start + |prog|] == prog
  {
    hide EncodeTail, EncodeBody, EncodeLines, Open, OpenSized, ValidLineHeader;
    var body := EncodeBody(order, size, t, prog);
    BodyLength(order, size, t, prog);
    UnitLength(order, addrSize, sec, offset, size, t, prog);
    BodyRoundTrip(order, addrSize, sec, offset + |EncodeLines(order, size, t, prog)| - |body|, size, t, prog);
  }

  lemma BodyLength(order: Endian, size: nat, t: Header, prog: seq<byte>)
    ensures |EncodeBody(order, size, t, prog)| == 2 + size + |EncodeTail(t)| + |prog|
  {
  }

  /** From the section to the answer: on an encoded line table the routine reports the last row
      before the first row beyond pc in the full matrix of the program, or zeros. */
  lemma LineTableLookup(order: Endian, addrSize: int, sec: seq<byte>, offset: nat, size: nat, t: Header,
                        prog: seq<byte>, pc: uint64)
    requires (size == 4 || size == 8) && ValidLineHeader(t) && |EncodeTail(t)| < TWO_31
    requires offset <= |sec| && EncodeLines(order, size, t, prog) <= sec[offset..]
    requires |EncodeBody(order, size, t, prog)| < (if size == 4 then 0xffff_ffff else TWO_64)
    requires DecodeAll(ParamsOf(order, addrSize, t), prog).Got?
    ensures var h := ParamsOf(order, addrSize, t);
      var rows := Rows(h, DecodeAll(h, prog).value, ResetRegs(h));
      Answered(order, addrSize, sec, offset, pc, NO_ROW, 0) == Found(AnswerFrom(rows, pc), Before(rows, pc))
  {
    hide Open, EncodeLines, EncodeBody, EncodeTail, ValidLineHeader, Run, DecodeAll, Rows, Before;
    var h := ParamsOf(order, addrSize, t);
    OpenRoundTrip(order, addrSize, sec, offset, size, t, prog);
    EmptyProgram(h);
    EarlyExitIsLookup(h, prog, ResetRegs(h), pc, NO_ROW, 0);
  }

  lemma EmptyProgram(h: Params)
    ensures DecodeAll(h, []) == Got([], 0) && Rows(h, [], ResetRegs(h)) == []
  {
  }

  // ----- the routine -----

  /** The include directories and the files, both passed over. */
  method SkipDirs(sec: seq<byte>, start: nat) returns (p: nat, inclen: nat)
    requires DirsEnd(sec, start).Got?
    ensures p == DirsEnd(sec, start).value
  {
    hide StringSize;
    p, inclen := start, 0;
    while sec[p] != 0
      invariant p < |sec| && DirsEnd(sec, p) == DirsEnd(sec, start)
      decreases |sec| - p
    {
      p := StringLength(sec, p);
      inclen := inclen + 1;
    }
  }

  method SkipFiles(sec: seq<byte>, start: nat) returns (p: nat)
    requires FilesEnd(sec, start).Got?
    ensures p == FilesEnd(sec, start).value
  {
    hide FileSize;
    p := start;
    while sec[p] != 0
      invariant p < |sec| && FilesEnd(sec, p) == FilesEnd(sec, start)
      decreases |sec| - p
    {
      p := AddFile(sec, p);
    }
  }

  /** The header from the minimum instruction length on. */
  method ReadTail(order: Endian, addrSize: int, sec: seq<byte>, hdroff: nat, hdrlen: uint64, ghost end: nat)
    returns (ok: bool, h: Params, p: nat)
    requires hdroff <= |sec| && !OpenTail(order, addrSize, sec, hdroff, hdrlen, end).Unopened?
    ensures match OpenTail(order, addrSize, sec, hdroff, hdrlen, end)
      case Unopened => false
      case BadLength => !ok
      case Ready(h', start, _) => ok && h == h' && p == start
  {
    hide DirsEnd, FilesEnd;
    p := hdroff;
    h := Params(sec[p], sec[p + 1], Signed8(sec[p + 2]), sec[p + 3], sec[p + 4], order, addrSize);
    ok := Signed32(hdrlen % TWO_32) - 5 >= h.opbase - 1;
    if ok {
      var inclen;
      p, inclen := SkipDirs(sec, hdroff + 5 + Opcodes(h));
      p := SkipFiles(sec, p + 1);
      p := p + 1;
      ok := p - hdroff == hdrlen;
    }
  }

  /** Everything up to the program. */
  method OpenHeader(order: Endian, addrSize: int, sec: seq<byte>, offset: nat)
    returns (ok: bool, h: Params, p: nat, endoff: nat)
    requires offset <= |sec| && !Open(order, addrSize, sec, offset).Unopened?
    ensures match Open(order, addrSize, sec, offset)
      case Unopened => false
      case BadLength => !ok
      case Ready(h', start, end) => ok && h == h' && p == start && endoff == end
  {
    hide ReadFixed, OpenTail;
    var length, size, hdrlen, version := 0, 4, 0, 0;
    length, p := ReadAt(order, sec, offset, 4);
    if length == 0xffff_ffff {
      length, p := ReadAt(order, sec, p, 8);
      size := 8;
    }
    endoff := p + length;
    h := Params(0, 0, 0, 0, 0, order, addrSize);
    ok := length <= |sec| - p;
    if ok {
      FixedReadable(order, sec[p..], 2);
      version, p := ReadAt(order, sec, p, 2);
      hdrlen, p := ReadAt(order, sec, p, size);
      ok, h, p := ReadTail(order, addrSize, sec, p, hdrlen, endoff);
    }
  }

  /** `_dwarf_lineno_init`. */
  method LinenoInit(order: Endian, addrSize: int, sec: seq<byte>, offset: nat, pc: uint64, li: LineInfo)
    returns (ret: int)
    requires offset <= |sec|
    requires !Answered(order, addrSize, sec, offset, pc, li.row, li.lnlen).Unanswered?
    modifies li
    ensures match old(Answered(order, addrSize, sec, offset, pc, li.row, li.lnlen))
      case Unanswered => false
      case Failed => ret == DW_DLE_DEBUG_LINE_LENGTH_BAD && li.row == old(li.row) && li.lnlen == old(li.lnlen)
      case Found(row, count) => ret == DW_DLE_NONE && li.row == row && li.lnlen == count
  {
    hide Open, Run;
    var ok, h, p, endoff := OpenHeader(order, addrSize, sec, offset);
    ret := DW_DLE_DEBUG_LINE_LENGTH_BAD;
    if ok {
      if p < endoff {
        RunProgram(h, sec[p..endoff], pc, li);
      }
      ret := DW_DLE_NONE;
    }
  }
}
