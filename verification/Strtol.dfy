/** `strtol` of lib/string.c, and the proof that it undoes the number formats of printfmt.c. Its long
    wraps around on overflow. */
module Strtol {
  import opened Machine
  import opened PrintFmt

  const NO_DIGIT := 99

  /** The value of a digit or letter; NO_DIGIT for any other character. */
  function DigitValue(c: byte): nat {
    if '0' as int <= c <= '9' as int then c - '0' as int
    else if 'a' as int <= c <= 'z' as int then c - 'a' as int + 10
    else if 'A' as int <= c <= 'Z' as int then c - 'A' as int + 10
    else NO_DIGIT
  }

  /** Where the blanks from i on end. */
  function BlanksEnd(data: seq<byte>, i: nat): (r: nat)
    requires CString(data) && i < |data|
    ensures i <= r < |data|
    decreases |data| - i
  {
    if data[i] == ' ' as int || data[i] == '\t' as int then BlanksEnd(data, i + 1) else i
  }

  function SignEnd(data: seq<byte>, i: nat): (r: nat)
    requires CString(data) && i < |data|
    ensures i <= r < |data|
  {
    if data[i] == '+' as int || data[i] == '-' as int then i + 1 else i
  }

  /** Where the digits start, and their base. */
  function Prefix(data: seq<byte>, i: nat, base: nat): (r: (nat, nat))
    requires CString(data) && i < |data|
    ensures i <= r.0 < |data|
  {
    if (base == 0 || base == 16) && data[i] == '0' as int && data[i + 1] == 'x' as int then (i + 2, 16)
    else if base == 0 && data[i] == '0' as int then (i + 1, 8)
    else if base == 0 then (i, 10)
    else (i, base)
  }

  predicate IsDigit(c: byte, base: nat) {
    DigitValue(c) != NO_DIGIT && DigitValue(c) < base
  }

  function DigitsEnd(data: seq<byte>, i: nat, base: nat): (r: nat)
    requires CString(data) && i < |data|
    ensures i <= r < |data|
    decreases |data| - i
  {
    if IsDigit(data[i], base) then DigitsEnd(data, i + 1, base) else i
  }

  /** The digits as a number, wrapped around to 64 bits. */
  function Fold(ds: seq<byte>, base: nat): uint64 {
    if ds == [] then 0
    else (Fold(ds[..|ds| - 1], base) * base + DigitValue(ds[|ds| - 1])) % TWO_64
  }

  /** What `strtol` returns, as a 64-bit pattern, and where it stops. */
  function Parsed(data: seq<byte>, base: nat): (uint64, nat)
    requires CString(data)
  {
    var i := BlanksEnd(data, 0);
    var (start, b) := Prefix(data, SignEnd(data, i), base);
    var end := DigitsEnd(data, start, b);
    var val: int := Fold(data[start..end], b);
    (if data[i] == '-' as int then ToU64(-val) else val, end)
  }

  // ----- the routine -----

  method Strtol(data: seq<byte>, base: nat) returns (ret: int64, end: nat)
    requires CString(data)
    ensures (ToU64(ret), end) == Parsed(data, base)
  {
    hide Fold, DigitsEnd, IsDigit, ToU64, Signed64, Prefix;
    var s, neg, b := 0, false, base;
    while data[s] == ' ' as int || data[s] == '\t' as int
      invariant s < |data| && BlanksEnd(data, s) == BlanksEnd(data, 0)
      decreases |data| - s
    {
      s := s + 1;
    }
    if data[s] == '+' as int {
      s := s + 1;
    } else if data[s] == '-' as int {
      s, neg := s + 1, true;
    }
    s, b := SkipPrefix(data, s, b);
    var val: int;
    val, end := ReadDigits(data, s, b);
    ret := Signed64(if neg then ToU64(-val) else val);
    PatternBack(if neg then ToU64(-val) else val);
  }

  method SkipPrefix(data: seq<byte>, i: nat, base: nat) returns (s: nat, b: nat)
    requires CString(data) && i < |data|
    ensures (s, b) == Prefix(data, i, base)
  {
    s, b := i, base;
    if (b == 0 || b == 16) && data[s] == '0' as int && data[s + 1] == 'x' as int {
      s, b := s + 2, 16;
    } else if b == 0 && data[s] == '0' as int {
      s, b := s + 1, 8;
    } else if b == 0 {
      b := 10;
    }
  }

  lemma PatternBack(x: uint64)
    ensures ToU64(Signed64(x)) == x
  {
  }

  /** The loop over the digits. */
  method ReadDigits(data: seq<byte>, start: nat, base: nat) returns (val: uint64, s: nat)
    requires CString(data) && start < |data|
    ensures s == DigitsEnd(data, start, base) && val == Fold(data[start..s], base)
  {
    hide Fold;
    FoldNone(base);
    assert data[start..start] == [];
    s, val := start, 0;
    while true
      invariant start <= s < |data| && DigitsEnd(data, s, base) == DigitsEnd(data, start, base)
      invariant val == Fold(data[start..s], base)
      decreases |data| - s
    {
      var dig: nat := 0;
      if data[s] >= '0' as int && data[s] <= '9' as int {
        dig := data[s] - '0' as int;
      } else if data[s] >= 'a' as int && data[s] <= 'z' as int {
        dig := data[s] - 'a' as int + 10;
      } else if data[s] >= 'A' as int && data[s] <= 'Z' as int {
        dig := data[s] - 'A' as int + 10;
      } else {
        return;
      }
      if dig >= base {
        return;
      }
      FoldNext(data[start..s], data[s], base);
      assert data[start..s + 1] == data[start..s] + [data[s]];
      s, val := s + 1, (val * base + dig) % TWO_64;
    }
  }

  // ----- it undoes printing -----

  lemma DigitBack(d: nat)
    requires d < 16
    ensures DigitValue(DigitChar(d)) == d
  {
  }

  lemma FoldNone(base: nat)
    ensures Fold([], base) == 0
  {
  }

  lemma FoldNext(more: seq<byte>, d: byte, base: nat)
    ensures Fold(more + [d], base) == (Fold(more, base) * base + DigitValue(d)) % TWO_64
  {
    assert (more + [d])[..|more|] == more;
  }

  lemma Recombine(num: uint64, base: nat)
    requires 2 <= base <= 16
    ensures num / base < TWO_64 && (num / base * base + num % base) % TWO_64 == num
    ensures num < base ==> num / base == 0 && num % base == num
    ensures num >= base ==> num / base < num
  {
    assert num / base * base + num % base == num;
  }

  lemma {:induction false} FoldDigits(num: uint64, base: nat)
    requires 2 <= base <= 16
    ensures Fold(Digits(num, base), base) == num
    decreases num
  {
    hide Fold, DigitValue, DigitChar, Digits;
    var q, d := num / base, num % base;
    Recombine(num, base);
    DigitBack(d);
    DigitsStep(num, base);
    if num >= base {
      FoldDigits(q, base);
      FoldNext(Digits(q, base), DigitChar(d), base);
    } else {
      FoldNone(base);
      FoldNext([], DigitChar(d), base);
    }
  }

  lemma DigitsStep(num: nat, base: nat)
    requires 2 <= base <= 16
    ensures Digits(num, base) == (if num >= base then Digits(num / base, base) else []) + [DigitChar(num % base)]
  {
  }

  lemma {:induction false} DigitsAreDigits(num: nat, base: nat)
    requires 2 <= base <= 16
    ensures forall c :: c in Digits(num, base) ==> IsDigit(c, base)
    decreases num
  {
    DigitBack(num % base);
    if num >= base {
      DigitsAreDigits(num / base, base);
    }
  }

  lemma {:induction false} FoldZeros(n: nat, ds: seq<byte>, base: nat)
    ensures Fold(Padding('0' as int, n) + ds, base) == Fold(ds, base)
    decreases n + |ds|
  {
    hide Fold;
    var s := Padding('0' as int, n) + ds;
    if ds != [] {
      var front, last := ds[..|ds| - 1], ds[|ds| - 1];
      FoldZeros(n, front, base);
      FoldNext(Padding('0' as int, n) + front, last, base);
      assert s == Padding('0' as int, n) + front + [last];
      FoldNext(front, last, base);
      assert ds == front + [last];
    } else if n > 0 {
      FoldZeros(n - 1, [], base);
      FoldNext(Padding('0' as int, n - 1) + [], '0' as int, base);
      assert s == Padding('0' as int, n - 1) + [] + ['0' as int];
      FoldNone(base);
    } else {
      assert s == [];
    }
  }

  lemma {:induction false} BlanksSkipped(data: seq<byte>, i: nat, j: nat)
    requires CString(data) && i <= j < |data| && (forall x :: i <= x < j ==> data[x] == ' ' as int)
    requires data[j] != ' ' as int && data[j] != '\t' as int
    ensures BlanksEnd(data, i) == j
    decreases j - i
  {
    if i < j {
      BlanksSkipped(data, i + 1, j);
    }
  }

  lemma {:induction false} DigitsScanned(data: seq<byte>, i: nat, j: nat, base: nat)
    requires CString(data) && i <= j < |data| && (forall x :: i <= x < j ==> IsDigit(data[x], base))
    requires !IsDigit(data[j], base)
    ensures DigitsEnd(data, i, base) == j
    decreases j - i
  {
    if i < j {
      DigitsScanned(data, i + 1, j, base);
    }
  }

  /** Zeros and the digits of num. */
  function Tail(zeros: nat, num: nat, base: nat): seq<byte>
    requires 2 <= base <= 16
  {
    Padding('0' as int, zeros) + Digits(num, base)
  }

  /** What comes before them: blanks, a sign, a prefix. */
  function Head(blanks: nat, neg: bool, prefix: bool): seq<byte> {
    Padding(' ' as int, blanks) + (if neg then ['-' as int] else []) + (if prefix then ['0' as int, 'x' as int] else [])
  }

  lemma TailDigits(zeros: nat, num: uint64, base: nat)
    requires 2 <= base <= 16
    ensures |Tail(zeros, num, base)| > 0 && Fold(Tail(zeros, num, base), base) == num
    ensures forall i :: 0 <= i < |Tail(zeros, num, base)| ==> IsDigit(Tail(zeros, num, base)[i], base)
  {
    hide Digits, Padding, Fold;
    FoldDigits(num, base);
    FoldZeros(zeros, Digits(num, base), base);
    DigitsAreDigits(num, base);
  }

  lemma HeadShape(blanks: nat, neg: bool, prefix: bool)
    ensures var h, s := Head(blanks, neg, prefix), blanks + (if neg then 1 else 0);
      && |h| == s + (if prefix then 2 else 0) && 0 !in h
      && (forall x :: 0 <= x < blanks ==> h[x] == ' ' as int)
      && (neg ==> h[blanks] == '-' as int)
      && (prefix ==> h[s] == '0' as int && h[s + 1] == 'x' as int)
  {
  }

  lemma DataShape(data: seq<byte>, head: seq<byte>, tail: seq<byte>, base: nat)
    requires data == head + tail + [0] && 0 !in head
    requires forall i :: 0 <= i < |tail| ==> IsDigit(tail[i], base)
    ensures CString(data) && data[|data| - 1] == 0 && data[|head|..|data| - 1] == tail
    ensures forall i :: 0 <= i < |head| ==> data[i] == head[i]
    ensures forall i :: |head| <= i < |data| - 1 ==> IsDigit(data[i], base)
  {
    assert forall i :: |head| <= i < |data| - 1 ==> data[i] == tail[i - |head|];
  }

  lemma NotBlank(c: byte, base: nat)
    requires IsDigit(c, base)
    ensures c != ' ' as int && c != '\t' as int && c != '-' as int && c != '+' as int
    ensures base <= 16 ==> c != 'x' as int
  {
  }

  /** Reading blanks, a sign, a prefix and digits, in the base they were written in, or in base 0 behind
      the prefix, gives the number back, as a 64-bit pattern, and stops at the end. */
  lemma WrittenIsRead(data: seq<byte>, blanks: nat, neg: bool, prefix: bool, tail: seq<byte>, base: nat, readBase: nat)
    requires data == Head(blanks, neg, prefix) + tail + [0]
    requires 2 <= base <= 16 && (readBase == base || (readBase == 0 && prefix)) && (prefix ==> base == 16)
    requires |tail| > 0 && forall i :: 0 <= i < |tail| ==> IsDigit(tail[i], base)
    ensures CString(data)
    ensures Parsed(data, readBase) == (if neg then ToU64(-(Fold(tail, base) as int)) else Fold(tail, base), |data| - 1)
  {
    hide Fold, Head, IsDigit, ToU64, BlanksEnd, DigitsEnd, SignEnd, Prefix, Parsed;
    var head, end := Head(blanks, neg, prefix), |data| - 1;
    HeadShape(blanks, neg, prefix);
    DataShape(data, head, tail, base);
    EndIsNoDigit(base);
    if |tail| > 1 {
      NotBlank(data[|head| + 1], base);
    }
    StartFound(data, blanks, neg, prefix, |head|, base, readBase);
    DigitsScanned(data, |head|, end, base);
    ParsedParts(data, readBase, blanks, |head|, base, end);
  }

  /** Where blanks, sign and prefix end. */
  lemma StartFound(data: seq<byte>, blanks: nat, neg: bool, prefix: bool, start: nat, base: nat, readBase: nat)
    requires CString(data) && 2 <= base <= 16 && (prefix ==> base == 16)
    requires readBase == base || (readBase == 0 && prefix)
    requires start == blanks + (if neg then 1 else 0) + (if prefix then 2 else 0) && start + 1 < |data|
    requires IsDigit(data[start], base) && data[start + 1] != 'x' as int
    requires forall x :: 0 <= x < blanks ==> data[x] == ' ' as int
    requires neg ==> data[blanks] == '-' as int
    requires prefix ==> data[start - 2] == '0' as int && data[start - 1] == 'x' as int
    ensures BlanksEnd(data, 0) == blanks && (data[blanks] == '-' as int <==> neg)
    ensures Prefix(data, SignEnd(data, blanks), readBase) == (start, base)
  {
    hide IsDigit, BlanksEnd;
    NotBlank(data[start], base);
    BlanksSkipped(data, 0, blanks);
  }

  lemma ParsedParts(data: seq<byte>, readBase: nat, blanks: nat, start: nat, base: nat, end: nat)
    requires CString(data) && BlanksEnd(data, 0) == blanks
    requires Prefix(data, SignEnd(data, blanks), readBase) == (start, base)
    requires start < |data| && DigitsEnd(data, start, base) == end
    ensures var val: int := Fold(data[start..end], base);
      Parsed(data, readBase) == (if data[blanks] == '-' as int then ToU64(-val) else val, end)
  {
    hide Fold, BlanksEnd, DigitsEnd, SignEnd, Prefix, CString, ToU64;
  }

  lemma EndIsNoDigit(base: nat)
    ensures !IsDigit(0, base)
  {
  }

  /** The base to read a conversion back in. */
  function BaseFor(ch: byte): nat {
    if ch == 'd' as int || ch == 'u' as int then 10
    else if ch == 'o' as int then 8
    else if ch == 'x' as int then 16
    else 0
  }

  predicate IsNumeric(ch: byte) {
    ch in {'d' as int, 'u' as int, 'o' as int, 'x' as int, 'p' as int}
  }

  /** The number a conversion prints. */
  function ValueOf(ch: byte, w: uint64): int {
    if ch == 'd' as int then Signed64(w) else w
  }

  /** The digits a conversion prints. */
  function DigitsOf(ch: byte, w: uint64): seq<byte> {
    var v: int := ValueOf(ch, w);
    Digits(if v < 0 then -v else v, if ch == 'p' as int then 16 else if BaseFor(ch) < 2 then 10 else BaseFor(ch))
  }

  /** How many padding characters a conversion prints. */
  function PadCount(ch: byte, s: Spec, w: uint64): nat {
    var d := |DigitsOf(ch, w)|;
    if s.width <= d then 0 else s.width - d
  }

  /** The padding is none, zeros, or blanks in front of everything; or it is one '-', taken for the sign
      of a number that is its own negative. */
  predicate Readable(ch: byte, s: Spec, w: uint64) {
    || PadCount(ch, s, w) == 0
    || s.padc == '0' as int
    || (s.padc == ' ' as int && ch != 'p' as int && ValueOf(ch, w) >= 0)
    || (s.padc == '-' as int && ch != 'p' as int && ValueOf(ch, w) >= 0 && PadCount(ch, s, w) == 1
        && (w == 0 || w == TWO_63))
  }

  lemma NumberShape(prefix: bool, neg: bool, num: nat, base: nat, s: Spec)
    requires 2 <= base <= 16
    requires s.width <= |Digits(num, base)| || s.padc == '0' as int || (s.padc == ' ' as int && !neg && !prefix)
    ensures var extra := if s.width <= |Digits(num, base)| then 0 else s.width - |Digits(num, base)|;
      var zeros := if s.padc == '0' as int then extra else 0;
      (if neg then ['-' as int] else []) + (if prefix then ['0' as int, 'x' as int] else [])
      + Number(num, base, s.width, s.padc)
      == Head(extra - zeros, neg, prefix) + Tail(zeros, num, base)
  {
    hide Digits;
  }

  /** What a conversion prints is a sign or prefix and a number. */
  lemma Printout(ch: byte, s: Spec, w: uint64)
    requires IsNumeric(ch) && Convert(ch, s, [Word(w)], 0).Printed?
    ensures var v: int := ValueOf(ch, w);
      var base := if ch == 'p' as int then 16 else BaseFor(ch);
      Convert(ch, s, [Word(w)], 0).out
      == (if v < 0 then ['-' as int] else []) + (if ch == 'p' as int then ['0' as int, 'x' as int] else [])
         + Number(if v < 0 then -v else v, base, s.width, s.padc)
  {
    hide Number, Digits;
  }

  /** Behind a sign, or a prefix, that no digit follows, nothing is read. */
  lemma StopsEarly(data: seq<byte>, base: nat)
    requires CString(data) && base <= 16
    requires
      || (|data| > 2 && data[0] == '-' as int && !IsDigit(data[1], 16) && base >= 2)
      || (|data| > 3 && data[0] == '0' as int && data[1] == 'x' as int && !IsDigit(data[2], 16) && base == 0)
    ensures Parsed(data, base) == (0, if data[0] == '-' as int then 1 else 2)
  {
    FoldNone(base);
    FoldNone(16);
    assert data[1..1] == [] == data[2..2];
  }

  lemma OwnNegative(w: uint64)
    ensures ToU64(-(w as int)) == w <==> w == 0 || w == TWO_63
  {
  }

  lemma PrintsNoNul(ch: byte, s: Spec, w: uint64)
    requires IsNumeric(ch) && Convert(ch, s, [Word(w)], 0).Printed? && Sane(s)
    ensures CString(Convert(ch, s, [Word(w)], 0).out + [0])
  {
    hide Convert, Digits, IsDigit;
    var v: int := ValueOf(ch, w);
    var num: uint64 := if v < 0 then -v else v;
    var base := if ch == 'p' as int then 16 else BaseFor(ch);
    Printout(ch, s, w);
    DigitsAreDigits(num, base);
    EndIsNoDigit(base);
  }

  /** Padding that is not readable: '-' or blanks behind a sign or a prefix, or '-' in front. */
  lemma UnreadablePadding(ch: byte, s: Spec, w: uint64, data: seq<byte>)
    requires IsNumeric(ch) && Convert(ch, s, [Word(w)], 0).Printed? && Sane(s) && PadCount(ch, s, w) > 0
    requires s.padc == '-' as int || (s.padc == ' ' as int && (ch == 'p' as int || ValueOf(ch, w) < 0))
    requires data == Convert(ch, s, [Word(w)], 0).out + [0] && CString(data)
    ensures Parsed(data, BaseFor(ch)) == (w, |data| - 1) <==> Readable(ch, s, w)
  {
    hide Convert, Digits, Parsed, CString, Padding, Fold, Head, Tail;
    var v: int := ValueOf(ch, w);
    var num: uint64 := if v < 0 then -v else v;
    var base := if ch == 'p' as int then 16 else BaseFor(ch);
    var k := PadCount(ch, s, w);
    Printout(ch, s, w);
    if v >= 0 && ch != 'p' as int && k == 1 {
      TailDigits(0, num, base);
      OneDash(num, base);
      WrittenIsRead(data, 0, true, false, Tail(0, num, base), base, base);
      OwnNegative(w);
    } else {
      StopsEarly(data, BaseFor(ch));
    }
  }

  lemma OneDash(num: nat, base: nat)
    requires 2 <= base <= 16
    ensures Padding('-' as int, 1) + Digits(num, base) == Head(0, true, false) + Tail(0, num, base)
  {
    hide Digits;
    assert Padding('-' as int, 1) == ['-' as int];
  }

  /** `strtol` reads the whole of what a number format prints and gives the number back, for any width
      and flags, exactly when the padding is readable. The pattern that comes back is the value itself
      exactly when it fits a long. */
  lemma StrtolUndoesPrint(ch: byte, s: Spec, w: uint64)
    requires IsNumeric(ch) && Convert(ch, s, [Word(w)], 0).Printed? && Sane(s)
    ensures var data := Convert(ch, s, [Word(w)], 0).out + [0];
      && CString(data)
      && (Parsed(data, BaseFor(ch)) == (w, |data| - 1) <==> Readable(ch, s, w))
    ensures Signed64(w) == ValueOf(ch, w) <==> ch == 'd' as int || w < TWO_63
  {
    hide Convert, Number, Digits, Head, Tail, Parsed, CString, IsDigit, Fold;
    var data := Convert(ch, s, [Word(w)], 0).out + [0];
    PrintsNoNul(ch, s, w);
    if PadCount(ch, s, w) > 0
        && (s.padc == '-' as int || (s.padc == ' ' as int && (ch == 'p' as int || ValueOf(ch, w) < 0))) {
      UnreadablePadding(ch, s, w, data);
    } else {
      PlainPadding(ch, s, w, data);
    }
  }

  /** Padding that is readable whatever the number is. */
  lemma PlainPadding(ch: byte, s: Spec, w: uint64, data: seq<byte>)
    requires IsNumeric(ch) && Convert(ch, s, [Word(w)], 0).Printed?
    requires PadCount(ch, s, w) == 0 || s.padc == '0' as int
      || (s.padc == ' ' as int && ch != 'p' as int && ValueOf(ch, w) >= 0)
    requires data == Convert(ch, s, [Word(w)], 0).out + [0]
    ensures CString(data) && Parsed(data, BaseFor(ch)) == (w, |data| - 1)
  {
    hide Convert, Number, Digits, Head, Tail, Parsed, CString, IsDigit, Fold;
    var v: int := ValueOf(ch, w);
    var num: uint64 := if v < 0 then -v else v;
    var base := if ch == 'p' as int then 16 else BaseFor(ch);
    var extra := PadCount(ch, s, w);
    var zeros := if s.padc == '0' as int then extra else 0;
    Printout(ch, s, w);
    NumberShape(ch == 'p' as int, v < 0, num, base, s);
    TailDigits(zeros, num, base);
    WrittenIsRead(data, extra - zeros, v < 0, ch == 'p' as int, Tail(zeros, num, base), base, BaseFor(ch));
  }
}
