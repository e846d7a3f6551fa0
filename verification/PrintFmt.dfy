/** What printfmt.c prints: the characters a format and its arguments call for. A character is its low
    byte. */
module PrintFmt {
  import opened Machine

  const MAXERROR := 8

  /** An argument: a 64-bit slot, or a pointer to a string. */
  datatype Arg = Word(w: uint64) | Text(s: seq<byte>)

  /** The state a directive sets up before its conversion. */
  datatype Spec = Spec(padc: byte, width: int, precision: int, altflag: bool)

  /** The outcome of flags and fields: the conversion character, the position behind it, the state and
      the next argument. `Undefined` stands for a missing or mistyped argument or an overflow of int. */
  datatype Flagged = Undefined | Flagged(ch: byte, next: nat, spec: Spec, arg: nat)

  /** What is printed, and the next argument. */
  datatype Printed = Undefined | Printed(out: seq<byte>, arg: nat)

  function Chars(s: string): (r: seq<byte>)
    ensures |r| == |s| && forall i :: 0 <= i < |s| ==> r[i] == s[i] as int % 256
  {
    seq(|s|, i requires 0 <= i < |s| => s[i] as int % 256)
  }

  /** A C string with its terminator. */
  predicate CString(data: seq<byte>) {
    data != [] && data[|data| - 1] == 0 && forall i :: 0 <= i < |data| - 1 ==> data[i] != 0
  }

  // ----- numbers -----

  function DigitChar(d: nat): (c: byte)
    requires d < 16
  {
    if d < 10 then '0' as int + d else 'a' as int + (d - 10)
  }

  function Digits(num: nat, base: nat): (r: seq<byte>)
    requires 2 <= base <= 16
    ensures |r| > 0
  {
    (if num >= base then Digits(num / base, base) else []) + [DigitChar(num % base)]
  }

  function Padding(c: byte, n: int): (r: seq<byte>)
    ensures |r| == if n < 0 then 0 else n
    ensures forall i :: 0 <= i < |r| ==> r[i] == c
  {
    seq(if n < 0 then 0 else n, _ => c)
  }

  /** A number padded on the left to its width. */
  function Number(num: nat, base: nat, width: int, padc: byte): seq<byte>
    requires 2 <= base <= 16
  {
    Padding(padc, width - |Digits(num, base)|) + Digits(num, base)
  }

  /** `printnum` prints exactly the greater of the width and the number of digits. */
  lemma NumberLength(num: nat, base: nat, width: int, padc: byte)
    requires 2 <= base <= 16
    ensures var d := |Digits(num, base)|; |Number(num, base, width, padc)| == if width > d then width else d
  {
  }

  lemma NumberLast(num: nat, base: nat, width: int, padc: byte)
    requires num < base && 2 <= base <= 16
    ensures Number(num, base, width, padc) == Padding(padc, width - 1) + [DigitChar(num % base)]
  {
    assert Digits(num, base) == [DigitChar(num % base)];
  }

  /** One recursive call of `printnum`. */
  lemma NumberStep(num: nat, base: nat, width: int, padc: byte)
    requires 2 <= base <= 16 && num >= base
    ensures Number(num, base, width, padc) == Number(num / base, base, width - 1, padc) + [DigitChar(num % base)]
  {
    hide Padding;
    var more, last := Digits(num / base, base), [DigitChar(num % base)];
    assert Digits(num, base) == more + last;
    assert Padding(padc, width - |more + last|) + (more + last) == Padding(padc, width - 1 - |more|) + more + last;
  }

  // ----- strings and errors -----

  function Shown(c: byte, alt: bool): byte {
    if alt && (c < ' ' as int || c > '~' as int) then '?' as int else c
  }

  function ShownAll(t: seq<byte>, alt: bool): (r: seq<byte>)
    ensures |r| == |t|
  {
    seq(|t|, i requires 0 <= i < |t| => Shown(t[i], alt))
  }

  lemma ShownNext(t: seq<byte>, i: nat, alt: bool)
    requires i < |t|
    ensures ShownAll(t[..i + 1], alt) == ShownAll(t[..i], alt) + [Shown(t[i], alt)]
  {
  }

  /** How many characters of t a precision lets through. */
  function Limit(t: seq<byte>, precision: int): nat {
    if 0 <= precision < |t| then precision else |t|
  }

  /** A string: padded on the left unless the flag is '-', cut to the precision, padded with blanks on
      the right otherwise. */
  function TextOf(t: seq<byte>, s: Spec): seq<byte> {
    var n := Limit(t, s.precision);
    Padding(s.padc, if s.padc == '-' as int then 0 else s.width - n)
    + ShownAll(t[..n], s.altflag)
    + Padding(' ' as int, if s.padc == '-' as int then s.width - n else 0)
  }

  /** `error_string`; the entries 0 and E_NO_SYS are NULL. */
  function ErrorString(err: nat): string
    requires err < MAXERROR
  {
    if err == 1 then "unspecified error"
    else if err == 2 then "bad environment"
    else if err == 3 then "invalid parameter"
    else if err == 4 then "out of memory"
    else if err == 5 then "out of environments"
    else if err == 6 then "segmentation fault"
    else ""
  }

  function ErrorText(err: nat): seq<byte> {
    if err < MAXERROR && ErrorString(err) != "" then Chars(ErrorString(err))
    else Chars("error ") + Digits(err, 10)
  }

  // ----- directives -----

  /** The digits of a width or precision, their value starting from acc, and where they end. */
  function DigitRun(data: seq<byte>, i: nat, acc: nat): (r: Read<nat>)
    requires i < |data|
    ensures r.Got? ==> i < r.size < |data| && r.value < TWO_31
    decreases |data| - i
  {
    var sum := acc * 10 + data[i];
    if sum >= TWO_31 || sum < '0' as int || i + 1 >= |data| then Fault
    else if '0' as int <= data[i + 1] <= '9' as int then DigitRun(data, i + 1, sum - '0' as int)
    else Got(sum - '0' as int, i + 1)
  }

  /** process_precision: the first number is the width, the next one the precision. */
  function Precise(s: Spec, v: int): Spec {
    if s.width < 0 then s.(width := v, precision := -1) else s.(precision := v)
  }

  /** What the flags leave: int fields, and one of the three padding characters. */
  predicate Sane(s: Spec) {
    && -TWO_31 <= s.width < TWO_31 && -TWO_31 <= s.precision < TWO_31
    && (s.padc == ' ' as int || s.padc == '0' as int || s.padc == '-' as int)
  }

  /** Flags and fields from position i on. */
  function Flags(data: seq<byte>, i: nat, s: Spec, args: seq<Arg>, k: nat): (r: Flagged)
    requires CString(data) && i < |data| && Sane(s)
    ensures r.Flagged? ==> i < r.next <= |data| && r.ch == data[r.next - 1] && Sane(r.spec)
    ensures r.Flagged? ==> k <= r.arg
    decreases |data| - i
  {
    var ch := data[i];
    if ch == '-' as int then Flags(data, i + 1, s.(padc := '-' as int), args, k)
    else if ch == '0' as int then Flags(data, i + 1, s.(padc := '0' as int), args, k)
    else if '1' as int <= ch <= '9' as int then
      match DigitRun(data, i, 0)
      case Fault => Flagged.Undefined
      case Got(v, next) => Flags(data, next, Precise(s, v), args, k)
    else if ch == '*' as int then
      if k < |args| && args[k].Word? then
        Flags(data, i + 1, Precise(s, Signed32(args[k].w % TWO_32)), args, k + 1)
      else Flagged.Undefined
    else if ch == '.' as int then Flags(data, i + 1, if s.width < 0 then s.(width := 0) else s, args, k)
    else if ch == '#' as int then Flags(data, i + 1, s.(altflag := true), args, k)
    else if ch == 'l' as int then Flags(data, i + 1, s, args, k)
    else Flagged(ch, i + 1, s, k)
  }

  const START := Spec(' ' as int, -1, -1, false)

  /** The width counter does not leave int while n characters are counted off. */
  predicate Countable(width: int, n: nat) {
    width - n >= -TWO_31
  }

  /** The width when the characters of a string start to be printed. */
  function TextWidth(t: seq<byte>, s: Spec): int {
    var n := Limit(t, s.precision);
    if s.width > 0 && s.padc != '-' as int then (if s.width < n then s.width - n else 0) else s.width
  }

  function PrintNumber(prefix: seq<byte>, num: nat, base: nat, s: Spec, k: nat): Printed
    requires 2 <= base <= 16
  {
    if Countable(s.width, |Digits(num, base)|) then Printed(prefix + Number(num, base, s.width, s.padc), k)
    else Printed.Undefined
  }

  predicate IsConversion(ch: byte) {
    ch in {'c' as int, 'e' as int, 's' as int, 'd' as int, 'u' as int, 'o' as int, 'p' as int, 'x' as int, '%' as int}
  }

  function Convert(ch: byte, s: Spec, args: seq<Arg>, k: nat): (r: Printed)
    requires IsConversion(ch)
    ensures r.Printed? ==> r.arg <= k + 1
  {
    if ch == '%' as int then Printed(['%' as int], k)
    else if k >= |args| then Printed.Undefined
    else if ch == 's' as int then
      if args[k].Word? && args[k].w != 0 then Printed.Undefined
      else
        var t := if args[k].Text? then args[k].s else Chars("(null)");
        if Countable(TextWidth(t, s), Limit(t, s.precision)) then Printed(TextOf(t, s), k + 1) else Printed.Undefined
    else if args[k].Text? then Printed.Undefined
    else
      var w := args[k].w;
      if ch == 'c' as int then Printed([w % 256], k + 1)
      else if ch == 'e' as int then
        var err := Signed32(w % TWO_32);
        if err == -TWO_31 then Printed.Undefined else Printed(ErrorText(if err < 0 then -err else err), k + 1)
      else if ch == 'd' as int then
        var v: int := Signed64(w);
        PrintNumber(if v < 0 then ['-' as int] else [], if v < 0 then -v else v, 10, s, k + 1)
      else if ch == 'u' as int then PrintNumber([], w, 10, s, k + 1)
      else if ch == 'o' as int then PrintNumber([], w, 8, s, k + 1)
      else if ch == 'p' as int then PrintNumber(['0' as int, 'x' as int], w, 16, s, k + 1)
      else PrintNumber([], w, 16, s, k + 1)
  }

  // ----- whole formats -----

  datatype Output = Undefined | Output(out: seq<byte>)

  function Then(a: seq<byte>, rest: Output): Output {
    match rest
    case Undefined => Output.Undefined
    case Output(out) => Output(a + out)
  }

  /** All characters printed for the format from position i and the arguments from k on. */
  function Stream(data: seq<byte>, i: nat, args: seq<Arg>, k: nat): Output
    requires CString(data) && i < |data|
    decreases |data| - i
  {
    if data[i] == 0 then Output([])
    else if data[i] != '%' as int then Then([data[i]], Stream(data, i + 1, args, k))
    else
      match Flags(data, i + 1, START, args, k)
      case Undefined => Output.Undefined
      case Flagged(ch, next, s, k1) =>
        if !IsConversion(ch) then Then(['%' as int], Stream(data, i + 1, args, k1))
        else
          match Convert(ch, s, args, k1)
          case Undefined => Output.Undefined
          case Printed(out, k2) => Then(out, Stream(data, next, args, k2))
  }

  /** The fields up to j hold no star. */
  predicate NoStar(data: seq<byte>, i: nat, j: nat)
    requires j <= |data|
  {
    forall x :: i <= x < j ==> data[x] != '*' as int
  }

  predicate NoPercent(data: seq<byte>, i: nat, j: nat)
    requires j <= |data|
  {
    forall x :: i <= x < j ==> data[x] != '%' as int && data[x] != 0
  }

  lemma {:induction false} DigitsOnly(data: seq<byte>, i: nat, acc: nat)
    requires i < |data| && '0' as int <= data[i] <= '9' as int && DigitRun(data, i, acc).Got?
    ensures NoPercent(data, i, DigitRun(data, i, acc).size)
    ensures acc > 0 || '0' as int < data[i] ==> DigitRun(data, i, acc).value > 0
    decreases |data| - i
  {
    var sum := acc * 10 + data[i];
    if '0' as int <= data[i + 1] <= '9' as int {
      DigitsOnly(data, i + 1, sum - '0' as int);
    }
  }

  predicate IsField(ch: byte) {
    '0' as int <= ch <= '9' as int || ch in {'-' as int, '*' as int, '.' as int, '#' as int, 'l' as int}
  }

  lemma NoField(data: seq<byte>, i: nat, s: Spec, args: seq<Arg>, k: nat)
    requires CString(data) && i < |data| && Sane(s) && !IsField(data[i])
    ensures Flags(data, i, s, args, k) == Flagged(data[i], i + 1, s, k)
  {
  }

  /** One flag or field. */
  lemma FieldRead(data: seq<byte>, i: nat, s: Spec, args: seq<Arg>, k: nat) returns (j: nat, s2: Spec, k2: nat)
    requires CString(data) && i < |data| && Sane(s) && Flags(data, i, s, args, k).Flagged? && IsField(data[i])
    ensures i < j < |data| && Sane(s2) && Flags(data, i, s, args, k) == Flags(data, j, s2, args, k2)
    ensures NoPercent(data, i, j)
    ensures data[i] != '*' as int && s.precision != 0 ==> s2.precision != 0 && k2 == k
  {
    hide DigitRun;
    var ch := data[i];
    j, s2, k2 := i + 1, s, k;
    if ch == '-' as int || ch == '0' as int {
      s2 := s.(padc := ch);
    } else if '1' as int <= ch <= '9' as int {
      DigitsOnly(data, i, 0);
      var d := DigitRun(data, i, 0);
      j, s2 := d.size, Precise(s, d.value);
    } else if ch == '*' as int {
      s2, k2 := Precise(s, Signed32(args[k].w % TWO_32)), k + 1;
    } else if ch == '.' as int {
      s2 := if s.width < 0 then s.(width := 0) else s;
    } else if ch == '#' as int {
      s2 := s.(altflag := true);
    }
  }

  /** A 0 behind the dot is taken for the padding flag: the precision stays as it was. */
  lemma ZeroBehindDot(data: seq<byte>, i: nat, s: Spec, args: seq<Arg>, k: nat)
    requires CString(data) && i + 2 < |data| && Sane(s) && data[i] == '.' as int && data[i + 1] == '0' as int
    ensures var dotted := if s.width < 0 then s.(width := 0) else s;
      Flags(data, i, s, args, k) == Flags(data, i + 2, dotted.(padc := '0' as int), args, k)
  {
    var dotted := if s.width < 0 then s.(width := 0) else s;
    assert Flags(data, i, s, args, k) == Flags(data, i + 1, dotted, args, k);
    assert Flags(data, i + 1, dotted, args, k) == Flags(data, i + 2, dotted.(padc := '0' as int), args, k);
  }

  /** A precision of zero cannot be written in any directive, whatever its flags, widths and dots: only a
      star can give one, from its argument. */
  lemma {:induction false} ZeroPrecisionIsFlag(data: seq<byte>, i: nat, s: Spec, args: seq<Arg>, k: nat)
    requires CString(data) && i < |data| && Sane(s) && s.precision != 0
    requires var f := Flags(data, i, s, args, k); f.Flagged? && NoStar(data, i, f.next)
    ensures var f := Flags(data, i, s, args, k); f.spec.precision != 0 && f.arg == k
    decreases |data| - i
  {
    hide Flags, CString, Sane;
    if IsField(data[i]) {
      var j, s2, k2 := FieldRead(data, i, s, args, k);
      var rest := Flags(data, j, s2, args, k2);
      assert j < rest.next;
      ZeroPrecisionIsFlag(data, j, s2, args, k2);
    } else {
      NoField(data, i, s, args, k);
    }
  }

  /** So the first character of a string is printed by every directive for it that has no star. */
  lemma FirstIsShown(data: seq<byte>, i: nat, t: seq<byte>, args: seq<Arg>, k: nat)
    requires CString(data) && i + 1 < |data| && data[i] == '%' as int && k < |args| && args[k] == Text(t) && t != []
    requires var f := Flags(data, i + 1, START, args, k);
      f.Flagged? && f.ch == 's' as int && NoStar(data, i + 1, f.next)
    requires Stream(data, i, args, k).Output?
    ensures var f := Flags(data, i + 1, START, args, k); var out := Stream(data, i, args, k).out;
      exists p :: 0 <= p < |out| && out[p] == Shown(t[0], f.spec.altflag)
  {
    hide Flags, Stream, Padding, TextWidth;
    var f := Flags(data, i + 1, START, args, k);
    ZeroPrecisionIsFlag(data, i + 1, START, args, k);
    StreamStep(data, i, args, k);
    var s := f.spec;
    var left := Padding(s.padc, if s.padc == '-' as int then 0 else s.width - Limit(t, s.precision));
    var out := Stream(data, i, args, k).out;
    assert out[|left|] == Shown(t[0], s.altflag);
  }

  lemma StreamStep(data: seq<byte>, i: nat, args: seq<Arg>, k: nat)
    requires CString(data) && i < |data| && data[i] == '%' as int
    requires var f := Flags(data, i + 1, START, args, k); f.Flagged? && IsConversion(f.ch)
    requires Stream(data, i, args, k).Output?
    ensures var f := Flags(data, i + 1, START, args, k); var c := Convert(f.ch, f.spec, args, f.arg);
      c.Printed? && c.out <= Stream(data, i, args, k).out
  {
    hide Flags, Convert;
  }

  /** What lies between the percent sign and the conversion are flags and digits. */
  lemma {:induction false} FlagsOnly(data: seq<byte>, i: nat, s: Spec, args: seq<Arg>, k: nat)
    requires CString(data) && i < |data| && Sane(s) && Flags(data, i, s, args, k).Flagged?
    ensures NoPercent(data, i, Flags(data, i, s, args, k).next - 1)
    decreases |data| - i
  {
    hide Flags, CString, Sane;
    if IsField(data[i]) {
      var j, s2, k2 := FieldRead(data, i, s, args, k);
      FlagsOnly(data, j, s2, args, k2);
    } else {
      NoField(data, i, s, args, k);
    }
  }

  /** Ordinary characters print as themselves. */
  lemma {:induction false} Verbatim(data: seq<byte>, i: nat, j: nat, args: seq<Arg>, k: nat)
    requires CString(data) && i <= j < |data| && NoPercent(data, i, j)
    ensures Stream(data, i, args, k) == Then(data[i..j], Stream(data, j, args, k))
    decreases j - i
  {
    if i < j {
      Verbatim(data, i + 1, j, args, k);
      assert data[i..j] == [data[i]] + data[i + 1..j];
      ThenThen([data[i]], data[i + 1..j], Stream(data, j, args, k));
    } else {
      assert data[i..j] == [];
      ThenThen([], [], Stream(data, j, args, k));
    }
  }

  lemma ThenThen(a: seq<byte>, b: seq<byte>, rest: Output)
    ensures Then(a, Then(b, rest)) == Then(a + b, rest)
    ensures Then([], rest) == rest
  {
    if rest.Output? {
      assert a + (b + rest.out) == a + b + rest.out;
      assert [] + rest.out == rest.out;
    }
  }

  /** A directive whose conversion is not recognised, the end of the format included, is printed as it
      stands up to the character that was not recognised; a star in it still takes its argument. */
  lemma UnrecognisedIsVerbatim(data: seq<byte>, i: nat, args: seq<Arg>, k: nat)
    requires CString(data) && i < |data| && data[i] == '%' as int
    requires var f := Flags(data, i + 1, START, args, k); f.Flagged? && !IsConversion(f.ch)
    ensures var f := Flags(data, i + 1, START, args, k);
      Stream(data, i, args, k) == Then(data[i..f.next - 1], Stream(data, f.next - 1, args, f.arg))
  {
    hide Flags, NoPercent, Convert;
    var f := Flags(data, i + 1, START, args, k);
    FlagsOnly(data, i + 1, START, args, k);
    Verbatim(data, i + 1, f.next - 1, args, f.arg);
    assert data[i..f.next - 1] == ['%' as int] + data[i + 1..f.next - 1];
    ThenThen(['%' as int], data[i + 1..f.next - 1], Stream(data, f.next - 1, args, f.arg));
  }

  // ----- the nested formats of %e -----

  const ERROR_FORMAT := Chars("error %d") + [0]
  const TEXT_FORMAT := Chars("%s") + [0]

  lemma {:induction false} DecimalLength(num: nat)
    ensures |Digits(num, 10)| <= num / 2 + 1
  {
    if num >= 10 {
      DecimalLength(num / 10);
    }
  }

  /** Printing "error %d" with the code. */
  lemma ErrorFormat(err: nat)
    requires err < TWO_31
    ensures CString(ERROR_FORMAT)
    ensures Stream(ERROR_FORMAT, 0, [Word(err)], 0) == Output(Chars("error ") + Digits(err, 10))
  {
    hide Stream, Flags, Digits;
    var data, args := ERROR_FORMAT, [Word(err)];
    assert data == [101, 114, 114, 111, 114, 32, 37, 100, 0];
    Verbatim(data, 0, 6, args, 0);
    assert data[0..6] == Chars("error ");
    DecimalLength(err);
    PlainDirective(data, 6, args);
    assert Number(err, 10, -1, ' ' as int) == Digits(err, 10);
  }

  /** A directive without flags at the end of a format, taking the only argument. */
  lemma PlainDirective(data: seq<byte>, i: nat, args: seq<Arg>)
    requires CString(data) && |data| == i + 3 && data[i] == '%' as int && |args| == 1
    requires data[i + 1] in {'d' as int, 's' as int}
    requires Convert(data[i + 1], START, args, 0).Printed?
    ensures Stream(data, i, args, 0) == Output(Convert(data[i + 1], START, args, 0).out)
  {
    hide Convert;
    assert Flags(data, i + 1, START, args, 0) == Flagged(data[i + 1], i + 2, START, 0);
    var c := Convert(data[i + 1], START, args, 0);
    assert Stream(data, i + 2, args, c.arg) == Output([]);
    assert c.out + [] == c.out;
  }

  /** Printing "%s" with a string. */
  lemma TextFormat(t: seq<byte>)
    requires |t| < TWO_31 - 1
    ensures CString(TEXT_FORMAT)
    ensures Stream(TEXT_FORMAT, 0, [Text(t)], 0) == Output(t)
  {
    hide Stream, Flags;
    var data, args := TEXT_FORMAT, [Text(t)];
    assert data == [37, 115, 0];
    assert t[..|t|] == t == ShownAll(t, false);
    assert TextOf(t, START) == t;
    PlainDirective(data, 0, args);
  }

  /** A format that can reach a %e. */
  predicate MayNest(data: seq<byte>) {
    exists i, j :: 0 <= i < j < |data| && data[i] == '%' as int && data[j] == 'e' as int
  }

  lemma NestedFormats()
    ensures !MayNest(ERROR_FORMAT) && !MayNest(TEXT_FORMAT)
  {
    assert ERROR_FORMAT == [101, 114, 114, 111, 114, 32, 37, 100, 0];
    assert TEXT_FORMAT == [37, 115, 0];
  }
}
