/** What the directives of printfmt.c mean, apart from how the code reads and prints them: a directive as it
    is written, the state it calls for, and what is printed for it, position by position. */
module PrintSpec {
  import opened Machine
  import opened Numerals
  import opened PrintFmt

  // ----- the digits printed -----

  /** s is the numeral of n in small letters, without leading zeros. */
  ghost predicate Spells(s: seq<byte>, n: nat, base: nat) {
    && s != [] && AllDigits(s, base) && Value(s, base) == n && (|s| > 1 ==> s[0] != 0x30)
    && forall i :: 0 <= i < |s| ==> !(0x41 <= s[i] <= 0x5a)
  }

  lemma DigitOf(d: nat)
    requires d < 16
    ensures DigitValue(DigitChar(d)) == d && (DigitChar(d) == 0x30 <==> d == 0) && !(0x41 <= DigitChar(d) <= 0x5a)
  {
  }

  lemma SpellsMore(s: seq<byte>, q: nat, r: nat, base: nat)
    requires 2 <= base <= 16 && r < base && q > 0 && Spells(s, q, base) && s[0] != 0x30
    ensures Spells(s + [DigitChar(r)], q * base + r, base) && (s + [DigitChar(r)])[0] != 0x30
  {
    hide AllDigits, Value, DigitValue, DigitChar;
    DigitOf(r);
    MoreDigits(s, DigitChar(r), base);
  }

  lemma SpellsOne(r: nat, base: nat)
    requires 2 <= base <= 16 && r < base
    ensures Spells([DigitChar(r)], r, base) && (DigitChar(r) == 0x30 <==> r == 0)
  {
    hide AllDigits, Value, DigitValue, DigitChar;
    DigitOf(r);
    NoDigits(base);
    MoreDigits([], DigitChar(r), base);
    assert [] + [DigitChar(r)] == [DigitChar(r)];
  }

  /** The digits printed are the numeral of the number, in every base. */
  lemma {:induction false} DigitsSpell(num: nat, base: nat)
    requires 2 <= base <= 16
    ensures Spells(Digits(num, base), num, base)
    ensures Digits(num, base)[0] == 0x30 ==> num == 0
    decreases num
  {
    hide Spells, DigitChar, Digits;
    DigitsStep(num, base);
    if num < base {
      SpellsOne(num, base);
    } else {
      Quotient(num, base);
      DigitsSpell(num / base, base);
      SpellsMore(Digits(num / base, base), num / base, num % base, base);
    }
  }

  lemma DigitsStep(num: nat, base: nat)
    requires 2 <= base <= 16
    ensures num < base ==> Digits(num, base) == [DigitChar(num)]
    ensures num >= base ==> num % base < 16 && Digits(num, base) == Digits(num / base, base) + [DigitChar(num % base)]
  {
  }

  lemma Quotient(num: nat, base: nat)
    requires 2 <= base <= num
    ensures 0 < num / base < num && num / base * base + num % base == num && num % base < base
  {
    TwoTimes(num / base, base);
  }

  /** A number of m bits takes at most m digits. */
  lemma {:induction false} DigitsShort(num: nat, base: nat, m: nat)
    requires 2 <= base <= 16 && 0 < m && num < Pow2(m)
    ensures |Digits(num, base)| <= m
    decreases m
  {
    if num >= base {
      Halved(num, base, m);
      DigitsShort(num / base, base, m - 1);
    }
  }

  lemma Halved(num: nat, base: nat, m: nat)
    requires 2 <= base <= num < Pow2(m) && 0 < m
    ensures m > 1 && num / base < Pow2(m - 1)
  {
    assert Pow2(1) == 2 * Pow2(0);
    Quotient(num, base);
    var q := num / base;
    TwoTimes(q, base);
  }

  lemma TwoTimes(q: nat, base: nat)
    requires 2 <= base
    ensures 2 * q <= q * base
  {
  }

  // ----- directives as they are written -----

  /** Flags, a width and a precision as numerals or nothing, the dot, long flags, and the conversion. */
  datatype Directive = Directive(flags: seq<byte>, width: seq<byte>, dot: bool, precision: seq<byte>, longs: nat,
                                 conv: byte)

  /** A numeral that begins with no zero, or nothing. */
  predicate PlainNumeral(s: seq<byte>) {
    AllDigits(s, 10) && (s != [] ==> s[0] != 0x30 && Value(s, 10) < TWO_31 - 0x30)
  }

  /** The flags are '-', '0' and '#', and a precision stands behind a dot. */
  predicate WellWritten(d: Directive) {
    && (forall i :: 0 <= i < |d.flags| ==> d.flags[i] in {0x2d, 0x30, 0x23})
    && PlainNumeral(d.width) && PlainNumeral(d.precision) && (d.precision != [] ==> d.dot)
    && d.conv in {0x63, 0x73, 0x64, 0x75, 0x6f, 0x70, 0x78, 0x25}
  }

  /** What follows the percent sign. */
  function Written(d: Directive): seq<byte> {
    d.flags + (d.width + ((if d.dot then [0x2e] else []) + (d.precision + (Padding(0x6c, d.longs) + [d.conv]))))
  }

  /** The last of the flags '-' and '0', or a blank. */
  function PadOf(flags: seq<byte>, pad: byte): byte {
    if flags == [] then pad else PadOf(flags[1..], if flags[0] == 0x23 then pad else flags[0])
  }

  /** The state it calls for: -1 for a width or precision that is not given, 0 for a width in front of a dot. */
  function SpecOf(d: Directive): Spec
    requires WellWritten(d)
  {
    Spec(PadOf(d.flags, 0x20),
         if d.width != [] then Value(d.width, 10) else if d.dot then 0 else -1,
         if d.precision != [] then Value(d.precision, 10) else -1,
         0x23 in d.flags)
  }

  /** The bytes e lie at i. */
  predicate At(data: seq<byte>, i: nat, e: seq<byte>) {
    i <= |data| && e <= data[i..]
  }

  lemma AtSplit(data: seq<byte>, i: nat, a: seq<byte>, b: seq<byte>)
    requires At(data, i, a + b)
    ensures At(data, i, a) && At(data, i + |a|, b)
    ensures a != [] ==> i < |data| && data[i] == a[0]
  {
    PrefixSplit(a, b, data[i..]);
    assert data[i + |a|..] == data[i..][|a|..];
    if a != [] {
      assert data[i] == data[i..][0];
    }
  }

  // ----- reading numbers -----

  lemma ValueSnoc(s: seq<byte>, c: byte)
    requires AllDigits(s + [c], 10)
    ensures AllDigits(s, 10) && Value(s + [c], 10) == Value(s, 10) * 10 + DigitValue(c)
  {
    assert (s + [c])[..|s|] == s;
    assert forall i :: 0 <= i < |s| ==> s[i] == (s + [c])[i];
    assert (s + [c])[|s|] == c;
  }

  lemma {:induction false} ValueGrows(s: seq<byte>, t: seq<byte>)
    requires AllDigits(s + t, 10)
    ensures AllDigits(s, 10) && Value(s, 10) <= Value(s + t, 10)
    decreases |t|
  {
    assert forall i :: 0 <= i < |s| ==> s[i] == (s + t)[i];
    if t == [] {
      assert s + t == s;
    } else {
      var u := t[..|t| - 1];
      assert s + t == (s + u) + [t[|t| - 1]];
      ValueSnoc(s + u, t[|t| - 1]);
      ValueGrows(s, u);
    }
  }

  /** One digit of a numeral, with another one or something else behind it. */
  lemma OneDigit(data: seq<byte>, i: nat, acc: nat, c: byte, next: byte)
    requires At(data, i, [c, next]) && 0x30 <= c <= 0x39 && acc * 10 + (c - 0x30) < TWO_31 - 0x30
    ensures i + 1 < |data| && data[i + 1] == next
    ensures var v := acc * 10 + (c - 0x30);
      DigitRun(data, i, acc) == if 0x30 <= next <= 0x39 then DigitRun(data, i + 1, v) else Got(v, i + 1)
  {
    assert data[i] == data[i..][0] && data[i + 1] == data[i..][1];
  }

  /** Reading the rest of a numeral, its first digits read. */
  lemma {:induction false} RunReads(data: seq<byte>, i: nat, done: seq<byte>, rest: seq<byte>, c: byte)
    requires rest != [] && AllDigits(done + rest, 10) && At(data, i, rest + [c]) && !(0x30 <= c <= 0x39)
    requires Value(done + rest, 10) < TWO_31 - 0x30 && AllDigits(done, 10)
    ensures i < |data| && DigitRun(data, i, Value(done, 10)) == Got(Value(done + rest, 10), i + |rest|)
    decreases |rest|
  {
    hide DigitRun, Value, At;
    var d, tail := rest[0], rest[1..];
    var next := (tail + [c])[0];
    assert done + rest == (done + [d]) + tail && (done + rest)[|done|] == d;
    ValueGrows(done + [d], tail);
    ValueSnoc(done, d);
    assert rest + [c] == [d, next] + (tail + [c])[1..];
    AtSplit(data, i, [d, next], (tail + [c])[1..]);
    OneDigit(data, i, Value(done, 10), d, next);
    if tail == [] {
      assert (done + [d]) + tail == done + [d];
    } else {
      assert (done + rest)[|done| + 1] == tail[0];
      assert rest + [c] == [d] + (tail + [c]);
      AtSplit(data, i, [d], tail + [c]);
      RunReads(data, i + 1, done + [d], tail, c);
    }
  }

  /** A number as it is written is read back, whatever character that is no digit follows. */
  lemma NumberRead(data: seq<byte>, i: nat, w: nat, c: byte)
    requires w < TWO_31 - 0x30 && At(data, i, Digits(w, 10) + [c]) && !(0x30 <= c <= 0x39)
    ensures i < |data| && DigitRun(data, i, 0) == Got(w, i + |Digits(w, 10)|)
  {
    hide Digits;
    DigitsSpell(w, 10);
    assert [] + Digits(w, 10) == Digits(w, 10);
    RunReads(data, i, [], Digits(w, 10), c);
  }

  // ----- reading directives -----

  predicate IsDigit(c: byte) { 0x30 <= c <= 0x39 }

  /** One more character of a directive. */
  lemma NextField(data: seq<byte>, i: nat, s: Spec, args: seq<Arg>, k: nat)
    requires CString(data) && i < |data| && Sane(s)
    ensures data[i] in {0x2d, 0x30} ==>
      i + 1 < |data| && Flags(data, i, s, args, k) == Flags(data, i + 1, s.(padc := data[i]), args, k)
    ensures data[i] == 0x23 ==>
      i + 1 < |data| && Flags(data, i, s, args, k) == Flags(data, i + 1, s.(altflag := true), args, k)
    ensures data[i] == 0x6c ==> i + 1 < |data| && Flags(data, i, s, args, k) == Flags(data, i + 1, s, args, k)
    ensures data[i] == 0x2e ==>
      i + 1 < |data|
      && Flags(data, i, s, args, k) == Flags(data, i + 1, if s.width < 0 then s.(width := 0) else s, args, k)
    ensures 0x31 <= data[i] <= 0x39 && DigitRun(data, i, 0).Got? ==>
      var r := DigitRun(data, i, 0);
      Flags(data, i, s, args, k) == Flags(data, r.size, Precise(s, r.value), args, k)
    ensures data[i] in {0x63, 0x73, 0x64, 0x75, 0x6f, 0x70, 0x78, 0x25} ==>
      Flags(data, i, s, args, k) == Flagged(data[i], i + 1, s, k)
  {
    hide DigitRun;
  }

  lemma {:induction false} LongsRead(data: seq<byte>, i: nat, n: nat, conv: byte, s: Spec, args: seq<Arg>, k: nat)
    requires CString(data) && Sane(s) && At(data, i, Padding(0x6c, n) + [conv])
    requires conv in {0x63, 0x73, 0x64, 0x75, 0x6f, 0x70, 0x78, 0x25}
    ensures i < |data| && Flags(data, i, s, args, k) == Flagged(conv, i + n + 1, s, k)
    decreases n
  {
    hide Flags, At, DigitRun, CString, Sane;
    if n == 0 {
      assert Padding(0x6c, n) + [conv] == [conv] + [];
      AtSplit(data, i, [conv], []);
    } else {
      assert Padding(0x6c, n) + [conv] == [0x6c] + (Padding(0x6c, n - 1) + [conv]);
      AtSplit(data, i, [0x6c], Padding(0x6c, n - 1) + [conv]);
      LongsRead(data, i + 1, n - 1, conv, s, args, k);
    }
    NextField(data, i, s, args, k);
  }

  lemma FirstDigit(w: seq<byte>)
    requires PlainNumeral(w) && w != []
    ensures 0x31 <= w[0] <= 0x39
  {
  }

  /** A width or a precision, if it is there, in front of something that is no digit. */
  lemma FieldNumber(data: seq<byte>, i: nat, w: seq<byte>, rest: seq<byte>, s: Spec, args: seq<Arg>, k: nat)
    requires CString(data) && Sane(s) && At(data, i, w + rest) && PlainNumeral(w) && rest != [] && !IsDigit(rest[0])
    ensures i < |data| && i + |w| < |data| && At(data, i + |w|, rest)
    ensures Flags(data, i, s, args, k)
         == Flags(data, i + |w|, if w == [] then s else Precise(s, Value(w, 10)), args, k)
  {
    hide Flags, At, DigitRun, CString, Sane, Value;
    AtSplit(data, i, w, rest);
    AtSplit(data, i + |w|, [rest[0]], rest[1..]) by { assert rest == [rest[0]] + rest[1..]; }
    if w != [] {
      FirstDigit(w);
      assert w + rest == (w + [rest[0]]) + rest[1..];
      AtSplit(data, i, w + [rest[0]], rest[1..]);
      assert [] + w == w;
      NoDigits(10);
      RunReads(data, i, [], w, rest[0]);
      NextField(data, i, s, args, k);
    }
  }

  lemma {:induction false} FlagsRead(data: seq<byte>, i: nat, flags: seq<byte>, rest: seq<byte>, s: Spec,
                                     args: seq<Arg>, k: nat)
    requires CString(data) && Sane(s) && At(data, i, flags + rest) && rest != []
    requires forall j :: 0 <= j < |flags| ==> flags[j] in {0x2d, 0x30, 0x23}
    ensures i < |data| && i + |flags| < |data| && At(data, i + |flags|, rest)
    ensures var s' := s.(padc := PadOf(flags, s.padc), altflag := s.altflag || 0x23 in flags);
      Sane(s') && Flags(data, i, s, args, k) == Flags(data, i + |flags|, s', args, k)
    decreases |flags|
  {
    hide Flags, At, DigitRun, CString;
    AtSplit(data, i, flags, rest);
    AtSplit(data, i + |flags|, [rest[0]], rest[1..]) by { assert rest == [rest[0]] + rest[1..]; }
    if flags != [] {
      assert flags + rest == [flags[0]] + (flags[1..] + rest);
      AtSplit(data, i, [flags[0]], flags[1..] + rest);
      NextField(data, i, s, args, k);
      var s1 := if flags[0] == 0x23 then s.(altflag := true) else s.(padc := flags[0]);
      FlagsRead(data, i + 1, flags[1..], rest, s1, args, k);
      assert 0x23 in flags <==> flags[0] == 0x23 || 0x23 in flags[1..];
    }
  }

  /** A directive is read as what is written: flags, width and precision give exactly its state. */
  lemma DirectiveRead(data: seq<byte>, i: nat, d: Directive, args: seq<Arg>, k: nat)
    requires CString(data) && WellWritten(d) && At(data, i, Written(d))
    ensures i < |data| && Flags(data, i, START, args, k) == Flagged(d.conv, i + |Written(d)|, SpecOf(d), k)
  {
    hide Flags, At, CString, Value, PadOf, AllDigits;
    var last := Padding(0x6c, d.longs) + [d.conv];
    var tail := (if d.dot then [0x2e] else []) + (d.precision + last);
    FlagsRead(data, i, d.flags, d.width + tail, START, args, k);
    var s := START.(padc := PadOf(d.flags, 0x20), altflag := 0x23 in d.flags);
    var o := i + |d.flags|;
    TailBegins(d);
    FieldNumber(data, o, d.width, tail, s, args, k);
    var s1 := if d.width == [] then s else Precise(s, Value(d.width, 10));
    var o1 := o + |d.width|;
    if d.dot {
      AtSplit(data, o1, [0x2e], d.precision + last);
      NextField(data, o1, s1, args, k);
      var s2 := if s1.width < 0 then s1.(width := 0) else s1;
      FieldNumber(data, o1 + 1, d.precision, last, s2, args, k);
      LongsRead(data, o1 + 1 + |d.precision|, d.longs, d.conv, SpecOf(d), args, k);
    } else {
      assert tail == last;
      LongsRead(data, o1, d.longs, d.conv, s1, args, k);
    }
  }

  lemma TailBegins(d: Directive)
    requires WellWritten(d)
    ensures var last := Padding(0x6c, d.longs) + [d.conv];
      var tail := (if d.dot then [0x2e] else []) + (d.precision + last);
      && last != [] && !IsDigit(last[0]) && tail != [] && !IsDigit(tail[0])
  {
  }

  // ----- what is printed -----

  /** The body in a field of at least the width: padded on the left with the character, or on the right with
      blanks. */
  ghost predicate Justified(out: seq<byte>, body: seq<byte>, width: int, pad: byte, left: bool) {
    var n := |body|;
    && |out| == (if width > n then width else n)
    && if left then
         out[..n] == body && forall j :: n <= j < |out| ==> out[j] == 0x20
       else
         out[|out| - n..] == body && forall j :: 0 <= j < |out| - n ==> out[j] == pad
  }

  /** The characters of a string that the precision lets through, under '#' with a question mark for each that is
      not printable. */
  ghost predicate ShownAs(body: seq<byte>, t: seq<byte>, precision: int, alt: bool) {
    && |body| == (if 0 <= precision < |t| then precision else |t|)
    && forall j :: 0 <= j < |body| ==> body[j] == if alt && !(0x20 <= t[j] <= 0x7e) then 0x3f else t[j]
  }

  /** A prefix and a numeral, padded between the two; under the flag '-' the padding is that character. */
  ghost predicate NumberShown(out: seq<byte>, prefix: seq<byte>, n: nat, base: nat, s: Spec) {
    && prefix <= out
    && exists digits :: Spells(digits, n, base) && Justified(out[|prefix|..], digits, s.width, s.padc, false)
  }

  ghost predicate TextShown(out: seq<byte>, t: seq<byte>, s: Spec) {
    exists body :: ShownAs(body, t, s.precision, s.altflag) && Justified(out, body, s.width, s.padc, s.padc == 0x2d)
  }

  /** A null pointer is shown as "(null)". */
  function TextArg(a: Arg): seq<byte> {
    match a
    case Text(t) => t
    case Word(_) => [0x28, 0x6e, 0x75, 0x6c, 0x6c, 0x29]
  }

  /** What a directive prints for its argument: c, s, d, u, o, p, x and the percent sign. */
  ghost predicate Renders(d: Directive, a: Arg, out: seq<byte>)
    requires WellWritten(d) && (d.conv == 0x25 || Accepts(d.conv, a))
  {
    var s := SpecOf(d);
    if d.conv == 0x25 then out == [0x25]
    else if d.conv == 0x73 then TextShown(out, TextArg(a), s)
    else if d.conv == 0x63 then out == [a.w % 0x100]
    else if d.conv == 0x64 then
      if a.w < 0x8000_0000_0000_0000 then NumberShown(out, [], a.w, 10, s)
      else NumberShown(out, [0x2d], 0x1_0000_0000_0000_0000 - a.w, 10, s)
    else if d.conv == 0x75 then NumberShown(out, [], a.w, 10, s)
    else if d.conv == 0x6f then NumberShown(out, [], a.w, 8, s)
    else if d.conv == 0x70 then NumberShown(out, [0x30, 0x78], a.w, 16, s)
    else NumberShown(out, [], a.w, 16, s)
  }

  /** A string or a null pointer for s, a number for the others. */
  predicate Accepts(conv: byte, a: Arg) {
    if conv == 0x73 then a.Text? || a.w == 0 else a.Word?
  }

  lemma NumberJustified(prefix: seq<byte>, num: nat, base: nat, s: Spec)
    requires 2 <= base <= 16
    ensures NumberShown(prefix + Number(num, base, s.width, s.padc), prefix, num, base, s)
  {
    hide Spells, Digits;
    DigitsSpell(num, base);
    var digits, field := Digits(num, base), Number(num, base, s.width, s.padc);
    assert (prefix + field)[|prefix|..] == field;
    assert Justified(field, digits, s.width, s.padc, false);
  }

  lemma TextJustified(t: seq<byte>, s: Spec)
    ensures TextShown(TextOf(t, s), t, s)
  {
    var n := Limit(t, s.precision);
    var body := ShownAll(t[..n], s.altflag);
    assert ShownAs(body, t, s.precision, s.altflag);
    assert Justified(TextOf(t, s), body, s.width, s.padc, s.padc == 0x2d);
  }

  lemma NumberCountable(w: uint64, base: nat, width: int)
    requires 2 <= base <= 16 && width >= -1
    ensures Countable(width, |Digits(w, base)|)
  {
    hide Digits;
    assert Pow2(64) == TWO_64 by {
      assert Pow2(64) == 2 * Pow2(63);
      Pow2Values();
    }
    DigitsShort(w, base, 64);
  }

  /** The int that counts the width does not overflow on the argument. */
  predicate Printable(d: Directive, a: Arg)
    requires WellWritten(d)
  {
    d.conv == 0x73 ==>
      var s := SpecOf(d); Countable(TextWidth(TextArg(a), s), Limit(TextArg(a), s.precision))
  }

  lemma ConversionRenders(d: Directive, args: seq<Arg>, k: nat)
    requires WellWritten(d) && d.conv != 0x25 && k < |args| && Accepts(d.conv, args[k]) && Printable(d, args[k])
    ensures IsConversion(d.conv)
    ensures var c := Convert(d.conv, SpecOf(d), args, k);
      c.Printed? && c.arg == k + 1 && Renders(d, args[k], c.out)
  {
    hide Digits, Number, TextOf, NumberShown, TextShown, Countable, TextWidth, Limit, AllDigits, Value, PadOf;
    var a, s := args[k], SpecOf(d);
    if d.conv == 0x73 {
      assert Chars("(null)") == [0x28, 0x6e, 0x75, 0x6c, 0x6c, 0x29];
      TextJustified(TextArg(a), s);
    } else if d.conv != 0x63 {
      var negative := d.conv == 0x64 && a.w >= TWO_63;
      var prefix: seq<byte> := if negative then [0x2d] else if d.conv == 0x70 then [0x30, 0x78] else [];
      var n, base := if negative then TWO_64 - a.w else a.w,
                     if d.conv == 0x64 || d.conv == 0x75 then 10 else if d.conv == 0x6f then 8 else 16;
      NumberCountable(n, base, s.width);
      NumberJustified(prefix, n, base, s);
    }
  }

  /** A directive of the format, as it is written, prints what it means and nothing else, and takes its argument. */
  lemma DirectivePrints(data: seq<byte>, i: nat, d: Directive, args: seq<Arg>, k: nat) returns (out: seq<byte>)
    requires CString(data) && i < |data| && data[i] == 0x25 && WellWritten(d) && At(data, i + 1, Written(d))
    requires d.conv != 0x25 ==> k < |args| && Accepts(d.conv, args[k]) && Printable(d, args[k])
    ensures i + 1 + |Written(d)| < |data| && Renders(d, if k < |args| then args[k] else Word(0), out)
    ensures Stream(data, i, args, k)
         == Then(out, Stream(data, i + 1 + |Written(d)|, args, if d.conv == 0x25 then k else k + 1))
  {
    hide Flags, Convert, At, Written, Renders, SpecOf;
    Followed(data, i + 1, d);
    DirectiveRead(data, i + 1, d, args, k);
    if d.conv == 0x25 {
      out := [0x25];
      PercentRenders(d, if k < |args| then args[k] else Word(0));
    } else {
      ConversionRenders(d, args, k);
      out := Convert(d.conv, SpecOf(d), args, k).out;
    }
  }

  /** The terminator is no part of a directive. */
  lemma Followed(data: seq<byte>, i: nat, d: Directive)
    requires CString(data) && WellWritten(d) && At(data, i, Written(d))
    ensures i + |Written(d)| < |data| && 0 < |Written(d)|
  {
    var w := Written(d);
    assert w[|w| - 1] == d.conv;
    assert data[i + |w| - 1] == data[i..][|w| - 1];
  }

  lemma PercentRenders(d: Directive, a: Arg)
    requires WellWritten(d) && d.conv == 0x25
    ensures Renders(d, a, [0x25])
    ensures IsConversion(0x25) && forall s, args, k: nat :: Convert(0x25, s, args, k) == Printed([0x25], k)
  {
  }

  /** The text of an error code, by the numbers of inc/error.h. */
  function Message(code: nat): string
    requires 1 <= code <= 6
  {
    match code
    case 1 => "unspecified error"
    case 2 => "bad environment"
    case 3 => "invalid parameter"
    case 4 => "out of memory"
    case 5 => "out of environments"
    case _ => "segmentation fault"
  }

  /** The conversion e takes a code and its negative alike: the text of a known one, and "error" with the number
      of any other; it has no width. */
  lemma ErrorShown(s: Spec, args: seq<Arg>, k: nat, code: int)
    requires k < |args| && args[k].Word? && -TWO_31 < code < TWO_31 && args[k].w % TWO_32 == code % TWO_32
    ensures var n: nat := if code < 0 then -code else code;
      var c := Convert(0x65, s, args, k);
      && c.Printed? && c.arg == k + 1
      && (1 <= n <= 6 ==> c.out == Chars(Message(n)))
      && (!(1 <= n <= 6) ==> Chars("error ") <= c.out && Spells(c.out[6..], n, 10))
  {
    hide Digits, Spells;
    var n: nat := if code < 0 then -code else code;
    DigitsSpell(n, 10);
    assert Signed32(args[k].w % TWO_32) == code;
    assert |Chars("error ")| == 6;
    assert (Chars("error ") + Digits(n, 10))[6..] == Digits(n, 10);
  }
}
