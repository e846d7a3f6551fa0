/** Numbers as `strtol` takes them, apart from how it reads them: blanks, a sign, a prefix, digits of a base
    up to 36 in either case, and what follows. */
module StrtolSpec {
  import opened Machine
  import opened Numerals
  import opened PrintFmt
  import opened Strtol

  /** The parts of the text. */
  datatype Text = Text(blanks: seq<byte>, sign: seq<byte>, prefix: seq<byte>, digits: seq<byte>, rest: seq<byte>)

  function Assembled(t: Text): seq<byte> {
    t.blanks + (t.sign + (t.prefix + (t.digits + t.rest)))
  }

  /** The base b of the digits, with what follows behind them, when `base` is asked for: 16 behind 0x, under 0
      otherwise 8 behind 0 and 10. */
  predicate Prefixed(prefix: seq<byte>, s: seq<byte>, base: nat, b: nat)
    requires s != []
  {
    if prefix == [0x30, 0x78] then (base == 0 || base == 16) && b == 16
    else if prefix == [0x30] then base == 0 && b == 8 && s[0] != 0x78
    else
      && prefix == []
      && if base == 0 then b == 10 && s[0] != 0x30 else b == base && !(base == 16 && [0x30, 0x78] <= s)
  }

  /** Every part ends where it can go on no further. */
  predicate Parts(t: Text, base: nat, b: nat) {
    && t.rest != [] && CString(Assembled(t))
    && (forall i :: 0 <= i < |t.blanks| ==> t.blanks[i] == 0x20 || t.blanks[i] == 0x09)
    && (t.sign == [] || t.sign == [0x2b] || t.sign == [0x2d])
    && var first := (t.sign + (t.prefix + (t.digits + t.rest)))[0];
    && first != 0x20 && first != 0x09 && (t.sign == [] ==> first != 0x2b && first != 0x2d)
    && Prefixed(t.prefix, t.digits + t.rest, base, b)
    && AllDigits(t.digits, b) && !(0 <= Numerals.DigitValue(t.rest[0]) < b)
  }

  lemma DigitsAgree(c: byte, b: nat)
    requires b <= 36
    ensures IsDigit(c, b) <==> 0 <= Numerals.DigitValue(c) < b
    ensures 0 <= Numerals.DigitValue(c) < b ==> Strtol.DigitValue(c) == Numerals.DigitValue(c)
  {
  }

  lemma AddMod(x: nat, b: nat, d: nat)
    ensures (x % TWO_64 * b + d) % TWO_64 == (x * b + d) % TWO_64
  {
    var q := x / TWO_64;
    assert x == q * TWO_64 + x % TWO_64;
    Spread(q, x % TWO_64, b);
    WholeTurns(x % TWO_64 * b + d, q * b);
  }

  lemma Spread(q: nat, r: nat, b: nat)
    ensures (q * TWO_64 + r) * b == q * b * TWO_64 + r * b
  {
  }

  lemma WholeTurns(y: int, k: int)
    ensures (y + k * TWO_64) % TWO_64 == y % TWO_64
  {
  }

  /** The loop computes the value modulo the width of a long. */
  lemma {:induction false} FoldIsValue(s: seq<byte>, b: nat)
    requires b <= 36 && AllDigits(s, b)
    ensures Fold(s, b) == Value(s, b) % TWO_64
    decreases |s|
  {
    if s != [] {
      var front, last := s[..|s| - 1], s[|s| - 1];
      FoldIsValue(front, b);
      DigitsAgree(last, b);
      AddMod(Value(front, b), b, Numerals.DigitValue(last));
    }
  }

  lemma {:induction false} BlanksPassed(data: seq<byte>, i: nat, j: nat)
    requires CString(data) && i <= j < |data| && forall x :: i <= x < j ==> data[x] == 0x20 || data[x] == 0x09
    requires data[j] != 0x20 && data[j] != 0x09
    ensures BlanksEnd(data, i) == j
    decreases j - i
  {
    if i < j {
      BlanksPassed(data, i + 1, j);
    }
  }

  lemma Behind(a: seq<byte>, rest: seq<byte>, data: seq<byte>, i: nat)
    requires i <= |data| && data[i..] == a + rest
    ensures i + |a| <= |data| && data[i..i + |a|] == a && data[i + |a|..] == rest
    ensures rest != [] ==> i + |a| < |data| && data[i + |a|] == rest[0]
  {
    assert data[i..][..|a|] == a && data[i..][|a|..] == rest;
    assert data[i + |a|..] == data[i..][|a|..];
    if rest != [] {
      assert data[i + |a|] == data[i + |a|..][0];
    }
  }

  lemma FiveParts(data: seq<byte>, a: seq<byte>, b: seq<byte>, c: seq<byte>, d: seq<byte>, e: seq<byte>,
                  p: nat, q: nat)
    requires data == a + (b + (c + (d + e))) && e != [] && p == |a| + |b| && q == p + |c|
    ensures |data| == q + |d| + |e| && data[..|a|] == a && data[|a|..p] == b && data[p..q] == c
    ensures data[q..q + |d|] == d && data[q..] == d + e && data[q + |d|] == e[0]
    ensures data[|a|] == (b + (c + (d + e)))[0]
  {
    assert data[0..] == data;
    var r := d + e;
    var s := c + r;
    var t := b + s;
    Behind(a, t, data, 0);
    Behind(b, s, data, |a|);
    Behind(c, r, data, p);
    Behind(d, e, data, q);
  }

  /** Where the parts lie. */
  lemma Places(t: Text, base: nat, b: nat)
    requires Parts(t, base, b)
    ensures var data, n := Assembled(t), |t.blanks|;
      var p := n + |t.sign|;
      var q := p + |t.prefix|;
      && q + |t.digits| < |data| && |data| == q + |t.digits| + |t.rest|
      && data[..n] == t.blanks
      && data[n..p] == t.sign && data[p..q] == t.prefix && data[q..q + |t.digits|] == t.digits
      && data[q..] == t.digits + t.rest && data[n] == (t.sign + (t.prefix + (t.digits + t.rest)))[0]
      && data[q + |t.digits|] == t.rest[0]
  {
    hide CString, AllDigits, Prefixed, Numerals.DigitValue;
    var p := |t.blanks| + |t.sign|;
    FiveParts(Assembled(t), t.blanks, t.sign, t.prefix, t.digits, t.rest, p, p + |t.prefix|);
  }

  lemma PrefixAt(data: seq<byte>, p: nat, prefix: seq<byte>, s: seq<byte>, base: nat, b: nat)
    requires CString(data) && p + |prefix| < |data| && s != [] && Prefixed(prefix, s, base, b)
    requires data[p..p + |prefix|] == prefix && data[p + |prefix|..] == s
    ensures Prefix(data, p, base) == (p + |prefix|, b)
  {
    hide CString;
    var q := p + |prefix|;
    assert data[q] == data[q..][0];
    assert forall j :: 0 <= j < |prefix| ==> data[p + j] == data[p..q][j];
    if prefix == [] && |s| > 1 {
      assert data[q + 1] == data[q..][1];
      assert [0x30, 0x78] <= s <==> s[0] == 0x30 && s[1] == 0x78;
    }
  }

  lemma PrefixRead(t: Text, base: nat, b: nat)
    requires Parts(t, base, b)
    ensures var data, p := Assembled(t), |t.blanks| + |t.sign|;
      p < |data| && CString(data) && Prefix(data, p, base) == (p + |t.prefix|, b)
  {
    hide CString, Prefixed, AllDigits, Numerals.DigitValue, Assembled, Prefix;
    Places(t, base, b);
    PrefixAt(Assembled(t), |t.blanks| + |t.sign|, t.prefix, t.digits + t.rest, base, b);
  }

  lemma BlanksRead(t: Text, base: nat, b: nat)
    requires Parts(t, base, b)
    ensures CString(Assembled(t)) && BlanksEnd(Assembled(t), 0) == |t.blanks|
  {
    hide CString, AllDigits, Prefixed, Numerals.DigitValue, Assembled;
    var data, n := Assembled(t), |t.blanks|;
    Places(t, base, b);
    assert forall x :: 0 <= x < n ==> data[x] == data[..n][x];
    BlanksPassed(data, 0, n);
  }

  lemma DigitsRead(t: Text, base: nat, b: nat)
    requires Parts(t, base, b) && b <= 36
    ensures var data, q := Assembled(t), |t.blanks| + |t.sign| + |t.prefix|;
      && q + |t.digits| < |data| && CString(data)
      && DigitsEnd(data, q, b) == q + |t.digits| == |data| - |t.rest|
      && Fold(data[q..q + |t.digits|], b) == Value(t.digits, b) % TWO_64
  {
    hide Fold, Prefixed, IsDigit, Numerals.DigitValue, Value, CString, Assembled;
    var data, q := Assembled(t), |t.blanks| + |t.sign| + |t.prefix|;
    var e := q + |t.digits|;
    Places(t, base, b);
    forall x | q <= x < e
      ensures IsDigit(data[x], b)
    {
      assert data[x] == data[q..e][x - q];
      DigitsAgree(data[x], b);
    }
    DigitsAgree(data[e], b);
    DigitsScanned(data, q, e, b);
    FoldIsValue(t.digits, b);
  }

  /** What is read is the value of the digits, negated behind a minus sign, as a pattern of 64 bits, and reading
      stops behind the digits. */
  lemma NumberIsRead(t: Text, base: nat, b: nat)
    requires Parts(t, base, b) && base <= 36
    ensures var v: int := Value(t.digits, b);
      Parsed(Assembled(t), base)
      == ((if t.sign == [0x2d] then -v else v) % 0x1_0000_0000_0000_0000, |Assembled(t)| - |t.rest|)
  {
    hide Fold, BlanksEnd, DigitsEnd, SignEnd, Prefix, IsDigit, Numerals.DigitValue, Value, CString, Assembled;
    hide AllDigits;
    BlanksRead(t, base, b);
    PrefixRead(t, base, b);
    SignPassed(t, base, b);
    DigitsRead(t, base, b);
    Negated(Value(t.digits, b));
  }

  lemma SignPassed(t: Text, base: nat, b: nat)
    requires Parts(t, base, b)
    ensures var data, n := Assembled(t), |t.blanks|;
      n < |data| && SignEnd(data, n) == n + |t.sign| && (data[n] == '-' as int <==> t.sign == [0x2d])
  {
    Places(t, base, b);
  }

  lemma Negated(v: int)
    ensures ToU64(-(v % TWO_64)) == (-v) % TWO_64
  {
  }
}
