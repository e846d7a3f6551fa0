/** LEB128 numbers as `_dwarf_read_uleb128` and its three companions decode them, and their
    encoding in section 7.6 of DWARF 4. */
module Leb128 {
  import opened Machine

  // ----- what a decoder consumes and computes -----

  /** Bytes up to and including the first one without its continuation bit; 0 when there is none. */
  function LebSize(s: seq<byte>): (n: nat)
    ensures n <= |s|
  {
    if s == [] then 0
    else if s[0] < TWO_7 then 1
    else
      var n := LebSize(s[1..]);
      if n == 0 then 0 else n + 1
  }

  lemma {:induction false} LebSizeShape(s: seq<byte>)
    ensures var n := LebSize(s);
      if n == 0 then forall i :: 0 <= i < |s| ==> s[i] >= TWO_7
      else s[n - 1] < TWO_7 && forall i :: 0 <= i < n - 1 ==> s[i] >= TWO_7
  {
    if s != [] && s[0] >= TWO_7 {
      LebSizeShape(s[1..]);
      assert forall i :: 1 <= i < |s| ==> s[i] == s[1..][i - 1];
    }
  }

  /** The 7-bit groups, least significant first. */
  function Payload(s: seq<byte>): nat {
    if s == [] then 0 else s[0] % TWO_7 + TWO_7 * Payload(s[1..])
  }

  /** At most five bytes: a sixth would shift an int by 35. */
  function Uleb(s: seq<byte>): (r: Read<uint64>)
    ensures r.Got? ==> 0 < r.size <= |s|
  {
    var n := LebSize(s);
    if n == 0 || n > 5 then Fault else Got(SignExtend(Payload(s[..n]) % TWO_32), n)
  }

  function Sleb(s: seq<byte>): (r: Read<int64>)
    ensures r.Got? ==> 0 < r.size <= |s|
  {
    var n := LebSize(s);
    if n == 0 || n > 5 then Fault
    else if n == 5 then Got(Signed32(Payload(s[..n]) % TWO_32), n)
    else
      PayloadBound(s[..n]);
      Got(Payload(s[..n]) - (if s[n - 1] % TWO_7 >= 0x40 then Pow2(7 * n) else 0), n)
  }

  lemma {:induction false} PayloadBound(s: seq<byte>)
    ensures Payload(s) < Pow2(7 * |s|)
    ensures |s| <= 4 ==> Payload(s) < TWO_28 && Pow2(7 * |s|) <= TWO_28
  {
    Pow2Values();
    if s != [] {
      hide Pow2;
      PayloadBound(s[1..]);
      Pow2Shift7(7 * |s[1..]|);
      assert 7 * |s[1..]| + 7 == 7 * |s|;
    }
  }

  lemma Pow2Shift7(k: nat)
    ensures Pow2(k + 7) == TWO_7 * Pow2(k)
  {
    assert Pow2(k + 7) == 2 * Pow2(k + 6) == 4 * Pow2(k + 5) == 8 * Pow2(k + 4);
    assert Pow2(k + 4) == 2 * Pow2(k + 3) == 4 * Pow2(k + 2) == 8 * Pow2(k + 1);
  }

  lemma {:induction false} PayloadSnoc(s: seq<byte>, b: byte)
    ensures Payload(s + [b]) == Payload(s) + (b % TWO_7) * Pow2(7 * |s|)
  {
    if s == [] {
      assert s + [b] == [b];
      assert Payload([b]) == b % TWO_7 + TWO_7 * Payload([b][1..]);
    } else {
      var t, g := s[1..], b % TWO_7;
      assert (s + [b])[1..] == t + [b];
      PayloadSnoc(t, b);
      Pow2Shift7(7 * |t|);
      assert 7 * |s| == 7 * |t| + 7;
      var w := Pow2(7 * |t|);
      assert g * (TWO_7 * w) == TWO_7 * (g * w);
    }
  }

  // ----- the decoders -----

  /** `(b & 0x7f) << shift` on int, stored into a 64-bit pattern. */
  function ShiftedGroup(b: byte, shift: nat): uint64
    requires shift < 32
  {
    SignExtend(((b % TWO_7) * Pow2(shift)) % TWO_32)
  }

  lemma GroupWeight(n: nat)
    requires n < 5
    ensures Pow2(7 * n) == [1, 0x80, 0x4000, 0x20_0000, TWO_28][n]
  {
    if n == 0 {} else if n == 1 {} else {
      GroupWeight(n - 1);
      Pow2Shift7(7 * (n - 1));
    }
  }

  lemma SmallProduct(g: nat, w: nat)
    requires g < 0x80 && w <= 0x20_0000
    ensures 0 <= g * w < TWO_28
    ensures SignExtend((g * w) % TWO_32) == g * w
  {
    assert g * w <= 127 * w;
  }

  lemma LowGroup(acc: uint64, b: byte, n: nat)
    requires n < 4 && acc < Pow2(7 * n)
    ensures BitOr(acc, ShiftedGroup(b, 7 * n)) == acc + (b % TWO_7) * Pow2(7 * n)
  {
    GroupWeight(n);
    SmallProduct(b % TWO_7, Pow2(7 * n));
    OrDisjoint(acc, b % TWO_7, 7 * n);
  }

  lemma TopShift(acc: nat, g: nat)
    requires acc < TWO_28 && g < 0x80
    ensures (g * TWO_28) % TWO_32 == (g % 16) * TWO_28
    ensures (acc + g * TWO_28) % TWO_32 == acc + (g % 16) * TWO_28
  {
    var q := g / 16;
    assert g * TWO_28 == q * TWO_32 + (g % 16) * TWO_28;
  }

  lemma TopGroup(acc: uint64, b: byte)
    requires acc < TWO_28
    ensures BitOr(acc, ShiftedGroup(b, 28)) == SignExtend((acc + (b % TWO_7) * TWO_28) % TWO_32)
  {
    GroupWeight(4);
    TopShift(acc, b % TWO_7);
    var low := b % TWO_7 % 16;
    var high := if low < 8 then low else low + 0xF_FFFF_FFF0;
    assert SignExtend(low * TWO_28) == high * TWO_28;
    OrDisjoint(acc, high, 28);
  }

  lemma SmallWord(x: nat)
    requires x < TWO_31
    ensures SignExtend(x % TWO_32) == x
  {
  }

  /** One turn of the decoding loop keeps the accumulator equal to the payload read so far. */
  lemma AccumulateGroup(s: seq<byte>, n: nat, acc: uint64)
    requires n < |s| && n < 5
    requires acc == Payload(s[..n])
    ensures Or64(acc, ShiftedGroup(s[n], 7 * n)) == SignExtend(Payload(s[..n + 1]) % TWO_32)
    ensures n < 4 ==> SignExtend(Payload(s[..n + 1]) % TWO_32) == Payload(s[..n + 1])
  {
    PayloadBound(s[..n]);
    assert s[..n + 1] == s[..n] + [s[n]];
    PayloadSnoc(s[..n], s[n]);
    if n < 4 {
      PayloadBound(s[..n + 1]);
      SmallWord(Payload(s[..n + 1]));
      LowGroup(acc, s[n], n);
    } else {
      GroupWeight(4);
      TopGroup(acc, s[n]);
    }
  }

  /** The offset-based unsigned decoder. */
  method ReadUleb128(data: seq<byte>, offset: nat) returns (ret: uint64, next: nat)
    requires offset <= |data| && Uleb(data[offset..]).Got?
    ensures offset <= next && Uleb(data[offset..]) == Got(ret, next - offset)
  {
    ghost var s := data[offset..];
    ghost var n := LebSize(s);
    LebSizeShape(s);
    ret, next := 0, offset;
    var shift, src := 0, offset;
    var b := 0x80;
    while b >= TWO_7
      invariant offset <= next == src <= |data| && next - offset <= n <= 5
      invariant shift == 7 * (next - offset)
      invariant b >= TWO_7 ==> next - offset < n && ret == Payload(s[..next - offset])
      invariant b < TWO_7 ==> next - offset == n && ret == SignExtend(Payload(s[..n]) % TWO_32)
      decreases n - (next - offset), b
    {
      AccumulateGroup(s, next - offset, ret);
      b := data[src];
      src := src + 1;
      assert b == s[next - offset];
      ret := Or64(ret, ShiftedGroup(b, shift));
      next := next + 1;
      shift := shift + 7;
    }
  }

  /** The pointer-based unsigned decoder; `dp` is the pointer, `p` its new value. */
  method DecodeUleb128(data: seq<byte>, dp: nat) returns (ret: uint64, p: nat)
    requires dp <= |data| && Uleb(data[dp..]).Got?
    ensures dp <= p && Uleb(data[dp..]) == Got(ret, p - dp)
  {
    ghost var s := data[dp..];
    ghost var n := LebSize(s);
    LebSizeShape(s);
    ret := 0;
    var shift, src := 0, dp;
    var b := 0x80;
    while b >= TWO_7
      invariant dp <= src <= |data| && src - dp <= n <= 5
      invariant shift == 7 * (src - dp)
      invariant b >= TWO_7 ==> src - dp < n && ret == Payload(s[..src - dp])
      invariant b < TWO_7 ==> src - dp == n && ret == SignExtend(Payload(s[..n]) % TWO_32)
      decreases n - (src - dp), b
    {
      AccumulateGroup(s, src - dp, ret);
      b := data[src];
      assert b == s[src - dp];
      src := src + 1;
      ret := Or64(ret, ShiftedGroup(b, shift));
      shift := shift + 7;
    }
    p := src;
  }

  /** `if (shift < 32 && (b & 0x40) != 0) ret |= (-1 << shift)`, read as int64_t. */
  function SignFilled(acc: uint64, shift: nat, b: byte): int64
    requires shift < 64
  {
    Pow2AtMost(shift, 64);
    Signed64(if shift < 32 && b % TWO_7 >= 0x40 then Or64(acc, TWO_64 - Pow2(shift)) else acc)
  }

  lemma Pow2AtMost(k: nat, m: nat)
    requires k <= m == 64
    ensures Pow2(k) <= TWO_64
    decreases m - k
  {
    Pow2Values();
    Pow2Grows(k, m);
  }

  lemma {:induction false} Pow2Grows(k: nat, m: nat)
    requires k <= m
    ensures Pow2(k) <= Pow2(m)
    decreases m - k
  {
    if k < m {
      Pow2Grows(k + 1, m);
    }
  }

  lemma SignBits(p: nat, n: nat)
    requires 0 < n < 5 && p < Pow2(7 * n)
    ensures Pow2(7 * n) <= TWO_28
    ensures BitOr(p, TWO_64 - Pow2(7 * n)) == p + TWO_64 - Pow2(7 * n)
  {
    GroupWeight(n);
    var c := [0, 0x200_0000_0000_0000, 0x4_0000_0000_0000, 0x800_0000_0000, 0x10_0000_0000][n];
    assert TWO_64 - Pow2(7 * n) == (c - 1) * Pow2(7 * n);
    OrDisjoint(p, c - 1, 7 * n);
  }

  /** The sign fill after the loop is the subtraction of section 7.6. */
  lemma SignFill(s: seq<byte>, n: nat)
    requires 0 < n <= 5 && n == LebSize(s)
    ensures Sleb(s) == Got(SignFilled(SignExtend(Payload(s[..n]) % TWO_32), 7 * n, s[n - 1]), n)
  {
    if n < 5 {
      PayloadBound(s[..n]);
      SmallWord(Payload(s[..n]));
      SignBits(Payload(s[..n]), n);
    }
  }

  /** The offset-based signed decoder. */
  method ReadSleb128(data: seq<byte>, offset: nat) returns (ret: int64, next: nat)
    requires offset <= |data| && Sleb(data[offset..]).Got?
    ensures offset <= next && Sleb(data[offset..]) == Got(ret, next - offset)
  {
    ghost var s := data[offset..];
    ghost var n := LebSize(s);
    LebSizeShape(s);
    var acc: uint64 := 0;
    next := offset;
    var shift, src := 0, offset;
    var b := 0x80;
    while b >= TWO_7
      invariant offset <= next == src <= |data| && next - offset <= n <= 5
      invariant shift == 7 * (next - offset)
      invariant b >= TWO_7 ==> next - offset < n && acc == Payload(s[..next - offset])
      invariant b < TWO_7 ==> next - offset == n && acc == SignExtend(Payload(s[..n]) % TWO_32) && b == s[n - 1]
      decreases n - (next - offset), b
    {
      AccumulateGroup(s, next - offset, acc);
      b := data[src];
      src := src + 1;
      assert b == s[next - offset];
      acc := Or64(acc, ShiftedGroup(b, shift));
      next := next + 1;
      shift := shift + 7;
    }
    SignFill(s, n);
    ret := SignFilled(acc, shift, b);
  }

  /** The pointer-based signed decoder. */
  method DecodeSleb128(data: seq<byte>, dp: nat) returns (ret: int64, p: nat)
    requires dp <= |data| && Sleb(data[dp..]).Got?
    ensures dp <= p && Sleb(data[dp..]) == Got(ret, p - dp)
  {
    ghost var s := data[dp..];
    ghost var n := LebSize(s);
    LebSizeShape(s);
    var acc: uint64 := 0;
    var shift, src := 0, dp;
    var b := 0x80;
    while b >= TWO_7
      invariant dp <= src <= |data| && src - dp <= n <= 5
      invariant shift == 7 * (src - dp)
      invariant b >= TWO_7 ==> src - dp < n && acc == Payload(s[..src - dp])
      invariant b < TWO_7 ==> src - dp == n && acc == SignExtend(Payload(s[..n]) % TWO_32) && b == s[n - 1]
      decreases n - (src - dp), b
    {
      AccumulateGroup(s, src - dp, acc);
      b := data[src];
      assert b == s[src - dp];
      src := src + 1;
      acc := Or64(acc, ShiftedGroup(b, shift));
      shift := shift + 7;
    }
    SignFill(s, n);
    ret := SignFilled(acc, shift, b);
    p := src;
  }

  // ----- the encoders of section 7.6 and the round trips -----

  function EncodeUleb(v: nat): (e: seq<byte>)
    ensures |e| > 0
  {
    if v < 128 then [v] else [128 + v % 128] + EncodeUleb(v / 128)
  }

  function EncodeSleb(v: int): (e: seq<byte>)
    ensures |e| > 0
    decreases if v < 0 then -v else v
  {
    if -64 <= v < 64 then [v % 128] else [128 + v % 128] + EncodeSleb(v / 128)
  }

  lemma {:induction false} UlebShape(v: nat, s: seq<byte>)
    requires EncodeUleb(v) <= s
    ensures LebSize(s) == |EncodeUleb(v)| && Payload(EncodeUleb(v)) == v
  {
    if v >= 128 {
      PrefixSplit([128 + v % 128], EncodeUleb(v / 128), s);
      UlebShape(v / 128, s[1..]);
      assert EncodeUleb(v)[1..] == EncodeUleb(v / 128);
    } else {
      assert s[0] == EncodeUleb(v)[0] == v;
    }
  }

  lemma {:induction false} UlebLength(v: nat, k: nat)
    requires k > 0
    ensures |EncodeUleb(v)| <= k <==> v < Pow2(7 * k)
  {
    Pow2Shift7(7 * (k - 1));
    if k > 1 && v >= 128 {
      UlebLength(v / 128, k - 1);
    } else if k == 1 {
      assert Pow2(0) == 1;
    } else {
      assert Pow2(7 * (k - 1)) >= 1;
    }
  }

  /** Decoding undoes the minimal unsigned encoding exactly below 2^31; from 2^35 on the
      encoding has six bytes or more and the decoder shifts past the width of an int. */
  lemma UlebRoundTrip(v: nat, s: seq<byte>)
    requires EncodeUleb(v) <= s
    ensures Uleb(s) == Got(v, |EncodeUleb(v)|) <==> v < TWO_31
    ensures Uleb(s).Fault? <==> v >= 0x8_0000_0000
  {
    hide LebSize, Payload, EncodeUleb;
    var n := |EncodeUleb(v)|;
    UlebShape(v, s);
    assert s[..n] == EncodeUleb(v);
    UlebLength(v, 5);
    Pow2Shift7(28);
    GroupWeight(4);
  }

  lemma {:induction false} SlebPayload(v: int)
    ensures Payload(EncodeSleb(v)) == v + (if v < 0 then Pow2(7 * |EncodeSleb(v)|) else 0)
    decreases if v < 0 then -v else v
  {
    if -64 <= v < 64 {
      GroupWeight(1);
      assert EncodeSleb(v)[1..] == [];
    } else {
      var t := EncodeSleb(v / 128);
      SlebPayload(v / 128);
      assert EncodeSleb(v)[1..] == t;
      Pow2Shift7(7 * |t|);
    }
  }

  lemma {:induction false} SlebShape(v: int, s: seq<byte>)
    requires EncodeSleb(v) <= s
    ensures LebSize(s) == |EncodeSleb(v)|
    ensures s[|EncodeSleb(v)| - 1] % 128 >= 0x40 <==> v < 0
    decreases if v < 0 then -v else v
  {
    if -64 <= v < 64 {
      assert s[0] == EncodeSleb(v)[0] == v % 128;
    } else {
      PrefixSplit([128 + v % 128], EncodeSleb(v / 128), s);
      SlebShape(v / 128, s[1..]);
    }
  }

  lemma {:induction false} SlebLength(v: int, k: nat)
    requires k > 0
    ensures |EncodeSleb(v)| <= k <==> -64 * Pow2(7 * (k - 1)) <= v < 64 * Pow2(7 * (k - 1))
    decreases k
  {
    if k == 1 {
      assert Pow2(0) == 1;
    } else {
      Pow2Shift7(7 * (k - 2));
      if !(-64 <= v < 64) {
        SlebLength(v / 128, k - 1);
      } else {
        assert Pow2(7 * (k - 1)) >= 1;
      }
    }
  }

  lemma SlebLengths(v: int)
    ensures |EncodeSleb(v)| <= 5 <==> -0x4_0000_0000 <= v < 0x4_0000_0000
    ensures |EncodeSleb(v)| <= 4 <==> -0x800_0000 <= v < 0x800_0000
  {
    SlebLength(v, 5);
    SlebLength(v, 4);
    GroupWeight(4);
    GroupWeight(3);
  }

  lemma FiveBytes(v: int, p: nat)
    requires -0x4_0000_0000 <= v < 0x4_0000_0000
    requires p == v + (if v < 0 then Pow2(35) else 0)
    ensures Signed32(p % TWO_32) == v <==> -TWO_31 <= v < TWO_31
  {
    GroupWeight(4);
    Pow2Shift7(28);
  }

  lemma SlebOf(s: seq<byte>, e: seq<byte>)
    requires e <= s && LebSize(s) == |e| > 0
    ensures Sleb(s).Fault? <==> |e| > 5
    ensures |e| == 5 ==> Sleb(s) == Got(Signed32(Payload(e) % TWO_32), 5)
    ensures |e| < 5 && s[|e| - 1] % 128 >= 0x40 ==> Sleb(s).size == |e| && Sleb(s).value == Payload(e) - Pow2(7 * |e|)
    ensures |e| < 5 && s[|e| - 1] % 128 < 0x40 ==> Sleb(s).size == |e| && Sleb(s).value == Payload(e)
  {
    assert s[..|e|] == e;
  }

  /** Decoding undoes the minimal signed encoding exactly on the range of a 32-bit int. */
  lemma SlebRoundTrip(v: int, s: seq<byte>)
    requires EncodeSleb(v) <= s
    ensures Sleb(s) == Got(v, |EncodeSleb(v)|) <==> -TWO_31 <= v < TWO_31
    ensures Sleb(s).Fault? <==> !(-0x4_0000_0000 <= v < 0x4_0000_0000)
  {
    hide Sleb, LebSize, Payload, EncodeSleb;
    var e := EncodeSleb(v);
    SlebShape(v, s);
    SlebLengths(v);
    SlebPayload(v);
    SlebOf(s, e);
    if |e| == 5 {
      FiveBytes(v, Payload(e));
    }
  }

  // ----- a decoder looks at nothing beyond the number -----

  lemma {:induction false} LebSizeExtend(s: seq<byte>, t: seq<byte>)
    requires LebSize(s) > 0
    ensures LebSize(s + t) == LebSize(s)
  {
    assert (s + t)[0] == s[0];
    if s[0] >= TWO_7 {
      assert (s + t)[1..] == s[1..] + t;
      LebSizeExtend(s[1..], t);
    }
  }

  lemma UlebExtend(s: seq<byte>, t: seq<byte>)
    ensures Uleb(s).Got? ==> Uleb(s + t) == Uleb(s)
    ensures Sleb(s).Got? ==> Sleb(s + t) == Sleb(s)
  {
    if LebSize(s) > 0 {
      LebSizeExtend(s, t);
      assert (s + t)[..LebSize(s)] == s[..LebSize(s)];
    }
  }
}
