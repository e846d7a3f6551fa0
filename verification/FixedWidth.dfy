/** Fixed-width integers in either byte order: `_dwarf_read_lsb`, `_dwarf_read_msb` and their
    pointer-based companions. */
module FixedWidth {
  import opened Machine

  /** Which pair of routines `dbg->read` and `dbg->decode` point to. */
  datatype Endian = Lsb | Msb

  predicate Width(n: int) { n == 1 || n == 2 || n == 4 || n == 8 }

  /** Positional value, least significant byte first. */
  function LsbValue(s: seq<byte>): nat {
    if s == [] then 0 else s[0] + 256 * LsbValue(s[1..])
  }

  /** Positional value, most significant byte first. */
  function MsbValue(s: seq<byte>): nat {
    if s == [] then 0 else MsbValue(s[..|s| - 1]) * 256 + s[|s| - 1]
  }

  function Value(order: Endian, s: seq<byte>): nat {
    if order.Lsb? then LsbValue(s) else MsbValue(s)
  }

  lemma {:induction false} ValueBound(order: Endian, s: seq<byte>)
    ensures Value(order, s) < Pow2(8 * |s|)
  {
    if s != [] {
      var t := if order.Lsb? then s[1..] else s[..|s| - 1];
      ValueBound(order, t);
      ByteShift(|t|);
    }
  }

  lemma ByteShift(n: nat)
    ensures Pow2(8 * (n + 1)) == 256 * Pow2(8 * n)
  {
    var k := 8 * n;
    assert Pow2(k + 8) == 2 * Pow2(k + 7) == 4 * Pow2(k + 6) == 8 * Pow2(k + 5) == 16 * Pow2(k + 4);
    assert Pow2(k + 4) == 2 * Pow2(k + 3) == 4 * Pow2(k + 2) == 8 * Pow2(k + 1);
  }

  /** A width other than 1, 2, 4 or 8 reads 0 and does not move. */
  function ReadFixed(order: Endian, s: seq<byte>, n: int): (r: Read<uint64>)
    ensures r.Got? && Width(n) ==> r.size == n
    ensures r.Got? && !Width(n) ==> r.size == 0
    ensures r.Got? && n == 4 ==> r.value < TWO_32
  {
    if !Width(n) then Got(0, 0)
    else if |s| < n then Fault
    else
      ValueBound(order, s[..n]);
      Pow2Values();
      Got(Value(order, s[..n]), n)
  }

  // ----- the routines, with their shifts and ors -----

  lemma OrAt(a: nat, b: nat, k: nat, w: nat)
    requires a < w == Pow2(k)
    ensures BitOr(a, b * w) == a + b * w
    ensures BitOr(b * w, a) == a + b * w
  {
    OrDisjoint(a, b, k);
  }

  function Quad(a: nat, b: nat, c: nat, d: nat): nat {
    a + 0x100 * b + 0x1_0000 * c + 0x100_0000 * d
  }

  /** Bytes 4 to 7: the two statements of `case 8`. */
  function LsbHigh(e: nat, f: nat, g: nat, h: nat): nat {
    BitOr(BitOr(e * 0x1_0000_0000, f * 0x100_0000_0000),
          BitOr(g * 0x1_0000_0000_0000, h * 0x100_0000_0000_0000))
  }

  lemma LsbHighValue(e: nat, f: nat, g: nat, h: nat)
    requires e < 256 && f < 256 && g < 256
    ensures LsbHigh(e, f, g, h) == Quad(e, f, g, h) * 0x1_0000_0000
  {
    Pow2Values();
    OrAt(e * 0x1_0000_0000, f, 40, 0x100_0000_0000);
    OrAt(g * 0x1_0000_0000_0000, h, 56, 0x100_0000_0000_0000);
    OrAt(e * 0x1_0000_0000 + f * 0x100_0000_0000, g + 0x100 * h, 48, 0x1_0000_0000_0000);
  }

  /** The fall-through from `case 2` to `case 1`, on top of the bits ored before. */
  function LsbFrom2(ret: nat, a: nat, b: nat): nat {
    BitOr(BitOr(ret, b * 0x100), a)
  }

  lemma LsbFrom2Value(high: nat, a: nat, b: nat)
    requires a < 256 && b < 256
    ensures LsbFrom2(high * 0x1_0000, a, b) == high * 0x1_0000 + b * 0x100 + a
  {
    Pow2Values();
    OrAt(b * 0x100, high, 16, 0x1_0000);
    OrAt(a, high * 0x100 + b, 8, 0x100);
  }

  /** The fall-through from `case 4`. */
  function LsbFrom4(ret: nat, a: nat, b: nat, c: nat, d: nat): nat {
    LsbFrom2(BitOr(ret, BitOr(c * 0x1_0000, d * 0x100_0000)), a, b)
  }

  lemma LsbFrom4Value(high: nat, a: nat, b: nat, c: nat, d: nat)
    requires a < 256 && b < 256 && c < 256 && d < 256
    ensures LsbFrom4(high * 0x1_0000_0000, a, b, c, d) == high * 0x1_0000_0000 + Quad(a, b, c, d)
  {
    Pow2Values();
    OrAt(c * 0x1_0000, d, 24, 0x100_0000);
    OrAt(c * 0x1_0000 + d * 0x100_0000, high, 32, 0x1_0000_0000);
    LsbFrom2Value(high * 0x1_0000 + c + d * 0x100, a, b);
  }

  /** The switch of the little-endian routines. */
  function LsbSwitch(src: seq<byte>, n: int): nat
    requires Width(n) ==> |src| >= n
  {
    match n
    case 8 => LsbFrom4(LsbHigh(src[4], src[5], src[6], src[7]), src[0], src[1], src[2], src[3])
    case 4 => LsbFrom4(0, src[0], src[1], src[2], src[3])
    case 2 => LsbFrom2(0, src[0], src[1])
    case 1 => BitOr(0, src[0])
    case _ => 0
  }

  lemma LsbSwitchValue(src: seq<byte>, n: int)
    requires Width(n) && |src| >= n
    ensures LsbSwitch(src, n) == LsbValue(src[..n])
  {
    UnfoldShort(src[..n]);
    if n == 8 {
      UnfoldEight(src[..n]);
      LsbHighValue(src[4], src[5], src[6], src[7]);
      LsbFrom4Value(Quad(src[4], src[5], src[6], src[7]), src[0], src[1], src[2], src[3]);
    } else if n == 4 {
      UnfoldFour(src[..n]);
      LsbFrom4Value(0, src[0], src[1], src[2], src[3]);
    } else if n == 2 {
      LsbFrom2Value(0, src[0], src[1]);
    }
  }

  /** LsbValue and MsbValue written out. */
  lemma UnfoldShort(s: seq<byte>)
    ensures |s| == 1 ==> LsbValue(s) == MsbValue(s) == s[0]
    ensures |s| == 2 ==> LsbValue(s) == Quad(s[0], s[1], 0, 0) && MsbValue(s) == Quad(s[1], s[0], 0, 0)
  {
    if |s| == 2 {
      assert s[..1] == [s[0]] && s[1..] == [s[1]];
    } else if |s| == 1 {
      assert s[..0] == [] && s[1..] == [];
    }
  }

  lemma UnfoldFour(s: seq<byte>)
    requires |s| == 4
    ensures LsbValue(s) == Quad(s[0], s[1], s[2], s[3]) && MsbValue(s) == Quad(s[3], s[2], s[1], s[0])
  {
    UnfoldLow(s);
    UnfoldHigh(s);
  }

  lemma UnfoldEight(s: seq<byte>)
    requires |s| == 8
    ensures LsbValue(s) == Quad(s[0], s[1], s[2], s[3]) + 0x1_0000_0000 * Quad(s[4], s[5], s[6], s[7])
    ensures MsbValue(s) == Quad(s[7], s[6], s[5], s[4]) + 0x1_0000_0000 * Quad(s[3], s[2], s[1], s[0])
  {
    UnfoldLow(s);
    UnfoldFour(s[4..]);
    UnfoldHigh(s);
    UnfoldFour(s[..4]);
  }

  lemma UnfoldLow(s: seq<byte>)
    requires |s| >= 4
    ensures LsbValue(s) == Quad(s[0], s[1], s[2], s[3]) + 0x1_0000_0000 * LsbValue(s[4..])
  {
    assert LsbValue(s[3..]) == s[3] + 256 * LsbValue(s[4..]);
    assert LsbValue(s[2..]) == s[2] + 256 * LsbValue(s[3..]);
    assert LsbValue(s[1..]) == s[1] + 256 * LsbValue(s[2..]);
  }

  lemma UnfoldHigh(s: seq<byte>)
    requires |s| >= 4
    ensures var k := |s| - 4;
      MsbValue(s) == Quad(s[k + 3], s[k + 2], s[k + 1], s[k]) + 0x1_0000_0000 * MsbValue(s[..k])
  {
    var k := |s| - 4;
    var t := s[..k + 3];
    assert t[..k + 2] == s[..k + 2];
    var u := s[..k + 2];
    assert u[..k + 1] == s[..k + 1];
    var w := s[..k + 1];
    assert w[..k] == s[..k];
    assert MsbValue(w) == MsbValue(s[..k]) * 256 + s[k];
    assert MsbValue(u) == MsbValue(w) * 256 + s[k + 1];
    assert MsbValue(t) == MsbValue(u) * 256 + s[k + 2];
  }

  /** The switch of the big-endian routines. */
  function MsbSwitch(src: seq<byte>, n: int): nat
    requires Width(n) ==> |src| >= n
  {
    match n
    case 1 => src[0]
    case 2 => MsbPair(src[1], src[0])
    case 4 => MsbQuad(src[3], src[2], src[1], src[0])
    case 8 => MsbOct(MsbQuad(src[7], src[6], src[5], src[4]), src[3], src[2], src[1], src[0])
    case _ => 0
  }

  function MsbPair(a: nat, b: nat): nat {
    BitOr(a, b * 0x100)
  }

  function MsbQuad(a: nat, b: nat, c: nat, d: nat): nat {
    BitOr(MsbPair(a, b), BitOr(c * 0x1_0000, d * 0x100_0000))
  }

  function MsbOct(low: nat, e: nat, f: nat, g: nat, h: nat): nat {
    BitOr(BitOr(low, BitOr(e * 0x1_0000_0000, f * 0x100_0000_0000)),
          BitOr(g * 0x1_0000_0000_0000, h * 0x100_0000_0000_0000))
  }

  lemma MsbQuadValue(a: nat, b: nat, c: nat, d: nat)
    requires a < 256 && b < 256 && c < 256 && d < 256
    ensures MsbPair(a, b) == a + 0x100 * b
    ensures MsbQuad(a, b, c, d) == Quad(a, b, c, d) < 0x1_0000_0000
  {
    Pow2Values();
    hide BitOr, Pow2;
    OrAt(a, b, 8, 0x100);
    OrAt(c * 0x1_0000, d, 24, 0x100_0000);
    OrAt(a + b * 0x100, c + d * 0x100, 16, 0x1_0000);
  }

  lemma MsbOctValue(low: nat, e: nat, f: nat, g: nat, h: nat)
    requires low < 0x1_0000_0000 && e < 256 && f < 256 && g < 256
    ensures MsbOct(low, e, f, g, h) == low + 0x1_0000_0000 * Quad(e, f, g, h)
  {
    Pow2Values();
    hide BitOr, Pow2;
    OrAt(e * 0x1_0000_0000, f, 40, 0x100_0000_0000);
    OrAt(low, e + 0x100 * f, 32, 0x1_0000_0000);
    OrAt(g * 0x1_0000_0000_0000, h, 56, 0x100_0000_0000_0000);
    OrAt(low + (e + 0x100 * f) * 0x1_0000_0000, g + 0x100 * h, 48, 0x1_0000_0000_0000);
  }

  lemma MsbSwitchValue(src: seq<byte>, n: int)
    requires Width(n) && |src| >= n
    ensures MsbSwitch(src, n) == MsbValue(src[..n])
  {
    UnfoldShort(src[..n]);
    if n == 8 {
      UnfoldEight(src[..n]);
      MsbQuadValue(src[7], src[6], src[5], src[4]);
      MsbOctValue(Quad(src[7], src[6], src[5], src[4]), src[3], src[2], src[1], src[0]);
    } else if n == 4 {
      UnfoldFour(src[..n]);
      MsbQuadValue(src[3], src[2], src[1], src[0]);
    } else if n == 2 {
      MsbQuadValue(src[1], src[0], 0, 0);
    }
  }

  /** `dbg->read`: advances the offset by the width, or not at all for a width it does not know. */
  method ReadAt(order: Endian, data: seq<byte>, offset: nat, n: int) returns (ret: uint64, next: nat)
    requires offset <= |data| && ReadFixed(order, data[offset..], n).Got?
    ensures offset <= next && ReadFixed(order, data[offset..], n) == Got(ret, next - offset)
  {
    var src := data[offset..];
    if Width(n) {
      LsbSwitchValue(src, n);
      MsbSwitchValue(src, n);
      ValueBound(order, src[..n]);
      Pow2Values();
    }
    match order {
      case Lsb => ret := LsbSwitch(src, n);
      case Msb => ret := MsbSwitch(src, n);
    }
    if !Width(n) {
      return 0, offset;
    }
    next := offset + n;
  }

  /** `_dwarf_decode_lsb`: the cases fall through to the shorter ones, and the pointer moves. */
  method DecodeLsb(data: seq<byte>, p: nat, n: int) returns (ret: uint64, p': nat)
    requires p <= |data| && ReadFixed(Lsb, data[p..], n).Got?
    ensures p <= p' && ReadFixed(Lsb, data[p..], n) == Got(ret, p' - p)
  {
    hide BitOr, LsbValue;
    var src: seq<nat>, r: nat := data[p..], 0;
    if !Width(n) {
      return 0, p;
    }
    if n == 8 {
      r := BitOr(src[4] * 0x1_0000_0000, src[5] * 0x100_0000_0000);
      r := BitOr(r, BitOr(src[6] * 0x1_0000_0000_0000, src[7] * 0x100_0000_0000_0000));
    }
    if n >= 4 {
      r := BitOr(r, BitOr(src[2] * 0x1_0000, src[3] * 0x100_0000));
    }
    if n >= 2 {
      r := BitOr(r, src[1] * 0x100);
    }
    r := BitOr(r, src[0]);
    LsbSwitchValue(data[p..], n);
    SwitchFits(Lsb, data[p..], n, r);
    ret, p' := r, p + n;
  }

  /** `_dwarf_decode_msb`: every case by itself. */
  method DecodeMsb(data: seq<byte>, p: nat, n: int) returns (ret: uint64, p': nat)
    requires p <= |data| && ReadFixed(Msb, data[p..], n).Got?
    ensures p <= p' && ReadFixed(Msb, data[p..], n) == Got(ret, p' - p)
  {
    hide BitOr, MsbValue;
    var src: seq<nat>, r: nat := data[p..], 0;
    if n == 1 {
      r := src[0];
    } else if n == 2 {
      r := BitOr(src[1], src[0] * 0x100);
    } else if n == 4 {
      r := BitOr(src[3], src[2] * 0x100);
      r := BitOr(r, BitOr(src[1] * 0x1_0000, src[0] * 0x100_0000));
    } else if n == 8 {
      r := BitOr(src[7], src[6] * 0x100);
      r := BitOr(r, BitOr(src[5] * 0x1_0000, src[4] * 0x100_0000));
      r := BitOr(r, BitOr(src[3] * 0x1_0000_0000, src[2] * 0x100_0000_0000));
      r := BitOr(r, BitOr(src[1] * 0x1_0000_0000_0000, src[0] * 0x100_0000_0000_0000));
    } else {
      return 0, p;
    }
    MsbSwitchValue(data[p..], n);
    SwitchFits(Msb, data[p..], n, r);
    ret, p' := r, p + n;
  }

  lemma SwitchFits(order: Endian, src: seq<byte>, n: int, r: nat)
    requires Width(n) && |src| >= n && r == Value(order, src[..n])
    ensures r < TWO_64 && ReadFixed(order, src, n) == Got(r, n)
  {
    ValueBound(order, src[..n]);
    Pow2Values();
  }

  /** `dbg->decode`: the same value as `dbg->read` finds, on a moving pointer. */
  method DecodeAt(order: Endian, data: seq<byte>, p: nat, n: int) returns (ret: uint64, p': nat)
    requires p <= |data| && ReadFixed(order, data[p..], n).Got?
    ensures p <= p' && ReadFixed(order, data[p..], n) == Got(ret, p' - p)
  {
    match order {
      case Lsb => ret, p' := DecodeLsb(data, p, n);
      case Msb => ret, p' := DecodeMsb(data, p, n);
    }
  }

  // ----- encoders and round trip -----

  function EncodeLsb(v: nat, n: nat): (e: seq<byte>)
    ensures |e| == n
  {
    if n == 0 then [] else [v % 256] + EncodeLsb(v / 256, n - 1)
  }

  function EncodeMsb(v: nat, n: nat): (e: seq<byte>)
    ensures |e| == n
  {
    if n == 0 then [] else EncodeMsb(v / 256, n - 1) + [v % 256]
  }

  function EncodeFixed(order: Endian, v: nat, n: nat): (e: seq<byte>)
    ensures |e| == n
  {
    if order.Lsb? then EncodeLsb(v, n) else EncodeMsb(v, n)
  }

  lemma {:induction false} EncodedValue(order: Endian, v: nat, n: nat)
    requires v < Pow2(8 * n)
    ensures Value(order, EncodeFixed(order, v, n)) == v
  {
    if n > 0 {
      ByteShift(n - 1);
      EncodedValue(order, v / 256, n - 1);
      var e := EncodeFixed(order, v, n);
      if order.Lsb? {
        assert e[1..] == EncodeLsb(v / 256, n - 1);
      } else {
        assert e[..n - 1] == EncodeMsb(v / 256, n - 1);
      }
    }
  }

  /** Reading undoes encoding exactly when the value fits the width. */
  lemma FixedRoundTrip(order: Endian, v: nat, n: nat, s: seq<byte>)
    requires Width(n) && EncodeFixed(order, v, n) <= s
    ensures ReadFixed(order, s, n) == Got(v, n) <==> v < Pow2(8 * n)
  {
    assert s[..n] == EncodeFixed(order, v, n);
    if v < Pow2(8 * n) {
      EncodedValue(order, v, n);
    } else {
      ValueBound(order, s[..n]);
    }
  }

  lemma FixedExtend(order: Endian, s: seq<byte>, t: seq<byte>, n: int)
    ensures ReadFixed(order, s, n).Got? ==> ReadFixed(order, s + t, n) == ReadFixed(order, s, n)
    ensures ReadFixed(order, s, n).Got? ==> ReadFixed(order, s, n).size <= |s|
  {
    if Width(n) && n <= |s| {
      assert (s + t)[..n] == s[..n];
    }
  }

  lemma FixedReadable(order: Endian, s: seq<byte>, n: int)
    ensures Width(n) && n <= |s| ==> ReadFixed(order, s, n).Got?
  {
  }
}
