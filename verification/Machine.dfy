/** Bytes, fixed-width integers and the outcome of reading memory, shared by every reader. */
module Machine {
  type byte = x: int | 0 <= x < 256

  const TWO_7 := 0x80
  const TWO_28 := 0x1000_0000
  const TWO_31 := 0x8000_0000
  const TWO_32 := 0x1_0000_0000
  const TWO_63 := 0x8000_0000_0000_0000
  const TWO_64 := 0x1_0000_0000_0000_0000

  type uint16 = x: int | 0 <= x < 0x1_0000
  type uint32 = x: int | 0 <= x < TWO_32
  type uint64 = x: int | 0 <= x < TWO_64
  type int64 = x: int | -TWO_63 <= x < TWO_63

  /** What a read at a position of memory yields: the value and the number of bytes consumed.
      `Fault` stands for a read that leaves the memory or shifts by the width of an int or more,
      for which C gives no meaning. */
  datatype Read<+T> = Fault | Got(value: T, size: nat)

  /** Two's-complement reading of a 32-bit pattern. */
  function Signed32(x: uint32): int {
    if x < TWO_31 then x else x - TWO_32
  }

  /** Two's-complement reading of a 64-bit pattern. */
  function Signed64(x: uint64): int64 {
    if x < TWO_63 then x else x - TWO_64
  }

  /** Conversion of an integer of any sign to uint64_t. */
  function ToU64(x: int): uint64 {
    x % TWO_64
  }

  /** Conversion of a 32-bit int pattern to 64 bits, with sign extension. */
  function SignExtend(x: uint32): uint64 {
    if x < TWO_31 then x else x + (TWO_64 - TWO_32)
  }

  function Pow2(n: nat): nat
    ensures Pow2(n) > 0
  {
    if n == 0 then 1 else 2 * Pow2(n - 1)
  }

  /** The C operator `|` on non-negative patterns, bit by bit. */
  function BitOr(a: nat, b: nat): nat
    decreases a + b
  {
    if a == 0 then b
    else if b == 0 then a
    else (if a % 2 == 1 || b % 2 == 1 then 1 else 0) + 2 * BitOr(a / 2, b / 2)
  }

  /** Patterns without a common bit: `|` adds. */
  lemma {:induction false} OrDisjoint(a: nat, b: nat, k: nat)
    requires a < Pow2(k)
    ensures BitOr(a, b * Pow2(k)) == a + b * Pow2(k)
    ensures BitOr(b * Pow2(k), a) == a + b * Pow2(k)
  {
    if k > 0 && a > 0 && b > 0 {
      var c := b * Pow2(k - 1);
      assert b * Pow2(k) == 2 * c;
      OrDisjoint(a / 2, b, k - 1);
    }
  }

  lemma {:induction false} OrBound(a: nat, b: nat, k: nat)
    requires a < Pow2(k) && b < Pow2(k)
    ensures BitOr(a, b) < Pow2(k)
  {
    if k > 0 && a > 0 && b > 0 {
      OrBound(a / 2, b / 2, k - 1);
    }
  }

  /** `|` on uint64_t. */
  function Or64(a: uint64, b: uint64): uint64 {
    Pow2Values();
    OrBound(a, b, 64);
    BitOr(a, b)
  }

  /** Pow2 at the shift counts the readers use. */
  lemma Pow2Values()
    ensures Pow2(0) == 1 && Pow2(7) == 0x80 && Pow2(8) == 0x100 && Pow2(14) == 0x4000
    ensures Pow2(16) == 0x1_0000 && Pow2(21) == 0x20_0000 && Pow2(24) == 0x100_0000
    ensures Pow2(28) == TWO_28 && Pow2(32) == TWO_32
    ensures Pow2(40) == 0x100_0000_0000 && Pow2(48) == 0x1_0000_0000_0000
    ensures Pow2(56) == 0x100_0000_0000_0000 && Pow2(64) == TWO_64
  {
    assert Pow2(7) == 0x80;
    assert Pow2(14) == 0x4000;
    assert Pow2(21) == 0x20_0000;
    assert Pow2(28) == TWO_28;
    assert Pow2(35) == 0x8_0000_0000;
    assert Pow2(42) == 0x400_0000_0000;
    assert Pow2(49) == 0x2_0000_0000_0000;
    assert Pow2(56) == 0x100_0000_0000_0000;
    assert Pow2(63) == TWO_63;
  }

  /** A concatenation at the front of memory: both halves are where they should be. */
  lemma PrefixSplit(a: seq<byte>, b: seq<byte>, s: seq<byte>)
    requires a + b <= s
    ensures a <= s && b <= s[|a|..]
  {
    assert s[..|a| + |b|] == a + b;
    assert s[..|a|] == a;
    assert s[|a|..][..|b|] == b;
  }
}
