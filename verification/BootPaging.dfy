/** The boot page tables of bootstrap.S: five pages of 32-bit words, built by a counted loop, and what
    the processor's four-level walk makes of them. */
module BootPaging {
  import opened Machine

  const PAGE := 0x1000
  const PTE_P := 1
  const PTE_W := 2
  const PTE_PS := 0x80
  const KERNBASE := 0x80_0400_0000
  const MAPPED := 0x1000_0000

  const PML4_SPAN := 0x80_0000_0000
  const PDPE_SPAN := 0x4000_0000
  const PDE_SPAN := 0x20_0000

  const WORDS := 5 * 1024

  // ----- the walk of the processor -----

  /** Where an address goes, and whether every entry on the way allows writing, and user mode. */
  datatype Walk = Unmapped | Outside | Physical(addr: nat, writable: bool, user: bool)

  /** The 64-bit entry i of table t, from its two words. */
  function Entry(m: seq<uint32>, t: nat, i: nat): nat
    requires |m| == WORDS && t < 5 && i < 512
  {
    m[1024 * t + 2 * i] + m[1024 * t + 2 * i + 1] * TWO_32
  }

  predicate Present(e: nat) {
    e % 2 == 1
  }

  predicate Writable(e: nat) {
    e / 2 % 2 == 1
  }

  predicate User(e: nat) {
    e / 4 % 2 == 1
  }

  predicate Large(e: nat) {
    e / PTE_PS % 2 == 1
  }

  /** The address field, bits 12 to 51. */
  function AddressOf(e: nat): nat {
    e / PAGE % 0x100_0000_0000 * PAGE
  }

  /** Which of the five tables at base an address is. */
  function TableAt(base: nat, addr: nat): Read<nat> {
    if addr >= base && (addr - base) % PAGE == 0 && (addr - base) / PAGE < 5 then Got((addr - base) / PAGE, 0)
    else Fault
  }

  /** The page table and the page directory, behind the page-directory-pointer table. */
  function WalkLow(m: seq<uint32>, base: nat, pde: nat, la: nat, w: bool, u: bool): Walk
    requires |m| == WORDS
  {
    match TableAt(base, AddressOf(pde))
    case Fault => Outside
    case Got(t, _) =>
      var pte := Entry(m, t, la / PAGE % 512);
      if !Present(pte) then Unmapped
      else Physical(AddressOf(pte) + la % PAGE, w && Writable(pte), u && User(pte))
  }

  function WalkMiddle(m: seq<uint32>, base: nat, pdpe: nat, la: nat, w: bool, u: bool): Walk
    requires |m| == WORDS
  {
    match TableAt(base, AddressOf(pdpe))
    case Fault => Outside
    case Got(t, _) =>
      var pde := Entry(m, t, la / PDE_SPAN % 512);
      if !Present(pde) then Unmapped
      else if Large(pde) then
        Physical(AddressOf(pde) / PDE_SPAN * PDE_SPAN + la % PDE_SPAN, w && Writable(pde), u && User(pde))
      else WalkLow(m, base, pde, la, w && Writable(pde), u && User(pde))
  }

  function WalkHigh(m: seq<uint32>, base: nat, pml4e: nat, la: nat, w: bool, u: bool): Walk
    requires |m| == WORDS
  {
    match TableAt(base, AddressOf(pml4e))
    case Fault => Outside
    case Got(t, _) =>
      var pdpe := Entry(m, t, la / PDPE_SPAN % 512);
      if !Present(pdpe) then Unmapped
      else if Large(pdpe) then
        Physical(AddressOf(pdpe) / PDPE_SPAN * PDPE_SPAN + la % PDPE_SPAN, w && Writable(pdpe), u && User(pdpe))
      else WalkMiddle(m, base, pdpe, la, w && Writable(pdpe), u && User(pdpe))
  }

  /** Translation of a linear address with cr3 at base, which is table 0. */
  function Translate(m: seq<uint32>, base: nat, la: uint64): Walk
    requires |m| == WORDS
  {
    var pml4e := Entry(m, 0, la / PML4_SPAN % 512);
    if !Present(pml4e) then Unmapped else WalkHigh(m, base, pml4e, la, Writable(pml4e), User(pml4e))
  }

  predicate Canonical(la: uint64) {
    la < 0x8000_0000_0000 || la >= TWO_64 - 0x8000_0000_0000
  }

  // ----- the tables -----

  /** The word the boot code leaves at w. */
  function WordAt(base: nat, w: nat): nat {
    if w == 0 then base + 0x1003
    else if w == 2 then base + 0x2003
    else if w == 1024 then base + 0x3003
    else if w == 2048 then base + 0x4003
    else if 3072 <= w < 3072 + 256 && w % 2 == 0 then 0x183 + (w - 3072) / 2 * PDE_SPAN
    else if 4096 + 64 <= w < 4096 + 64 + 256 && w % 2 == 0 then 0x183 + (w - (4096 + 64)) / 2 * PDE_SPAN
    else 0
  }

  predicate Built(m: seq<uint32>, base: nat) {
    |m| == WORDS && forall w :: 0 <= w < WORDS ==> m[w] == WordAt(base, w)
  }

  lemma OrOne(q: nat)
    ensures BitOr(2 * q, 1) == 2 * q + 1
  {
    if q > 0 {
      assert BitOr(q, 0) == q;
    }
  }

  lemma TwoFlags(x: nat)
    requires x % PAGE == 0
    ensures BitOr(BitOr(x, PTE_P), PTE_W) == x + 3
  {
    var k := x / PAGE * 1024;
    assert x == 2 * (2 * k);
    OrOne(2 * k);
    OrOne(k);
    assert (x + 1) / 2 == 2 * k;
  }

  /** The table-building part of `_head64`; m is the memory from pml4 on. */
  method BuildTables(m: array<uint32>, pml4: uint32)
    requires m.Length == WORDS && pml4 % PAGE == 0 && pml4 + 4 * WORDS <= TWO_32
    modifies m
    ensures Built(m[..], pml4)
  {
    hide BitOr;
    var pdpt1, pdpt2, pde1, pde2 := pml4 + 0x1000, pml4 + 2 * 0x1000, pml4 + 3 * 0x1000, pml4 + 4 * 0x1000;
    TwoFlags(pdpt1);
    TwoFlags(pdpt2);
    TwoFlags(pde1);
    TwoFlags(pde2);
    var ecx := WORDS;
    while ecx > 0
      invariant 0 <= ecx <= WORDS
      invariant forall w :: 0 <= w < WORDS - ecx ==> m[w] == 0
    {
      m[WORDS - ecx] := 0;
      ecx := ecx - 1;
    }
    m[0] := BitOr(BitOr(pdpt1, PTE_P), PTE_W);
    m[2] := BitOr(BitOr(pdpt2, PTE_P), PTE_W);
    m[(pdpt1 - pml4) / 4] := BitOr(BitOr(pde1, PTE_P), PTE_W);
    m[(pdpt2 - pml4) / 4] := BitOr(BitOr(pde2, PTE_P), PTE_W);
    FillDirectories(m, pml4, pde1, pde2);
  }

  /** The words of the n-th entries of the directories. */
  lemma DirectoryWords(base: nat, n: nat)
    requires n < 128
    ensures WordAt(base, 3072 + 2 * n) == WordAt(base, 4096 + 64 + 2 * n) == 0x183 + n * PDE_SPAN
    ensures WordAt(base, 3072 + 2 * n + 1) == WordAt(base, 4096 + 64 + 2 * n + 1) == 0
  {
  }

  lemma ZeroWords(base: nat)
    ensures forall w :: 3072 + 256 <= w < 4096 + 64 ==> WordAt(base, w) == 0
    ensures forall w :: 4096 + 64 + 256 <= w < WORDS ==> WordAt(base, w) == 0
  {
  }

  /** The loop over the two page directories, which run side by side. */
  method FillDirectories(m: array<uint32>, pml4: nat, pde1: nat, pde2: nat)
    requires m.Length == WORDS && pde1 == pml4 + 3 * 0x1000 && pde2 == pml4 + 4 * 0x1000
    requires forall w :: 0 <= w < 3072 ==> m[w] == WordAt(pml4, w)
    requires forall w :: 3072 <= w < WORDS ==> m[w] == 0
    modifies m
    ensures Built(m[..], pml4)
  {
    var edi, ebx, eax, ecx := pde1, pde2 + 256, 0x183, 128;
    ghost var n := 0;
    while ecx != 0
      invariant 0 <= ecx <= 128 && n == 128 - ecx && eax == 0x183 + n * PDE_SPAN
      invariant edi == pde1 + 8 * n && ebx == pde2 + 256 + 8 * n
      invariant forall w :: 0 <= w < 3072 + 2 * n ==> m[w] == WordAt(pml4, w)
      invariant forall w :: 3072 + 2 * n <= w < 4096 + 64 ==> m[w] == 0
      invariant forall w :: 4096 + 64 <= w < 4096 + 64 + 2 * n ==> m[w] == WordAt(pml4, w)
      invariant forall w :: 4096 + 64 + 2 * n <= w < WORDS ==> m[w] == 0
      decreases ecx
    {
      hide WordAt;
      DirectoryWords(pml4, n);
      assert (edi - pml4) / 4 == 3072 + 2 * n && (ebx - pml4) / 4 == 4096 + 64 + 2 * n;
      m[(edi - pml4) / 4] := eax;
      m[(ebx - pml4) / 4] := eax;
      n := n + 1;
      edi := edi + 8;
      ebx := ebx + 8;
      eax := eax + PDE_SPAN;
      ecx := ecx - 1;
    }
    ZeroWords(pml4);
  }

  // ----- what is mapped -----

  lemma HighEntry(m: seq<uint32>, base: nat, i: nat)
    requires Built(m, base) && i < 512
    ensures Entry(m, 0, i) == if i == 0 then base + 0x1003 else if i == 1 then base + 0x2003 else 0
  {
  }

  lemma MiddleEntry(m: seq<uint32>, base: nat, t: nat, i: nat)
    requires Built(m, base) && (t == 1 || t == 2) && i < 512
    ensures Entry(m, t, i) == if i == 0 then base + (t + 2) * PAGE + 3 else 0
  {
  }

  /** A page directory: 128 pages of 2 MB, from entry 0 of the first and entry 32 of the second. */
  lemma DirectoryEntry(m: seq<uint32>, base: nat, t: nat, i: nat)
    requires Built(m, base) && (t == 3 || t == 4) && i < 512
    ensures var first := if t == 3 then 0 else 32;
      Entry(m, t, i) == if first <= i < first + 128 then 0x183 + (i - first) * PDE_SPAN else 0
  {
  }

  /** An entry that points at table t. */
  lemma Pointer(base: nat, t: nat)
    requires base % PAGE == 0 && base + 4 * WORDS <= TWO_32 && t < 5
    ensures var e := base + t * PAGE + 3;
      Present(e) && !Large(e) && TableAt(base, AddressOf(e)) == Got(t, 0) && Writable(e) && !User(e)
  {
    var q: nat := base / PAGE + t;
    assert base == base / PAGE * PAGE;
    PointerBits(q);
    assert base + t * PAGE + 3 == q * PAGE + 3;
  }

  lemma PointerBits(q: nat)
    requires q < 0x10_0000
    ensures Present(q * PAGE + 3) && !Large(q * PAGE + 3) && AddressOf(q * PAGE + 3) == q * PAGE
    ensures Writable(q * PAGE + 3) && !User(q * PAGE + 3)
  {
    hide Present, Writable, User, Large, AddressOf;
    PointerAddress(q);
    NotLarge(q);
    Rights(q);
  }

  lemma PointerAddress(q: nat)
    requires q < 0x10_0000
    ensures Present(q * PAGE + 3) && AddressOf(q * PAGE + 3) == q * PAGE
  {
    assert Present(q * PAGE + 3) by { assert q * PAGE + 3 == 2 * (q * 2048 + 1) + 1; }
    assert AddressOf(q * PAGE + 3) == q * PAGE by { assert (q * PAGE + 3) / PAGE == q; }
  }

  lemma BitsOf(e: nat, half: nat, quarter: nat)
    requires e / 2 == half && half % 2 == 1 && e / 4 == quarter && quarter % 2 == 0
    ensures Writable(e) && !User(e)
  {
  }

  lemma Halves(y: nat)
    ensures (8 * y + 3) / 2 == 4 * y + 1 && (8 * y + 3) / 4 == 2 * y
  {
  }

  lemma Parities(y: nat)
    ensures (4 * y + 1) % 2 == 1 && (2 * y) % 2 == 0
  {
  }

  lemma LowBits(y: nat)
    ensures Writable(8 * y + 3) && !User(8 * y + 3)
  {
    hide Writable, User;
    Halves(y);
    Parities(y);
    BitsOf(8 * y + 3, 4 * y + 1, 2 * y);
  }

  lemma Rights(q: nat)
    ensures Writable(q * PAGE + 3) && !User(q * PAGE + 3)
  {
    hide Writable, User;
    LowBits(q * 512);
    assert q * PAGE + 3 == 8 * (q * 512) + 3;
  }

  lemma NotLarge(q: nat)
    ensures !Large(q * PAGE + 3)
  {
    var e, half := q * PAGE + 3, q * 16;
    assert e == (2 * half) * PTE_PS + 3;
    assert e / PTE_PS == 2 * half;
  }

  lemma NoEntry()
    ensures !Present(0)
  {
  }

  /** An entry that maps page i of 2 MB. */
  lemma Leaf(i: nat)
    requires i < 128
    ensures var e := 0x183 + i * PDE_SPAN;
      && Present(e) && Large(e) && Writable(e) && !User(e)
      && AddressOf(e) / PDE_SPAN * PDE_SPAN == i * PDE_SPAN
  {
    var e := 0x183 + i * PDE_SPAN;
    assert e / 2 == 2 * (i * 0x8_0000 + 0x60) + 1 && e / 4 == 2 * (i * 0x4_0000 + 0x30);
    assert e / PAGE == i * 512;
    assert e / PTE_PS == i * 0x4000 + 3;
    assert AddressOf(e) == i * PDE_SPAN;
  }

  /** A linear address from its indices. */
  lemma Indices(la: uint64) returns (a: nat, b: nat, c: nat, d: nat)
    ensures la == a * PML4_SPAN + b * PDPE_SPAN + c * PDE_SPAN + d && b < 512 && c < 512 && d < PDE_SPAN
    ensures la / PML4_SPAN == a && la / PDPE_SPAN % 512 == b && la / PDE_SPAN % 512 == c && la % PDE_SPAN == d
  {
    a, b, c, d := la / PML4_SPAN, la % PML4_SPAN / PDPE_SPAN, la % PDPE_SPAN / PDE_SPAN, la % PDE_SPAN;
    assert la / PDPE_SPAN == a * 512 + b;
    assert la / PDE_SPAN == (a * 512 + b) * 512 + c;
  }

  lemma CanonicalIndex(la: uint64, a: nat)
    requires Canonical(la) && a == la / PML4_SPAN
    ensures a % 512 == 0 <==> a == 0
    ensures a % 512 == 1 <==> a == 1
  {
  }

  /** The first 256 MB are mapped at 0 and at KERNBASE, for writing and for the kernel alone, and no other
      canonical address is mapped. */
  lemma BootMapping(m: seq<uint32>, base: nat, la: uint64)
    requires Built(m, base) && base % PAGE == 0 && base + 4 * WORDS <= TWO_32 && Canonical(la)
    ensures Translate(m, base, la) ==
      if la < MAPPED then Physical(la, true, false)
      else if KERNBASE <= la < KERNBASE + MAPPED then Physical(la - KERNBASE, true, false)
      else Unmapped
  {
    hide Built, Entry, Present, Writable, User, Large, TableAt, AddressOf, WalkLow, Canonical;
    var a, b, c, d := Indices(la);
    CanonicalIndex(la, a);
    HighEntry(m, base, a % 512);
    NoEntry();
    if a <= 1 {
      Pointer(base, a + 1);
      MiddleEntry(m, base, a + 1, b);
      if b == 0 {
        Pointer(base, a + 3);
        DirectoryEntry(m, base, a + 3, c);
        var first := if a == 0 then 0 else 32;
        if first <= c < first + 128 {
          Leaf(c - first);
        }
      }
    }
  }
}
