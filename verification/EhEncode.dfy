/** Encoded pointers and CIEs in the layout of section 10.6 of LSB Core 5.0, and the proof that the
    reader gets them back. */
module EhEncode {
  import opened Machine
  import opened Leb128
  import opened FixedWidth
  import opened EhFrame

  /** The bytes b lie at off. */
  ghost predicate Lies(e: Section, off: nat, b: seq<byte>) {
    off + |b| <= |e.data| && e.data[off..off + |b|] == b
  }

  lemma LiesSplit(e: Section, off: nat, a: seq<byte>, b: seq<byte>)
    requires Lies(e, off, a + b)
    ensures Lies(e, off, a) && Lies(e, off + |a|, b)
  {
    var m := e.data[off..off + |a + b|];
    assert m[..|a|] == a;
    assert m[|a|..] == b;
  }

  lemma LiesPrefix(e: Section, off: nat, b: seq<byte>)
    requires Lies(e, off, b)
    ensures off <= |e.data| && b <= e.data[off..]
  {
    assert e.data[off..][..|b|] == b;
  }

  lemma FirstByte(e: Section, off: nat, b: seq<byte>)
    requires Lies(e, off, b) && b != []
    ensures off < |e.data| && e.data[off] == b[0]
  {
    assert e.data[off..off + |b|][0] == b[0];
  }

  lemma UnsignedLies(e: Section, off: nat, v: nat)
    requires v < TWO_31 && Lies(e, off, EncodeUleb(v))
    ensures Unsigned(e, off) == Got(v, |EncodeUleb(v)|)
  {
    hide Uleb, EncodeUleb;
    LiesPrefix(e, off, EncodeUleb(v));
    UlebRoundTrip(v, e.data[off..]);
  }

  lemma SignedLies(e: Section, off: nat, v: int)
    requires -TWO_31 <= v < TWO_31 && Lies(e, off, EncodeSleb(v))
    ensures EhFrame.Signed(e, off) == Got(v, |EncodeSleb(v)|)
  {
    hide Sleb, EncodeSleb;
    LiesPrefix(e, off, EncodeSleb(v));
    SlebRoundTrip(v, e.data[off..]);
  }

  lemma FixedLies(e: Section, off: nat, v: nat, n: nat)
    requires Width(n) && v < Pow2(8 * n) && Lies(e, off, EncodeFixed(e.order, v, n))
    ensures Fixed(e, off, n) == Got(v, n)
  {
    hide ReadFixed, EncodeFixed;
    LiesPrefix(e, off, EncodeFixed(e.order, v, n));
    FixedRoundTrip(e.order, v, n, e.data[off..]);
  }

  // ----- encoded pointers -----

  /** The number stored for x: relative to the place of the pointer under pcrel, unless absolute. */
  function Stored(encode: byte, pc: nat, x: uint64): int {
    if encode / 16 == 1 && encode % 16 != 0 then x - pc else x
  }

  /** The bytes that a format takes (section 10.5.1 of the Linux Standard Base core specification): absptr
      the pointer size, udata2 and sdata2, udata4 and sdata4, udata8 and sdata8; 0 for the LEB128 formats. */
  function FormatWidth(pointerSize: int, low: byte): int {
    match low
    case 0x00 => pointerSize
    case 0x02 => 2
    case 0x03 => 4
    case 0x04 => 8
    case 0x0a => 2
    case 0x0b => 4
    case 0x0c => 8
    case _ => 0
  }

  /** The reader takes as many. */
  lemma WidthsExact(e: Section, low: byte)
    requires low in {0x00, 0x02, 0x03, 0x04, 0x0a, 0x0b, 0x0c}
    ensures EncodedWidth(e, low) == FormatWidth(e.pointerSize, low)
  {
  }

  ghost predicate ValidPointer(e: Section, encode: byte, pc: nat, x: uint64) {
    var low, d := encode % 16, Stored(encode, pc, x);
    && encode != 0xff
    && (low == 0x01 ==> 0 <= d < TWO_31)
    && (low == 0x09 ==> -TWO_31 <= d < TWO_31)
    && (low in {0x00, 0x02, 0x03, 0x04} ==>
          Width(FormatWidth(e.pointerSize, low)) && 0 <= d < Pow2(8 * FormatWidth(e.pointerSize, low)))
    && (low == 0x0a ==> -0x8000 <= d < 0x8000)
    && (low == 0x0b ==> -TWO_31 <= d < TWO_31)
    && (low == 0x0c ==> -TWO_63 <= d < TWO_63)
    && low in {0x00, 0x01, 0x02, 0x03, 0x04, 0x09, 0x0a, 0x0b, 0x0c}
  }

  function EncodePointer(e: Section, encode: byte, pc: nat, x: uint64): seq<byte> {
    var low, d := encode % 16, Stored(encode, pc, x);
    if low == 0x01 then EncodeUleb(if d < 0 then 0 else d)
    else if low == 0x09 then EncodeSleb(d)
    else
      var w := FormatWidth(e.pointerSize, low);
      EncodeFixed(e.order, Truncated(d, w), if w < 0 then 0 else w)
  }

  lemma Wrapped(d: int)
    requires -TWO_63 <= d < TWO_63
    ensures d % TWO_64 == if d < 0 then d + TWO_64 else d
  {
  }

  lemma WidenBack(low: byte, d: int)
    ensures low == 0x0a && -0x8000 <= d < 0x8000 ==> WidenSigned(low, d % TWO_64 % 0x1_0000) == ToU64(d)
    ensures low == 0x0b && -TWO_31 <= d < TWO_31 ==> WidenSigned(low, d % TWO_64 % TWO_32) == ToU64(d)
  {
    if low == 0x0a && -0x8000 <= d < 0x8000 {
      Wrapped(d);
      assert d % TWO_64 % 0x1_0000 == if d < 0 then d + 0x1_0000 else d;
    } else if low == 0x0b && -TWO_31 <= d < TWO_31 {
      Wrapped(d);
      assert d % TWO_64 % TWO_32 == if d < 0 then d + TWO_32 else d;
    }
  }

  lemma Relative(pc: nat, x: uint64)
    ensures ToU64(pc + ToU64(x - pc)) == x
  {
  }

  /** A plain value read back, as a 64-bit pattern. */
  lemma PlainRoundTrip(e: Section, off: nat, encode: byte, pc: nat, x: uint64)
    requires ValidPointer(e, encode, pc, x) && Lies(e, off, EncodePointer(e, encode, pc, x))
    ensures PlainEncoded(e, off, encode % 16) == Ok((ToU64(Stored(encode, pc, x)), |EncodePointer(e, encode, pc, x)|))
  {
    hide EncodeUleb, EncodeSleb, EncodeFixed, Fixed, Unsigned, EhFrame.Signed, WidenSigned;
    var low, d := encode % 16, Stored(encode, pc, x);
    if low == 0x01 {
      UnsignedLies(e, off, d);
    } else if low == 0x09 {
      SignedLies(e, off, d);
    } else {
      FixedPointer(e, off, encode, pc, x);
    }
  }

  /** The number stored in w bytes. */
  function Truncated(d: int, w: int): nat {
    d % TWO_64 % (if w == 2 then 0x1_0000 else if w == 4 then TWO_32 else TWO_64)
  }

  lemma FixedPointer(e: Section, off: nat, encode: byte, pc: nat, x: uint64)
    requires ValidPointer(e, encode, pc, x) && Lies(e, off, EncodePointer(e, encode, pc, x))
    requires encode % 16 != 0x01 && encode % 16 != 0x09
    ensures PlainEncoded(e, off, encode % 16) == Ok((ToU64(Stored(encode, pc, x)), |EncodePointer(e, encode, pc, x)|))
  {
    hide EncodeFixed, Fixed, Unsigned, EhFrame.Signed, WidenSigned, Lies, Truncated, ToU64, Pow2, EncodedWidth, Stored;
    hide FormatWidth;
    var low, d := encode % 16, Stored(encode, pc, x);
    var w := FormatWidth(e.pointerSize, low);
    WidthsExact(e, low);
    if low == 0x0a || low == 0x0b || low == 0x0c {
      SignedWidth(e, low, d);
    } else {
      UnsignedWidth(e, low, d);
    }
    FixedLies(e, off, Truncated(d, w), w);
  }

  /** Signed formats: two's complement in their width, widened again. */
  lemma SignedWidth(e: Section, low: byte, d: int)
    requires low == 0x0a || low == 0x0b || low == 0x0c
    requires low == 0x0a ==> -0x8000 <= d < 0x8000
    requires low == 0x0b ==> -TWO_31 <= d < TWO_31
    requires low == 0x0c ==> -TWO_63 <= d < TWO_63
    ensures var w := FormatWidth(e.pointerSize, low);
      Width(w) && Truncated(d, w) < Pow2(8 * w) && WidenSigned(low, Truncated(d, w)) == ToU64(d)
  {
    hide WidenSigned;
    Pow2Values();
    hide Pow2;
    WidenBack(low, d);
    WidenOthers(low, Truncated(d, FormatWidth(e.pointerSize, low)));
  }

  /** Unsigned formats: the number fits its width. */
  lemma UnsignedWidth(e: Section, low: byte, d: int)
    requires low in {0x00, 0x02, 0x03, 0x04}
    requires Width(FormatWidth(e.pointerSize, low)) && 0 <= d < Pow2(8 * FormatWidth(e.pointerSize, low))
    ensures var w := FormatWidth(e.pointerSize, low);
      Truncated(d, w) == d && WidenSigned(low, d) == ToU64(d) == d
  {
    hide FormatWidth, WidenSigned;
    var w := FormatWidth(e.pointerSize, low);
    Pow2Values();
    hide Pow2;
    assert Pow2(8 * w) == (if w == 1 then 0x100 else if w == 2 then 0x1_0000 else if w == 4 then TWO_32 else TWO_64);
    WidenOthers(low, d);
  }

  lemma WidenOthers(low: byte, v: uint64)
    ensures low != 0x0a && low != 0x0b ==> WidenSigned(low, v) == v
  {
  }

  /** Reading an encoded pointer gives back the pointer, for every supported format, absolute or
      relative to its own place. */
  lemma PointerRoundTrip(e: Section, off: nat, encode: byte, pc: nat, x: uint64)
    requires ValidPointer(e, encode, pc, x) && Lies(e, off, EncodePointer(e, encode, pc, x))
    ensures Encoded(e, off, encode, pc) == Ok((x, |EncodePointer(e, encode, pc, x)|))
  {
    hide PlainEncoded, EncodePointer, ValidPointer;
    PlainRoundTrip(e, off, encode, pc, x);
    Relative(pc, x);
  }

  // ----- CIEs -----

  /** An augmentation letter with its data; a personality pointer may be omitted. */
  datatype Letter = L(encode: byte) | P(encode: byte, routine: uint64) | R(encode: byte)

  /** A CIE; the sizes of addresses and segment selectors are part of it from version 4 on. */
  datatype CieData = CieData(version: nat, augmented: bool, letters: seq<Letter>, addressSize: byte, segmentSize: byte,
                             caf: nat, daf: int, ra: nat, insts: seq<byte>)

  /** The characters L, P and R. */
  function LetterChar(l: Letter): byte {
    match l
    case L(_) => 0x4c
    case P(_, _) => 0x50
    case R(_) => 0x52
  }

  /** Its data; 0xff says that a pointer is omitted. */
  function LetterData(e: Section, l: Letter): seq<byte> {
    match l
    case L(encode) => [encode]
    case P(encode, routine) => [encode] + (if encode == 0xff then [] else EncodePointer(e, encode, 0, routine))
    case R(encode) => [encode]
  }

  ghost predicate ValidLetter(e: Section, l: Letter) {
    l.P? && l.encode != 0xff ==> ValidPointer(e, l.encode, 0, l.routine)
  }

  function LetterChars(ls: seq<Letter>): seq<byte> {
    if ls == [] then [0] else [LetterChar(ls[0])] + LetterChars(ls[1..])
  }

  function LettersData(e: Section, ls: seq<Letter>): seq<byte> {
    if ls == [] then [] else LetterData(e, ls[0]) + LettersData(e, ls[1..])
  }

  /** The encoding of FDE pointers: that of the last R, or absolute. */
  function LastR(ls: seq<Letter>, encode: byte): byte {
    if ls == [] then encode else LastR(ls[1..], if ls[0].R? then ls[0].encode else encode)
  }

  function FdeEncoding(c: CieData): byte {
    if c.augmented then LastR(c.letters, 0x00) else 0x00
  }

  lemma LetterRead(e: Section, augdata: nat, l: Letter)
    requires Lies(e, augdata, LetterData(e, l)) && ValidLetter(e, l)
    ensures augdata < |e.data| && e.data[augdata] == l.encode
    ensures l.P? && l.encode != DW_EH_PE_OMIT ==>
      Encoded(e, augdata + 1, l.encode, 0) == Ok((l.routine, |LetterData(e, l)| - 1))
    ensures !(l.P? && l.encode != DW_EH_PE_OMIT) ==> |LetterData(e, l)| == 1
  {
    hide EncodePointer, Encoded, ValidPointer;
    FirstByte(e, augdata, LetterData(e, l));
    if l.P? && l.encode != DW_EH_PE_OMIT {
      LiesSplit(e, augdata, [l.encode], EncodePointer(e, l.encode, 0, l.routine));
      PointerRoundTrip(e, augdata + 1, l.encode, 0, l.routine);
    }
  }

  /** One letter of the augmentation string. */
  lemma AugmentedStep(e: Section, letter: nat, augdata: nat, l: Letter, n: nat, encode: byte)
    requires letter < |e.data| && e.data[letter] == LetterChar(l)
    requires augdata < |e.data| && e.data[augdata] == l.encode
    requires l.P? && l.encode != DW_EH_PE_OMIT ==> Encoded(e, augdata + 1, l.encode, 0) == Ok((l.routine, n - 1))
    requires !(l.P? && l.encode != DW_EH_PE_OMIT) ==> n == 1
    ensures Augmented(e, letter, augdata, encode)
         == Augmented(e, letter + 1, augdata + n, if l.R? then l.encode else encode)
  {
    hide Encoded;
  }

  lemma AugmentedEnd(e: Section, letter: nat, augdata: nat, encode: byte)
    requires Lies(e, letter, [0])
    ensures Augmented(e, letter, augdata, encode) == Ok(encode)
  {
    FirstByte(e, letter, [0]);
  }

  /** The letters of an augmentation string and their data give the encoding of the last R. */
  lemma {:induction false} LettersRead(e: Section, letter: nat, augdata: nat, ls: seq<Letter>, encode: byte)
    requires Lies(e, letter, LetterChars(ls)) && Lies(e, augdata, LettersData(e, ls))
    requires forall i :: 0 <= i < |ls| ==> ValidLetter(e, ls[i])
    ensures Augmented(e, letter, augdata, encode) == Ok(LastR(ls, encode))
    decreases |ls|
  {
    hide Encoded, LetterData, ValidLetter, Augmented, Lies, LetterChar;
    if ls == [] {
      AugmentedEnd(e, letter, augdata, encode);
    } else {
      var l, rest := ls[0], ls[1..];
      var n, next := |LetterData(e, l)|, if l.R? then l.encode else encode;
      LiesSplit(e, letter, [LetterChar(l)], LetterChars(rest));
      FirstByte(e, letter, [LetterChar(l)]);
      LiesSplit(e, augdata, LetterData(e, l), LettersData(e, rest));
      LetterRead(e, augdata, l);
      AugmentedStep(e, letter, augdata, l, n, encode);
      LettersRead(e, letter + 1, augdata + n, rest, next);
    }
  }

  lemma {:induction false} LettersEnd(e: Section, off: nat, ls: seq<Letter>)
    requires Lies(e, off, LetterChars(ls))
    ensures StringEnd(e.data, off) == Got(off + |LetterChars(ls)|, 0) && !HasEh(e.data, off)
    decreases |ls|
  {
    if ls == [] {
      assert e.data[off] == e.data[off..off + 1][0] == 0;
    } else {
      LiesSplit(e, off, [LetterChar(ls[0])], LetterChars(ls[1..]));
      assert e.data[off] == e.data[off..off + 1][0] == LetterChar(ls[0]);
      LettersEnd(e, off + 1, ls[1..]);
    }
  }

  /** An augmentation string begins with z. */
  function AugString(c: CieData): seq<byte> {
    if c.augmented then [0x7a] + LetterChars(c.letters) else [0]
  }

  lemma AugStringRead(e: Section, off: nat, c: CieData)
    requires Lies(e, off, AugString(c))
    ensures StringEnd(e.data, off) == Got(off + |AugString(c)|, 0) && !HasEh(e.data, off)
    ensures off < |e.data| && e.data[off] == if c.augmented then CHAR_Z else 0
    ensures c.augmented ==> Lies(e, off + 1, LetterChars(c.letters))
  {
    if c.augmented {
      LiesSplit(e, off, [CHAR_Z], LetterChars(c.letters));
      assert e.data[off] == e.data[off..off + 1][0] == CHAR_Z;
      LettersEnd(e, off + 1, c.letters);
    } else {
      assert e.data[off] == e.data[off..off + 1][0] == 0;
    }
  }

  function EncodeRa(e: Section, c: CieData): seq<byte> {
    if c.version == 1 then EncodeFixed(e.order, c.ra, 1) else EncodeUleb(c.ra)
  }

  function EncodeFactors(e: Section, c: CieData): seq<byte> {
    EncodeUleb(c.caf) + (EncodeSleb(c.daf) + EncodeRa(e, c))
  }

  function EncodeAugData(e: Section, c: CieData): seq<byte> {
    if c.augmented then EncodeUleb(|LettersData(e, c.letters)|) + LettersData(e, c.letters) else []
  }

  /** From version 4 on (section 6.4.1 of DWARF 4) a CIE tells the sizes of addresses and segment selectors. */
  function SizeBytes(c: CieData): seq<byte> {
    if c.version == 4 then [c.addressSize, c.segmentSize] else []
  }

  /** What follows the augmentation string: sizes, factors, augmentation data, code. */
  function CieTail(e: Section, c: CieData): seq<byte> {
    SizeBytes(c) + (EncodeFactors(e, c) + (EncodeAugData(e, c) + c.insts))
  }

  /** A CIE behind its length: id 0, version, augmentation string, and the rest. */
  function CieBody(e: Section, c: CieData): seq<byte> {
    EncodeFixed(e.order, 0, 4) + (EncodeFixed(e.order, c.version, 1) + (AugString(c) + CieTail(e, c)))
  }

  /** The versions of .eh_frame and of DWARF 3; what becomes of version 4 is the lemma Version4Misread. */
  ghost predicate ValidCie(e: Section, c: CieData) {
    && (c.version == 1 || c.version == 3)
    && c.caf < TWO_31 && -TWO_31 <= c.daf < TWO_31 && c.ra < (if c.version == 1 then 256 else TWO_31)
    && |LettersData(e, c.letters)| < TWO_31
    && forall i :: 0 <= i < |c.letters| ==> ValidLetter(e, c.letters[i])
  }

  /** The structure describes the CIE c. */
  ghost predicate Describes(e: Section, cie: Cie, c: CieData) {
    DescribesRest(e, cie, c) && cie.fdeEncode == FdeEncoding(c)
  }

  /** All but the encoding of pointers. */
  ghost predicate DescribesRest(e: Section, cie: Cie, c: CieData) {
    && 0 <= cie.augment < |e.data|
    && (e.data[cie.augment] == CHAR_Z <==> c.augmented)
    && cie.version == c.version && cie.caf == c.caf && cie.daf == c.daf && cie.ra == c.ra
    && cie.instlen == |c.insts| && Lies(e, cie.initinst, c.insts)
  }

  lemma FactorsRead(e: Section, off: nat, c: CieData)
    requires ValidCie(e, c) && Lies(e, off, EncodeFactors(e, c))
    ensures Factors(e, c.version, off) == Got((c.caf, c.daf, c.ra), |EncodeFactors(e, c)|)
  {
    hide EncodeUleb, EncodeSleb, EncodeFixed, Fixed, Unsigned, EhFrame.Signed, LettersData;
    var a, b, r := EncodeUleb(c.caf), EncodeSleb(c.daf), EncodeRa(e, c);
    LiesSplit(e, off, a, b + r);
    LiesSplit(e, off + |a|, b, r);
    UnsignedLies(e, off, c.caf);
    SignedLies(e, off + |a|, c.daf);
    RaRead(e, off + |a| + |b|, c);
    hide EncodeRa, Lies, ValidLetter;
  }

  lemma RaRead(e: Section, off: nat, c: CieData)
    requires ValidCie(e, c) && Lies(e, off, EncodeRa(e, c))
    ensures (if c.version == 1 then Fixed(e, off, 1) else Unsigned(e, off)) == Got(c.ra, |EncodeRa(e, c)|)
  {
    hide EncodeUleb, EncodeFixed, Fixed, Unsigned, LettersData, ValidLetter;
    Pow2Values();
    if c.version == 1 {
      FixedLies(e, off, c.ra, 1);
    } else {
      UnsignedLies(e, off, c.ra);
    }
  }

  lemma CieRestRead(e: Section, off: nat, c: CieData, before: Cie, end: nat)
    requires ValidCie(e, c) && Lies(e, off, EncodeFactors(e, c) + (EncodeAugData(e, c) + c.insts))
    requires end == off + |EncodeFactors(e, c) + (EncodeAugData(e, c) + c.insts)| < TWO_64
    requires 0 <= before.augment < |e.data| && !HasEh(e.data, before.augment)
    requires e.data[before.augment] == (if c.augmented then CHAR_Z else 0)
    requires c.augmented ==> Lies(e, before.augment + 1, LetterChars(c.letters))
    requires before.version == c.version
    ensures var r := CieRest(e, before, off, end);
      && r.Ok? && DescribesRest(e, r.value, c)
      && r.value.fdeEncode == if c.augmented then FdeEncoding(c) else before.fdeEncode
  {
    hide EncodeUleb, Factors, EncodeFactors, Unsigned, LettersData, HasEh, Augmented, ValidLetter, LetterChars, Lies;
    hide LastR;
    var f, a := EncodeFactors(e, c), EncodeAugData(e, c);
    LiesSplit(e, off, f, a + c.insts);
    LiesSplit(e, off + |f|, a, c.insts);
    FactorsRead(e, off, c);
    if c.augmented {
      var d := LettersData(e, c.letters);
      LiesSplit(e, off + |f|, EncodeUleb(|d|), d);
      UnsignedLies(e, off + |f|, |d|);
      LettersRead(e, before.augment + 1, off + |f| + |EncodeUleb(|d|)|, c.letters, DW_EH_PE_ABSPTR);
    }
  }

  lemma CieParts(e: Section, off: nat, c: CieData)
    requires Lies(e, off + 4, CieBody(e, c))
    ensures
      && Lies(e, off + 4, EncodeFixed(e.order, 0, 4))
      && Lies(e, off + 8, EncodeFixed(e.order, c.version, 1))
      && Lies(e, off + 9, AugString(c))
      && Lies(e, off + 9 + |AugString(c)|, CieTail(e, c))
      && |CieBody(e, c)| == 5 + |AugString(c)| + |CieTail(e, c)|
  {
    hide EncodeFixed, CieTail, AugString;
    var id, v, s := EncodeFixed(e.order, 0, 4), EncodeFixed(e.order, c.version, 1), AugString(c);
    LiesSplit(e, off + 4, id, v + (s + CieTail(e, c)));
    LiesSplit(e, off + 8, v, s + CieTail(e, c));
    LiesSplit(e, off + 9, s, CieTail(e, c));
  }

  lemma TailWithoutSizes(e: Section, c: CieData)
    requires c.version != 4
    ensures CieTail(e, c) == EncodeFactors(e, c) + (EncodeAugData(e, c) + c.insts)
  {
    hide EncodeFactors, EncodeAugData;
    var x := EncodeFactors(e, c) + (EncodeAugData(e, c) + c.insts);
    assert [] + x == x;
  }

  /** The head of an entry read by `_dwarf_frame_set_cie`. */
  lemma CieHead(e: Section, off: nat, len: uint64, before: Cie, version: nat, o: nat)
    requires Fixed(e, off + 8, 1) == Got(version, 1) && (version == 1 || version == 3 || version == 4)
    requires StringEnd(e.data, off + 9) == Got(o, 0)
    requires off + 9 < |e.data| && (e.data[off + 9] == 0 || e.data[off + 9] == CHAR_Z)
    ensures SetCie(e, off, (len, 4), before)
         == CieRest(e, before.(offset := off, length := len, version := version, augment := off + 9), o, off + 4 + len)
  {
    hide Fixed, StringEnd, CieRest;
  }

  /** Reading a CIE gives a structure that describes it, but for the encoding of pointers: a CIE without
      augmentation data leaves the encoding of the CIE read before, so the structure describes it exactly
      when it has such data or the encoding was absolute. */
  lemma CieRoundTrip(e: Section, off: nat, c: CieData, before: Cie)
    requires ValidCie(e, c) && Lies(e, off + 4, CieBody(e, c)) && |CieBody(e, c)| < TWO_32
    requires off + 4 + |CieBody(e, c)| < TWO_64
    ensures var r := SetCie(e, off, (|CieBody(e, c)|, 4), before);
      && r.Ok? && DescribesRest(e, r.value, c)
      && r.value.fdeEncode == (if c.augmented then FdeEncoding(c) else before.fdeEncode)
      && (Describes(e, r.value, c) <==> c.augmented || before.fdeEncode == DW_EH_PE_ABSPTR)
  {
    hide *;
    PlainEncoding(c);
    DescribesSplit(e, c);
    CieParts(e, off, c);
    Versions(e, c);
    TailWithoutSizes(e, c);
    FixedLies(e, off + 8, c.version, 1);
    AugStringRead(e, off + 9, c);
    var len := |CieBody(e, c)|;
    var c1 := before.(offset := off, length := len, version := c.version, augment := off + 9);
    CieHead(e, off, len, before, c.version, off + 9 + |AugString(c)|);
    CieRestRead(e, off + 9 + |AugString(c)|, c, c1, off + 4 + len);
  }

  /** What the code takes for the factors of a CIE of version 4: the two sizes, and the first factor for the
      return-address register. */
  lemma FactorsShifted(e: Section, off: nat, c: CieData)
    requires c.version == 4 && c.caf < TWO_31 && c.addressSize < 128 && c.segmentSize < 64
    requires Lies(e, off, CieTail(e, c))
    ensures Factors(e, 4, off) == Got((c.addressSize, c.segmentSize, c.caf), 2 + |EncodeUleb(c.caf)|)
  {
    hide Unsigned, EhFrame.Signed, EncodeRa, EncodeAugData, Lies;
    var a, s, f := [c.addressSize], [c.segmentSize], EncodeUleb(c.caf);
    assert EncodeUleb(c.addressSize) == a && EncodeSleb(c.segmentSize) == s;
    hide EncodeUleb, EncodeSleb;
    var rest := EncodeSleb(c.daf) + EncodeRa(e, c) + (EncodeAugData(e, c) + c.insts);
    assert CieTail(e, c) == a + (s + (f + rest));
    LiesSplit(e, off, a, s + (f + rest));
    LiesSplit(e, off + 1, s, f + rest);
    LiesSplit(e, off + 2, f, rest);
    UnsignedLies(e, off, c.addressSize);
    SignedLies(e, off + 1, c.segmentSize);
    UnsignedLies(e, off + 2, c.caf);
  }

  /** The code accepts version 4 and does not know its two sizes: it takes them for the alignment factors,
      and the code alignment factor for the return-address register. Without augmentation data the rest of
      the factors is taken for instructions. */
  lemma Version4Misread(e: Section, off: nat, c: CieData, before: Cie)
    requires c.version == 4 && c.caf < TWO_31 && c.addressSize < 128 && c.segmentSize < 64
    requires Lies(e, off + 4, CieBody(e, c)) && off + 4 + |CieBody(e, c)| < TWO_64 && |CieBody(e, c)| < TWO_32
    ensures var r := SetCie(e, off, (|CieBody(e, c)|, 4), before);
      && (!c.augmented ==> r.Ok? && r.value.instlen > |c.insts|)
      && (r.Ok? ==> r.value.caf == c.addressSize && r.value.daf == c.segmentSize && r.value.ra == c.caf)
  {
    hide *;
    CieParts(e, off, c);
    FourFits();
    FixedLies(e, off + 8, c.version, 1);
    AugStringRead(e, off + 9, c);
    var o, len := off + 9 + |AugString(c)|, |CieBody(e, c)|;
    FactorsShifted(e, o, c);
    CieHead(e, off, len, before, 4, o);
    RestFactors(e, before.(offset := off, length := len, version := 4, augment := off + 9), o, off + 4 + len);
    if !c.augmented {
      LongTail(e, c);
    }
  }

  lemma FourFits()
    ensures Width(1) && 4 < Pow2(8 * 1) && CHAR_Z != 0
  {
    Pow2Values();
  }

  /** The factors read are those of the structure. */
  lemma RestFactors(e: Section, cie: Cie, off: nat, end: nat)
    requires 0 <= cie.augment < |e.data| && !HasEh(e.data, cie.augment) && Factors(e, cie.version, off).Got?
    ensures var r, f := CieRest(e, cie, off, end), Factors(e, cie.version, off);
      && (r.Ok? ==> r.value.caf == f.value.0 && r.value.daf == f.value.1 && r.value.ra == f.value.2)
      && (e.data[cie.augment] != CHAR_Z && off + f.size <= end < TWO_64 ==>
           r.Ok? && r.value.instlen == end - (off + f.size))
  {
    hide Factors, HasEh, Augmented, Unsigned;
  }

  lemma LongTail(e: Section, c: CieData)
    requires c.version == 4 && !c.augmented
    ensures |CieTail(e, c)| > 2 + |EncodeUleb(c.caf)| + |c.insts|
  {
    hide EncodeUleb, EncodeSleb;
  }

  lemma PlainEncoding(c: CieData)
    ensures !c.augmented ==> FdeEncoding(c) == DW_EH_PE_ABSPTR
  {
  }

  lemma DescribesSplit(e: Section, c: CieData)
    ensures forall cie: Cie :: Describes(e, cie, c) <==> DescribesRest(e, cie, c) && cie.fdeEncode == FdeEncoding(c)
  {
  }

  lemma Versions(e: Section, c: CieData)
    requires ValidCie(e, c)
    ensures (c.version == 1 || c.version == 3) && c.version != 4 && Width(1) && c.version < Pow2(8 * 1)
  {
    hide LettersData, ValidLetter;
    Pow2Values();
  }
}
