/** The proof that the walk of `dwarf_get_fde_at_pc` over a well-formed .eh_frame finds the first FDE
    that covers a pc. */
module EhWalk {
  import opened Machine
  import opened Leb128
  import opened FixedWidth
  import opened EhFrame
  import opened EhEncode

  /** An FDE: whether its length takes 64 bits, its CIE and where that starts, the range it covers, its
      augmentation data and its code. */
  datatype FdeData = FdeData(wide: bool, at: nat, cie: CieData, loc: uint64, range: uint64, augdata: seq<byte>,
                             insts: seq<byte>)

  datatype Item = CieItem(cie: CieData) | FdeItem(fde: FdeData)

  /** The CIE read last, the encoding of pointers that the structure holds, which is its own, or, if it has
      no augmentation data, what was there before; and all CIEs passed so far. */
  datatype Current = Nothing | Under(at: nat, cie: CieData, encode: byte, known: map<nat, CieData>)

  /** The encoding of a zeroed structure is absolute. */
  function Carried(cur: Current): byte {
    if cur.Under? then cur.encode else DW_EH_PE_ABSPTR
  }

  function Next(cur: Current, off: nat, item: Item): Current {
    match item
    case CieItem(c) =>
      Under(off, c, if c.augmented then FdeEncoding(c) else Carried(cur),
            if cur.Under? then cur.known[off := c] else map[off := c])
    case FdeItem(_) => cur
  }

  function FdeAugData(c: CieData, f: FdeData): seq<byte> {
    if c.augmented then EncodeUleb(|f.augdata|) + f.augdata else []
  }

  /** What follows the CIE pointer. */
  function FdeTail(e: Section, off: nat, c: CieData, f: FdeData): seq<byte> {
    var encode := FdeEncoding(c);
    EncodePointer(e, encode, e.addr + off, f.loc)
    + (EncodePointer(e, encode, 0, f.range) + (FdeAugData(c, f) + f.insts))
  }

  /** An FDE behind its length, which ends at off: the distance back to its CIE in four bytes, the
      location, the range, the rest. */
  function FdeBody(e: Section, off: nat, c: CieData, f: FdeData): seq<byte> {
    EncodeFixed(e.order, if off < f.at then 0 else off - f.at, 4) + FdeTail(e, off + 4, c, f)
  }

  function LengthField(item: Item): nat {
    if item.FdeItem? && item.fde.wide then 12 else 4
  }

  function Body(e: Section, off: nat, item: Item): seq<byte> {
    match item
    case CieItem(c) => CieBody(e, c)
    case FdeItem(f) => FdeBody(e, off + LengthField(item), f.cie, f)
  }

  /** The entry ends there: behind its length field and its body. */
  function ItemEnd(e: Section, off: nat, item: Item): (end: nat)
    ensures end > off
  {
    off + LengthField(item) + |Body(e, off, item)|
  }

  ghost predicate ValidFde(e: Section, off: nat, c: CieData, f: FdeData) {
    && f.at < off - 4 && off - f.at < TWO_32
    && ValidPointer(e, FdeEncoding(c), e.addr + off + 4, f.loc)
    && ValidPointer(e, FdeEncoding(c), 0, f.range)
    && |f.augdata| < TWO_31
  }

  /** An FDE belongs to any CIE in front of it, on which the one read last agrees as far as reading goes: the
      structure holds the encoding of its pointers, and both have augmentation data or neither has. */
  ghost predicate ValidItem(e: Section, off: nat, item: Item, cur: Current) {
    match item
    case CieItem(c) => ValidCie(e, c)
    case FdeItem(f) =>
      && cur.Under? && f.at in cur.known && cur.known[f.at] == f.cie && f.at < off
      && cur.encode == FdeEncoding(f.cie) && (cur.cie.augmented <==> f.cie.augmented)
      && ValidFde(e, off + LengthField(item), f.cie, f)
  }

  /** The entry lies at off, its length in front, in four bytes or behind a mark in eight; of an entry of
      the second kind the eight bytes that are looked at for its id can be read. */
  ghost predicate ItemLies(e: Section, off: nat, item: Item) {
    var body := Body(e, off, item);
    && Lies(e, off + LengthField(item), body)
    && if LengthField(item) == 4 then |body| < 0xffff_ffff && Lies(e, off, EncodeFixed(e.order, |body|, 4))
       else
         && Lies(e, off, EncodeFixed(e.order, 0xffff_ffff, 4)) && Lies(e, off + 4, EncodeFixed(e.order, |body|, 8))
         && off + 20 <= |e.data|
  }

  /** A length that runs past the section. */
  predicate BadAt(e: Section, off: nat) {
    off < |e.data| && Length(e, off).Got? && EntryEnd(off, Length(e, off).value) > |e.data|
  }

  /** The entries lie from off on, up to a terminator, the end of the section, or a bad length. */
  ghost predicate Laid(e: Section, off: nat, items: seq<Item>, cur: Current)
    decreases |items|
  {
    if items == [] then off == |e.data| || Lies(e, off, EncodeFixed(e.order, 0, 4)) || BadAt(e, off)
    else
      && ValidItem(e, off, items[0], cur)
      && ItemLies(e, off, items[0])
      && Laid(e, ItemEnd(e, off, items[0]), items[1..], Next(cur, off, items[0]))
  }

  /** Where the entries end. */
  function EndOf(e: Section, off: nat, items: seq<Item>): nat
    decreases |items|
  {
    if items == [] then off else EndOf(e, ItemEnd(e, off, items[0]), items[1..])
  }

  // ----- reading one entry -----

  /** The structure describes the FDE f found at off. */
  ghost predicate DescribesFde(e: Section, fde: Fde, off: nat, f: FdeData) {
    && fde.offset == off && off + (if f.wide then 12 else 4) - fde.cieoff == f.at
    && fde.initloc == f.loc && fde.adrange == f.range
    && fde.instlen == |f.insts| && Lies(e, fde.inst, f.insts)
  }

  /** The structure describes the CIE read last, but for the encoding of pointers, which is the one carried. */
  ghost predicate Carries(e: Section, cie: Cie, cur: Current) {
    && cie.fdeEncode == Carried(cur)
    && (cur.Under? ==> cie.offset == cur.at && DescribesRest(e, cie, cur.cie))
  }

  /** The structure does for reading an FDE of the CIE c. */
  ghost predicate Serves(e: Section, cie: Cie, c: CieData) {
    && cie.fdeEncode == FdeEncoding(c) && 0 <= cie.augment < |e.data|
    && (e.data[cie.augment] == CHAR_Z <==> c.augmented)
  }

  lemma TailParts(e: Section, off: nat, c: CieData, f: FdeData)
    requires Lies(e, off, FdeTail(e, off, c, f))
    ensures var p, q, a := EncodePointer(e, FdeEncoding(c), e.addr + off, f.loc),
                           EncodePointer(e, FdeEncoding(c), 0, f.range), FdeAugData(c, f);
      && Lies(e, off, p) && Lies(e, off + |p|, q) && Lies(e, off + |p| + |q|, a + f.insts)
      && |FdeTail(e, off, c, f)| == |p| + |q| + |a + f.insts|
  {
    hide EncodePointer, Lies, FdeAugData, FdeEncoding;
    var p, q, a := EncodePointer(e, FdeEncoding(c), e.addr + off, f.loc),
                   EncodePointer(e, FdeEncoding(c), 0, f.range), FdeAugData(c, f);
    LiesSplit(e, off, p, q + (a + f.insts));
    LiesSplit(e, off + |p|, q, a + f.insts);
  }

  /** The location and the range of an FDE under a CIE of known encoding. */
  lemma FdeRestStep(e: Section, f0: Fde, off: nat, end: nat, cie: Cie, loc: (uint64, nat), range: (uint64, nat))
    requires cie.fdeEncode != DW_EH_PE_OMIT && 0 <= cie.augment < |e.data|
    requires Encoded(e, off, cie.fdeEncode, e.addr + off) == Ok(loc)
    requires Encoded(e, off + loc.1, cie.fdeEncode, 0) == Ok(range)
    requires e.data[cie.augment] == CHAR_Z ==> Unsigned(e, off + loc.1 + range.1).Got?
    ensures var o := off + loc.1 + range.1;
      var f1, u := f0.(initloc := loc.0, adrange := range.0), Unsigned(e, o);
      FdeRest(e, f0, off, end, cie) ==
      if e.data[cie.augment] != CHAR_Z then Ok(f1.(inst := o, instlen := ToU64(end - o)))
      else Ok(f1.(auglen := u.value, augdata := o + u.size, inst := o + u.size + u.value,
                  instlen := ToU64(end - (o + u.size + u.value))))
  {
    hide Encoded, Unsigned;
  }

  lemma FdeTailRead(e: Section, off: nat, c: CieData, f: FdeData, f0: Fde, cie: Cie, end: nat)
    requires Lies(e, off, FdeTail(e, off, c, f)) && end == off + |FdeTail(e, off, c, f)| < TWO_64
    requires ValidPointer(e, FdeEncoding(c), e.addr + off, f.loc) && ValidPointer(e, FdeEncoding(c), 0, f.range)
    requires |f.augdata| < TWO_31 && Serves(e, cie, c)
    ensures var r := FdeRest(e, f0, off, end, cie);
      && r.Ok? && r.value.initloc == f.loc && r.value.adrange == f.range
      && r.value.offset == f0.offset && r.value.cieoff == f0.cieoff
      && r.value.instlen == |f.insts| && Lies(e, r.value.inst, f.insts)
  {
    hide EncodePointer, Encoded, Unsigned, Lies, EncodeUleb, FdeEncoding, FdeRest, FdeTail, ValidPointer, FdeAugData;
    var p, q, a := EncodePointer(e, FdeEncoding(c), e.addr + off, f.loc),
                   EncodePointer(e, FdeEncoding(c), 0, f.range), FdeAugData(c, f);
    NotOmitted(e, FdeEncoding(c), 0, f.range);
    TailParts(e, off, c, f);
    PointerRoundTrip(e, off, FdeEncoding(c), e.addr + off, f.loc);
    PointerRoundTrip(e, off + |p|, FdeEncoding(c), 0, f.range);
    var o := off + |p| + |q|;
    FdeAugRead(e, o, c, f);
    FdeRestStep(e, f0, off, end, cie, (f.loc, |p|), (f.range, |q|));
  }

  /** The augmentation data of an FDE, if it has any, and the code behind it. */
  lemma FdeAugRead(e: Section, o: nat, c: CieData, f: FdeData)
    requires Lies(e, o, FdeAugData(c, f) + f.insts) && |f.augdata| < TWO_31
    ensures |FdeAugData(c, f) + f.insts| == |FdeAugData(c, f)| + |f.insts|
    ensures Lies(e, o + |FdeAugData(c, f)|, f.insts)
    ensures if c.augmented then Unsigned(e, o) == Got(|f.augdata|, |FdeAugData(c, f)| - |f.augdata|)
            else FdeAugData(c, f) == []
  {
    hide Unsigned, Lies, EncodeUleb;
    LiesSplit(e, o, FdeAugData(c, f), f.insts);
    if c.augmented {
      LiesSplit(e, o, EncodeUleb(|f.augdata|), f.augdata);
      UnsignedLies(e, o, |f.augdata|);
    }
  }

  lemma NotOmitted(e: Section, encode: byte, pc: nat, x: uint64)
    requires ValidPointer(e, encode, pc, x)
    ensures encode != DW_EH_PE_OMIT
  {
  }

  /** Reading an FDE under a structure that does for its CIE gives a structure that describes it; n is the
      size of its length field. */
  lemma FdeRoundTrip(e: Section, off: nat, n: nat, c: CieData, f: FdeData, before: Fde, cie: Cie)
    requires n == (if f.wide then 12 else 4) && f.at < off
    requires ValidFde(e, off + n, c, f) && Lies(e, off + n, FdeBody(e, off + n, c, f))
    requires |FdeBody(e, off + n, c, f)| < TWO_64 && off + n + |FdeBody(e, off + n, c, f)| < TWO_64
    requires Serves(e, cie, c)
    ensures |FdeBody(e, off + n, c, f)| >= 4 && Fixed(e, off + n, 4).Got? && Fixed(e, off + n, 4).value != 0
    ensures var r := SetFde(e, off, (|FdeBody(e, off + n, c, f)|, if f.wide then 8 else 4), before, cie);
      r.Ok? && DescribesFde(e, r.value, off, f)
  {
    hide Fixed, FdeRest, FdeTail, Serves, Lies, EncodeFixed, ValidPointer, FdeEncoding;
    var ptr, tail := off + n - f.at, FdeTail(e, off + n + 4, c, f);
    var len := |FdeBody(e, off + n, c, f)|;
    LiesSplit(e, off + n, EncodeFixed(e.order, ptr, 4), tail);
    Pow2Values();
    hide Pow2;
    FixedLies(e, off + n, ptr, 4);
    FdeTailRead(e, off + n + 4, c, f, before.(offset := off, length := len, cieoff := ptr), cie, off + n + len);
  }

  // ----- one step of the walk -----

  lemma LengthRead(e: Section, off: nat, len: nat)
    requires Lies(e, off, EncodeFixed(e.order, len, 4)) && len < 0xffff_ffff
    ensures off < |e.data| && Length(e, off) == Got((len, 4), 4)
  {
    hide Fixed, EncodeFixed;
    Pow2Values();
    FixedLies(e, off, len, 4);
  }

  lemma LongLengthRead(e: Section, off: nat, len: nat)
    requires Lies(e, off, EncodeFixed(e.order, 0xffff_ffff, 4)) && Lies(e, off + 4, EncodeFixed(e.order, len, 8))
    requires len < TWO_64
    ensures off < |e.data| && Length(e, off) == Got((len, 8), 12)
  {
    hide Fixed, EncodeFixed;
    Pow2Values();
    FixedLies(e, off, 0xffff_ffff, 4);
    FixedLies(e, off + 4, len, 8);
  }

  /** A step at a CIE lands at its end with a structure that describes it. */
  lemma StepCie(e: Section, off: nat, c: CieData, cur: Current, cie: Cie, fde: Fde)
    requires |e.data| < TWO_64
    requires ValidItem(e, off, CieItem(c), cur) && ItemLies(e, off, CieItem(c)) && Carries(e, cie, cur)
    ensures off < |e.data|
    ensures var r := NextEntry(e, off, cie, fde);
      r.CieRead? && r.end == ItemEnd(e, off, CieItem(c)) && Carries(e, r.cie, Next(cur, off, CieItem(c)))
  {
    hide Fixed, SetCie, Length, CieBody, ValidCie, FdeEncoding, EncodeFixed, NextEntry, Describes, DescribesRest;
    var len := |CieBody(e, c)|;
    LengthRead(e, off, len);
    CieId(e, off, c);
    CieRoundTrip(e, off, c, cie);
    CieOffset(e, off, (len, 4), cie);
    NextIsCie(e, off, len, cie, fde);
  }

  lemma CieId(e: Section, off: nat, c: CieData)
    requires Lies(e, off + 4, CieBody(e, c))
    ensures Fixed(e, off + 4, 4) == Got(0, 4) && |CieBody(e, c)| > 0 && off + 4 + |CieBody(e, c)| <= |e.data|
  {
    hide Fixed, CieBody, EncodeFixed;
    CieParts(e, off, c);
    Pow2Values();
    FixedLies(e, off + 4, 0, 4);
  }

  lemma NextIsCie(e: Section, off: nat, len: uint64, cie: Cie, fde: Fde)
    requires off < |e.data| && Length(e, off) == Got((len, 4), 4) && 0 < len && off + 4 + len <= |e.data|
    requires Fixed(e, off + 4, 4) == Got(0, 4) && SetCie(e, off, (len, 4), cie).Ok?
    ensures NextEntry(e, off, cie, fde) == CieRead(SetCie(e, off, (len, 4), cie).value, off + 4 + len)
  {
    hide Fixed, SetCie, Length;
  }

  lemma CieOffset(e: Section, off: nat, l: (uint64, nat), before: Cie)
    requires SetCie(e, off, l, before).Ok?
    ensures SetCie(e, off, l, before).value.offset == off
  {
    hide Fixed, StringEnd, HasEh, Factors, Augmented, Unsigned;
  }

  /** A step at an FDE, with a length of either size, lands at its end with a structure that describes it. */
  lemma StepFde(e: Section, off: nat, f: FdeData, cur: Current, cie: Cie, fde: Fde)
    requires |e.data| < TWO_64
    requires ValidItem(e, off, FdeItem(f), cur) && ItemLies(e, off, FdeItem(f)) && Carries(e, cie, cur)
    ensures off < |e.data|
    ensures var r := NextEntry(e, off, cie, fde);
      r.FdeRead? && r.end == ItemEnd(e, off, FdeItem(f)) && DescribesFde(e, r.fde, off, f)
  {
    hide Fixed, SetFde, Length, FdeBody, ValidFde, FdeEncoding, EncodeFixed, DescribesRest, DescribesFde, NextEntry;
    var n, size := LengthField(FdeItem(f)), if f.wide then 8 else 4;
    var len := |FdeBody(e, off + n, f.cie, f)|;
    if f.wide {
      LongLengthRead(e, off, len);
    } else {
      LengthRead(e, off, len);
    }
    ServesOther(e, cie, cur, f.cie);
    FdeRoundTrip(e, off, n, f.cie, f, fde, cie);
    FdeId(e, off + n, size);
    NextIsFde(e, off, (len, size), cie, fde);
  }

  lemma ServesOther(e: Section, cie: Cie, cur: Current, own: CieData)
    requires cur.Under? && Carries(e, cie, cur)
    requires cur.encode == FdeEncoding(own) && (cur.cie.augmented <==> own.augmented)
    ensures Serves(e, cie, own)
  {
    hide FdeEncoding;
  }

  /** The structure that is left describes the CIE an FDE belongs to exactly when that CIE says the same as
      the one read last. */
  lemma OwnCieExact(e: Section, cie: Cie, last: CieData, own: CieData)
    requires DescribesRest(e, cie, last)
    ensures DescribesRest(e, cie, own)
       <==> && last.version == own.version && last.caf == own.caf && last.daf == own.daf && last.ra == own.ra
            && (last.augmented <==> own.augmented) && last.insts == own.insts
  {
  }

  /** Whatever lies behind the CIE pointer, the id of an FDE is not zero. */
  lemma FdeId(e: Section, off: nat, size: nat)
    requires Fixed(e, off, 4).Got? && Fixed(e, off, 4).value != 0 && off + size <= |e.data| && (size == 4 || size == 8)
    ensures Fixed(e, off, size).Got? && Fixed(e, off, size).value != 0
  {
    var s := e.data[off..];
    var k := ByteNotZero(e.order, s[..4]);
    assert s[..size][k] == s[..4][k];
    NotZero(e.order, s[..size], k);
  }

  lemma {:induction false} NotZero(order: Endian, s: seq<byte>, k: nat)
    requires k < |s| && s[k] != 0
    ensures FixedWidth.Value(order, s) > 0
    decreases |s|
  {
    if order.Lsb? {
      if k > 0 {
        NotZero(order, s[1..], k - 1);
      }
    } else if k < |s| - 1 {
      NotZero(order, s[..|s| - 1], k);
    }
  }

  lemma {:induction false} ByteNotZero(order: Endian, s: seq<byte>) returns (k: nat)
    requires FixedWidth.Value(order, s) > 0
    ensures k < |s| && s[k] != 0
    decreases |s|
  {
    if order.Lsb? {
      k := 0;
      if s[0] == 0 {
        k := ByteNotZero(order, s[1..]);
        k := k + 1;
      }
    } else {
      k := |s| - 1;
      if s[k] == 0 {
        k := ByteNotZero(order, s[..k]);
      }
    }
  }

  lemma NextIsFde(e: Section, off: nat, l: (uint64, nat), cie: Cie, fde: Fde)
    requires l.1 == 4 || l.1 == 8
    requires var n := if l.1 == 4 then 4 else 12;
      && off < |e.data| && Length(e, off) == Got(l, n) && 0 < l.0 && off + n + l.0 <= |e.data|
      && Fixed(e, off + n, l.1).Got? && Fixed(e, off + n, l.1).value != 0
    ensures NextEntry(e, off, cie, fde) ==
      match SetFde(e, off, l, fde, cie)
      case Fault => Entry.Undefined
      case Fail(_) => Stop
      case Ok(f) => FdeRead(f, EntryEnd(off, l))
  {
    hide Fixed, SetFde, Length;
  }

  // ----- the walk -----

  predicate Covers(f: FdeData, pc: uint64) {
    f.loc <= pc < f.loc + f.range
  }

  /** What the walk should answer, read off the list of entries: the first FDE that is meant, where it
      starts and ends, and the CIE it is under. */
  datatype Answer = None | First(fde: FdeData, off: nat, end: nat, cur: Current)

  /** The first FDE that covers pc; of those whose range does not end at the top of the address space, if
      they are left out. */
  function FirstCovering(e: Section, off: nat, items: seq<Item>, cur: Current, pc: uint64, top: bool): Answer
    decreases |items|
  {
    if items == [] then None
    else
      var end := ItemEnd(e, off, items[0]);
      if items[0].FdeItem? && Covers(items[0].fde, pc) && (top || items[0].fde.loc + items[0].fde.range < TWO_64) then
        First(items[0].fde, off, end, cur)
      else FirstCovering(e, end, items[1..], Next(cur, off, items[0]), pc, top)
  }

  /** The sum in the range test wraps around: an FDE is taken for one that holds pc exactly when it covers
      pc and its range ends below 2^64. */
  lemma HoldsExactly(e: Section, fde: Fde, off: nat, f: FdeData, pc: uint64)
    requires DescribesFde(e, fde, off, f)
    ensures Holds(fde, pc) <==> Covers(f, pc) && f.loc + f.range < TWO_64
  {
  }

  /** So the answer is the first FDE that covers pc exactly when that one does not end at the top. */
  lemma {:induction false} TopMissed(e: Section, off: nat, items: seq<Item>, cur: Current, pc: uint64)
    ensures var right, got := FirstCovering(e, off, items, cur, pc, true), FirstCovering(e, off, items, cur, pc, false);
      right == got <==> (right.First? ==> right.fde.loc + right.fde.range < TWO_64)
    decreases |items|
  {
    hide ItemEnd, Next;
    if items != [] {
      var end, next := ItemEnd(e, off, items[0]), Next(cur, off, items[0]);
      TopMissed(e, end, items[1..], next, pc);
      LaterThan(e, end, items[1..], next, pc, false, off);
    }
  }

  /** Answers lie at or behind the start. */
  lemma {:induction false} LaterThan(e: Section, off: nat, items: seq<Item>, cur: Current, pc: uint64, top: bool,
                                     at: nat)
    requires at < off
    ensures var a := FirstCovering(e, off, items, cur, pc, top); a.First? ==> a.off > at
    decreases |items|
  {
    hide Next;
    if items != [] {
      LaterThan(e, ItemEnd(e, off, items[0]), items[1..], Next(cur, off, items[0]), pc, top, at);
    }
  }

  /** Over a section laid out as the standard prescribes the walk stops at the first FDE at or after the
      cursor whose range holds pc, with structures that describe it and its CIE and the cursor right
      behind it. It finds none exactly when none holds pc before the terminator or the end of the
      section, and is stuck exactly when a bad length comes first. The FDE left over from an earlier step
      never matches while a CIE is read. */
  lemma {:induction false} WalkFindsFirst(e: Section, off: nat, items: seq<Item>, cur: Current, cie: Cie, fde: Fde,
                                          pc: uint64)
    requires |e.data| < TWO_64 && Laid(e, off, items, cur) && Carries(e, cie, cur) && !Holds(fde, pc)
    ensures var w := WalkFrom(e, off, cie, fde, pc);
      match FirstCovering(e, off, items, cur, pc, false)
      case None => w == if BadAt(e, EndOf(e, off, items)) then Stuck(EndOf(e, off, items))
                        else NoEntry(EndOf(e, off, items))
      case First(f, at, end, under) =>
        w.Found? && w.next == end && DescribesFde(e, w.fde, at, f) && Carries(e, w.cie, under)
    decreases |items|
  {
    hide NextEntry, ItemLies, ValidFde, DescribesFde, ValidCie, DescribesRest, Holds, FdeEncoding, ItemEnd, BadAt, Next;
    if items == [] {
      WalkStops(e, off, cie, fde, pc);
    } else {
      var item := items[0];
      var end := ItemEnd(e, off, item);
      match item
      case CieItem(c) =>
        StepCie(e, off, c, cur, cie, fde);
        WalkFindsFirst(e, end, items[1..], Next(cur, off, item), NextEntry(e, off, cie, fde).cie, fde, pc);
      case FdeItem(f) =>
        StepFde(e, off, f, cur, cie, fde);
        var next := NextEntry(e, off, cie, fde).fde;
        HoldsExactly(e, next, off, f, pc);
        SameCurrent(cur, off, f);
        if !(Covers(f, pc) && f.loc + f.range < TWO_64) {
          WalkFindsFirst(e, end, items[1..], cur, cie, next, pc);
        }
    }
  }

  lemma SameCurrent(cur: Current, off: nat, f: FdeData)
    ensures Next(cur, off, FdeItem(f)) == cur
  {
  }

  lemma WalkStops(e: Section, off: nat, cie: Cie, fde: Fde, pc: uint64)
    requires off == |e.data| || Lies(e, off, EncodeFixed(e.order, 0, 4)) || BadAt(e, off)
    requires !Holds(fde, pc)
    ensures WalkFrom(e, off, cie, fde, pc) == if BadAt(e, off) then Stuck(off) else NoEntry(off)
  {
    hide Fixed, SetCie, SetFde, Holds, Length;
    if off < |e.data| && !BadAt(e, off) {
      LengthRead(e, off, 0);
    }
  }

  // ----- when the loop ends -----

  /** A walk that ends, ends after finitely many turns of the loop, with its outcome. */
  lemma {:induction false} EndsAfter(e: Section, off: nat, cie: Cie, fde: Fde, pc: uint64) returns (n: nat)
    requires WalkFrom(e, off, cie, fde, pc).NoEntry? || WalkFrom(e, off, cie, fde, pc).Found?
    ensures Turns(e, Going(off, cie, fde), pc, n) == Ended(WalkFrom(e, off, cie, fde, pc))
    decreases |e.data| - off
  {
    hide NextEntry, Holds;
    n := 1;
    var l := Turn(e, Going(off, cie, fde), pc);
    if l.Going? {
      n := EndsAfter(e, l.off, l.cie, l.fde, pc);
      n := n + 1;
    } else {
      assert Turns(e, Going(off, cie, fde), pc, 1) == Turns(e, l, pc, 0);
    }
  }

  /** A walk that is stuck goes on for any number of turns. */
  lemma {:induction false} NeverEnds(e: Section, off: nat, cie: Cie, fde: Fde, pc: uint64, n: nat)
    requires WalkFrom(e, off, cie, fde, pc).Stuck?
    ensures Turns(e, Going(off, cie, fde), pc, n).Going?
    decreases n
  {
    hide NextEntry, Holds;
    if n > 0 {
      var l := Turn(e, Going(off, cie, fde), pc);
      NeverEnds(e, l.off, l.cie, l.fde, pc, n - 1);
    }
  }

  /** At a bad length a turn leaves everything as it is, unless the FDE in hand holds pc. */
  lemma BadLengthNeverEnds(e: Section, off: nat, cie: Cie, fde: Fde, pc: uint64, n: nat)
    requires BadAt(e, off)
    ensures Turns(e, Going(off, cie, fde), pc, n) == Going(off, cie, fde) <==> n == 0 || !Holds(fde, pc)
    decreases n
  {
    hide Holds, SetCie, SetFde, Fixed, Length;
    if n > 0 {
      if Holds(fde, pc) {
        StaysEnded(e, Found(fde, cie, off), pc, n - 1);
      } else {
        BadLengthNeverEnds(e, off, cie, fde, pc, n - 1);
      }
    }
  }

  lemma {:induction false} StaysEnded(e: Section, w: Walk, pc: uint64, n: nat)
    ensures Turns(e, Ended(w), pc, n) == Ended(w)
  {
    if n > 0 {
      StaysEnded(e, w, pc, n - 1);
    }
  }

  /** The search over a section laid out as the standard prescribes ends if and only if an FDE that holds
      pc, a terminator or the end of the section comes before the first bad length. */
  lemma SearchEnds(e: Section, off: nat, items: seq<Item>, cur: Current, cie: Cie, fde: Fde, pc: uint64)
    requires |e.data| < TWO_64 && Laid(e, off, items, cur) && Carries(e, cie, cur) && !Holds(fde, pc)
    ensures (exists n: nat :: Turns(e, Going(off, cie, fde), pc, n).Ended?)
       <==> FirstCovering(e, off, items, cur, pc, false).First? || !BadAt(e, EndOf(e, off, items))
  {
    hide Laid, Carries, Holds, FirstCovering, BadAt, EndOf, WalkFrom, Turns;
    WalkFindsFirst(e, off, items, cur, cie, fde, pc);
    if WalkFrom(e, off, cie, fde, pc).Stuck? {
      forall n: nat
        ensures !Turns(e, Going(off, cie, fde), pc, n).Ended?
      {
        NeverEnds(e, off, cie, fde, pc, n);
      }
    } else {
      var n := EndsAfter(e, off, cie, fde, pc);
    }
  }

  // ----- where the code leaves the standard -----

  /** The id of an entry with a 64-bit length is read as eight bytes, though the standard gives it four:
      a CIE in that form, whose id is zero but whose version is not, is read by the rules for FDEs. */
  lemma ExtendedCieMisread(e: Section, off: nat, cie: Cie, fde: Fde)
    requires off < |e.data| && Length(e, off).Got? && Length(e, off).value.1 == 8
    requires 0 < Length(e, off).value.0 <= |e.data| - off - 12 && off + 20 <= |e.data|
    requires Fixed(e, off + 12, 4) == Got(0, 4) && e.data[off + 16] != 0
    ensures NextEntry(e, off, cie, fde) ==
      match SetFde(e, off, Length(e, off).value, fde, cie)
      case Fault => Entry.Undefined
      case Fail(_) => Stop
      case Ok(f) => FdeRead(f, EntryEnd(off, Length(e, off).value))
    ensures !NextEntry(e, off, cie, fde).CieRead?
  {
    hide SetFde, Length;
    var id := e.data[off + 12..][..8];
    assert id[4] == e.data[off + 16];
    NotZero(e.order, id, 4);
    NextIsFde(e, off, Length(e, off).value, cie, fde);
  }

  /** An eight-byte number read as two of four bytes. */
  lemma TwoHalves(e: Section, off: nat, v: uint64)
    requires e.order.Lsb? && Lies(e, off, EncodeFixed(e.order, v, 8))
    ensures Fixed(e, off, 4) == Got(v % TWO_32, 4) && Fixed(e, off + 4, 4) == Got(v / TWO_32, 4)
  {
    hide EncodeFixed, LsbValue;
    var s := e.data[off..off + 8];
    EightBytes(e.order, v);
    assert e.data[off..][..4] == s[..4] && e.data[off + 4..][..4] == s[4..];
    Halves(s, v);
  }

  lemma EightBytes(order: Endian, v: uint64)
    requires order.Lsb?
    ensures LsbValue(EncodeFixed(order, v, 8)) == v
  {
    Pow2Values();
    EncodedValue(order, v, 8);
  }

  lemma Halves(s: seq<byte>, v: uint64)
    requires |s| == 8 && LsbValue(s) == v
    ensures LsbValue(s[..4]) == v % TWO_32 && LsbValue(s[4..]) == v / TWO_32
  {
    hide LsbValue;
    UnfoldLow(s);
    UnfoldFour(s[..4]);
    Pow2Values();
    ValueBound(Lsb, s[..4]);
  }

  /** Half of a location under one of the four encodings of four bytes: signed or not, relative to its place
      or not. */
  function HalfRead(encode: byte, pc: nat, v: uint32): uint64 {
    var x: int := if encode % 16 == 0x0b then SignExtend(v) else v;
    if encode / 16 == 1 then ToU64(pc + x) else x
  }

  /** An FDE with absolute pointers of eight bytes, under a CIE without augmentation data, read while the
      structure still holds an encoding of four bytes from an earlier CIE: the two halves of the location are
      taken for location and range. */
  lemma StaleEncodingMisreads(e: Section, off: nat, c: CieData, f: FdeData, f0: Fde, cie: Cie, end: nat)
    requires e.order.Lsb? && e.pointerSize == 8 && Lies(e, off, FdeTail(e, off, c, f))
    requires !c.augmented && DescribesRest(e, cie, c) && cie.fdeEncode in {0x03, 0x0b, 0x13, 0x1b}
    ensures var r := FdeRest(e, f0, off, end, cie);
      && r.Ok? && r.value.initloc == HalfRead(cie.fdeEncode, e.addr + off, f.loc % TWO_32)
      && r.value.adrange == HalfRead(cie.fdeEncode, 0, f.loc / TWO_32)
    ensures cie.fdeEncode == 0x03 ==>
      (var r := FdeRest(e, f0, off, end, cie);
       r.value.initloc == f.loc && r.value.adrange == f.range <==> f.loc < TWO_32 && f.range == 0)
  {
    hide Fixed, EncodeFixed, Lies, Encoded, HalfRead, FdeRest, FdeTail;
    TailParts(e, off, c, f);
    PlainPointer(e, c, e.addr + off, f.loc);
    TwoHalves(e, off, f.loc);
    HalfEncoded(e, off, cie.fdeEncode, e.addr + off, f.loc % TWO_32);
    HalfEncoded(e, off + 4, cie.fdeEncode, 0, f.loc / TWO_32);
    FdeRestStep(e, f0, off, end, cie, (HalfRead(cie.fdeEncode, e.addr + off, f.loc % TWO_32), 4),
                (HalfRead(cie.fdeEncode, 0, f.loc / TWO_32), 4));
    HalfPlain(e.addr + off, f.loc % TWO_32);
    HalfPlain(0, f.loc / TWO_32);
  }

  lemma PlainPointer(e: Section, c: CieData, pc: nat, x: uint64)
    requires !c.augmented && e.pointerSize == 8
    ensures EncodePointer(e, FdeEncoding(c), pc, x) == EncodeFixed(e.order, x, 8)
  {
    hide EncodeFixed;
  }

  lemma HalfEncoded(e: Section, off: nat, encode: byte, pc: nat, v: uint32)
    requires encode in {0x03, 0x0b, 0x13, 0x1b} && Fixed(e, off, 4) == Got(v, 4)
    ensures encode != DW_EH_PE_OMIT && Encoded(e, off, encode, pc) == Ok((HalfRead(encode, pc, v), 4))
  {
    hide Fixed, SignExtend, ToU64;
  }

  lemma HalfPlain(pc: nat, v: uint32)
    ensures HalfRead(0x03, pc, v) == v
  {
  }
}
