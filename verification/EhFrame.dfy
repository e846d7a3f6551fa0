/** The .eh_frame section (section 10.6 of LSB Core 5.0): reading CIEs and FDEs into their structures
    and the walk of `dwarf_get_fde_at_pc`. */
module EhFrame {
  import opened Machine
  import opened Leb128
  import opened FixedWidth

  const DW_DLV_OK := 0
  const DW_DLV_NO_ENTRY := -1
  const DW_DLE_NONE := 0
  const DW_DLE_DEBUG_FRAME_LENGTH_BAD := 18
  const DW_DLE_NO_CIE_FOR_FDE := 19
  const DW_DLE_FRAME_AUGMENTATION_UNKNOWN := 20
  const DW_DLE_FRAME_VERSION_BAD := 22

  const DW_EH_PE_ABSPTR := 0x00
  const DW_EH_PE_OMIT := 0xff
  const DW_EH_PE_PCREL := 0x10

  const CHAR_Z := 122
  const CHAR_L := 76
  const CHAR_P := 80
  const CHAR_R := 82
  const CHAR_E := 101
  const CHAR_H := 104

  /** The section: its bytes, its address, and how numbers and pointers are read. */
  datatype Section = Section(order: Endian, pointerSize: int, data: seq<byte>, addr: nat)

  /** `struct _Dwarf_Cie`; pointers into the section are offsets, and -1 is NULL. */
  datatype Cie = Cie(offset: nat, length: uint64, version: nat, augment: int, ehdata: uint64, caf: uint64, daf: int64,
                     ra: uint64, auglen: uint64, augdata: nat, fdeEncode: byte, initinst: nat, instlen: uint64)

  /** `struct _Dwarf_Fde`. */
  datatype Fde = Fde(offset: nat, length: uint64, cieoff: uint64, initloc: uint64, adrange: uint64, auglen: uint64,
                     augdata: nat, inst: nat, instlen: uint64)

  const NO_FDE := Fde(0, 0, 0, 0, 0, 0, 0, 0, 0)

  /** A result that can also be one of the routine's own error codes. */
  datatype Res<+T> = Fault | Fail(code: int) | Ok(value: T)

  // ----- numbers -----

  function Fixed(e: Section, off: nat, n: int): (r: Read<uint64>)
    ensures r.Got? ==> off + r.size <= |e.data|
  {
    if off > |e.data| then Read.Fault
    else
      FixedExtend(e.order, e.data[off..], [], n);
      assert e.data[off..] + [] == e.data[off..];
      ReadFixed(e.order, e.data[off..], n)
  }

  function Unsigned(e: Section, off: nat): (r: Read<uint64>)
    ensures r.Got? ==> off + r.size <= |e.data|
  {
    if off > |e.data| then Read.Fault else Uleb(e.data[off..])
  }

  function Signed(e: Section, off: nat): (r: Read<int64>)
    ensures r.Got? ==> off + r.size <= |e.data|
  {
    if off > |e.data| then Read.Fault else Sleb(e.data[off..])
  }

  /** A value under the low four bits of a pointer encoding. */
  function PlainEncoded(e: Section, off: nat, low: byte): Res<(uint64, nat)> {
    if low == 0x01 then
      match Unsigned(e, off)
      case Fault => Res.Fault
      case Got(v, n) => Ok((v, n))
    else if low == 0x09 then
      match Signed(e, off)
      case Fault => Res.Fault
      case Got(v, n) => Ok((ToU64(v), n))
    else if low in {0x00, 0x02, 0x03, 0x04, 0x0a, 0x0b, 0x0c} then
      match Fixed(e, off, EncodedWidth(e, low))
      case Fault => Res.Fault
      case Got(v, n) => Ok((WidenSigned(low, v), n))
    else Fail(DW_DLE_FRAME_AUGMENTATION_UNKNOWN)
  }

  function EncodedWidth(e: Section, low: byte): int {
    if low == 0x00 then e.pointerSize
    else if low == 0x02 || low == 0x0a then 2
    else if low == 0x03 || low == 0x0b then 4
    else 8
  }

  /** The casts to int16_t and int32_t. */
  function WidenSigned(low: byte, v: uint64): uint64 {
    if low == 0x0a then (if v % 0x1_0000 < 0x8000 then v % 0x1_0000 else v % 0x1_0000 + (TWO_64 - 0x1_0000))
    else if low == 0x0b then SignExtend(v % TWO_32)
    else v
  }

  /** `_dwarf_frame_read_lsb_encoded`, except for DW_EH_PE_omit: of the applications only pcrel is
      applied, and not to absolute pointers. */
  function Encoded(e: Section, off: nat, encode: byte, pc: nat): Res<(uint64, nat)>
    requires encode != DW_EH_PE_OMIT
  {
    match PlainEncoded(e, off, encode % 16)
    case Fault => Res.Fault
    case Fail(code) => Fail(code)
    case Ok(v) => Ok((if encode / 16 == 1 && encode % 16 != 0 then ToU64(pc + v.0) else v.0, v.1))
  }

  // ----- CIEs -----

  /** Position behind the terminating NUL of the string at off. */
  function StringEnd(data: seq<byte>, off: nat): (r: Read<nat>)
    ensures r.Got? ==> off < r.value <= |data|
    decreases |data| - off
  {
    if off >= |data| then Read.Fault else if data[off] == 0 then Got(off + 1, 0) else StringEnd(data, off + 1)
  }

  /** strstr(augment, "eh") != NULL. */
  predicate HasEh(data: seq<byte>, off: nat)
    decreases |data| - off
  {
    off + 1 < |data| && data[off] != 0 && ((data[off] == CHAR_E && data[off + 1] == CHAR_H) || HasEh(data, off + 1))
  }

  /** `_dwarf_frame_parse_lsb_cie_augment` from a letter and its data on: the encoding of FDE
      pointers, or the one given when there is no R. */
  function Augmented(e: Section, letter: nat, augdata: nat, encode: byte): Res<byte>
    decreases |e.data| - letter
  {
    if letter >= |e.data| then Res.Fault
    else if e.data[letter] == 0 then Ok(encode)
    else if e.data[letter] == CHAR_L then Augmented(e, letter + 1, augdata + 1, encode)
    else if e.data[letter] == CHAR_P then
      if augdata >= |e.data| then Res.Fault
      else if e.data[augdata] == DW_EH_PE_OMIT then Augmented(e, letter + 1, augdata + 1, encode)
      else
        match Encoded(e, augdata + 1, e.data[augdata], 0)
        case Fault => Res.Fault
        case Fail(code) => Fail(code)
        case Ok(v) => Augmented(e, letter + 1, augdata + 1 + v.1, encode)
    else if e.data[letter] == CHAR_R then
      if augdata >= |e.data| then Res.Fault else Augmented(e, letter + 1, augdata + 1, e.data[augdata])
    else Fail(DW_DLE_FRAME_AUGMENTATION_UNKNOWN)
  }

  /** The length field: its value, the size of offsets, and where it ends. */
  function Length(e: Section, off: nat): (r: Read<(uint64, nat)>)
    ensures r.Got? ==> off + r.size <= |e.data| && (r.value.1 == 4 || r.value.1 == 8)
    ensures r.Got? ==> r.size == if r.value.1 == 4 then 4 else 12
  {
    match Fixed(e, off, 4)
    case Fault => Read.Fault
    case Got(word, n) =>
      if word != 0xffff_ffff then Got((word, 4), n)
      else
        match Fixed(e, off + 4, 8)
        case Fault => Read.Fault
        case Got(long, m) => Got((long, 8), n + m)
  }

  /** Where the entry at off ends: behind its length field and its length. */
  function EntryEnd(off: nat, l: (uint64, nat)): nat {
    off + (if l.1 == 4 then 4 else 12) + l.0
  }

  /** The alignment factors, the return-address register and where they end. */
  function Factors(e: Section, version: nat, off: nat): Read<(uint64, int64, uint64)> {
    match Unsigned(e, off)
    case Fault => Read.Fault
    case Got(caf, a) =>
      match Signed(e, off + a)
      case Fault => Read.Fault
      case Got(daf, b) =>
        match (if version == 1 then Fixed(e, off + a + b, 1) else Unsigned(e, off + a + b))
        case Fault => Read.Fault
        case Got(ra, c) => Got((caf, daf, ra), a + b + c)
  }

  /** `_dwarf_frame_set_cie` behind the augmentation string; `end` is where the entry ends. The
      encoding of a CIE without augmentation data stays what the structure held before. */
  function CieRest(e: Section, c: Cie, off: nat, end: nat): Res<Cie>
    requires 0 <= c.augment < |e.data|
  {
    match (if HasEh(e.data, c.augment) then Fixed(e, off, e.pointerSize) else Got(c.ehdata, 0))
    case Fault => Res.Fault
    case Got(ehdata, h) =>
      match Factors(e, c.version, off + h)
      case Fault => Res.Fault
      case Got(f, n) =>
        var c1 := c.(ehdata := ehdata, caf := f.0, daf := f.1, ra := f.2);
        var o := off + h + n;
        if e.data[c.augment] != CHAR_Z then Ok(c1.(initinst := o, instlen := ToU64(end - o)))
        else
          match Unsigned(e, o)
          case Fault => Res.Fault
          case Got(auglen, m) =>
            match Augmented(e, c.augment + 1, o + m, DW_EH_PE_ABSPTR)
            case Fault => Res.Fault
            case Fail(code) => Fail(code)
            case Ok(encode) =>
              var i := o + m + auglen;
              Ok(c1.(auglen := auglen, augdata := o + m, fdeEncode := encode, initinst := i, instlen := ToU64(end - i)))
  }

  /** `_dwarf_frame_set_cie` on an entry whose length is known to fit: the structure after it. */
  function SetCie(e: Section, off: nat, l: (uint64, nat), before: Cie): Res<Cie> {
    var start := off + (if l.1 == 4 then 4 else 12) + l.1;
    match Fixed(e, start, 1)
    case Fault => Res.Fault
    case Got(version, n) =>
      if version != 1 && version != 3 && version != 4 then Fail(DW_DLE_FRAME_VERSION_BAD)
      else
        match StringEnd(e.data, start + n)
        case Fault => Res.Fault
        case Got(o, _) =>
          var c := before.(offset := off, length := l.0, version := version, augment := start + n);
          if e.data[start + n] != 0 && e.data[start + n] != CHAR_Z then Ok(c) else CieRest(e, c, o, EntryEnd(off, l))
  }

  // ----- FDEs -----

  /** `_dwarf_frame_set_fde` from the encoded location on, under a given CIE. */
  function FdeRest(e: Section, f: Fde, off: nat, end: nat, cie: Cie): Res<Fde> {
    if cie.fdeEncode == DW_EH_PE_OMIT || !(0 <= cie.augment < |e.data|) then Res.Fault
    else
      match Encoded(e, off, cie.fdeEncode, e.addr + off)
      case Fault => Res.Fault
      case Fail(code) => Fail(code)
      case Ok(loc) =>
        match Encoded(e, off + loc.1, cie.fdeEncode, 0)
        case Fault => Res.Fault
        case Fail(code) => Fail(code)
        case Ok(range) =>
          var f1 := f.(initloc := loc.0, adrange := range.0);
          var o := off + loc.1 + range.1;
          if e.data[cie.augment] != CHAR_Z then Ok(f1.(inst := o, instlen := ToU64(end - o)))
          else
            match Unsigned(e, o)
            case Fault => Res.Fault
            case Got(auglen, n) =>
              var i := o + n + auglen;
              Ok(f1.(auglen := auglen, augdata := o + n, inst := i, instlen := ToU64(end - i)))
  }

  /** `_dwarf_frame_set_fde`; the CIE pointer is always read as four bytes. */
  function SetFde(e: Section, off: nat, l: (uint64, nat), before: Fde, cie: Cie): Res<Fde> {
    var start := off + (if l.1 == 4 then 4 else 12);
    match Fixed(e, start, 4)
    case Fault => Res.Fault
    case Got(ptr, n) =>
      if ToU64(start - ptr) == off then Fail(DW_DLE_NO_CIE_FOR_FDE)
      else FdeRest(e, before.(offset := off, length := l.0, cieoff := ptr), start + n, EntryEnd(off, l), cie)
  }

  // ----- the walk -----

  /** What one call of `_dwarf_get_next_fde` makes of the entry at the cursor. */
  datatype Entry = Undefined | Stop | BadLength | CieRead(cie: Cie, end: nat) | FdeRead(fde: Fde, end: nat)

  function NextEntry(e: Section, off: nat, cie: Cie, fde: Fde): (r: Entry)
    requires off < |e.data|
    ensures r.CieRead? || r.FdeRead? ==> off < r.end <= |e.data|
  {
    match Length(e, off)
    case Fault => Undefined
    case Got(l, n) =>
      if l.0 > |e.data| - (off + n) then BadLength
      else if l.0 == 0 then Stop
      else
        match Fixed(e, off + n, l.1)
        case Fault => Undefined
        case Got(id, _) =>
          if id == 0 then
            match SetCie(e, off, l, cie)
            case Fault => Undefined
            case Fail(_) => Stop
            case Ok(c) => CieRead(c, EntryEnd(off, l))
          else
            match SetFde(e, off, l, fde, cie)
            case Fault => Undefined
            case Fail(_) => Stop
            case Ok(f) => FdeRead(f, EntryEnd(off, l))
  }

  /** The range test, with the sum taken in 64 bits. */
  predicate Holds(fde: Fde, pc: uint64) {
    fde.initloc <= pc < ToU64(fde.initloc + fde.adrange)
  }

  /** Outcome of `dwarf_get_fde_at_pc`: undefined, none, the FDE with the CIE and the cursor behind it, or
      an entry whose bad length keeps the cursor where it is. */
  datatype Walk = Faulted | Stuck(off: nat) | NoEntry(off: nat) | Found(fde: Fde, cie: Cie, next: nat)

  function WalkFrom(e: Section, off: nat, cie: Cie, fde: Fde, pc: uint64): Walk
    decreases |e.data| - off
  {
    if off >= |e.data| then NoEntry(off)
    else
      match NextEntry(e, off, cie, fde)
      case Undefined => Faulted
      case BadLength => if Holds(fde, pc) then Found(fde, cie, off) else Stuck(off)
      case Stop => NoEntry(off)
      case CieRead(c, end) => if Holds(fde, pc) then Found(fde, c, end) else WalkFrom(e, end, c, fde, pc)
      case FdeRead(f, end) => if Holds(f, pc) then Found(f, cie, end) else WalkFrom(e, end, cie, f, pc)
  }

  /** The loop of `dwarf_get_fde_at_pc` between two turns, or after its end. */
  datatype Loop = Going(off: nat, cie: Cie, fde: Fde) | Broken | Ended(w: Walk)

  /** One turn of the loop: the test, the call of `_dwarf_get_next_fde`, and the range test, which a bad
      length does not keep from being made. */
  function Turn(e: Section, l: Loop, pc: uint64): Loop {
    match l
    case Broken => Broken
    case Ended(w) => Ended(w)
    case Going(off, cie, fde) =>
      if off >= |e.data| then Ended(NoEntry(off))
      else
        match NextEntry(e, off, cie, fde)
        case Undefined => Broken
        case Stop => Ended(NoEntry(off))
        case BadLength => Ranged(off, cie, fde, pc)
        case CieRead(c, end) => Ranged(end, c, fde, pc)
        case FdeRead(f, end) => Ranged(end, cie, f, pc)
  }

  function Ranged(off: nat, cie: Cie, fde: Fde, pc: uint64): Loop {
    if Holds(fde, pc) then Ended(Found(fde, cie, off)) else Going(off, cie, fde)
  }

  function Turns(e: Section, l: Loop, pc: uint64, n: nat): Loop
    decreases n
  {
    if n == 0 then l else Turns(e, Turn(e, l, pc), pc, n - 1)
  }
}
