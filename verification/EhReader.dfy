/** The routines of libdwarf_frame.c that walk .eh_frame, with the structures they fill and the cursor
    they move. */
module EhReader {
  import opened Machine
  import opened Leb128
  import opened FixedWidth
  import opened EhFrame

  // ----- reading numbers of the section -----

  method ReadWord(e: Section, offset: nat, n: int) returns (ret: uint64, next: nat)
    requires Fixed(e, offset, n).Got?
    ensures offset <= next <= |e.data| && Fixed(e, offset, n) == Got(ret, next - offset)
  {
    ret, next := ReadAt(e.order, e.data, offset, n);
  }

  lemma FourBytes(e: Section, offset: nat)
    ensures Fixed(e, offset, 4).Got? ==> Fixed(e, offset, 4).size == 4
  {
  }

  method ReadUnsigned(e: Section, offset: nat) returns (ret: uint64, next: nat)
    requires Unsigned(e, offset).Got?
    ensures offset <= next <= |e.data| && Unsigned(e, offset) == Got(ret, next - offset)
  {
    ret, next := ReadUleb128(e.data, offset);
  }

  method ReadSigned(e: Section, offset: nat) returns (ret: int64, next: nat)
    requires EhFrame.Signed(e, offset).Got?
    ensures offset <= next <= |e.data| && EhFrame.Signed(e, offset) == Got(ret, next - offset)
  {
    ret, next := ReadSleb128(e.data, offset);
  }

  method ReadLength(e: Section, offset: nat) returns (length: uint64, dwarfSize: nat, next: nat)
    requires Length(e, offset).Got?
    ensures offset <= next <= |e.data| && Length(e, offset) == Got((length, dwarfSize), next - offset)
  {
    length, next := ReadWord(e, offset, 4);
    dwarfSize := 4;
    if length == 0xffff_ffff {
      dwarfSize := 8;
      length, next := ReadWord(e, next, 8);
    }
  }

  /** The switch on the format of an encoded value. */
  method ReadFormat(e: Section, offset: nat, format: byte) returns (ret: int, val: uint64, next: nat)
    requires !PlainEncoded(e, offset, format).Fault?
    ensures match PlainEncoded(e, offset, format)
      case Fail(code) => ret == code != DW_DLE_NONE
      case Ok(v) => ret == DW_DLE_NONE && val == v.0 && offset <= next && next - offset == v.1
  {
    hide Fixed, Unsigned, EhFrame.Signed;
    ret, val, next := DW_DLE_NONE, 0, offset;
    match format
    case 0x00 => val, next := ReadWord(e, offset, e.pointerSize);
    case 0x01 => val, next := ReadUnsigned(e, offset);
    case 0x02 => val, next := ReadWord(e, offset, 2);
    case 0x03 => val, next := ReadWord(e, offset, 4);
    case 0x04 => val, next := ReadWord(e, offset, 8);
    case 0x09 =>
      var s;
      s, next := ReadSigned(e, offset);
      val := ToU64(s);
    case 0x0a =>
      val, next := ReadWord(e, offset, 2);
      val := if val % 0x1_0000 < 0x8000 then val % 0x1_0000 else val % 0x1_0000 + (TWO_64 - 0x1_0000);
    case 0x0b =>
      val, next := ReadWord(e, offset, 4);
      val := SignExtend(val % TWO_32);
    case 0x0c => val, next := ReadWord(e, offset, 8);
    case _ => ret := DW_DLE_FRAME_AUGMENTATION_UNKNOWN;
  }

  /** `_dwarf_frame_read_lsb_encoded`; an omitted pointer leaves the value and the cursor alone. */
  method ReadLsbEncoded(e: Section, before: uint64, offset: nat, encode: byte, pc: nat)
    returns (ret: int, val: uint64, next: nat)
    requires encode != DW_EH_PE_OMIT ==> !Encoded(e, offset, encode, pc).Fault?
    ensures encode == DW_EH_PE_OMIT ==> ret == DW_DLE_NONE && val == before && next == offset
    ensures encode != DW_EH_PE_OMIT ==>
      match Encoded(e, offset, encode, pc)
      case Fail(code) => ret == code != DW_DLE_NONE
      case Ok(v) => ret == DW_DLE_NONE && val == v.0 && offset <= next && next - offset == v.1
  {
    hide PlainEncoded;
    if encode == DW_EH_PE_OMIT {
      return DW_DLE_NONE, before, offset;
    }
    var application, format := encode / 16 * 16, encode % 16;
    ret, val, next := ReadFormat(e, offset, format);
    if ret == DW_DLE_NONE && application == DW_EH_PE_PCREL && format != DW_EH_PE_ABSPTR {
      val := ToU64(pc + val);
    }
  }

  /** Adding the length of the code to its start lands at the end of the entry, also when the code
      would start behind it. */
  lemma Lands(start: nat, end: uint64)
    ensures ToU64(start + ToU64(end - start)) == end
  {
  }

  /** A routine reports what it should: its error code, or success with the structure filled and the
      cursor at the end of the entry. */
  predicate Reports<T(==)>(r: Res<T>, ret: int, filled: T, next: nat, end: nat) {
    match r
    case Fault => false
    case Fail(code) => ret == code != DW_DLE_NONE
    case Ok(v) => ret == DW_DLE_NONE && filled == v && next == end
  }

  /** `dbg` and the two structures as far as the walk uses them. */
  class Reader {
    const sec: Section
    var ehOffset: nat
    var cie: Cie
    var fde: Fde

    constructor (sec: Section, ehOffset: nat, cie: Cie)
      ensures this.sec == sec && this.ehOffset == ehOffset && this.cie == cie && fde == NO_FDE
    {
      this.sec, this.ehOffset, this.cie, fde := sec, ehOffset, cie, NO_FDE;
    }

    /** `_dwarf_frame_parse_lsb_cie_augment`. */
    method ParseAugment() returns (ret: int)
      requires cie.augment >= 0 && !Augmented(sec, cie.augment + 1, cie.augdata, cie.fdeEncode).Fault?
      modifies `cie
      ensures match old(Augmented(sec, cie.augment + 1, cie.augdata, cie.fdeEncode))
        case Fail(code) => ret == code != DW_DLE_NONE
        case Ok(encode) => ret == DW_DLE_NONE && cie == old(cie).(fdeEncode := encode)
    {
      hide Encoded;
      ghost var goal := Augmented(sec, cie.augment + 1, cie.augdata, cie.fdeEncode);
      ghost var was := cie;
      var augP: nat, augdataP: nat := cie.augment + 1, cie.augdata;
      var val: uint64 := 0;
      while sec.data[augP] != 0
        invariant augP < |sec.data| && cie == was.(fdeEncode := cie.fdeEncode)
        invariant Augmented(sec, augP, augdataP, cie.fdeEncode) == goal
        decreases |sec.data| - augP
      {
        if sec.data[augP] == CHAR_L {
          augdataP := augdataP + 1;
        } else if sec.data[augP] == CHAR_P {
          var encode := sec.data[augdataP];
          ret, val, augdataP := ReadLsbEncoded(sec, val, augdataP + 1, encode, 0);
          if ret != DW_DLE_NONE {
            return;
          }
        } else if sec.data[augP] == CHAR_R {
          cie := cie.(fdeEncode := sec.data[augdataP]);
          augdataP := augdataP + 1;
        } else {
          return DW_DLE_FRAME_AUGMENTATION_UNKNOWN;
        }
        augP := augP + 1;
      }
      ret := DW_DLE_NONE;
    }

    /** The loop that skips the augmentation string. */
    method SkipString(offset: nat) returns (next: nat)
      requires StringEnd(sec.data, offset).Got?
      ensures StringEnd(sec.data, offset) == Got(next, 0)
    {
      next := offset;
      while sec.data[next] != 0
        invariant next < |sec.data| && StringEnd(sec.data, next) == StringEnd(sec.data, offset)
        decreases |sec.data| - next
      {
        next := next + 1;
      }
      next := next + 1;
    }

    /** strstr(augment, "eh") != NULL, as a scan. */
    method ContainsEh(offset: nat) returns (found: bool)
      requires StringEnd(sec.data, offset).Got?
      ensures found == HasEh(sec.data, offset)
    {
      var i := offset;
      while sec.data[i] != 0
        invariant i < |sec.data| && StringEnd(sec.data, i) == StringEnd(sec.data, offset)
        invariant HasEh(sec.data, i) == HasEh(sec.data, offset)
        decreases |sec.data| - i
      {
        if sec.data[i] == CHAR_E && sec.data[i + 1] == CHAR_H {
          return true;
        }
        i := i + 1;
      }
      found := false;
    }

    /** The factors and the return-address register. */
    method ReadFactors(offset: nat) returns (next: nat)
      requires Factors(sec, cie.version, offset).Got?
      modifies `cie
      ensures var r := old(Factors(sec, cie.version, offset));
        && cie == old(cie).(caf := r.value.0, daf := r.value.1, ra := r.value.2)
        && next == offset + r.size
    {
      hide Unsigned, EhFrame.Signed, Fixed;
      var caf, daf, ra;
      caf, next := ReadUnsigned(sec, offset);
      daf, next := ReadSigned(sec, next);
      if cie.version == 1 {
        ra, next := ReadWord(sec, next, 1);
      } else {
        ra, next := ReadUnsigned(sec, next);
      }
      cie := cie.(caf := caf, daf := daf, ra := ra);
    }

    /** `_dwarf_frame_set_cie` behind the augmentation string. */
    method FinishCie(offset: nat, end: nat) returns (ret: int, next: nat)
      requires 0 <= cie.augment < |sec.data| && StringEnd(sec.data, cie.augment).Got?
      requires end <= |sec.data| < TWO_64 && !CieRest(sec, cie, offset, end).Fault?
      modifies `cie
      ensures Reports(old(CieRest(sec, cie, offset, end)), ret, cie, next, end)
    {
      hide Factors, Unsigned, Fixed, Augmented, HasEh, StringEnd;
      next := offset;
      var eh := ContainsEh(cie.augment);
      if eh {
        var ehdata;
        ehdata, next := ReadWord(sec, next, sec.pointerSize);
        cie := cie.(ehdata := ehdata);
      }
      next := ReadFactors(next);
      if sec.data[cie.augment] == CHAR_Z {
        var auglen;
        auglen, next := ReadUnsigned(sec, next);
        cie := cie.(auglen := auglen, augdata := next, fdeEncode := DW_EH_PE_ABSPTR);
        next := next + auglen;
        ret := ParseAugment();
        if ret != DW_DLE_NONE {
          return;
        }
      }
      cie := cie.(initinst := next, instlen := ToU64(end - next));
      Lands(next, end);
      ret, next := DW_DLE_NONE, ToU64(next + cie.instlen);
    }

    /** `_dwarf_frame_set_cie`. */
    method ReadCie(offset: nat) returns (ret: int, next: nat)
      requires |sec.data| < TWO_64 && Length(sec, offset).Got?
      requires EntryEnd(offset, Length(sec, offset).value) <= |sec.data| ==>
        !SetCie(sec, offset, Length(sec, offset).value, cie).Fault?
      modifies `cie
      ensures var l := Length(sec, offset).value;
        if EntryEnd(offset, l) > |sec.data| then ret == DW_DLE_DEBUG_FRAME_LENGTH_BAD
        else Reports(old(SetCie(sec, offset, l, cie)), ret, cie, next, EntryEnd(offset, l))
    {
      hide Fixed, Length, StringEnd, CieRest;
      cie := cie.(offset := offset);
      var length, dwarfSize;
      length, dwarfSize, next := ReadLength(sec, offset);
      if length > |sec.data| - next {
        return DW_DLE_DEBUG_FRAME_LENGTH_BAD, next;
      }
      var end := next + length;
      next := next + dwarfSize;
      cie := cie.(length := length);
      var version;
      version, next := ReadWord(sec, next, 1);
      cie := cie.(version := version);
      if cie.version != 1 && cie.version != 3 && cie.version != 4 {
        return DW_DLE_FRAME_VERSION_BAD, next;
      }
      cie := cie.(augment := next);
      next := SkipString(next);
      if sec.data[cie.augment] != 0 && sec.data[cie.augment] != CHAR_Z {
        return DW_DLE_NONE, end;
      }
      ret, next := FinishCie(next, end);
    }

    /** `_dwarf_frame_set_fde` from the location on. */
    method FinishFde(offset: nat, end: nat) returns (ret: int, next: nat)
      requires end <= |sec.data| < TWO_64 && !FdeRest(sec, fde, offset, end, cie).Fault?
      modifies `fde
      ensures Reports(old(FdeRest(sec, fde, offset, end, cie)), ret, fde, next, end)
    {
      hide Encoded, Unsigned;
      next := offset;
      var val: uint64 := 0;
      ret, val, next := ReadLsbEncoded(sec, val, next, cie.fdeEncode, sec.addr + next);
      if ret != DW_DLE_NONE {
        return;
      }
      fde := fde.(initloc := val);
      ret, val, next := ReadLsbEncoded(sec, val, next, cie.fdeEncode, 0);
      if ret != DW_DLE_NONE {
        return;
      }
      fde := fde.(adrange := val);
      if sec.data[cie.augment] == CHAR_Z {
        var auglen;
        auglen, next := ReadUnsigned(sec, next);
        fde := fde.(auglen := auglen, augdata := next);
        next := next + auglen;
      }
      fde := fde.(inst := next, instlen := ToU64(end - next));
      Lands(next, end);
      ret, next := DW_DLE_NONE, ToU64(next + fde.instlen);
    }

    /** `_dwarf_frame_set_fde` for .eh_frame. */
    method ReadFde(offset: nat) returns (ret: int, next: nat)
      requires |sec.data| < TWO_64 && Length(sec, offset).Got?
      requires EntryEnd(offset, Length(sec, offset).value) <= |sec.data| ==>
        !SetFde(sec, offset, Length(sec, offset).value, fde, cie).Fault?
      modifies `fde
      ensures var l := Length(sec, offset).value;
        if EntryEnd(offset, l) > |sec.data| then ret == DW_DLE_DEBUG_FRAME_LENGTH_BAD
        else Reports(old(SetFde(sec, offset, l, fde, cie)), ret, fde, next, EntryEnd(offset, l))
    {
      hide Fixed, Length, FdeRest;
      fde := fde.(offset := offset);
      var length, dwarfSize;
      length, dwarfSize, next := ReadLength(sec, offset);
      if length > |sec.data| - next {
        return DW_DLE_DEBUG_FRAME_LENGTH_BAD, next;
      }
      var end := next + length;
      fde := fde.(length := length);
      var ptr: int;
      FourBytes(sec, next);
      ptr, next := ReadWord(sec, next, 4);
      fde := fde.(cieoff := ptr);
      var cieoff := ToU64(next - (4 + ptr));
      if cieoff == fde.offset {
        return DW_DLE_NO_CIE_FOR_FDE, next;
      }
      ret, next := FinishFde(next, end);
    }

    /** `_dwarf_get_next_fde` for .eh_frame: the entry at the cursor, which moves behind it. */
    method GetNextFde() returns (ret: int)
      requires |sec.data| < TWO_64
      requires ehOffset < |sec.data| ==> !NextEntry(sec, ehOffset, cie, fde).Undefined?
      modifies this
      ensures old(ehOffset) >= |sec.data| ==> ret == 0 && unchanged(this)
      ensures old(ehOffset) < |sec.data| ==>
        match old(NextEntry(sec, ehOffset, cie, fde))
        case Stop => ret == -1 && ehOffset == old(ehOffset)
        case BadLength => ret == DW_DLE_DEBUG_FRAME_LENGTH_BAD && unchanged(this)
        case CieRead(c, end) => ret == 0 && cie == c && fde == old(fde) && ehOffset == end
        case FdeRead(f, end) => ret == 0 && fde == f && cie == old(cie) && ehOffset == end
    {
      hide Fixed, Length, SetCie, SetFde;
      if ehOffset < |sec.data| {
        var entryOff := ehOffset;
        var length, dwarfSize, offset := ReadLength(sec, ehOffset);
        if length > |sec.data| - offset {
          return DW_DLE_DEBUG_FRAME_LENGTH_BAD;
        }
        if length == 0 {
          return -1;
        }
        var cieId;
        cieId, offset := ReadWord(sec, offset, dwarfSize);
        if cieId == 0 {
          ret, entryOff := ReadCie(entryOff);
        } else {
          ret, entryOff := ReadFde(entryOff);
        }
        if ret != DW_DLE_NONE {
          return -1;
        }
        ehOffset := entryOff;
      }
      return 0;
    }

    /** One turn of the loop of `dwarf_get_fde_at_pc`: go on, or end with an outcome. */
    method SearchTurn(pc: uint64) returns (ended: bool, ret: int, lopc: uint64, hipc: uint64)
      requires |sec.data| < TWO_64 && ehOffset < |sec.data|
      requires !NextEntry(sec, ehOffset, cie, fde).Undefined?
      modifies this
      ensures match old(Turn(sec, Going(ehOffset, cie, fde), pc))
        case Broken => false
        case Going(off, c, f) => !ended && ehOffset == off && cie == c && fde == f
        case Ended(w) =>
          && ended
          && match w
             case NoEntry(off) => ret == DW_DLV_NO_ENTRY && ehOffset == off
             case Found(f, c, next) =>
               && ret == DW_DLV_OK && fde == f && cie == c && ehOffset == next
               && lopc == f.initloc && hipc == ToU64(f.initloc + f.adrange - 1)
             case _ => false
    {
      hide NextEntry;
      ended, lopc, hipc := true, 0, 0;
      ret := GetNextFde();
      if ret < 0 {
        ret := DW_DLV_NO_ENTRY;
      } else if pc >= fde.initloc && pc < ToU64(fde.initloc + fde.adrange) {
        ret, lopc, hipc := DW_DLV_OK, fde.initloc, ToU64(fde.initloc + fde.adrange - 1);
      } else {
        ended := false;
      }
    }

    /** `dwarf_get_fde_at_pc`: the FDE starts zeroed, the CIE and the cursor as the last call left them. The
        loop ends because the walk does. */
    method GetFdeAtPc(pc: uint64) returns (ret: int, lopc: uint64, hipc: uint64)
      requires |sec.data| < TWO_64
      requires var w := WalkFrom(sec, ehOffset, cie, NO_FDE, pc); w.NoEntry? || w.Found?
      modifies this
      ensures match old(WalkFrom(sec, ehOffset, cie, NO_FDE, pc))
        case NoEntry(off) => ret == DW_DLV_NO_ENTRY && ehOffset == off
        case Found(f, c, next) =>
          && ret == DW_DLV_OK && fde == f && cie == c && ehOffset == next
          && lopc == f.initloc && hipc == ToU64(f.initloc + f.adrange - 1)
        case _ => false
    {
      hide NextEntry;
      ghost var goal := WalkFrom(sec, ehOffset, cie, NO_FDE, pc);
      fde := NO_FDE;
      lopc, hipc := 0, 0;
      while ehOffset < |sec.data|
        invariant WalkFrom(sec, ehOffset, cie, fde, pc) == goal
        decreases |sec.data| - ehOffset
      {
        var ended;
        ended, ret, lopc, hipc := SearchTurn(pc);
        if ended {
          return;
        }
      }
      ret := DW_DLV_NO_ENTRY;
    }
  }
}
