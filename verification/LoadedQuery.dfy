/** The loader and the query together: the bytes behind .debug_info in memory are those behind it in the
    image, as far as its last sectors go, so that the image decides what the query reads there. */
module LoadedQuery {
  import opened Machine
  import opened FixedWidth
  import opened DieReader
  import opened CompUnits
  import opened Kdebug
  import ElfLoad

  /** The version in the bytes of a unit header, behind a length of either size. */
  function VersionIn(order: Endian, s: seq<byte>): nat
    requires |s| >= 23
  {
    Value(order, if Value(order, s[..4]) == 0xffff_ffff then s[12..14] else s[4..6])
  }

  predicate KnownVersion(v: nat) {
    2 <= v <= 4
  }

  /** A header behind the section is taken for that of a unit exactly if its version is known. */
  lemma HeaderTaken(d: Sections, cu: CU)
    requires d.Valid() && d.infoSize + 23 <= |d.info|
    ensures var r := ReadHeader(d, d.infoSize, cu);
      r.Header? && (r.ret == 0 <==> KnownVersion(VersionIn(d.order, d.info[d.infoSize..d.infoSize + 23])))
  {
    hide Value;
    var o := d.infoSize;
    Readable(d, o, 4);
    Readable(d, o + 4, 8);
    Readable(d, o + 4, 2);
    Readable(d, o + 6, 4);
    Readable(d, o + 10, 1);
    Readable(d, o + 12, 2);
    Readable(d, o + 14, 8);
    Readable(d, o + 22, 1);
    SliceOfSlice(d.info, o, 23, 0, 4);
    SliceOfSlice(d.info, o, 23, 4, 6);
    SliceOfSlice(d.info, o, 23, 12, 14);
  }

  lemma SliceOfSlice(info: seq<byte>, o: nat, n: nat, i: nat, j: nat)
    requires i <= j <= n && o + n <= |info|
    ensures info[o..o + n][i..j] == info[o + i..o + j]
  {
    var w := info[o..o + n];
    var s, t := w[i..j], info[o + i..o + j];
    assert forall k :: 0 <= k < |s| ==> s[k] == w[i + k] == t[k];
  }

  lemma Readable(d: Sections, off: nat, n: nat)
    requires Width(n) && off + n <= |d.info|
    ensures var r := ReadFixed(d.order, d.info[off..], n); r.Got? && r.value == Value(d.order, d.info[off..off + n])
  {
    hide Value;
    assert d.info[off..][..n] == d.info[off..off + n];
  }

  /** If the version behind the section is not a known one, the query finds what the section holds. */
  lemma QueryIsSection(d: Sections, cs: seq<CompUnit>, addr: nat, b: Behind)
    requires d.Valid() && d.infoSize + 23 <= |d.info| && AllSearchable(d, cs, 0)
    requires !KnownVersion(VersionIn(d.order, d.info[d.infoSize..d.infoSize + 23]))
    ensures BehindOk(d, b) && Answer(d, cs, 0, addr, b) == FirstFunction(d, cs, 0, addr)
  {
    hide ReadHeader, AllSearchable, FirstFunction, VersionIn, PlaceOk;
    HeaderTaken(d, b.home.cu);
  }

  /** The bytes of the image behind .debug_info. */
  function ImageBehind(image: ElfLoad.Bytes, s: ElfLoad.Sec): (r: seq<byte>)
    ensures |r| == 23
  {
    ElfLoad.Slice(image, s.offset + s.size, 23)
  }

  /** After loading, the query's answer is that of the section alone, if a header's worth of bytes behind it
      is left in its last sectors and these do not hold a known version in the image. */
  lemma QueryAfterLoading(m: seq<byte>, image: ElfLoad.Bytes, info: seq<ElfLoad.DwarfSection>,
                          secs: seq<ElfLoad.Sec>, at: nat, j: nat, d: Sections, cs: seq<CompUnit>, addr: nat, b: Behind)
    requires ElfLoad.AllCopied(m, image, secs, at, |secs|) && ElfLoad.DEBUG_INFO < |info|
    requires j < |secs| && secs[j].kind == ElfLoad.DEBUG_INFO
    requires forall l :: j < l < |secs| ==> secs[l].kind != ElfLoad.DEBUG_INFO
    requires secs[j].offset % ElfLoad.SECTSIZE + secs[j].size + 23 <= ElfLoad.Room(secs[j])
    requires var s := ElfLoad.Filled(info, secs, at, |secs|)[ElfLoad.DEBUG_INFO];
      s.data <= |m| && d.info == m[s.data..] && d.infoSize == s.size
    requires d.Valid() && AllSearchable(d, cs, 0) && !KnownVersion(VersionIn(d.order, ImageBehind(image, secs[j])))
    ensures BehindOk(d, b) && Answer(d, cs, 0, addr, b) == FirstFunction(d, cs, 0, addr)
  {
    hide ElfLoad.AllCopied, ElfLoad.Filled, ElfLoad.Room, ElfLoad.Copied, AllSearchable, FirstFunction;
    hide VersionIn, BehindOk, Answer;
    var s := secs[j];
    var data, size := ElfLoad.Filled(info, secs, at, |secs|)[ElfLoad.DEBUG_INFO].data, d.infoSize;
    ElfLoad.SectionsReadable(m, image, info, secs, at, ElfLoad.DEBUG_INFO, j);
    ElfLoad.CopiedPart(m, data, image, s.offset, size + 23, size, 23);
    BytesBehind(m, data + size, image, s);
    assert d.info[size..size + 23] == m[data + size..data + size + 23];
    QueryIsSection(d, cs, addr, b);
  }

  lemma BytesBehind(m: seq<byte>, a: nat, image: ElfLoad.Bytes, s: ElfLoad.Sec)
    requires ElfLoad.Copied(m, a, image, s.offset + s.size, 23)
    ensures a + 23 <= |m| && m[a..a + 23] == ImageBehind(image, s)
  {
  }
}
