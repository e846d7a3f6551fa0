/** Trees of debugging information entries laid out as section 2.3 and 7.5 of DWARF 4 prescribe,
    and the proof that the reader walks the encoded tree as the tree itself. */
module DieTree {
  import opened Machine
  import opened Leb128
  import opened FixedWidth
  import opened AbbrevTable
  import opened DieReader

  /** A unit being read: the sections, its header and the declarations of its abbreviation table. */
  datatype Unit = Unit(d: Sections, cu: CU, decls: seq<Decl>) {
    ghost predicate Ready() {
      && d.Valid() && ValidDecls(decls)
      && cu.abbrevOffset <= |d.abbrev| && EncodeTable(decls) <= d.abbrev[cu.abbrevOffset..]
    }

    /** The bytes `e` lie at `off`, inside the unit and inside the section. */
    ghost predicate Holds(off: nat, e: seq<byte>) {
      && off + |e| <= cu.nextOffset && off + |e| <= d.infoSize <= |d.info|
      && d.info[off..off + |e|] == e
    }
  }

  lemma HoldsSplit(u: Unit, off: nat, a: seq<byte>, b: seq<byte>)
    requires u.Holds(off, a + b)
    ensures u.Holds(off, a) && u.Holds(off + |a|, b)
  {
    var m := u.d.info[off..off + |a + b|];
    assert m[..|a|] == a;
    assert m[|a|..] == b;
  }

  lemma HoldsPrefix(u: Unit, off: nat, e: seq<byte>)
    requires u.Holds(off, e)
    ensures off <= |u.d.info| && e <= u.d.info[off..]
  {
    assert u.d.info[off..][..|e|] == e;
  }

  // ----- attribute values -----

  /** The value of an attribute, apart from its form. */
  datatype Value =
    | Number(n: nat)
    | Integer(i: int)
    | Bytes(data: seq<byte>)
    | Chars(data: seq<byte>)
    | Flag
    | Redirect(form: uint64, inner: Value)

  /** The layout of every form, by its code in section 7.5.4; from version 3 on, a ref_addr is an offset. */
  function StandardLayout(cu: CU, form: uint64): Layout {
    match form
    case 0x01 => Fixed(cu.addrSize)                                          // addr
    case 0x03 => Block(2)                                                    // block2
    case 0x04 => Block(4)                                                    // block4
    case 0x05 => Fixed(2)                                                    // data2
    case 0x06 => Fixed(4)                                                    // data4
    case 0x07 => Fixed(8)                                                    // data8
    case 0x08 => Text                                                        // string
    case 0x09 => BlockLeb                                                    // block
    case 0x0a => Block(1)                                                    // block1
    case 0x0b => Fixed(1)                                                    // data1
    case 0x0c => Fixed(1)                                                    // flag
    case 0x0d => Signed                                                      // sdata
    case 0x0e => TextOffset(cu.dwarfSize)                                    // strp
    case 0x0f => Unsigned                                                    // udata
    case 0x10 => Fixed(if cu.version == 2 then cu.addrSize else cu.dwarfSize) // ref_addr
    case 0x11 => Fixed(1)                                                    // ref1
    case 0x12 => Fixed(2)                                                    // ref2
    case 0x13 => Fixed(4)                                                    // ref4
    case 0x14 => Fixed(8)                                                    // ref8
    case 0x15 => Unsigned                                                    // ref_udata
    case 0x16 => Indirect                                                    // indirect
    case 0x17 => Fixed(cu.dwarfSize)                                         // sec_offset
    case 0x18 => BlockLeb                                                    // exprloc
    case 0x19 => Present                                                     // flag_present
    case 0x20 => Signature                                                   // ref_sig8
    case _ => Unknown
  }

  /** The switch of the code is the standard's table but for the ref_addr of version 4, which it passes by. */
  lemma LayoutExact(cu: CU, form: uint64)
    requires 2 <= cu.version
    ensures LayoutOf(cu, form) == StandardLayout(cu, form) <==> form != 0x10 || cu.version <= 3
    ensures form == 0x10 && cu.version > 3 ==> LayoutOf(cu, form) == Layout.Nothing
  {
  }

  /** The bytes of a value under a layout other than Indirect. */
  function EncodePlain(order: Endian, layout: Layout, v: Value): seq<byte> {
    match (layout, v)
    case (Fixed(n), Number(x)) => EncodeFixed(order, x, n)
    case (TextOffset(n), Number(x)) => EncodeFixed(order, x, n)
    case (Unsigned, Number(x)) => EncodeUleb(x)
    case (Signed, Integer(i)) => EncodeSleb(i)
    case (Block(n), Bytes(b)) => EncodeFixed(order, |b|, n) + b
    case (BlockLeb, Bytes(b)) => EncodeUleb(|b|) + b
    case (Signature, Bytes(b)) => b
    case (Text, Chars(c)) => c + [0]
    case _ => []
  }

  /** The values a layout can carry. */
  ghost predicate FitsPlain(layout: Layout, v: Value) {
    match (layout, v)
    case (Fixed(n), Number(x)) => Width(n) && x < Pow2(8 * n)
    case (TextOffset(n), Number(x)) => Width(n) && x < Pow2(8 * n)
    case (Unsigned, Number(x)) => x < TWO_31
    case (Signed, Integer(i)) => -TWO_31 <= i < TWO_31
    case (Block(n), Bytes(b)) => Width(n) && |b| < Pow2(8 * n)
    case (BlockLeb, Bytes(b)) => |b| < TWO_31
    case (Signature, Bytes(b)) => |b| == 8
    case (Text, Chars(c)) => 0 !in c
    case (Present, Flag) => true
    case _ => false
  }

  /** The two words the reader keeps for a value lying at `off`. */
  function ExpectWords(d: Sections, off: nat, layout: Layout, v: Value): (nat, nat) {
    var p := d.infoBase + off;
    match (layout, v)
    case (TextOffset(n), Number(x)) => (x, d.strBase + x)
    case (_, Number(x)) => (x, 0)
    case (_, Integer(i)) => (ToU64(i), 0)
    case (Block(n), Bytes(b)) => (|b|, p + n)
    case (BlockLeb, Bytes(b)) => (|b|, p + |EncodeUleb(|b|)|)
    case (_, Bytes(b)) => (8, p)
    case (_, Chars(c)) => (p, 0)
    case _ => (1, 0)
  }

  function EncodeAttr(u: Unit, form: uint64, v: Value): seq<byte>
    decreases v
  {
    match v
    case Redirect(inner, w) => EncodeUleb(inner) + EncodeAttr(u, inner, w)
    case _ => EncodePlain(u.d.order, StandardLayout(u.cu, form), v)
  }

  /** The values a form can carry. */
  ghost predicate ValidAttr(u: Unit, form: uint64, v: Value)
    decreases v
  {
    match v
    case Redirect(inner, w) => form == 0x16 && inner < TWO_31 && ValidAttr(u, inner, w)
    case _ => FitsPlain(StandardLayout(u.cu, form), v)
  }

  /** No ref_addr in a unit of version 4. */
  predicate Supported(cu: CU, form: uint64, v: Value)
    decreases v
  {
    match v
    case Redirect(inner, w) => Supported(cu, inner, w)
    case _ => form == 0x10 ==> cu.version == 2 || cu.version == 3
  }

  /** The attribute the reader builds for a value lying at `off`. */
  function ExpectAttr(u: Unit, off: nat, ad: AttrDef, form: uint64, indirect: bool, v: Value): Attribute
    decreases v
  {
    match v
    case Redirect(inner, w) => ExpectAttr(u, off + |EncodeUleb(inner)|, ad, inner, true, w)
    case _ =>
      var words := ExpectWords(u.d, off, StandardLayout(u.cu, form), v);
      MakeAttribute(ad, form, indirect, words.0, words.1)
  }

  lemma {:induction false} StringStops(info: seq<byte>, size: nat, off: nat, c: seq<byte>)
    requires 0 !in c && off + |c| < size <= |info|
    requires info[off..off + |c| + 1] == c + [0]
    ensures StringEnd(info, size, off) == Got(off + |c| + 1, 0)
    decreases |c|
  {
    assert info[off] == (c + [0])[0];
    if c != [] {
      assert info[off + 1..off + |c| + 1] == c[1..] + [0] by {
        assert info[off + 1..off + |c| + 1] == info[off..off + |c| + 1][1..];
        assert (c + [0])[1..] == c[1..] + [0];
      }
      StringStops(info, size, off + 1, c[1..]);
    }
  }

  /** The words and the length of a plain value are those that were encoded. */
  lemma ReadPlain(u: Unit, off: nat, layout: Layout, v: Value)
    requires u.Holds(off, EncodePlain(u.d.order, layout, v)) && FitsPlain(layout, v)
    ensures off <= |u.d.info|
    ensures ReadValue(u.d, off, layout) == Got(ExpectWords(u.d, off, layout, v), |EncodePlain(u.d.order, layout, v)|)
  {
    hide Uleb, Sleb, EncodeUleb, EncodeSleb, ReadFixed, EncodeFixed;
    HoldsPrefix(u, off, EncodePlain(u.d.order, layout, v));
    var s := u.d.info[off..];
    match layout
    case Fixed(n) => FixedRoundTrip(u.d.order, v.n, n, s);
    case TextOffset(n) => FixedRoundTrip(u.d.order, v.n, n, s);
    case Unsigned => UlebRoundTrip(v.n, s);
    case Signed => SlebRoundTrip(v.i, s);
    case Block(n) =>
      PrefixSplit(EncodeFixed(u.d.order, |v.data|, n), v.data, s);
      FixedRoundTrip(u.d.order, |v.data|, n, s);
    case BlockLeb => UlebAt(|v.data|, v.data, s);
    case Text => StringStops(u.d.info, u.d.infoSize, off, v.data);
    case Signature =>
    case Present =>
  }

  lemma PlainLayout(u: Unit, form: uint64, v: Value)
    requires ValidAttr(u, form, v) && !v.Redirect?
    ensures var layout := StandardLayout(u.cu, form);
      && !layout.Unknown? && !layout.Indirect? && !layout.Nothing?
      && (Supported(u.cu, form, v) && 2 <= u.cu.version ==> layout == LayoutOf(u.cu, form))
      && (!Supported(u.cu, form, v) && 2 <= u.cu.version ==> layout.Fixed? && LayoutOf(u.cu, form).Nothing?)
  {
    if 2 <= u.cu.version {
      LayoutExact(u.cu, form);
    }
  }

  /** The words read for a plain value, and that a ref_addr of version 4 is passed by. */
  lemma PlainAttr(u: Unit, off: nat, die: Die, ad: AttrDef, form: uint64, indirect: bool, v: Value)
    requires u.Holds(off, EncodeAttr(u, form, v)) && off <= |u.d.info|
    requires ValidAttr(u, form, v) && 2 <= u.cu.version && !v.Redirect?
    ensures var r := InitAttr(u.d, u.cu, off, die, ad, form, indirect);
      && (Supported(u.cu, form, v) ==>
           r == Filled(AddAttribute(die, ExpectAttr(u, off, ad, form, indirect, v)), off + |EncodeAttr(u, form, v)|))
      && (!Supported(u.cu, form, v) ==> r.Filled? && r.next == off < off + |EncodeAttr(u, form, v)|)
  {
    PlainLayout(u, form, v);
    hide AddAttribute, MakeAttribute, LayoutOf, StandardLayout, EncodePlain, ExpectWords;
    var layout := StandardLayout(u.cu, form);
    if Supported(u.cu, form, v) {
      hide ReadValue, FitsPlain;
      ReadPlain(u, off, layout, v);
    } else {
      FixedLength(u.d.order, layout, v);
    }
  }

  /** Reading an attribute undoes its encoding and consumes exactly its length, with one exception:
      a ref_addr of version 4 is not read at all, so the reader stays where it should advance. */
  lemma {:induction false} AttrRoundTrip(u: Unit, off: nat, die: Die, ad: AttrDef, form: uint64, indirect: bool,
                                         v: Value)
    requires u.Holds(off, EncodeAttr(u, form, v)) && off <= |u.d.info|
    requires ValidAttr(u, form, v) && 2 <= u.cu.version
    ensures InitAttr(u.d, u.cu, off, die, ad, form, indirect)
         == Filled(AddAttribute(die, ExpectAttr(u, off, ad, form, indirect, v)), off + |EncodeAttr(u, form, v)|)
       <==> Supported(u.cu, form, v)
    decreases v
  {
    hide Uleb, EncodeUleb, AddAttribute, MakeAttribute, LayoutOf, StandardLayout, EncodePlain, ExpectWords, ReadValue;
    if v.Redirect? {
      IndirectLayout(u.cu);
      var e, w := EncodeUleb(v.form), EncodeAttr(u, v.form, v.inner);
      HoldsPrefix(u, off, e + w);
      UlebAt(v.form, w, u.d.info[off..]);
      HoldsSplit(u, off, e, w);
      AttrRoundTrip(u, off + |e|, die, ad, v.form, true, v.inner);
    } else {
      hide InitAttr, EncodeAttr, ExpectAttr;
      PlainAttr(u, off, die, ad, form, indirect, v);
    }
  }

  lemma IndirectLayout(cu: CU)
    ensures LayoutOf(cu, DW_FORM_INDIRECT) == Indirect
  {
  }

  lemma FixedLength(order: Endian, layout: Layout, v: Value)
    requires layout.Fixed? && FitsPlain(layout, v)
    ensures |EncodePlain(order, layout, v)| == layout.n > 0
  {
  }

  /** The two words point into the section where the layout makes them pointers. */
  ghost predicate Consumable(d: Sections, layout: Layout, u0: nat, u1: nat) {
    && d.Valid()
    && (layout.Text? ==> d.infoBase <= u0 && StringEnd(d.info, d.infoSize, u0 - d.infoBase).Got?)
    && (layout.Block? || layout.BlockLeb? || layout.Signature? ==>
         d.infoBase <= u1 && u1 - d.infoBase + u0 <= |d.info|)
  }

  /** What a consumer finds through the two words of an attribute. */
  ghost function Meaning(d: Sections, layout: Layout, u0: nat, u1: nat): Value
    requires Consumable(d, layout, u0, u1)
  {
    match layout
    case Signed => Integer(Signed64(u0 % TWO_64))
    case Block(_) => Bytes(d.info[u1 - d.infoBase..u1 - d.infoBase + u0])
    case BlockLeb => Bytes(d.info[u1 - d.infoBase..u1 - d.infoBase + u0])
    case Signature => Bytes(d.info[u1 - d.infoBase..u1 - d.infoBase + u0])
    case Text =>
      var o := u0 - d.infoBase;
      var end := StringEnd(d.info, d.infoSize, o).value;
      Chars(d.info[o..if end > o then end - 1 else o])
    case Present => Flag
    case _ => Number(u0)
  }

  /** The value found through the words read is the value that was encoded. */
  lemma WordsReadBack(u: Unit, off: nat, layout: Layout, v: Value)
    requires u.d.Valid() && u.Holds(off, EncodePlain(u.d.order, layout, v)) && FitsPlain(layout, v)
    ensures var (u0, u1) := ExpectWords(u.d, off, layout, v);
      Consumable(u.d, layout, u0, u1) && Meaning(u.d, layout, u0, u1) == v
  {
    hide EncodeUleb, EncodeSleb, EncodeFixed, StringEnd;
    if layout.Text? {
      TextReadBack(u, off, v);
    } else if layout.Block? || layout.BlockLeb? || layout.Signature? {
      hide EncodePlain, ExpectWords, Meaning;
      DataReadBack(u, off, layout, v);
    }
  }

  /** The bytes of a block come behind its length, if it has one. */
  lemma DataShape(d: Sections, off: nat, layout: Layout, v: Value) returns (head: seq<byte>)
    requires FitsPlain(layout, v) && (layout.Block? || layout.BlockLeb? || layout.Signature?)
    ensures v.Bytes? && EncodePlain(d.order, layout, v) == head + v.data
    ensures ExpectWords(d, off, layout, v) == (|v.data|, d.infoBase + off + |head|)
  {
    hide EncodeUleb, EncodeFixed;
    head := [];
    if layout.Block? {
      head := EncodeFixed(d.order, |v.data|, layout.n);
    } else if layout.BlockLeb? {
      head := EncodeUleb(|v.data|);
    } else {
      assert head + v.data == v.data;
    }
  }

  lemma DataMeaning(d: Sections, layout: Layout, p: nat, data: seq<byte>)
    requires d.Valid() && (layout.Block? || layout.BlockLeb? || layout.Signature?)
    requires p + |data| <= |d.info| && d.info[p..p + |data|] == data
    ensures Consumable(d, layout, |data|, d.infoBase + p)
    ensures Meaning(d, layout, |data|, d.infoBase + p) == Bytes(data)
  {
  }

  lemma DataReadBack(u: Unit, off: nat, layout: Layout, v: Value)
    requires u.d.Valid() && u.Holds(off, EncodePlain(u.d.order, layout, v)) && FitsPlain(layout, v)
    requires layout.Block? || layout.BlockLeb? || layout.Signature?
    ensures var (u0, u1) := ExpectWords(u.d, off, layout, v);
      Consumable(u.d, layout, u0, u1) && Meaning(u.d, layout, u0, u1) == v
  {
    hide EncodePlain, FitsPlain, ExpectWords, Meaning, StringEnd;
    var head := DataShape(u.d, off, layout, v);
    HoldsSplit(u, off, head, v.data);
    BytesThere(u, off + |head|, v.data);
    DataMeaning(u.d, layout, off + |head|, v.data);
  }

  lemma BytesThere(u: Unit, off: nat, data: seq<byte>)
    requires u.d.Valid() && u.Holds(off, data)
    ensures off + |data| <= |u.d.info| && u.d.info[off..off + |data|] == data
  {
  }

  lemma TextReadBack(u: Unit, off: nat, v: Value)
    requires u.d.Valid() && u.Holds(off, EncodePlain(u.d.order, Text, v)) && FitsPlain(Text, v)
    ensures var (u0, u1) := ExpectWords(u.d, off, Text, v);
      Consumable(u.d, Text, u0, u1) && Meaning(u.d, Text, u0, u1) == v
  {
    HoldsSplit(u, off, v.data, [0]);
    BytesThere(u, off, v.data);
    StringStops(u.d.info, u.d.infoSize, off, v.data);
    hide StringEnd;
  }

  // ----- one entry -----

  /** An entry: its abbreviation code, its values in the order of the declaration, its children. */
  datatype Tree = Tree(code: nat, values: seq<Value>, kids: seq<Tree>)

  ghost predicate Known(u: Unit, code: nat) {
    u.Ready() && 0 < code < TWO_31 && Lookup(u.decls, u.cu.abbrevOffset, code).Found?
  }

  function AbOf(u: Unit, code: nat): Abbrev
    requires Known(u, code)
  {
    Lookup(u.decls, u.cu.abbrevOffset, code).ab
  }

  ghost predicate ValidValues(u: Unit, defs: seq<AttrDef>, vs: seq<Value>) {
    && |defs| == |vs|
    && forall i :: 0 <= i < |vs| ==> ValidAttr(u, defs[i].form, vs[i]) && Supported(u.cu, defs[i].form, vs[i])
  }

  function EncodeValues(u: Unit, defs: seq<AttrDef>, vs: seq<Value>): seq<byte>
    requires |defs| == |vs|
  {
    if vs == [] then [] else EncodeAttr(u, defs[0].form, vs[0]) + EncodeValues(u, defs[1..], vs[1..])
  }

  /** The entry being filled, after its values from `off` on. */
  function WithValues(u: Unit, off: nat, die: Die, defs: seq<AttrDef>, vs: seq<Value>): (r: Die)
    requires |defs| == |vs|
    ensures r.ab == die.ab && r.offset == die.offset && r.abnum == die.abnum && r.tag == die.tag
    ensures |r.attrs| == |die.attrs| + |vs|
    decreases |vs|
  {
    if vs == [] then die
    else
      var a := ExpectAttr(u, off, defs[0], defs[0].form, false, vs[0]);
      WithValues(u, off + |EncodeAttr(u, defs[0].form, vs[0])|, AddAttribute(die, a), defs[1..], vs[1..])
  }

  lemma {:induction false} FillUndoesEncode(u: Unit, off: nat, die: Die, defs: seq<AttrDef>, i: nat, vs: seq<Value>)
    requires i <= |defs| && ValidValues(u, defs[i..], vs) && 2 <= u.cu.version
    requires u.Holds(off, EncodeValues(u, defs[i..], vs)) && off <= |u.d.info|
    ensures FillAttrs(u.d, u.cu, off, die, defs, i)
         == Filled(WithValues(u, off, die, defs[i..], vs), off + |EncodeValues(u, defs[i..], vs)|)
    decreases |vs|
  {
    hide InitAttr, EncodeAttr, ExpectAttr, ValidAttr, Supported, AddAttribute;
    if vs != [] {
      var e := EncodeAttr(u, defs[i].form, vs[0]);
      assert defs[i..][1..] == defs[i + 1..];
      HoldsSplit(u, off, e, EncodeValues(u, defs[i + 1..], vs[1..]));
      AttrRoundTrip(u, off, die, defs[i], defs[i].form, false, vs[0]);
      var a := ExpectAttr(u, off, defs[i], defs[i].form, false, vs[0]);
      HoldsPrefix(u, off + |e|, EncodeValues(u, defs[i + 1..], vs[1..]));
      FillUndoesEncode(u, off + |e|, AddAttribute(die, a), defs, i + 1, vs[1..]);
    }
  }

  /** An entry without its children. */
  function EncodeHead(u: Unit, t: Tree): (e: seq<byte>)
    requires Known(u, t.code) && |AbOf(u, t.code).attrs| == |t.values|
    ensures |e| > 0
  {
    EncodeUleb(t.code) + EncodeValues(u, AbOf(u, t.code).attrs, t.values)
  }

  ghost predicate ValidHead(u: Unit, t: Tree) {
    && Known(u, t.code) && |AbOf(u, t.code).attrs| == |t.values|
    && ValidValues(u, AbOf(u, t.code).attrs, t.values)
    && AbOf(u, t.code).children <= 1
  }

  /** The entry `t` read at `off`; `name` is what `die_name` held before. */
  function HeadDie(u: Unit, t: Tree, off: nat, name: nat): (r: Die)
    requires Known(u, t.code) && |AbOf(u, t.code).attrs| == |t.values|
    ensures r.ab == AbOf(u, t.code) && r.offset == off && r.abnum == t.code && r.tag == r.ab.tag
    ensures r.nextOff == off + |EncodeHead(u, t)|
    ensures |r.attrs| == |t.values|
  {
    var blank := Die(off, 0, t.code, AbOf(u, t.code).tag, AbOf(u, t.code), name, []);
    WithValues(u, off + |EncodeUleb(t.code)|, blank, AbOf(u, t.code).attrs, t.values)
    .(nextOff := off + |EncodeHead(u, t)|)
  }

  lemma {:induction false} NextOffIrrelevant(u: Unit, off: nat, die: Die, n: nat, defs: seq<AttrDef>, vs: seq<Value>)
    requires |defs| == |vs|
    ensures WithValues(u, off, die.(nextOff := n), defs, vs) == WithValues(u, off, die, defs, vs).(nextOff := n)
    decreases |vs|
  {
    hide EncodeAttr, ExpectAttr, NameAfter;
    if vs != [] {
      var a := ExpectAttr(u, off, defs[0], defs[0].form, false, vs[0]);
      assert AddAttribute(die.(nextOff := n), a) == AddAttribute(die, a).(nextOff := n);
      NextOffIrrelevant(u, off + |EncodeAttr(u, defs[0].form, vs[0])|, AddAttribute(die, a), n, defs[1..], vs[1..]);
    }
  }

  /** Reading an entry undoes its encoding: code, tag, children flag, attributes in order, and a
      `die_next_off` that is the true end of the entry. */
  lemma ReadUndoesEncode(u: Unit, t: Tree, off: nat, prev: Die)
    requires ValidHead(u, t) && 2 <= u.cu.version && u.Holds(off, EncodeHead(u, t))
    ensures off <= |u.d.info|
    ensures ReadEntry(u.d, u.cu, off, prev) == Loaded(HeadDie(u, t, off, prev.name), off + |EncodeHead(u, t)|)
  {
    hide Uleb, EncodeUleb, Find, Lookup, FillAttrs, EncodeValues, WithValues;
    var ab := AbOf(u, t.code);
    var e := EncodeUleb(t.code);
    HoldsPrefix(u, off, EncodeHead(u, t));
    UlebAt(t.code, EncodeValues(u, ab.attrs, t.values), u.d.info[off..]);
    HoldsSplit(u, off, e, EncodeValues(u, ab.attrs, t.values));
    FindIsLookup(u.d.order, u.decls, u.d.abbrev, u.cu.abbrevOffset, t.code);
    assert ab.attrs[0..] == ab.attrs;
    var started := Started(prev, off, t.code, ab);
    FillUndoesEncode(u, off + |e|, started, ab.attrs, 0, t.values);
    var blank := Die(off, 0, t.code, ab.tag, ab, prev.name, []);
    assert blank == started.(nextOff := 0);
    NextOffIrrelevant(u, off + |e|, started, 0, ab.attrs, t.values);
  }
}
