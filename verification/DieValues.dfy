/** What the attributes of an entry mean: after an encoded entry was read, every attribute of it means
    the value that was encoded, whatever its kind and however many indirections its form goes through. */
module DieValues {
  import opened Machine
  import opened Leb128
  import opened AbbrevTable
  import opened DieReader
  import opened DieTree

  /** The form at the end of the indirections, and the value there. */
  function FinalForm(form: uint64, v: Value): uint64
    decreases v
  {
    match v
    case Redirect(inner, w) => FinalForm(inner, w)
    case _ => form
  }

  function Innermost(v: Value): (r: Value)
    ensures !r.Redirect?
    decreases v
  {
    match v
    case Redirect(_, w) => Innermost(w)
    case _ => v
  }

  /** The attribute carries the value: its words mean it under the layout of the final form, its block is
      the bytes if that is one of the four block forms, and its flag tells whether the form is indirect. */
  ghost predicate Carries(u: Unit, a: Attribute, form: uint64, v: Value) {
    var f := FinalForm(form, v);
    var layout := StandardLayout(u.cu, f);
    && a.indirect == v.Redirect?
    && Consumable(u.d, layout, a.u0, a.u1) && Meaning(u.d, layout, a.u0, a.u1) == Innermost(v)
    && (if f in {0x03, 0x04, 0x09, 0x0a} then a.blockLen == a.u0 && a.blockData == a.u1
        else a.blockLen == a.blockData == 0)
  }

  lemma {:induction false} ExpectedCarries(u: Unit, off: nat, ad: AttrDef, form: uint64, indirect: bool, v: Value)
    requires u.d.Valid() && u.Holds(off, EncodeAttr(u, form, v)) && ValidAttr(u, form, v)
    ensures var a := ExpectAttr(u, off, ad, form, indirect, v);
      a.attrib == ad.attrib && a.form == ad.form && Carries(u, a.(indirect := v.Redirect?), form, v)
      && a.indirect == (indirect || v.Redirect?)
    decreases v
  {
    hide EncodeUleb, EncodePlain, FitsPlain, ExpectWords, Meaning, Consumable, StandardLayout, Unit.Holds;
    if v.Redirect? {
      var e, w := EncodeUleb(v.form), EncodeAttr(u, v.form, v.inner);
      HoldsSplit(u, off, e, w);
      ExpectedCarries(u, off + |e|, ad, v.form, true, v.inner);
    } else {
      WordsReadBack(u, off, StandardLayout(u.cu, form), v);
    }
  }

  /** Where the i-th value lies. */
  function ValueOffset(u: Unit, off: nat, defs: seq<AttrDef>, vs: seq<Value>, i: nat): nat
    requires |defs| == |vs| && i < |vs|
    decreases i
  {
    if i == 0 then off else ValueOffset(u, off + |EncodeAttr(u, defs[0].form, vs[0])|, defs[1..], vs[1..], i - 1)
  }

  lemma {:induction false} ValueHeld(u: Unit, off: nat, defs: seq<AttrDef>, vs: seq<Value>, i: nat)
    requires |defs| == |vs| && i < |vs| && u.Holds(off, EncodeValues(u, defs, vs))
    ensures u.Holds(ValueOffset(u, off, defs, vs, i), EncodeAttr(u, defs[i].form, vs[i]))
    decreases i
  {
    hide EncodeAttr, Unit.Holds;
    var e := EncodeAttr(u, defs[0].form, vs[0]);
    HoldsSplit(u, off, e, EncodeValues(u, defs[1..], vs[1..]));
    if i > 0 {
      ValueHeld(u, off + |e|, defs[1..], vs[1..], i - 1);
    }
  }

  /** The attributes read from values are those of the values, in order. */
  lemma {:induction false} WithValuesAt(u: Unit, off: nat, die: Die, defs: seq<AttrDef>, vs: seq<Value>, i: nat)
    requires |defs| == |vs| && i < |vs|
    ensures var r := WithValues(u, off, die, defs, vs);
      && r.attrs[..|die.attrs|] == die.attrs
      && r.attrs[|die.attrs| + i]
         == ExpectAttr(u, ValueOffset(u, off, defs, vs, i), defs[i], defs[i].form, false, vs[i])
    decreases |vs|
  {
    hide ExpectAttr, EncodeAttr, NameAfter;
    var a := ExpectAttr(u, off, defs[0], defs[0].form, false, vs[0]);
    var die' := AddAttribute(die, a);
    var off' := off + |EncodeAttr(u, defs[0].form, vs[0])|;
    var r := WithValues(u, off', die', defs[1..], vs[1..]);
    if |vs| > 1 {
      WithValuesAt(u, off', die', defs[1..], vs[1..], if i == 0 then 0 else i - 1);
    }
    assert r.attrs[..|die.attrs| + 1] == die.attrs + [a];
    assert r.attrs[..|die.attrs|] == r.attrs[..|die.attrs| + 1][..|die.attrs|] == die.attrs;
    assert r.attrs[|die.attrs|] == r.attrs[..|die.attrs| + 1][|die.attrs|] == a;
  }

  lemma HeadAttr(u: Unit, t: Tree, off: nat, name: nat, i: nat)
    requires ValidHead(u, t) && i < |t.values|
    ensures var defs := AbOf(u, t.code).attrs;
      HeadDie(u, t, off, name).attrs[i]
      == ExpectAttr(u, ValueOffset(u, off + |EncodeUleb(t.code)|, defs, t.values, i), defs[i], defs[i].form, false,
                    t.values[i])
  {
    hide WithValues, ExpectAttr, ValueOffset, ValidValues, EncodeValues, Lookup;
    var blank := Die(off, 0, t.code, AbOf(u, t.code).tag, AbOf(u, t.code), name, []);
    WithValuesAt(u, off + |EncodeUleb(t.code)|, blank, AbOf(u, t.code).attrs, t.values, i);
  }

  /** Name and form of an attribute are those of its definition, and a number is as it was encoded. */
  lemma HeadAttrAt(u: Unit, t: Tree, off: nat, name: nat, i: nat)
    requires ValidHead(u, t) && i < |t.values|
    ensures var a := HeadDie(u, t, off, name).attrs[i];
      var ad := AbOf(u, t.code).attrs[i];
      && a.attrib == ad.attrib && a.form == ad.form
      && (Innermost(t.values[i]).Number? ==> a.u0 == Innermost(t.values[i]).n)
      && (Innermost(t.values[i]).Integer? ==> a.u0 == ToU64(Innermost(t.values[i]).i))
  {
    hide HeadDie, ExpectAttr, ValueOffset;
    HeadAttr(u, t, off, name, i);
    var defs := AbOf(u, t.code).attrs;
    ExpectedShape(u, ValueOffset(u, off + |EncodeUleb(t.code)|, defs, t.values, i), defs[i], defs[i].form, false,
                  t.values[i]);
  }

  lemma {:induction false} ExpectedShape(u: Unit, off: nat, ad: AttrDef, form: uint64, indirect: bool, v: Value)
    ensures var a := ExpectAttr(u, off, ad, form, indirect, v);
      && a.attrib == ad.attrib && a.form == ad.form
      && (Innermost(v).Number? ==> a.u0 == Innermost(v).n)
      && (Innermost(v).Integer? ==> a.u0 == ToU64(Innermost(v).i))
    decreases v
  {
    hide StandardLayout, ToU64;
    if v.Redirect? {
      ExpectedShape(u, off + |EncodeUleb(v.form)|, ad, v.form, true, v.inner);
    }
  }

  /** Every attribute of the entry is that of its definition and carries the value of the tree. */
  ghost predicate SameValues(u: Unit, t: Tree, die: Die)
    requires ValidHead(u, t)
  {
    && |die.attrs| == |t.values|
    && forall i :: 0 <= i < |t.values| ==>
         var ad := AbOf(u, t.code).attrs[i];
         && die.attrs[i].attrib == ad.attrib && die.attrs[i].form == ad.form
         && Carries(u, die.attrs[i], ad.form, t.values[i])
  }

  lemma HeadCarries(u: Unit, t: Tree, off: nat, name: nat)
    requires ValidHead(u, t) && u.Holds(off, EncodeHead(u, t))
    ensures SameValues(u, t, HeadDie(u, t, off, name))
  {
    hide HeadDie, ExpectAttr, ValueOffset, EncodeAttr, EncodeValues, Carries, Unit.Holds;
    var defs, start := AbOf(u, t.code).attrs, off + |EncodeUleb(t.code)|;
    var die := HeadDie(u, t, off, name);
    HoldsSplit(u, off, EncodeUleb(t.code), EncodeValues(u, defs, t.values));
    forall i | 0 <= i < |t.values|
      ensures die.attrs[i].attrib == defs[i].attrib && die.attrs[i].form == defs[i].form
      ensures Carries(u, die.attrs[i], defs[i].form, t.values[i])
    {
      HeadAttr(u, t, off, name, i);
      ValueHeld(u, start, defs, t.values, i);
      ExpectedCarries(u, ValueOffset(u, start, defs, t.values, i), defs[i], defs[i].form, false, t.values[i]);
    }
  }

  /** Reading back an encoded entry yields the same attribute values in the same order: names and forms
      of the definitions, and through every attribute, of every kind of form, the value encoded. */
  lemma ValuesReadBack(u: Unit, t: Tree, off: nat, prev: Die)
    requires ValidHead(u, t) && 2 <= u.cu.version && u.Holds(off, EncodeHead(u, t))
    ensures off <= |u.d.info|
    ensures var r := ReadEntry(u.d, u.cu, off, prev);
      && r.Loaded? && r.next == off + |EncodeHead(u, t)| == r.die.nextOff && r.die.offset == off
      && r.die.abnum == t.code && r.die.ab == AbOf(u, t.code) && r.die.tag == r.die.ab.tag
      && SameValues(u, t, r.die)
  {
    hide HeadDie, ReadEntry, EncodeHead, SameValues, Unit.Holds;
    ReadUndoesEncode(u, t, off, prev);
    HeadCarries(u, t, off, prev.name);
  }

  /** The record of an attribute tells what it means as long as its form is not indirect; the final form
      is not kept, so two indirect attributes with different values can leave the same record. */
  lemma FinalFormLost(u: Unit, off: nat, ad: AttrDef)
    requires ad.form == DW_FORM_INDIRECT
    ensures var present, one := Redirect(DW_FORM_FLAG_PRESENT, Flag), Redirect(DW_FORM_DATA1, Number(1));
      && ValidAttr(u, ad.form, present) && ValidAttr(u, ad.form, one) && Innermost(present) != Innermost(one)
      && ExpectAttr(u, off, ad, ad.form, false, present) == ExpectAttr(u, off, ad, ad.form, false, one)
  {
    OneByte();
    hide Pow2;
  }

  lemma OneByte()
    ensures Pow2(8) == 0x100
  {
    Pow2Values();
  }

  lemma RecordTells(u: Unit, a: Attribute, form: uint64, v: Value, w: Value)
    requires Carries(u, a, form, v) && Carries(u, a, form, w) && !v.Redirect?
    ensures v == w
  {
    hide Meaning, Consumable, StandardLayout;
  }

  // ----- names -----

  /** The last DW_AT_name (0x03) in one of the two string forms, strp (0x0e) and string (0x08); `|defs|` if
      there is none. */
  function NameIndex(defs: seq<AttrDef>): (k: nat)
    ensures k <= |defs|
    ensures k < |defs| ==>
      defs[k].attrib == 0x03 && (defs[k].form == 0x0e || defs[k].form == 0x08)
  {
    if defs == [] then 0
    else
      var k := NameIndex(defs[1..]);
      if k < |defs| - 1 then k + 1
      else if defs[0].attrib == 0x03 && (defs[0].form == 0x0e || defs[0].form == 0x08) then 0
      else |defs|
  }

  /** A pointer to the string that a value of one of the two string forms denotes. */
  ghost predicate PointsTo(u: Unit, form: uint64, v: Value, p: nat) {
    if form == 0x0e then v.Number? && p == u.d.strBase + v.n
    else v.Chars? && u.d.infoBase <= p && u.Holds(p - u.d.infoBase, v.data + [0])
  }

  /** The name of an entry is the string of its last DW_AT_name in a string form, and otherwise what
      the buffer held: a name through an indirect form is not noticed. */
  ghost predicate NameRead(u: Unit, t: Tree, before: nat, after: nat)
    requires ValidHead(u, t)
  {
    var defs := AbOf(u, t.code).attrs;
    var k := NameIndex(defs);
    if k == |defs| then after == before else PointsTo(u, defs[k].form, t.values[k], after)
  }

  lemma {:induction false} WithValuesName(u: Unit, off: nat, die: Die, defs: seq<AttrDef>, vs: seq<Value>)
    requires |defs| == |vs|
    ensures var k := NameIndex(defs);
      WithValues(u, off, die, defs, vs).name
      == if k == |defs| then die.name
         else NameAfter(0, ExpectAttr(u, ValueOffset(u, off, defs, vs, k), defs[k], defs[k].form, false, vs[k]))
    decreases |vs|
  {
    hide EncodeAttr, ExpectAttr;
    if vs != [] {
      var a := ExpectAttr(u, off, defs[0], defs[0].form, false, vs[0]);
      ExpectedShape(u, off, defs[0], defs[0].form, false, vs[0]);
      WithValuesName(u, off + |EncodeAttr(u, defs[0].form, vs[0])|, AddAttribute(die, a), defs[1..], vs[1..]);
    }
  }

  /** A string attribute that is not indirect points to its string. */
  lemma StringPointer(u: Unit, off: nat, ad: AttrDef, v: Value)
    requires ad.attrib == DW_AT_NAME && (ad.form == DW_FORM_STRP || ad.form == DW_FORM_STRING)
    requires ValidAttr(u, ad.form, v) && u.Holds(off, EncodeAttr(u, ad.form, v))
    ensures PointsTo(u, ad.form, v, NameAfter(0, ExpectAttr(u, off, ad, ad.form, false, v)))
  {
    hide Unit.Holds;
  }

  lemma NameIsString(u: Unit, t: Tree, off: nat, name: nat)
    requires ValidHead(u, t) && u.Holds(off, EncodeHead(u, t))
    ensures NameRead(u, t, name, HeadDie(u, t, off, name).name)
  {
    hide EncodeAttr, ExpectAttr, EncodeValues, WithValues, NameAfter, PointsTo, Unit.Holds;
    var defs, start := AbOf(u, t.code).attrs, off + |EncodeUleb(t.code)|;
    var blank := Die(off, 0, t.code, AbOf(u, t.code).tag, AbOf(u, t.code), name, []);
    HoldsSplit(u, off, EncodeUleb(t.code), EncodeValues(u, defs, t.values));
    WithValuesName(u, start, blank, defs, t.values);
    var k := NameIndex(defs);
    if k < |defs| {
      ValueHeld(u, start, defs, t.values, k);
      StringPointer(u, ValueOffset(u, start, defs, t.values, k), defs[k], t.values[k]);
    }
  }
}
