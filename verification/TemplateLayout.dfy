/**
  Where the fields of a template stand in the bits of its text, in numbers, and the
  alphabet of the text.
*/
module TemplateLayout {
  import opened Options
  import opened Powers
  import opened TemplateFormat
  import Bits

  /** The number in `n` bits from `at` on, the first of them counting 1. */
  predicate FieldAt(b: seq<bool>, at: nat, n: nat, v: nat) {
    at + n <= |b| && Num(b[at..at + n]) == v
  }

  lemma FieldIn(a: seq<bool>, v: nat, n: nat, more: seq<bool>, at: nat)
    requires v < Pow2(n) && at == |a|
    ensures FieldAt(a + (Digits(v, n) + more), at, n, v)
  {
    hide Num, Digits, Pow2;
    var b := a + (Digits(v, n) + more);
    assert b[at..at + n] == Digits(v, n);
    NumBits(v, n);
  }

  lemma FieldBehind(a: seq<bool>, b: seq<bool>, at: nat, n: nat, v: nat)
    requires FieldAt(b, at, n, v)
    ensures FieldAt(a + b, |a| + at, n, v)
  {
    hide Num;
    assert (a + b)[|a| + at..|a| + at + n] == b[at..at + n];
  }

  /** The place of element `i` when each takes `step` bits. */
  function Place(start: nat, i: nat, step: nat): nat {
    start + i * step
  }

  lemma PlaceNext(start: nat, i: nat, step: nat)
    requires i >= 1
    ensures Place(start, i, step) == step + Place(start, i - 1, step)
  {
  }

  lemma PlaceFrom(a: nat, start: nat, i: nat, step: nat)
    ensures a + Place(start, i, step) == Place(a + start, i, step)
  {
  }

  lemma PlaceNone(start: nat, step: nat)
    ensures Place(start, 0, step) == start
  {
  }

  /** Attributes are `w` bits of id and 4 bits of value each. */
  predicate AttributesIn(b: seq<bool>, start: nat, attributes: seq<Attribute>, w: nat) {
    forall i :: 0 <= i < |attributes| ==>
      && FieldAt(b, Place(start, i, w + 4), w, attributes[i].id)
      && FieldAt(b, Place(start, i, w + 4) + w, 4, attributes[i].value)
  }

  /** Skills are `w` bits each. */
  predicate SkillsIn(b: seq<bool>, start: nat, skills: seq<nat>, w: nat) {
    forall i :: 0 <= i < |skills| ==> FieldAt(b, Place(start, i, w), w, skills[i])
  }

  lemma AttributesBehind(a: seq<bool>, b: seq<bool>, start: nat, attributes: seq<Attribute>, w: nat)
    requires AttributesIn(b, start, attributes, w)
    ensures AttributesIn(a + b, |a| + start, attributes, w)
  {
    hide FieldAt, Place;
    forall i | 0 <= i < |attributes|
      ensures FieldAt(a + b, Place(|a| + start, i, w + 4), w, attributes[i].id)
      ensures FieldAt(a + b, Place(|a| + start, i, w + 4) + w, 4, attributes[i].value)
    {
      PlaceFrom(|a|, start, i, w + 4);
      FieldBehind(a, b, Place(start, i, w + 4), w, attributes[i].id);
      FieldBehind(a, b, Place(start, i, w + 4) + w, 4, attributes[i].value);
    }
  }

  lemma SkillsBehind(a: seq<bool>, b: seq<bool>, start: nat, skills: seq<nat>, w: nat)
    requires SkillsIn(b, start, skills, w)
    ensures SkillsIn(a + b, |a| + start, skills, w)
  {
    hide FieldAt, Place;
    forall i | 0 <= i < |skills|
      ensures FieldAt(a + b, Place(|a| + start, i, w), w, skills[i])
    {
      PlaceFrom(|a|, start, i, w);
      FieldBehind(a, b, Place(start, i, w), w, skills[i]);
    }
  }

  lemma {:induction false} AttributesAt(attributes: seq<Attribute>, w: nat, more: seq<bool>)
    requires AttributesFit(attributes, w)
    ensures |AttributeBits(attributes, w)| == Place(0, |attributes|, w + 4)
    ensures AttributesIn(AttributeBits(attributes, w) + more, 0, attributes, w)
    decreases |attributes|
  {
    hide Digits, Pow2, FieldAt, Place;
    SmallPowers();
    PlaceNone(0, w + 4);
    if attributes != [] {
      var a, others := attributes[0], attributes[1..];
      var b, tail := AttributeBits(attributes, w) + more, AttributeBits(others, w) + more;
      var head := Digits(a.id, w) + Digits(a.value, 4);
      AttributesAt(others, w, more);
      PlaceNext(0, |attributes|, w + 4);
      assert b == Digits(a.id, w) + (Digits(a.value, 4) + tail) && b == head + tail && [] + b == b;
      FieldIn([], a.id, w, Digits(a.value, 4) + tail, 0);
      FieldIn(Digits(a.id, w), a.value, 4, tail, w);
      forall i | 1 <= i < |attributes|
        ensures FieldAt(b, Place(0, i, w + 4), w, attributes[i].id)
        ensures FieldAt(b, Place(0, i, w + 4) + w, 4, attributes[i].value)
      {
        PlaceNext(0, i, w + 4);
        assert others[i - 1] == attributes[i];
        FieldBehind(head, tail, Place(0, i - 1, w + 4), w, attributes[i].id);
        FieldBehind(head, tail, Place(0, i - 1, w + 4) + w, 4, attributes[i].value);
      }
    }
  }

  lemma {:induction false} SkillsAt(skills: seq<nat>, w: nat)
    requires forall i :: 0 <= i < |skills| ==> skills[i] < Pow2(w)
    ensures |SkillBits(skills, w)| == Place(0, |skills|, w) && SkillsIn(SkillBits(skills, w), 0, skills, w)
    decreases |skills|
  {
    hide Digits, Pow2, FieldAt, Place;
    PlaceNone(0, w);
    if skills != [] {
      var head, tail := Digits(skills[0], w), SkillBits(skills[1..], w);
      SkillsAt(skills[1..], w);
      PlaceNext(0, |skills|, w);
      var b := SkillBits(skills, w);
      assert b == head + tail && [] + b == b;
      FieldIn([], skills[0], w, tail, 0);
      forall i | 1 <= i < |skills|
        ensures FieldAt(b, Place(0, i, w), w, skills[i])
      {
        PlaceNext(0, i, w);
        FieldBehind(head, tail, Place(0, i - 1, w), w, skills[i]);
      }
    }
  }

  /** Four bits of width less 8, then the skills. */
  lemma SkillPartAt(f: Form, t: Template)
    requires FormOk(f, t)
    ensures var b, w := SkillPart(f, t), f.skillWidth + 8;
      && |b| == Place(4, f.written, w) && FieldAt(b, 0, 4, f.skillWidth)
      && SkillsIn(b, 4, t.skills[..f.written], w)
  {
    hide Digits, Pow2, FieldAt, SkillBits, SkillsIn, Place, AttributesFit;
    SmallPowers();
    var w, s := f.skillWidth + 8, t.skills[..f.written];
    SkillsAt(s, w);
    PlaceFrom(4, 0, f.written, w);
    var b := SkillPart(f, t);
    assert [] + b == b;
    FieldIn([], f.skillWidth, 4, SkillBits(s, w), 0);
    SkillsBehind(Digits(f.skillWidth, 4), SkillBits(s, w), 0, s, w);
  }

  /** Four bits of count, four bits of width less 4, the attributes, and the skills behind them. */
  predicate PartIn(b: seq<bool>, start: nat, f: Form, t: Template)
    requires f.written <= |t.skills|
  {
    var skills := Place(start + 8, |t.attributes|, f.attrWidth + 8);
    && |b| == Place(skills + 4, f.written, f.skillWidth + 8)
    && FieldAt(b, start, 4, |t.attributes|) && FieldAt(b, start + 4, 4, f.attrWidth)
    && AttributesIn(b, start + 8, t.attributes, f.attrWidth + 4)
    && FieldAt(b, skills, 4, f.skillWidth) && SkillsIn(b, skills + 4, t.skills[..f.written], f.skillWidth + 8)
  }

  lemma AttributePartAt(f: Form, t: Template)
    requires FormOk(f, t)
    ensures PartIn(AttributePart(f, t), 0, f, t)
  {
    hide Digits, Pow2, FieldAt, AttributeBits, SkillPart, AttributesFit, SkillsIn, AttributesIn, Place;
    SmallPowers();
    var n, w, skills := |t.attributes|, f.attrWidth + 4, SkillPart(f, t);
    var attrs, width := AttributeBits(t.attributes, w), Digits(f.attrWidth, 4);
    var b, head := AttributePart(f, t), Digits(n, 4) + width;
    AttributesAt(t.attributes, w, skills);
    SkillPartAt(f, t);
    assert [] + b == b && b == Digits(n, 4) + (width + (attrs + skills));
    FieldIn([], n, 4, width + (attrs + skills), 0);
    FieldIn(Digits(n, 4), f.attrWidth, 4, attrs + skills, 4);
    assert b == head + (attrs + skills) && b == (head + attrs) + skills;
    AttributesBehind(head, attrs + skills, 0, t.attributes, w);
    PlaceFrom(8, 0, n, w + 4);
    FieldBehind(head + attrs, skills, 0, 4, f.skillWidth);
    SkillsBehind(head + attrs, skills, 4, t.skills[..f.written], f.skillWidth + 8);
    PlaceFrom(|head + attrs|, 4, f.written, f.skillWidth + 8);
  }

  lemma PartBehind(a: seq<bool>, b: seq<bool>, f: Form, t: Template)
    requires f.written <= |t.skills| && PartIn(b, 0, f, t)
    ensures PartIn(a + b, |a|, f, t)
  {
    hide FieldAt, SkillsIn, AttributesIn, Place;
    var skills := Place(8, |t.attributes|, f.attrWidth + 8);
    PlaceFrom(|a|, 8, |t.attributes|, f.attrWidth + 8);
    PlaceFrom(|a|, skills + 4, f.written, f.skillWidth + 8);
    FieldBehind(a, b, 0, 4, |t.attributes|);
    FieldBehind(a, b, 4, 4, f.attrWidth);
    AttributesBehind(a, b, 8, t.attributes, f.attrWidth + 4);
    FieldBehind(a, b, skills, 4, f.skillWidth);
    SkillsBehind(a, b, skills + 4, t.skills[..f.written], f.skillWidth + 8);
  }

  /**
    The bits of a template: 4 bits of header, with 4 more behind a 14; 2 bits `p`; two
    professions of `2 p + 4` bits; and what `PartIn` says behind them.
  */
  lemma FieldsAt(f: Form, t: Template, o: nat, p: nat)
    requires FormOk(f, t) && o == (if f.tag.Some? then 8 else 4) && p == 2 * f.profWidth + 4
    ensures var b := Encode(f, t);
      && FieldAt(b, 0, 4, if f.tag.Some? then 14 else 0) && (f.tag.Some? ==> FieldAt(b, 4, 4, f.tag.value))
      && FieldAt(b, o, 2, f.profWidth) && FieldAt(b, o + 2, p, t.primary) && FieldAt(b, o + 2 + p, p, t.secondary)
      && PartIn(b, o + 2 + p + p, f, t)
  {
    hide Digits, Pow2, FieldAt, AttributePart, AttributesFit, PartIn;
    SmallPowers();
    var b, rest := Encode(f, t), AttributePart(f, t);
    var head, d0 := HeadBits(f), Digits(f.profWidth, 2);
    var d1, d2 := Digits(t.primary, p), Digits(t.secondary, p);
    HeaderAt(f, d0 + (d1 + (d2 + rest)));
    assert b == head + (d0 + (d1 + (d2 + rest)));
    FieldIn(head, f.profWidth, 2, d1 + (d2 + rest), o);
    assert b == (head + d0) + (d1 + (d2 + rest));
    FieldIn(head + d0, t.primary, p, d2 + rest, o + 2);
    assert b == (head + d0 + d1) + (d2 + rest);
    FieldIn(head + d0 + d1, t.secondary, p, rest, o + 2 + p);
    AttributePartAt(f, t);
    PartBehind(head + d0 + d1 + d2, rest, f, t);
    assert b == (head + d0 + d1 + d2) + rest;
  }

  lemma HeaderAt(f: Form, more: seq<bool>)
    requires f.tag.Some? ==> f.tag.value < 16
    ensures var b := HeadBits(f) + more;
      && |HeadBits(f)| == (if f.tag.Some? then 8 else 4)
      && FieldAt(b, 0, 4, if f.tag.Some? then 14 else 0) && (f.tag.Some? ==> FieldAt(b, 4, 4, f.tag.value))
  {
    hide Digits, Pow2, FieldAt;
    SmallPowers();
    var b := HeadBits(f) + more;
    assert [] + b == b;
    if f.tag.Some? {
      var tag := Digits(f.tag.value, 4);
      assert b == Digits(14, 4) + (tag + more);
      FieldIn([], 14, 4, tag + more, 0);
      FieldIn(Digits(14, 4), f.tag.value, 4, more, 4);
    } else {
      FieldIn([], 0, 4, more, 0);
    }
  }

  /** What a template may hold. */
  lemma TemplateNumbers(t: Template)
    ensures TemplateOk(t) <==>
      && 1 <= t.primary <= 10 && t.secondary <= 10 && |t.attributes| <= 15 && |t.skills| == 8
      && (forall i :: 0 <= i < |t.attributes| ==> t.attributes[i].id <= 44 && t.attributes[i].value <= 15)
      && (forall i :: 0 <= i < 8 ==> t.skills[i] <= 3431)
  {
  }

  // ---------- The text ----------

  /** The alphabet: capital letters, small letters, digits, plus and slash. */
  lemma Alphabet(c: char)
    requires c as int < 128
    ensures 'A' <= c <= 'Z' ==> CharValue(c as int) == c as int - 'A' as int
    ensures 'a' <= c <= 'z' ==> CharValue(c as int) == 26 + (c as int - 'a' as int)
    ensures '0' <= c <= '9' ==> CharValue(c as int) == 52 + (c as int - '0' as int)
    ensures c == '+' ==> CharValue(c as int) == 62
    ensures c == '/' ==> CharValue(c as int) == 63
    ensures CharValue(c as int) == -1 <==>
      !('A' <= c <= 'Z' || 'a' <= c <= 'z' || '0' <= c <= '9' || c == '+' || c == '/')
  {
  }

  /** Each character of a text gives six bits: bit `j` of character `i` is bit `j` of its value. */
  lemma {:induction false} TextBit(text: seq<Char>, i: nat, j: nat)
    requires TextOk(text) && i < |text| && j < 6
    ensures TextBits(text)[6 * i + j] <==> CharValue(text[i]) / Pow2(j) % 2 == 1
    decreases |text|
  {
    hide Digits, CharValue, Pow2;
    var init := text[..|text| - 1];
    if i < |text| - 1 {
      TextBit(init, i, j);
    } else {
      DigitAt(CharValue(text[i]), 6, j);
    }
  }

  lemma {:induction false} DigitAt(v: nat, n: nat, j: nat)
    requires j < n
    ensures Digits(v, n)[j] <==> v / Pow2(j) % 2 == 1
  {
    if j > 0 {
      DigitAt(v / 2, n - 1, j - 1);
      Bits.HalfThen(v, Pow2(j - 1));
    }
  }
}
