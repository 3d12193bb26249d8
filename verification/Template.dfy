/**
  Skill templates, code/client/skill.c: a base64 text whose characters give six bits
  each, least significant bit first, and the fields packed into those bits.
*/
module TemplateFormat {
  import opened Options
  import opened Powers

  const SKILLS_MAX: nat := 3431
  const ATTRIBUTE_MAX: nat := 44
  const PROFESSION_COUNT: nat := 11
  const BIT_ROOM: nat := 1024

  datatype Attribute = Attribute(id: nat, value: nat)

  datatype Template = Template(primary: nat, secondary: nat, attributes: seq<Attribute>, skills: seq<nat>)

  // ---------- Bits, least significant first ----------

  function Num(b: seq<bool>): nat {
    if b == [] then 0 else (if b[0] then 1 else 0) + 2 * Num(b[1..])
  }

  function Digits(v: nat, n: nat): (b: seq<bool>)
    ensures |b| == n
  {
    if n == 0 then [] else [v % 2 == 1] + Digits(v / 2, n - 1)
  }

  lemma {:induction false} NumBits(v: nat, n: nat)
    requires v < Pow2(n)
    ensures Num(Digits(v, n)) == v
  {
    if n > 0 {
      NumBits(v / 2, n - 1);
    }
  }

  lemma {:induction false} NumBound(b: seq<bool>)
    ensures Num(b) < Pow2(|b|)
  {
    if b != [] {
      NumBound(b[1..]);
    }
  }

  lemma {:induction false} BitsNum(b: seq<bool>)
    ensures Digits(Num(b), |b|) == b
  {
    if b != [] {
      BitsNum(b[1..]);
    }
  }

  lemma {:induction false} NumSnoc(b: seq<bool>, x: bool)
    ensures Num(b + [x]) == Num(b) + if x then Pow2(|b|) else 0
  {
    if b == [] {
      assert [x][1..] == [] && b + [x] == [x];
    } else {
      assert (b + [x])[1..] == b[1..] + [x];
      NumSnoc(b[1..], x);
    }
  }

  // ---------- The alphabet of section 4 of RFC 4648 ----------

  type Char = x: nat | x < 128

  /** The value of a character, or -1. */
  function CharValue(c: Char): (v: int)
    ensures -1 <= v < 64
  {
    if 65 <= c <= 90 then c - 65
    else if 97 <= c <= 122 then c - 97 + 26
    else if 48 <= c <= 57 then c - 48 + 52
    else if c == 43 then 62
    else if c == 47 then 63
    else -1
  }

  function ValueChar(v: nat): (c: Char)
    requires v < 64
    ensures CharValue(c) == v
  {
    if v < 26 then 65 + v else if v < 52 then 97 + v - 26 else if v < 62 then 48 + v - 52 else if v == 62 then 43 else 47
  }

  predicate TextOk(text: seq<Char>) {
    forall i :: 0 <= i < |text| ==> CharValue(text[i]) >= 0
  }

  function TextBits(text: seq<Char>): (b: seq<bool>)
    requires TextOk(text)
    ensures |b| == 6 * |text|
  {
    if text == [] then [] else TextBits(text[..|text| - 1]) + Digits(CharValue(text[|text| - 1]), 6)
  }

  /** The shortest text that holds the bits; zeros fill the last character. */
  function BitsText(b: seq<bool>): (t: seq<Char>)
    ensures TextOk(t) && 6 * |t| < |b| + 6
    decreases |b|
  {
    if |b| == 0 then []
    else
      SixBits(FirstSix(b));
      [ValueChar(Num(FirstSix(b)))] + BitsText(AfterSix(b))
  }

  lemma SixBits(b: seq<bool>)
    requires |b| == 6
    ensures Num(b) < 64
  {
    NumBound(b);
    assert Pow2(6) == 64;
  }

  lemma {:induction false} TextBitsCons(c: Char, t: seq<Char>)
    requires CharValue(c) >= 0 && TextOk(t)
    ensures TextOk([c] + t) && TextBits([c] + t) == Digits(CharValue(c), 6) + TextBits(t)
    decreases |t|
  {
    hide Digits, CharValue;
    if t == [] {
      assert [c] + t == [c] && [c][..0] == [];
      assert TextBits([c]) == TextBits([]) + Digits(CharValue(c), 6);
    } else {
      var u := t[..|t| - 1];
      TextBitsCons(c, u);
      assert ([c] + t)[..|t|] == [c] + u;
    }
  }

  function FirstSix(b: seq<bool>): (h: seq<bool>)
    ensures |h| == 6
  {
    if |b| >= 6 then b[..6] else b + seq(6 - |b|, _ => false)
  }

  function AfterSix(b: seq<bool>): seq<bool> {
    if |b| >= 6 then b[6..] else []
  }

  /** Reading back the text gives the bits, and at most five zeros behind them. */
  lemma {:induction false} BitsBack(b: seq<bool>) returns (pad: seq<bool>)
    ensures TextBits(BitsText(b)) == b + pad && |pad| < 6
    decreases |b|
  {
    hide Num, Digits, TextBits;
    if |b| == 0 {
      TextBitsNone();
      return [];
    }
    var head, rest := FirstSix(b), AfterSix(b);
    pad := BitsBack(rest);
    SixBits(head);
    BitsNum(head);
    TextBitsCons(ValueChar(Num(head)), BitsText(rest));
    if |b| < 6 {
      TextBitsNone();
      pad := head[|b|..];
    }
    assert head + rest == b + if |b| < 6 then pad else [];
  }

  lemma TextBitsNone()
    ensures TextBits([]) == []
  {
  }

  // ---------- Templates ----------

  /** The choices an encoder has: the header, the three field widths, how many skills to write. */
  datatype Form = Form(tag: Option<nat>, profWidth: nat, attrWidth: nat, skillWidth: nat, written: nat)

  function ProfBits(f: Form): nat {
    2 * f.profWidth + 4
  }

  predicate TemplateOk(t: Template) {
    && 1 <= t.primary < PROFESSION_COUNT && t.secondary < PROFESSION_COUNT
    && |t.attributes| < 16
    && (forall i :: 0 <= i < |t.attributes| ==> t.attributes[i].id <= ATTRIBUTE_MAX && t.attributes[i].value < 16)
    && |t.skills| == 8 && (forall i :: 0 <= i < 8 ==> t.skills[i] <= SKILLS_MAX)
  }

  /** The form is admissible, and wide enough for the template. */
  predicate FormOk(f: Form, t: Template) {
    && (f.tag.Some? ==> f.tag.value < 16) && f.profWidth < 4 && f.attrWidth < 16 && f.skillWidth < 16
    && f.written <= 8 == |t.skills|
    && t.primary < Pow2(ProfBits(f)) && t.secondary < Pow2(ProfBits(f)) && |t.attributes| < 16
    && AttributesFit(t.attributes, f.attrWidth + 4)
    && (forall i :: 0 <= i < f.written ==> t.skills[i] < Pow2(f.skillWidth + 8))
    && (forall i :: f.written <= i < 8 ==> t.skills[i] == 0)
  }

  predicate AttributesFit(attributes: seq<Attribute>, w: nat) {
    forall i :: 0 <= i < |attributes| ==> attributes[i].id < Pow2(w) && attributes[i].value < 16
  }

  function HeadBits(f: Form): seq<bool> {
    if f.tag.Some? then Digits(14, 4) + Digits(f.tag.value, 4) else Digits(0, 4)
  }

  function AttributeBits(attributes: seq<Attribute>, w: nat): seq<bool> {
    if attributes == [] then []
    else Digits(attributes[0].id, w) + (Digits(attributes[0].value, 4) + AttributeBits(attributes[1..], w))
  }

  function SkillBits(skills: seq<nat>, w: nat): seq<bool> {
    if skills == [] then [] else Digits(skills[0], w) + SkillBits(skills[1..], w)
  }

  function SkillPart(f: Form, t: Template): seq<bool>
    requires f.written <= |t.skills|
  {
    Digits(f.skillWidth, 4) + SkillBits(t.skills[..f.written], f.skillWidth + 8)
  }

  function AttributePart(f: Form, t: Template): seq<bool>
    requires f.written <= |t.skills|
  {
    Digits(|t.attributes|, 4) + (Digits(f.attrWidth, 4) + (AttributeBits(t.attributes, f.attrWidth + 4) + SkillPart(f, t)))
  }

  function ProfessionPart(f: Form, t: Template): seq<bool>
    requires f.written <= |t.skills|
  {
    Digits(f.profWidth, 2) + (Digits(t.primary, ProfBits(f)) + (Digits(t.secondary, ProfBits(f)) + AttributePart(f, t)))
  }

  function Encode(f: Form, t: Template): seq<bool>
    requires f.written <= |t.skills|
  {
    HeadBits(f) + ProfessionPart(f, t)
  }

  // ---------- Reading them back ----------

  /** The number in the first `n` bits; what is missing counts as zero. */
  function First(b: seq<bool>, n: nat): nat {
    Num(if n <= |b| then b[..n] else b)
  }

  function Past(b: seq<bool>, n: nat): seq<bool> {
    if n <= |b| then b[n..] else []
  }

  function ReadAttributes(b: seq<bool>, n: nat, w: nat): (r: Option<seq<Attribute>>)
    ensures r.Some? ==> |r.value| == n
    decreases n
  {
    if n == 0 then Some([])
    else
      var a := Attribute(First(b, w), First(Past(b, w), 4));
      if a.id > ATTRIBUTE_MAX then None
      else
        match ReadAttributes(Past(Past(b, w), 4), n - 1, w)
        case None => None
        case Some(more) => Some([a] + more)
  }

  /** `n` skills; those whose bits lie beyond the `left` bits of the text are 0. */
  function ReadSkills(b: seq<bool>, n: nat, w: nat, left: int): (r: Option<seq<nat>>)
    ensures r.Some? ==> |r.value| == n
    decreases n
  {
    if n == 0 then Some([])
    else if w > left then
      match ReadSkills(b, n - 1, w, left)
      case None => None
      case Some(more) => Some([0] + more)
    else
      var v := First(b, w);
      if v > SKILLS_MAX then None
      else
        match ReadSkills(Past(b, w), n - 1, w, left - w)
        case None => None
        case Some(more) => Some([v] + more)
  }

  function ReadSkillPart(b: seq<bool>, left: int): Option<seq<nat>> {
    ReadSkills(Past(b, 4), 8, First(b, 4) + 8, left - 4)
  }

  /** The length of `n` attributes. */
  function AttributeSpan(n: nat, w: nat): nat {
    if n == 0 then 0 else w + 4 + AttributeSpan(n - 1, w)
  }

  function AttributeBitCount(b: seq<bool>): nat {
    8 + AttributeSpan(First(b, 4), First(Past(b, 4), 4) + 4)
  }

  /** Skills that were not written. */
  function Blank(n: nat): (s: seq<nat>)
    ensures |s| == n && forall i :: 0 <= i < n ==> s[i] == 0
  {
    seq(n, _ => 0)
  }

  /** The attributes and the skills behind them. */
  function ReadAttributePart(b: seq<bool>, left: int, primary: nat, secondary: nat): Option<Template> {
    var n, w := First(b, 4), First(Past(b, 4), 4) + 4;
    match ReadAttributes(Past(Past(b, 4), 4), n, w)
    case None => None
    case Some(attributes) =>
      match ReadSkillPart(Past(b, AttributeBitCount(b)), left - AttributeBitCount(b))
      case None => None
      case Some(skills) => Some(Template(primary, secondary, attributes, skills))
  }

  function ReadProfessionPart(b: seq<bool>, left: int): Option<Template> {
    var w := 2 * First(b, 2) + 4;
    var primary, secondary := First(Past(b, 2), w), First(Past(Past(b, 2), w), w);
    if 1 <= primary < PROFESSION_COUNT && secondary < PROFESSION_COUNT then
      ReadAttributePart(Past(Past(Past(b, 2), w), w), left - 2 - w - w, primary, secondary)
    else None
  }

  /** The template in the bits of a buffer, of which the text filled the first `left`. */
  function ReadTemplate(b: seq<bool>, left: int): Option<Template> {
    var header := First(b, 4);
    if header == 14 then ReadProfessionPart(Past(Past(b, 4), 4), left - 8)
    else if header == 0 then ReadProfessionPart(Past(b, 4), left - 4)
    else None
  }

  lemma FirstDigits(v: nat, n: nat, more: seq<bool>)
    requires v < Pow2(n)
    ensures First(Digits(v, n) + more, n) == v && Past(Digits(v, n) + more, n) == more
  {
    hide Num, Digits, Pow2;
    NumBits(v, n);
    assert (Digits(v, n) + more)[..n] == Digits(v, n);
  }

  lemma SmallPowers()
    ensures Pow2(2) == 4 && Pow2(4) == 16
  {
  }

  lemma AttributeBitsCons(attributes: seq<Attribute>, w: nat, more: seq<bool>)
    requires attributes != []
    ensures var a, tail := attributes[0], AttributeBits(attributes[1..], w) + more;
      AttributeBits(attributes, w) + more == Digits(a.id, w) + (Digits(a.value, 4) + tail)
  {
    hide Digits;
  }

  lemma ReadAttributesStep(b: seq<bool>, n: nat, w: nat)
    requires n > 0 && First(b, w) <= ATTRIBUTE_MAX
    ensures var a, more := Attribute(First(b, w), First(Past(b, w), 4)), ReadAttributes(Past(Past(b, w), 4), n - 1, w);
      ReadAttributes(b, n, w) == if more.None? then None else Some([a] + more.value)
  {
    hide First, Past;
  }

  lemma NoAttributes(b: seq<bool>, w: nat)
    ensures ReadAttributes(b, 0, w) == Some([]) && AttributeBits([], w) == [] && AttributeSpan(0, w) == 0
  {
  }

  lemma {:induction false} AttributesBack(attributes: seq<Attribute>, w: nat, more: seq<bool>)
    requires AttributesFit(attributes, w)
    requires forall i :: 0 <= i < |attributes| ==> attributes[i].id <= ATTRIBUTE_MAX
    ensures ReadAttributes(AttributeBits(attributes, w) + more, |attributes|, w) == Some(attributes)
    ensures Past(AttributeBits(attributes, w) + more, AttributeSpan(|attributes|, w)) == more
    ensures |AttributeBits(attributes, w)| == AttributeSpan(|attributes|, w)
    decreases |attributes|
  {
    hide First, Past, Digits, Pow2, ReadAttributes, AttributeBits;
    SmallPowers();
    if attributes == [] {
      NoAttributes([] + more, w);
      PastNothing(more);
    } else {
      var a, rest := attributes[0], attributes[1..];
      var all, tail := AttributeBits(attributes, w) + more, AttributeBits(rest, w) + more;
      AttributesBack(rest, w, more);
      FirstDigits(a.id, w, Digits(a.value, 4) + tail);
      FirstDigits(a.value, 4, tail);
      AttributeBitsCons(attributes, w, more);
      PastPast(all, w, 4);
      PastPast(all, w + 4, AttributeSpan(|rest|, w));
      ReadAttributesStep(all, |attributes|, w);
      assert attributes == [a] + rest;
    }
  }

  lemma PastNothing(b: seq<bool>)
    ensures Past([] + b, 0) == b
  {
    assert [] + b == b;
  }

  lemma PastPast(b: seq<bool>, m: nat, n: nat)
    ensures Past(Past(b, m), n) == Past(b, m + n)
  {
  }

  /** The text ends less than a skill after the skills that were written. */
  lemma {:induction false} SkillsBack(skills: seq<nat>, w: nat, more: seq<bool>, n: nat, left: int)
    requires |skills| <= n && (forall i :: 0 <= i < |skills| ==> skills[i] < Pow2(w) && skills[i] <= SKILLS_MAX)
    requires |SkillBits(skills, w)| <= left < |SkillBits(skills, w)| + w
    ensures ReadSkills(SkillBits(skills, w) + more, n, w, left) == Some(skills + Blank(n - |skills|))
    decreases n
  {
    hide First, Past, Digits;
    if n == 0 {
    } else if skills == [] {
      SkillsBack([], w, more, n - 1, left);
      assert skills + Blank(n) == [0] + ([] + Blank(n - 1));
    } else {
      var rest := skills[1..];
      SkillsBack(rest, w, more, n - 1, left - w);
      FirstDigits(skills[0], w, SkillBits(rest, w) + more);
      assert SkillBits(skills, w) + more == Digits(skills[0], w) + (SkillBits(rest, w) + more);
      assert skills + Blank(n - |skills|) == [skills[0]] + (rest + Blank(n - |skills|));
    }
  }

  lemma SkillPartBack(f: Form, t: Template, more: seq<bool>, left: int)
    requires TemplateOk(t) && FormOk(f, t)
    requires |SkillPart(f, t)| <= left < |SkillPart(f, t)| + f.skillWidth + 8
    ensures ReadSkillPart(SkillPart(f, t) + more, left) == Some(t.skills)
  {
    hide First, Past, Digits, ReadSkills, SkillBits;
    SmallPowers();
    var w, s := f.skillWidth + 8, t.skills[..f.written];
    FirstDigits(f.skillWidth, 4, SkillBits(s, w) + more);
    assert SkillPart(f, t) + more == Digits(f.skillWidth, 4) + (SkillBits(s, w) + more);
    SkillsBack(s, w, more, 8, left - 4);
    assert t.skills == s + Blank(8 - f.written);
  }

  lemma AttributePartBack(f: Form, t: Template, more: seq<bool>, left: int)
    requires TemplateOk(t) && FormOk(f, t)
    requires |AttributePart(f, t)| <= left < |AttributePart(f, t)| + f.skillWidth + 8
    ensures ReadAttributePart(AttributePart(f, t) + more, left, t.primary, t.secondary) == Some(t)
  {
    hide First, Past, Digits, ReadAttributes, AttributeBits, ReadSkillPart, SkillPart;
    SmallPowers();
    var w := f.attrWidth + 4;
    var b, skills := AttributePart(f, t) + more, SkillPart(f, t) + more;
    var attrs := AttributeBits(t.attributes, w) + skills;
    FirstDigits(|t.attributes|, 4, Digits(f.attrWidth, 4) + attrs);
    FirstDigits(f.attrWidth, 4, attrs);
    assert b == Digits(|t.attributes|, 4) + (Digits(f.attrWidth, 4) + attrs);
    AttributesBack(t.attributes, w, skills);
    PastPast(b, 4, 4);
    PastPast(b, 8, AttributeSpan(|t.attributes|, w));
    SkillPartBack(f, t, more, left - AttributeBitCount(b));
  }

  lemma ProfessionsSmall(t: Template)
    requires TemplateOk(t)
    ensures 1 <= t.primary < PROFESSION_COUNT && t.secondary < PROFESSION_COUNT
  {
  }

  lemma ProfessionPartBack(f: Form, t: Template, more: seq<bool>, left: int)
    requires TemplateOk(t) && FormOk(f, t)
    requires |ProfessionPart(f, t)| <= left < |ProfessionPart(f, t)| + f.skillWidth + 8
    ensures ReadProfessionPart(ProfessionPart(f, t) + more, left) == Some(t)
  {
    hide First, Past, Digits, ReadAttributePart, AttributePart, TemplateOk, Pow2, AttributesFit;
    SmallPowers();
    ProfessionsSmall(t);
    var w := ProfBits(f);
    var attrs := AttributePart(f, t) + more;
    FirstDigits(f.profWidth, 2, Digits(t.primary, w) + (Digits(t.secondary, w) + attrs));
    FirstDigits(t.primary, w, Digits(t.secondary, w) + attrs);
    FirstDigits(t.secondary, w, attrs);
    assert ProfessionPart(f, t) + more ==
      Digits(f.profWidth, 2) + (Digits(t.primary, w) + (Digits(t.secondary, w) + attrs));
    AttributePartBack(f, t, more, left - 2 - w - w);
  }

  /**
    Every valid template is read back from every admissible form of it, whatever follows
    in the buffer, when the text ends less than a skill behind it.
  */
  lemma TemplateBack(f: Form, t: Template, more: seq<bool>, left: int)
    requires TemplateOk(t) && FormOk(f, t)
    requires |Encode(f, t)| <= left < |Encode(f, t)| + f.skillWidth + 8
    ensures ReadTemplate(Encode(f, t) + more, left) == Some(t)
  {
    hide First, Past, Digits, ReadProfessionPart, ProfessionPart;
    SmallPowers();
    var rest := ProfessionPart(f, t) + more;
    if f.tag.Some? {
      FirstDigits(14, 4, Digits(f.tag.value, 4) + rest);
      FirstDigits(f.tag.value, 4, rest);
      assert Encode(f, t) + more == Digits(14, 4) + (Digits(f.tag.value, 4) + rest);
      ProfessionPartBack(f, t, more, left - 8);
    } else {
      FirstDigits(0, 4, rest);
      assert Encode(f, t) + more == Digits(0, 4) + rest;
      ProfessionPartBack(f, t, more, left - 4);
    }
  }

  // ---------- Nothing else is accepted ----------

  lemma DigitsFirst(b: seq<bool>, n: nat)
    requires n <= |b|
    ensures b == Digits(First(b, n), n) + Past(b, n) && First(b, n) < Pow2(n) && |Past(b, n)| == |b| - n
  {
    hide Num, Digits, Pow2;
    NumBound(b[..n]);
    BitsNum(b[..n]);
    assert b == b[..n] + b[n..];
  }

  lemma {:induction false} SpanBound(n: nat, w: nat)
    requires w <= 19
    ensures AttributeSpan(n, w) <= 23 * n
  {
    if n > 0 {
      SpanBound(n - 1, w);
    }
  }

  lemma {:induction false} OnlyAttributes(b: seq<bool>, n: nat, w: nat)
    requires ReadAttributes(b, n, w).Some? && AttributeSpan(n, w) <= |b|
    ensures var a := ReadAttributes(b, n, w).value;
      && AttributesFit(a, w) && (forall i :: 0 <= i < n ==> a[i].id <= ATTRIBUTE_MAX)
      && |AttributeBits(a, w)| == AttributeSpan(n, w) && b == AttributeBits(a, w) + Past(b, AttributeSpan(n, w))
    decreases n
  {
    hide First, Past, Digits, Pow2;
    SmallPowers();
    if n == 0 {
      PastNothing(b);
      assert [] + b == b;
    } else {
      var a, more := ReadAttributes(b, n, w).value, Past(Past(b, w), 4);
      DigitsFirst(b, w);
      DigitsFirst(Past(b, w), 4);
      OnlyAttributes(more, n - 1, w);
      PastPast(b, w, 4);
      PastPast(b, w + 4, AttributeSpan(n - 1, w));
      assert a[1..] == ReadAttributes(more, n - 1, w).value;
      var v, i := Digits(a[0].value, 4), Digits(a[0].id, w);
      var rest, tail := AttributeBits(a[1..], w), Past(b, AttributeSpan(n, w));
      assert b == i + (v + (rest + tail));
      assert i + (v + (rest + tail)) == (i + (v + rest)) + tail;
    }
  }

  /** How many of `n` skills of `w` bits lie inside the text. */
  function Written(n: nat, w: nat, left: int): (m: nat)
    ensures m <= n
  {
    if n == 0 || w > left then 0 else 1 + Written(n - 1, w, left - w)
  }

  lemma {:induction false} NoneWritten(b: seq<bool>, n: nat, w: nat, left: int)
    requires w > left
    ensures ReadSkills(b, n, w, left) == Some(Blank(n))
  {
    if n > 0 {
      NoneWritten(b, n - 1, w, left);
      assert Blank(n) == [0] + Blank(n - 1);
    }
  }

  lemma {:induction false} OnlySkills(b: seq<bool>, n: nat, w: nat, left: int)
    requires ReadSkills(b, n, w, left).Some? && left <= |b|
    ensures var s, m := ReadSkills(b, n, w, left).value, Written(n, w, left);
      && (forall i :: 0 <= i < n ==> s[i] <= SKILLS_MAX) && (forall i :: m <= i < n ==> s[i] == 0)
      && (forall i :: 0 <= i < m ==> s[i] < Pow2(w))
      && SkillBits(s[..m], w) <= b && (m < n ==> left < |SkillBits(s[..m], w)| + w)
      && (m > 0 ==> |SkillBits(s[..m], w)| <= left)
    decreases n
  {
    hide First, Past, Digits, Pow2;
    if n > 0 {
      if w > left {
        NoneWritten(b, n, w, left);
      } else {
        var s, m, more := ReadSkills(b, n, w, left).value, Written(n, w, left), Past(b, w);
        DigitsFirst(b, w);
        OnlySkills(more, n - 1, w, left - w);
        assert s[1..] == ReadSkills(more, n - 1, w, left - w).value;
        assert s[..m][1..] == s[1..][..m - 1];
        PrefixUnder(Digits(s[0], w), SkillBits(s[1..][..m - 1], w), more);
        assert forall i :: 1 <= i < n ==> s[i] == s[1..][i - 1];
      }
    }
  }

  lemma PrefixUnder(h: seq<bool>, a: seq<bool>, b: seq<bool>)
    requires a <= b
    ensures h + a <= h + b
  {
    assert h + b == h + a + b[|a|..];
  }

  lemma OnlySkillPart(b: seq<bool>, left: int, t: Template, f: Form)
    requires left <= |b| && |b| >= 4 && ReadSkillPart(b, left) == Some(t.skills)
    requires f.skillWidth == First(b, 4) && f.written == Written(8, f.skillWidth + 8, left - 4)
    ensures |t.skills| == 8 && (forall i :: 0 <= i < 8 ==> t.skills[i] <= SKILLS_MAX)
    ensures f.skillWidth < 16 && (forall i :: 0 <= i < f.written ==> t.skills[i] < Pow2(f.skillWidth + 8))
    ensures forall i :: f.written <= i < 8 ==> t.skills[i] == 0
    ensures SkillPart(f, t) <= b && (f.written < 8 ==> left < |SkillPart(f, t)| + f.skillWidth + 8)
    ensures f.written > 0 ==> |SkillPart(f, t)| <= left
  {
    hide First, Past, Digits, SkillBits, ReadSkills, Written, Pow2;
    SmallPowers();
    DigitsFirst(b, 4);
    OnlySkills(Past(b, 4), 8, f.skillWidth + 8, left - 4);
    PrefixUnder(Digits(f.skillWidth, 4), SkillBits(t.skills[..f.written], f.skillWidth + 8), Past(b, 4));
  }

  /** What `b` starts with, given what its parts are. */
  ghost predicate Proper(f: Form, t: Template, part: seq<bool>, b: seq<bool>, left: int) {
    && part <= b && (f.written < 8 ==> left < |part| + f.skillWidth + 8) && (f.written > 0 ==> |part| <= left)
  }

  lemma ProperUnder(f: Form, t: Template, h: seq<bool>, part: seq<bool>, b: seq<bool>, left: int)
    requires Proper(f, t, part, b, left - |h|)
    ensures Proper(f, t, h + part, h + b, left)
  {
    PrefixUnder(h, part, b);
  }

  /** All of FormOk but what concerns the professions. */
  predicate PartsOk(f: Form, t: Template) {
    && f.attrWidth < 16 && f.skillWidth < 16 && f.written <= 8 == |t.skills| && |t.attributes| < 16
    && AttributesFit(t.attributes, f.attrWidth + 4)
    && (forall i :: 0 <= i < |t.attributes| ==> t.attributes[i].id <= ATTRIBUTE_MAX)
    && (forall i :: 0 <= i < 8 ==> t.skills[i] <= SKILLS_MAX)
    && (forall i :: 0 <= i < f.written ==> t.skills[i] < Pow2(f.skillWidth + 8))
    && (forall i :: f.written <= i < 8 ==> t.skills[i] == 0)
  }

  lemma OnlyAttributePart(b: seq<bool>, left: int, primary: nat, secondary: nat) returns (f: Form)
    requires left <= |b| && |b| >= 400 && ReadAttributePart(b, left, primary, secondary).Some?
    ensures var t := ReadAttributePart(b, left, primary, secondary).value;
      && t.primary == primary && t.secondary == secondary
      && PartsOk(f, t) && Proper(f, t, AttributePart(f, t), b, left)
  {
    hide First, Past, Digits, ReadAttributes, AttributeBits, ReadSkillPart, SkillPart, Written, Pow2, AttributeSpan;
    var t := ReadAttributePart(b, left, primary, secondary).value;
    var n, aw := First(b, 4), First(Past(b, 4), 4);
    var rest := Past(Past(b, 4), 4);
    SmallPowers();
    DigitsFirst(b, 4);
    DigitsFirst(Past(b, 4), 4);
    SpanBound(n, aw + 4);
    OnlyAttributes(rest, n, aw + 4);
    PastPast(b, 4, 4);
    PastPast(b, 8, AttributeSpan(n, aw + 4));
    var c := Past(b, AttributeBitCount(b));
    var attrs := AttributeBits(t.attributes, aw + 4);
    assert |c| == |b| - AttributeBitCount(b) by { assert |rest| == |attrs| + |c|; }
    DigitsFirst(c, 4);
    var sw := First(c, 4);
    f := Form(None, 0, aw, sw, Written(8, sw + 8, left - AttributeBitCount(b) - 4));
    OnlySkillPart(c, left - AttributeBitCount(b), t, f);
    ProperUnder(f, t, attrs, SkillPart(f, t), c, left - 8);
    ProperUnder(f, t, Digits(aw, 4), attrs + SkillPart(f, t), attrs + c, left - 4);
    ProperUnder(f, t, Digits(n, 4), Digits(aw, 4) + (attrs + SkillPart(f, t)), Digits(aw, 4) + (attrs + c), left);
  }

  lemma OnlyProfessionPart(b: seq<bool>, left: int) returns (f: Form)
    requires left <= |b| && |b| >= 500 && ReadProfessionPart(b, left).Some?
    ensures var t := ReadProfessionPart(b, left).value;
      TemplateOk(t) && FormOk(f, t) && f.tag.None? && Proper(f, t, ProfessionPart(f, t), b, left)
  {
    hide First, Past, Digits, ReadAttributePart, AttributePart, Pow2;
    var t := ReadProfessionPart(b, left).value;
    var pw := First(b, 2);
    var w := 2 * pw + 4;
    SmallPowers();
    DigitsFirst(b, 2);
    var b2 := Past(b, 2);
    DigitsFirst(b2, w);
    var b3 := Past(b2, w);
    DigitsFirst(b3, w);
    var c := Past(b3, w);
    f := OnlyAttributePart(c, left - 2 - w - w, First(b2, w), First(b3, w));
    var part := AttributePart(f, t);
    AttributePartSame(f, f.(profWidth := pw, tag := None), t);
    f := f.(profWidth := pw, tag := None);
    var h := Digits(t.secondary, w);
    ProperUnder(f, t, h, part, c, left - 2 - w);
    ProperUnder(f, t, Digits(t.primary, w), h + part, h + c, left - 2);
    ProperUnder(f, t, Digits(pw, 2), Digits(t.primary, w) + (h + part), Digits(t.primary, w) + (h + c), left);
    assert b == Digits(pw, 2) + (Digits(t.primary, w) + (h + c));
  }

  lemma AttributePartSame(f: Form, g: Form, t: Template)
    requires f.written == g.written <= |t.skills| && f.attrWidth == g.attrWidth && f.skillWidth == g.skillWidth
    ensures AttributePart(f, t) == AttributePart(g, t)
  {
  }

  /**
    Conversely, whatever is read is a valid template, and the buffer starts with an
    admissible form of it, written with as many skills as end inside the text.
  */
  lemma OnlyTemplates(b: seq<bool>, left: int) returns (f: Form)
    requires left <= |b| && |b| == BIT_ROOM && ReadTemplate(b, left).Some?
    ensures var t := ReadTemplate(b, left).value;
      TemplateOk(t) && FormOk(f, t) && Proper(f, t, Encode(f, t), b, left)
  {
    hide First, Past, Digits, ReadProfessionPart, Pow2, AttributePart;
    SmallPowers();
    var t := ReadTemplate(b, left).value;
    DigitsFirst(b, 4);
    var rest := Past(b, 4);
    if First(b, 4) == 14 {
      DigitsFirst(rest, 4);
      var c := Past(rest, 4);
      f := OnlyProfessionPart(c, left - 8);
      var part := ProfessionPart(f, t);
      var g := f.(tag := Some(First(rest, 4)));
      AttributePartSame(f, g, t);
      ProperUnder(g, t, Digits(First(rest, 4), 4), part, c, left - 4);
      ProperUnder(g, t, Digits(14, 4), Digits(First(rest, 4), 4) + part, Digits(First(rest, 4), 4) + c, left);
      assert (Digits(14, 4) + Digits(First(rest, 4), 4)) + part == Digits(14, 4) + (Digits(First(rest, 4), 4) + part);
      f := g;
    } else {
      f := OnlyProfessionPart(rest, left - 4);
      ProperUnder(f, t, Digits(0, 4), ProfessionPart(f, t), rest, left);
    }
  }
}
