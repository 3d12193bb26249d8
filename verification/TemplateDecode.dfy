/** `template_decode` and its helpers. */
module TemplateDecoding {
  import opened Options
  import opened Powers
  import opened TemplateFormat
  import opened TemplateMemory
  import opened TemplateSettled
  import opened TemplateUnsettled

  // ---------- The text of a template settles it ----------

  lemma {:induction false} AttributesSettled(attributes: seq<Attribute>, w: nat, more: seq<bool>)
    requires AttributesFit(attributes, w)
    ensures SettledAttributes(AttributeBits(attributes, w) + more, |attributes|, w)
    decreases |attributes|
  {
    hide First, Past, Digits, Pow2, AttributeBits;
    SmallPowers();
    if attributes != [] {
      var a, tail := attributes[0], AttributeBits(attributes[1..], w) + more;
      AttributesSettled(attributes[1..], w, more);
      AttributeBitsCons(attributes, w, more);
      FirstDigits(a.id, w, Digits(a.value, 4) + tail);
      FirstDigits(a.value, 4, tail);
    }
  }

  lemma AttributePartSettled(f: Form, t: Template, more: seq<bool>)
    requires FormOk(f, t)
    ensures SettledAttributePart(AttributePart(f, t) + more)
  {
    hide First, Past, Digits, SettledAttributes, AttributeBits, SkillPart, AttributesFit, Pow2;
    SmallPowers();
    var w := f.attrWidth + 4;
    var skills := SkillPart(f, t) + more;
    var attrs := AttributeBits(t.attributes, w) + skills;
    FirstDigits(|t.attributes|, 4, Digits(f.attrWidth, 4) + attrs);
    FirstDigits(f.attrWidth, 4, attrs);
    assert AttributePart(f, t) + more == Digits(|t.attributes|, 4) + (Digits(f.attrWidth, 4) + attrs);
    AttributesSettled(t.attributes, w, skills);
  }

  lemma ProfessionPartSettled(f: Form, t: Template, more: seq<bool>)
    requires FormOk(f, t)
    ensures SettledProfessionPart(ProfessionPart(f, t) + more)
  {
    hide First, Past, Num, Digits, SettledAttributePart, AttributePart, AttributesFit, Pow2;
    SmallPowers();
    var w := ProfBits(f);
    var attrs := AttributePart(f, t) + more;
    FirstDigits(f.profWidth, 2, Digits(t.primary, w) + (Digits(t.secondary, w) + attrs));
    FirstDigits(t.primary, w, Digits(t.secondary, w) + attrs);
    FirstDigits(t.secondary, w, attrs);
    assert ProfessionPart(f, t) + more ==
      Digits(f.profWidth, 2) + (Digits(t.primary, w) + (Digits(t.secondary, w) + attrs));
    AttributePartSettled(f, t, more);
  }

  /** Every admissible form of a template settles what is decoded. */
  lemma EncodedSettled(f: Form, t: Template, more: seq<bool>)
    requires FormOk(f, t)
    ensures Settled(Encode(f, t) + more)
  {
    hide First, Past, Digits, SettledProfessionPart, ProfessionPart, AttributesFit;
    SmallPowers();
    var rest := ProfessionPart(f, t) + more;
    ProfessionPartSettled(f, t, more);
    if f.tag.Some? {
      FirstDigits(14, 4, Digits(f.tag.value, 4) + rest);
      FirstDigits(f.tag.value, 4, rest);
      assert Encode(f, t) + more == Digits(14, 4) + (Digits(f.tag.value, 4) + rest);
    } else {
      FirstDigits(0, 4, rest);
      assert Encode(f, t) + more == Digits(0, 4) + rest;
    }
  }

  /**
    The text of any valid template, in any admissible form, decodes to the template,
    whatever stood in the buffer behind it.
  */
  lemma TextDecodes(f: Form, t: Template, g: seq<SChar>)
    requires TemplateOk(t) && FormOk(f, t)
    requires 6 * |BitsText(Encode(f, t))| + |g| == BIT_ROOM
    ensures var text := BitsText(Encode(f, t));
      var o := RawTemplate(FromBits(TextBits(text)) + g, 6 * |text|);
      o.Known? && o.value == AsRaw(t)
  {
    hide Encode, TemplateOk, ReadTemplate, RawTemplate, TextBits, BitsText, AttributesFit, Settled, FromBits;
    var text := BitsText(Encode(f, t));
    var pad := BitsBack(Encode(f, t));
    EncodedSettled(f, t, pad);
    TemplateBack(f, t, pad, 6 * |text|);
    SettledReads(TextBits(text), g);
  }

  // ---------- A text that is cut inside an attribute ----------

  const ABEA: seq<Char> := [65, 66, 69, 65]

  function MinusOnes(n: nat): (s: seq<SChar>)
    ensures |s| == n && forall i :: 0 <= i < n ==> s[i] == -1
  {
    seq<SChar>(n, (i: nat) => -1)
  }

  lemma AbeaBits()
    ensures TextOk(ABEA)
    ensures TextBits(ABEA) == Digits(0, 4) + (Digits(0, 2) + (Digits(1, 4) + (Digits(0, 4) + AbeaRest())))
  {
    hide Digits, CharValue, TextBits;
    assert CharValue(65) == 0 && CharValue(66) == 1 && CharValue(69) == 4 by { AbeaValues(); }
    TextBitsNone();
    TextBitsCons(65, []);
    TextBitsCons(69, [65]);
    TextBitsCons(66, [69, 65]);
    TextBitsCons(65, [66, 69, 65]);
    assert [65] + [] == [65] && [69] + [65] == [69, 65] && [66] + [69, 65] == [66, 69, 65] && [65] + [66, 69, 65] == ABEA;
    AbeaDigits();
    FewDigits();
    assert TextBits(ABEA) == Digits(0, 6) + (Digits(1, 6) + (Digits(4, 6) + (Digits(0, 6) + [])));
  }

  /** One attribute, of four bits of which two are there. */
  function AbeaRest(): seq<bool> {
    Digits(1, 4) + (Digits(0, 4) + [false, false])
  }

  lemma AbeaValues()
    ensures CharValue(65) == 0 && CharValue(66) == 1 && CharValue(69) == 4
  {
  }

  lemma AbeaDigits()
    ensures Digits(0, 6) == [false, false, false, false, false, false]
    ensures Digits(1, 6) == [true, false, false, false, false, false]
    ensures Digits(4, 6) == [false, false, true, false, false, false]
  {
    SixDigits(0);
    SixDigits(1);
    SixDigits(4);
  }

  lemma FewDigits()
    ensures Digits(0, 2) == [false, false] && Digits(0, 4) == [false, false, false, false]
    ensures Digits(1, 4) == [true, false, false, false]
  {
    DigitsStep(0, 1);
    DigitsStep(0, 2);
    DigitsStep(0, 3);
    DigitsStep(0, 4);
    DigitsStep(1, 4);
  }

  lemma CutId()
    ensures Value([0, 0, -1, -1]) == -4 && Value([-1, -1, -1, -1]) == -1
  {
    hide Value, Or;
    OrFew();
    ValueNothing();
    FourPowers();
    ValueSnoc([], 0);
    ValueSnoc([0], 0);
    ValueSnoc([0, 0], -1);
    ValueSnoc([0, 0, -1], -1);
    ValueSnoc([], -1);
    ValueSnoc([-1], -1);
    ValueSnoc([-1, -1], -1);
    ValueSnoc([-1, -1, -1], -1);
    assert [] + [0] == [0] && [0] + [0] == [0, 0] && [0, 0] + [-1] == [0, 0, -1] && [0, 0, -1] + [-1] == [0, 0, -1, -1];
    assert [] + [-1] == [-1] && [-1] + [-1] == [-1, -1] && [-1, -1] + [-1] == [-1, -1, -1];
    assert [-1, -1, -1] + [-1] == [-1, -1, -1, -1];
  }

  lemma OrFew()
    ensures Or(0, 0) == 0 && Or(0, -4) == -4 && Or(-4, -8) == -4
    ensures Or(0, -1) == -1 && Or(-1, -2) == -1 && Or(-1, -4) == -1 && Or(-1, -8) == -1
  {
    assert Or(-1, -2) == 1 + 2 * Or(-1, -1);
    assert Or(-1, -4) == 1 + 2 * Or(-1, -2);
    assert Or(-1, -8) == 1 + 2 * Or(-1, -4);
    OrDouble(-1, -2);
    OrDouble(-2, -4);
    OrZero(-4);
    OrZero(-1);
  }

  lemma AbeaAttribute()
    ensures RawAttributes(FromBits([false, false]) + MinusOnes(1000), 1, 4) ==
      Known([RawAttribute(-4, -1)], MinusOnes(994))
  {
    hide Value;
    var s := FromBits([false, false]) + MinusOnes(1000);
    CutId();
    assert s[..4] == [0, 0, -1, -1] && s[4..] == MinusOnes(998);
    assert MinusOnes(998)[..4] == [-1, -1, -1, -1] && MinusOnes(998)[4..] == MinusOnes(994);
    assert RawAttributes(MinusOnes(994), 1 - 1, 4) == Known([], MinusOnes(994));
    assert Skip(Skip(s, 4), 4) == MinusOnes(994);
    assert [RawAttribute(-4, -1)] + [] == [RawAttribute(-4, -1)];
  }

  lemma AbeaAttributePart()
    ensures !SettledAttributePart(AbeaRest())
    ensures var o := RawAttributePart(FromBits(AbeaRest()) + MinusOnes(1000), 10, 1, 0);
      o.Known? && o.value == Raw(1, 0, [RawAttribute(-4, -1)], [0, 0, 0, 0, 0, 0, 0, 0])
  {
    hide First, Past, Digits, Read, Skip, RawAttributes, RawSkillPart;
    var rest := [false, false];
    SmallPowers();
    FirstDigits(1, 4, Digits(0, 4) + rest);
    FirstDigits(0, 4, rest);
    assert !SettledAttributes(rest, 1, 4);
    InText(AbeaRest(), MinusOnes(1000), 4);
    InText(Digits(0, 4) + rest, MinusOnes(1000), 4);
    AbeaAttribute();
    SkillPartPast(MinusOnes(994), -6);
    assert AsInts(Blank(8)) == [0, 0, 0, 0, 0, 0, 0, 0];
  }

  /**
    The text "ABEA" announces one attribute and ends inside its id. With chars of -1
    behind it the template that comes out has the attribute -4.
  */
  lemma AbeaBreaks()
    ensures TextOk(ABEA) && !Settled(TextBits(ABEA))
    ensures var o := RawTemplate(FromBits(TextBits(ABEA)) + MinusOnes(1000), 24);
      o.Known? && o.value == Raw(1, 0, [RawAttribute(-4, -1)], [0, 0, 0, 0, 0, 0, 0, 0])
  {
    hide First, Past, Digits, Read, Skip, RawAttributePart, SettledAttributePart, AbeaRest, TextBits;
    var g, b4 := MinusOnes(1000), AbeaRest();
    var b3 := Digits(0, 4) + b4;
    var b2 := Digits(1, 4) + b3;
    var b1 := Digits(0, 2) + b2;
    AbeaBits();
    SmallPowers();
    FirstDigits(0, 4, b1);
    FirstDigits(0, 2, b2);
    FirstDigits(1, 4, b3);
    FirstDigits(0, 4, b4);
    InText(Digits(0, 4) + b1, g, 4);
    InText(b1, g, 2);
    InText(b2, g, 4);
    InText(b3, g, 4);
    AbeaAttributePart();
    assert |TextBits(ABEA)| == 24;
  }

  // ---------- The decoder ----------

  /** `_WriteBits`. */
  method WriteBits(val: nat, buff: array<SChar>, at: nat)
    requires val < 64 && at + 6 <= buff.Length
    modifies buff
    ensures buff[at..at + 6] == FromBits(Digits(val, 6))
    ensures buff[..at] == old(buff[..at]) && buff[at + 6..] == old(buff[at + 6..])
  {
    hide Digits;
    SixDigits(val);
    buff[at] := val % 2;
    buff[at + 1] := val / 2 % 2;
    buff[at + 2] := val / 4 % 2;
    buff[at + 3] := val / 8 % 2;
    buff[at + 4] := val / 16 % 2;
    buff[at + 5] := val / 32 % 2;
  }

  lemma SixDigits(v: nat)
    ensures Digits(v, 6) == [v % 2 == 1, v / 2 % 2 == 1, v / 4 % 2 == 1, v / 8 % 2 == 1, v / 16 % 2 == 1, v / 32 % 2 == 1]
  {
    hide Digits;
    Halves(v);
    HalvesDigits(v, v / 2, v / 4, v / 8, v / 16, v / 32);
  }

  lemma HalvesDigits(v: nat, v1: nat, v2: nat, v3: nat, v4: nat, v5: nat)
    requires v1 == v / 2 && v2 == v1 / 2 && v3 == v2 / 2 && v4 == v3 / 2 && v5 == v4 / 2
    ensures Digits(v, 6) == [v % 2 == 1, v1 % 2 == 1, v2 % 2 == 1, v3 % 2 == 1, v4 % 2 == 1, v5 % 2 == 1]
  {
    hide Digits;
    ThreeDigits(v3, v4, v5);
    ThreeMore(v, v1, v2);
  }

  lemma ThreeDigits(v: nat, v1: nat, v2: nat)
    requires v1 == v / 2 && v2 == v1 / 2
    ensures Digits(v, 3) == [v % 2 == 1, v1 % 2 == 1, v2 % 2 == 1]
  {
    hide Digits;
    DigitsStep(v2, 1);
    DigitsStep(v1, 2);
    DigitsStep(v, 3);
  }

  lemma ThreeMore(v: nat, v1: nat, v2: nat)
    requires v1 == v / 2 && v2 == v1 / 2
    ensures Digits(v, 6) == [v % 2 == 1, v1 % 2 == 1, v2 % 2 == 1] + Digits(v2 / 2, 3)
  {
    hide Digits;
    DigitsStep(v2, 4);
    DigitsStep(v1, 5);
    DigitsStep(v, 6);
  }

  lemma Halves(v: nat)
    ensures v / 2 / 2 == v / 4 && v / 4 / 2 == v / 8 && v / 8 / 2 == v / 16 && v / 16 / 2 == v / 32
  {
  }

  lemma DigitsStep(v: nat, n: nat)
    requires n > 0
    ensures Digits(v, n) == [v % 2 == 1] + Digits(v / 2, n - 1)
  {
  }

  /** `_ReadBits`, with the cursor returned. */
  method ReadBits(str: array<SChar>, at: nat, n: int) returns (val: int, next: nat)
    requires at <= str.Length && !Wild(str.Length - at, n)
    ensures next == at + if n <= 0 then 0 else n
    ensures val == Read(str[at..], n) && str[next..] == Skip(str[at..], n)
  {
    hide Or;
    val, next := 0, at;
    var i := 0;
    while i < n
      invariant 0 <= i && (i > 0 ==> i <= n)
      invariant next == at + i && val == Value(str[at..at + i])
    {
      ValueSnoc(str[at..at + i], str[next]);
      assert str[at..at + i + 1] == str[at..at + i] + [str[next]];
      val := Or(val, str[next] * Pow2(i));
      next := next + 1;
      i := i + 1;
    }
    if n > 0 {
      assert str[at..][..n] == str[at..at + n] && str[at..][n..] == str[at + n..];
    }
  }

  /** The bits of the text; false for a character outside the alphabet. */
  method FillBits(text: seq<Char>, bitStr: array<SChar>) returns (ok: bool)
    requires 6 * |text| <= bitStr.Length
    modifies bitStr
    ensures ok <==> TextOk(text)
    ensures ok ==> bitStr[..6 * |text|] == FromBits(TextBits(text))
    ensures ok ==> bitStr[6 * |text|..] == old(bitStr[6 * |text|..])
  {
    hide Digits, FromBits;
    FromNothing();
    for i := 0 to |text|
      invariant TextOk(text[..i]) && bitStr[..6 * i] == FromBits(TextBits(text[..i]))
      invariant bitStr[6 * i..] == old(bitStr[6 * i..])
    {
      var value := CharValue(text[i]);
      if value == -1 { return false; }
      assert text[..i + 1][..i] == text[..i];
      WriteBits(value, bitStr, 6 * i);
      FromBitsConcat(TextBits(text[..i]), Digits(value, 6));
      assert bitStr[..6 * (i + 1)] == bitStr[..6 * i] + bitStr[6 * i..6 * i + 6];
    }
    assert text[..|text|] == text;
    return true;
  }

  lemma FromNothing()
    ensures FromBits([]) == []
  {
  }

  function Joined<T>(done: seq<T>, rest: Outcome<seq<T>>): Outcome<seq<T>> {
    match rest
    case Known(more, end) => Known(done + more, end)
    case Refused => Refused
    case Undefined => Undefined
  }

  lemma JoinedNothing<T>(rest: Outcome<seq<T>>)
    ensures Joined([], rest) == rest
  {
    if rest.Known? {
      assert [] + rest.value == rest.value;
    }
  }

  lemma JoinedMore<T>(done: seq<T>, x: T, rest: Outcome<seq<T>>)
    ensures Joined(done + [x], rest) == Joined(done, Joined([x], rest))
  {
    if rest.Known? {
      assert done + [x] + rest.value == done + ([x] + rest.value);
    }
  }

  lemma JoinedEnd<T>(done: seq<T>, s: seq<SChar>)
    ensures Joined(done, Known([], s)) == Known(done, s)
    ensures Joined(done, Refused) == Refused && Joined(done, Undefined) == Undefined
  {
    assert done + [] == done;
  }

  method DecodeAttributes(str: array<SChar>, at: nat, n: nat, w: int)
    returns (r: Outcome<seq<RawAttribute>>, next: nat)
    requires at <= str.Length
    ensures r == RawAttributes(str[at..], n, w)
    ensures r.Known? ==> next <= str.Length && r.rest == str[next..]
  {
    hide Read, Skip, Wild, Joined;
    var attributes: seq<RawAttribute> := [];
    next := at;
    ghost var all := RawAttributes(str[at..], n, w);
    JoinedNothing(all);
    for i := 0 to n
      invariant next <= str.Length && |attributes| == i
      invariant all == Joined(attributes, RawAttributes(str[next..], n - i, w))
    {
      ghost var s := str[next..];
      JoinedEnd(attributes, s);
      AttributeStep(attributes, s, n - i, w);
      if Wild(str.Length - next, w) { return Undefined, next; }
      var id, value;
      id, next := ReadBits(str, next, w);
      if Wild(str.Length - next, 4) { return Undefined, next; }
      value, next := ReadBits(str, next, 4);
      if id > ATTRIBUTE_MAX { return Refused, next; }
      attributes := attributes + [RawAttribute(id, value)];
    }
    JoinedEnd(attributes, str[next..]);
    return Known(attributes, str[next..]), next;
  }

  lemma AttributeStep(done: seq<RawAttribute>, s: seq<SChar>, n: nat, w: int)
    requires n > 0
    ensures var o := RawAttributes(s, n, w);
      if Wild(|s|, w) || Wild(|Skip(s, w)|, 4) then o == Undefined
      else if Read(s, w) > ATTRIBUTE_MAX then o == Refused
      else
        var a := RawAttribute(Read(s, w), Read(Skip(s, w), 4));
        Joined(done, o) == Joined(done + [a], RawAttributes(Skip(Skip(s, w), 4), n - 1, w))
  {
    hide Read, Skip, Wild;
    if !(Wild(|s|, w) || Wild(|Skip(s, w)|, 4)) {
      var a := RawAttribute(Read(s, w), Read(Skip(s, w), 4));
      JoinedMore(done, a, RawAttributes(Skip(Skip(s, w), 4), n - 1, w));
    }
  }

  /** The eight skills; a skill that does not end inside the text is 0. */
  method DecodeSkills(str: array<SChar>, at: nat, end: nat, w: int) returns (r: Outcome<seq<int>>)
    requires at <= str.Length
    ensures r == RawSkills(str[at..], 8, w, end - at)
  {
    hide Read, Skip, Wild, Joined, RawSkills;
    var skills: seq<int> := [];
    var it: nat := at;
    ghost var all := RawSkills(str[at..], 8, w, end - at);
    JoinedNothing(all);
    for i := 0 to 8
      invariant it <= str.Length && |skills| == i
      invariant all == Joined(skills, RawSkills(str[it..], 8 - i, w, end - it))
    {
      ghost var s := str[it..];
      JoinedEnd(skills, s);
      SkillStep(skills, s, 8 - i, w, end - it);
      if it + w > end {
        skills := skills + [0];
      } else {
        if Wild(str.Length - it, w) { return Undefined; }
        var skillId;
        skillId, it := ReadBits(str, it, w);
        if skillId > SKILLS_MAX { return Refused; }
        skills := skills + [skillId];
      }
    }
    NoSkills(str[it..], w, end - it);
    JoinedEnd(skills, str[it..]);
    return Known(skills, str[it..]);
  }

  lemma NoSkills(s: seq<SChar>, w: int, left: int)
    ensures RawSkills(s, 0, w, left) == Known([], s)
  {
  }

  lemma SkillStep(done: seq<int>, s: seq<SChar>, n: nat, w: int, left: int)
    requires n > 0
    ensures var o := RawSkills(s, n, w, left);
      if w > left then Joined(done, o) == Joined(done + [0], RawSkills(s, n - 1, w, left))
      else if Wild(|s|, w) then o == Undefined
      else if Read(s, w) > SKILLS_MAX then o == Refused
      else
        var s' := Skip(s, w);
        Joined(done, o) == Joined(done + [Read(s, w)], RawSkills(s', n - 1, w, left - (|s| - |s'|)))
  {
    hide Read, Skip, Wild;
    if w > left {
      JoinedMore(done, 0, RawSkills(s, n - 1, w, left));
    } else if !Wild(|s|, w) && Read(s, w) <= SKILLS_MAX {
      var s' := Skip(s, w);
      JoinedMore(done, Read(s, w), RawSkills(s', n - 1, w, left - (|s| - |s'|)));
    }
  }

  method DecodeRest(str: array<SChar>, at: nat, end: nat, primary: int, secondary: int) returns (r: Outcome<Raw>)
    requires at <= str.Length
    ensures r == RawAttributePart(str[at..], end - at, primary, secondary)
  {
    hide Read, Skip, Wild, RawAttributes, RawSkills;
    var count, attrWidth, skillWidth, it;
    if Wild(str.Length - at, 4) { return Undefined; }
    count, it := ReadBits(str, at, 4);
    if count >= 16 { return Refused; }
    if count < 0 || Wild(str.Length - it, 4) { return Undefined; }
    attrWidth, it := ReadBits(str, it, 4);
    var attributes;
    attributes, it := DecodeAttributes(str, it, count, attrWidth + 4);
    if attributes.Undefined? { return Undefined; }
    if attributes.Refused? { return Refused; }
    if Wild(str.Length - it, 4) { return Undefined; }
    skillWidth, it := ReadBits(str, it, 4);
    var skills := DecodeSkills(str, it, end, skillWidth + 8);
    if skills.Undefined? { return Undefined; }
    if skills.Refused? { return Refused; }
    return Known(Raw(primary, secondary, attributes.value, skills.value), skills.rest);
  }

  method DecodeProfessions(str: array<SChar>, at: nat, end: nat) returns (r: Outcome<Raw>)
    requires at <= str.Length
    ensures r == RawProfessionPart(str[at..], end - at)
  {
    hide Read, Skip, Wild, RawAttributePart;
    if Wild(str.Length - at, 2) { return Undefined; }
    var profWidth, it := ReadBits(str, at, 2);
    var bitsPerProf := 2 * profWidth + 4;
    var primary, secondary;
    if Wild(str.Length - it, bitsPerProf) { return Undefined; }
    primary, it := ReadBits(str, it, bitsPerProf);
    if Wild(str.Length - it, bitsPerProf) { return Undefined; }
    secondary, it := ReadBits(str, it, bitsPerProf);
    if primary <= 0 || primary >= PROFESSION_COUNT { return Refused; }
    if secondary < 0 || secondary >= PROFESSION_COUNT { return Refused; }
    r := DecodeRest(str, it, end, primary, secondary);
  }

  /** The header, and what it introduces. */
  method DecodeBits(str: array<SChar>, end: nat) returns (r: Outcome<Raw>)
    ensures r == RawTemplate(str[..], end)
  {
    hide Read, Skip, Wild, RawProfessionPart;
    assert str[0..] == str[..];
    if Wild(str.Length, 4) { return Undefined; }
    var header, it := ReadBits(str, 0, 4);
    if header != 0 && header != 14 { return Refused; }
    if header == 14 {
      if Wild(str.Length - it, 4) { return Undefined; }
      var tag;
      tag, it := ReadBits(str, it, 4);
    }
    r := DecodeProfessions(str, it, end);
  }

  /**
    The buffer is not cleared: `garbage` is what it held behind the bits of the text. A
    settled text is decoded as its bits say, and the text of a template to the template.
  */
  method TemplateDecode(text: seq<Char>) returns (r: Outcome<Raw>, ghost garbage: seq<SChar>)
    requires 6 * |text| < BIT_ROOM
    ensures 6 * |text| + |garbage| == BIT_ROOM
    ensures r == if TextOk(text) then RawTemplate(FromBits(TextBits(text)) + garbage, 6 * |text|) else Refused
    ensures TextOk(text) && Settled(TextBits(text)) ==> Reads(r, ReadTemplate(TextBits(text), 6 * |text|)) && Sound(r)
    ensures forall f, t :: TemplateOk(t) && FormOk(f, t) && text == BitsText(Encode(f, t)) ==>
      r.Known? && r.value == AsRaw(t)
  {
    hide *;
    var str := new SChar[BIT_ROOM];
    garbage := str[6 * |text|..];
    var ok := FillBits(text, str);
    NeverBad(text);
    if !ok { return Refused, garbage; }
    assert str[..] == str[..6 * |text|] + str[6 * |text|..];
    r := DecodeBits(str, 6 * |text|);
    Decodes(text, garbage);
  }

  /** A text with a character outside the alphabet is no template's text. */
  lemma NeverBad(text: seq<Char>)
    ensures !TextOk(text) ==> forall f, t :: FormOk(f, t) ==> text != BitsText(Encode(f, t))
  {
    hide Encode, FormOk, BitsText;
  }

  lemma Decodes(text: seq<Char>, g: seq<SChar>)
    requires TextOk(text) && 6 * |text| + |g| == BIT_ROOM
    ensures var r := RawTemplate(FromBits(TextBits(text)) + g, 6 * |text|);
      && (Settled(TextBits(text)) ==> Reads(r, ReadTemplate(TextBits(text), 6 * |text|)) && Sound(r))
      && (forall f, t :: TemplateOk(t) && FormOk(f, t) && text == BitsText(Encode(f, t)) ==> r.Known? && r.value == AsRaw(t))
  {
    hide Encode, TemplateOk, ReadTemplate, RawTemplate, TextBits, BitsText, Settled, FromBits, AttributesFit, Sound, Reads;
    var r := RawTemplate(FromBits(TextBits(text)) + g, 6 * |text|);
    if Settled(TextBits(text)) {
      SettledReads(TextBits(text), g);
      SettledSound(TextBits(text), g);
    }
    forall f, t | TemplateOk(t) && FormOk(f, t) && text == BitsText(Encode(f, t))
      ensures r.Known? && r.value == AsRaw(t)
    {
      TextDecodes(f, t, g);
    }
  }
}
