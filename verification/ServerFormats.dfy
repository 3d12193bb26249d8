/**
  AUTH_SERVER_FORMATS of code/client/packets.c and two rows of GAME_SERVER_FORMATS, and
  what the receive path makes of them.
*/
module ServerFormats {
  import opened Bytes
  import opened WireFormat
  import opened WireLayout
  import opened PacketStream

  const AUTH_00: MsgFormat :=
    MsgFormat(0, [Field(MsgHeader, 0, 0), Field(Dword, 0, 0)], 6)
  const AUTH_01: MsgFormat :=
    MsgFormat(1, [Field(MsgHeader, 1, 0), Field(Dword, 0, 0), Field(Dword, 0, 0)], 10)
  const AUTH_02: MsgFormat :=
    MsgFormat(2, [Field(MsgHeader, 2, 0), Field(Dword, 0, 0), Field(Dword, 0, 0)], 10)
  const AUTH_03: MsgFormat :=
    MsgFormat(3, [Field(MsgHeader, 3, 0), Field(Dword, 0, 0), Field(Dword, 0, 0)], 10)
  const AUTH_04: MsgFormat :=
    MsgFormat(4, [Field(MsgHeader, 4, 0), Field(Dword, 0, 0), Field(String16, 2048, 0)], 4102)
  const AUTH_05: MsgFormat :=
    MsgFormat(5, [Field(MsgHeader, 5, 0)], 2)
  const AUTH_06: MsgFormat :=
    MsgFormat(6, [Field(MsgHeader, 6, 0), Field(Dword, 0, 0), Field(Blob, 8, 0), Field(Blob, 8, 0),
      Field(Blob, 8, 0), Field(Blob, 8, 0), Field(Dword, 0, 0)], 42)
  const AUTH_07: MsgFormat :=
    MsgFormat(7, [Field(MsgHeader, 7, 0), Field(Dword, 0, 0), Field(Blob, 16, 0), Field(Dword, 0, 0),
      Field(String16, 20, 0), Field(Array8, 64, 0)], 134)
  const AUTH_08: MsgFormat :=
    MsgFormat(8, [Field(MsgHeader, 8, 0), Field(Dword, 0, 0), Field(Dword, 0, 0), Field(Blob, 24, 0),
      Field(Dword, 0, 0)], 38)
  const AUTH_09: MsgFormat :=
    MsgFormat(9, [Field(MsgHeader, 9, 0), Field(Dword, 0, 0), Field(Dword, 0, 0), Field(Dword, 0, 0),
      Field(Blob, 24, 0), Field(Dword, 0, 0)], 42)
  const AUTH_10: MsgFormat :=
    MsgFormat(10, [Field(MsgHeader, 10, 0), Field(Dword, 0, 0), Field(Dword, 0, 0), Field(Blob, 16, 0),
      Field(String16, 20, 0)], 66)
  const AUTH_11: MsgFormat :=
    MsgFormat(11, [Field(MsgHeader, 11, 0), Field(Dword, 0, 0), Field(Blob, 16, 0), Field(String16, 20, 0),
      Field(String16, 20, 0)], 102)
  const AUTH_12: MsgFormat :=
    MsgFormat(12, [Field(MsgHeader, 12, 0), Field(Dword, 0, 0), Field(String16, 20, 0), Field(String16, 256, 0)], 558)
  const AUTH_13: MsgFormat :=
    MsgFormat(13, [Field(MsgHeader, 13, 0), Field(Dword, 0, 0), Field(Dword, 0, 0), Field(String16, 256, 0),
      Field(String16, 256, 0)], 1034)
  const AUTH_14: MsgFormat :=
    MsgFormat(14, [Field(MsgHeader, 14, 0), Field(Dword, 0, 0), Field(Dword, 0, 0), Field(Array8, 32, 0)], 46)
  const AUTH_15: MsgFormat :=
    MsgFormat(15, [Field(MsgHeader, 15, 0)], 2)
  const AUTH_16: MsgFormat :=
    MsgFormat(16, [Field(MsgHeader, 16, 0), Field(Dword, 0, 0), Field(Dword, 0, 0), Field(Blob, 16, 0),
      Field(String16, 20, 0), Field(String16, 20, 0), Field(String16, 256, 0)], 618)
  const AUTH_17: MsgFormat :=
    MsgFormat(17, [Field(MsgHeader, 17, 0), Field(Dword, 0, 0), Field(Dword, 0, 0), Field(Dword, 0, 0),
      Field(Blob, 8, 0), Field(Blob, 8, 0), Field(Blob, 16, 0), Field(Blob, 16, 0), Field(Dword, 0, 0),
      Field(Array8, 200, 0), Field(ByteField, 0, 0), Field(Dword, 0, 0)], 275)
  const AUTH_18: MsgFormat :=
    MsgFormat(18, [Field(MsgHeader, 18, 0), Field(Dword, 0, 0), Field(Dword, 0, 0), Field(Blob, 16, 0),
      Field(String16, 20, 0), Field(String16, 20, 0), Field(String16, 256, 0)], 618)
  const AUTH_19: MsgFormat :=
    MsgFormat(19, [Field(MsgHeader, 19, 0), Field(Dword, 0, 0)], 6)
  const AUTH_20: MsgFormat :=
    MsgFormat(20, [Field(MsgHeader, 20, 0), Field(Dword, 0, 0), Field(Dword, 0, 0)], 10)
  const AUTH_21: MsgFormat :=
    MsgFormat(21, [Field(MsgHeader, 21, 0), Field(Dword, 0, 0), Field(Blob, 8, 0), Field(Blob, 8, 0),
      Field(Dword, 0, 0), Field(Dword, 0, 0), Field(Dword, 0, 0)], 34)
  const AUTH_22: MsgFormat :=
    MsgFormat(22, [Field(MsgHeader, 22, 0), Field(Dword, 0, 0), Field(Array8, 2048, 0)], 2058)
  const AUTH_23: MsgFormat :=
    MsgFormat(23, [Field(MsgHeader, 23, 0), Field(Array8, 4096, 0)], 4102)
  const AUTH_24: MsgFormat :=
    MsgFormat(24, [Field(MsgHeader, 24, 0), Field(Dword, 0, 0), Field(Blob, 8, 0), Field(Blob, 8, 0),
      Field(Array8, 200, 0)], 226)
  const AUTH_25: MsgFormat :=
    MsgFormat(25, [Field(MsgHeader, 25, 0)], 2)
  const AUTH_26: MsgFormat :=
    MsgFormat(26, [Field(MsgHeader, 26, 0), Field(Dword, 0, 0), Field(NestedStruct, 11, 0),
      Field(ByteField, 0, 0), Field(ByteField, 0, 0)], 32)
  const AUTH_27: MsgFormat :=
    MsgFormat(27, [Field(MsgHeader, 27, 0), Field(Dword, 0, 0), Field(Dword, 0, 0), Field(Dword, 0, 0),
      Field(Dword, 0, 0)], 18)
  const AUTH_28: MsgFormat :=
    MsgFormat(28, [Field(MsgHeader, 28, 0), Field(Dword, 0, 0), Field(Dword, 0, 0)], 10)
  const AUTH_29: MsgFormat :=
    MsgFormat(29, [Field(MsgHeader, 29, 0), Field(Dword, 0, 0), Field(Dword, 0, 0), Field(Dword, 0, 0)], 14)
  const AUTH_30: MsgFormat :=
    MsgFormat(30, [Field(MsgHeader, 30, 0), Field(Dword, 0, 0), Field(Dword, 0, 0), Field(Dword, 0, 0),
      Field(Dword, 0, 0), Field(Dword, 0, 0), Field(Dword, 0, 0), Field(Dword, 0, 0), Field(Dword, 0, 0),
      Field(Dword, 0, 0)], 38)
  const AUTH_31: MsgFormat :=
    MsgFormat(31, [Field(MsgHeader, 31, 0), Field(Dword, 0, 0), Field(Array32, 16, 0), Field(Array32, 16, 0)], 142)
  const AUTH_32: MsgFormat :=
    MsgFormat(32, [Field(MsgHeader, 32, 0), Field(Dword, 0, 0), Field(Word, 0, 0), Field(ByteField, 0, 0),
      Field(ByteField, 0, 0), Field(String16, 20, 0)], 50)
  const AUTH_33: MsgFormat :=
    MsgFormat(33, [Field(MsgHeader, 33, 0), Field(Dword, 0, 0), Field(Word, 0, 0), Field(ByteField, 0, 0),
      Field(ByteField, 0, 0), Field(String16, 20, 0)], 50)
  const AUTH_34: MsgFormat :=
    MsgFormat(34, [Field(MsgHeader, 34, 0), Field(Dword, 0, 0), Field(Blob, 12, 0)], 18)
  const AUTH_35: MsgFormat :=
    MsgFormat(35, [Field(MsgHeader, 35, 0), Field(Dword, 0, 0), Field(Dword, 0, 0), Field(Blob, 16, 0),
      Field(Blob, 16, 0), Field(Blob, 16, 0), Field(String16, 16, 0)], 90)
  const AUTH_36: MsgFormat :=
    MsgFormat(36, [Field(MsgHeader, 36, 0), Field(Dword, 0, 0), Field(Dword, 0, 0), Field(Dword, 0, 0),
      Field(String16, 4, 0), Field(String16, 20, 0), Field(String16, 16, 0)], 94)
  const AUTH_37: MsgFormat :=
    MsgFormat(37, [Field(MsgHeader, 37, 0)], 2)
  const AUTH_38: MsgFormat :=
    MsgFormat(38, [Field(MsgHeader, 38, 0), Field(Dword, 0, 0), Field(Dword, 0, 0)], 10)

  const AUTH_SERVER_FORMATS: seq<MsgFormat> := [
    AUTH_00, AUTH_01, AUTH_02, AUTH_03, AUTH_04, AUTH_05, AUTH_06, AUTH_07, AUTH_08, AUTH_09,
    AUTH_10, AUTH_11, AUTH_12, AUTH_13, AUTH_14, AUTH_15, AUTH_16, AUTH_17, AUTH_18, AUTH_19,
    AUTH_20, AUTH_21, AUTH_22, AUTH_23, AUTH_24, AUTH_25, AUTH_26, AUTH_27, AUTH_28, AUTH_29,
    AUTH_30, AUTH_31, AUTH_32, AUTH_33, AUTH_34, AUTH_35, AUTH_36, AUTH_37, AUTH_38]

  // ---------- The size of a struct, field by field ----------

  /** A field that is not nested, and has room for its terminator if it is a text. */
  predicate Plain(f: Field) {
    !f.kind.NestedStruct? && (f.kind.String16? ==> f.param >= 1)
  }

  function From(fields: seq<Field>, i: nat): seq<Field> {
    if i <= |fields| then fields[i..] else []
  }

  function SizeAt(fields: seq<Field>, i: nat): nat {
    if i < |fields| then CountSize(fields[i]) + Slots(fields[i]) * ElementSize(fields[i]) else 0
  }

  function FourSizes(fields: seq<Field>, i: nat): nat {
    SizeAt(fields, i) + SizeAt(fields, i + 1) + SizeAt(fields, i + 2) + SizeAt(fields, i + 3)
  }

  lemma PlainField(fields: seq<Field>, i: nat)
    requires i < |fields| ==> Plain(fields[i])
    ensures MemSize(From(fields, i)) == SizeAt(fields, i) + MemSize(From(fields, i + 1))
    ensures WellFormed(From(fields, i)) <==> WellFormed(From(fields, i + 1))
  {
    if i < |fields| {
      assert From(fields, i)[1..] == From(fields, i + 1);
    }
  }

  lemma FourFields(fields: seq<Field>, i: nat)
    requires forall j :: i <= j < i + 4 && j < |fields| ==> Plain(fields[j])
    ensures MemSize(From(fields, i)) == FourSizes(fields, i) + MemSize(From(fields, i + 4))
    ensures WellFormed(From(fields, i)) <==> WellFormed(From(fields, i + 4))
  {
    hide MemSize, WellFormed, From, SizeAt, Plain;
    PlainField(fields, i);
    PlainField(fields, i + 1);
    PlainField(fields, i + 2);
    PlainField(fields, i + 3);
  }

  /** Without a nested struct, a struct is as large as its fields together. */
  lemma PlainStruct(fields: seq<Field>)
    requires |fields| <= 12 && forall j :: 0 <= j < |fields| ==> Plain(fields[j])
    ensures WellFormed(fields) && MemSize(fields) == FourSizes(fields, 0) + FourSizes(fields, 4) + FourSizes(fields, 8)
  {
    hide FourSizes, Plain;
    FourFields(fields, 0);
    FourFields(fields, 4);
    FourFields(fields, 8);
    assert From(fields, 0) == fields && From(fields, 12) == [];
  }

  // ---------- The rows ----------

  /** What is shown of row `h`. */
  predicate RowIs(f: MsgFormat, h: nat) {
    && f.header == h && WellFormed(f.fields) && MemSize(f.fields) == f.unpackSize
    && (f.unpackSize > PACKET_BUFFER <==> h == 4 || h == 23)
  }

  lemma PlainRow(f: MsgFormat, h: nat)
    requires |f.fields| <= 12 && forall j :: 0 <= j < |f.fields| ==> Plain(f.fields[j])
    requires FourSizes(f.fields, 0) + FourSizes(f.fields, 4) + FourSizes(f.fields, 8) == f.unpackSize
    requires f.header == h && (f.unpackSize > PACKET_BUFFER <==> h == 4 || h == 23)
    ensures RowIs(f, h)
  {
    PlainStruct(f.fields);
  }

  const NESTED_26: seq<Field> := [Field(NestedStruct, 11, 0), Field(ByteField, 0, 0), Field(ByteField, 0, 0)]

  lemma NestedPart()
    ensures WellFormed(NESTED_26) && MemSize(NESTED_26) == 26
  {
  }

  lemma NestedRow()
    ensures RowIs(AUTH_26, 26)
  {
    hide WellFormed, MemSize;
    var fields := AUTH_26.fields;
    NestedPart();
    PlainField(fields, 0);
    PlainField(fields, 1);
    assert From(fields, 0) == fields;
    assert From(fields, 2) == NESTED_26;
  }

  lemma Rows00()
    ensures RowIs(AUTH_00, 0) && RowIs(AUTH_01, 1) && RowIs(AUTH_02, 2) && RowIs(AUTH_03, 3)
  {
    hide RowIs, WellFormed, MemSize;
    PlainRow(AUTH_00, 0);
    PlainRow(AUTH_01, 1);
    PlainRow(AUTH_02, 2);
    PlainRow(AUTH_03, 3);
  }

  lemma Rows04()
    ensures RowIs(AUTH_04, 4) && RowIs(AUTH_05, 5) && RowIs(AUTH_06, 6)
  {
    hide RowIs, WellFormed, MemSize;
    PlainRow(AUTH_04, 4);
    PlainRow(AUTH_05, 5);
    PlainRow(AUTH_06, 6);
  }

  lemma Rows07()
    ensures RowIs(AUTH_07, 7) && RowIs(AUTH_08, 8)
  {
    hide RowIs, WellFormed, MemSize;
    PlainRow(AUTH_07, 7);
    PlainRow(AUTH_08, 8);
  }

  lemma Rows09()
    ensures RowIs(AUTH_09, 9) && RowIs(AUTH_10, 10)
  {
    hide RowIs, WellFormed, MemSize;
    PlainRow(AUTH_09, 9);
    PlainRow(AUTH_10, 10);
  }

  lemma Rows11()
    ensures RowIs(AUTH_11, 11) && RowIs(AUTH_12, 12)
  {
    hide RowIs, WellFormed, MemSize;
    PlainRow(AUTH_11, 11);
    PlainRow(AUTH_12, 12);
  }

  lemma Rows13()
    ensures RowIs(AUTH_13, 13) && RowIs(AUTH_14, 14) && RowIs(AUTH_15, 15)
  {
    hide RowIs, WellFormed, MemSize;
    PlainRow(AUTH_13, 13);
    PlainRow(AUTH_14, 14);
    PlainRow(AUTH_15, 15);
  }

  lemma Rows16()
    ensures RowIs(AUTH_16, 16)
  {
    hide RowIs, WellFormed, MemSize;
    PlainRow(AUTH_16, 16);
  }

  lemma Rows17()
    ensures RowIs(AUTH_17, 17)
  {
    hide RowIs, WellFormed, MemSize;
    PlainRow(AUTH_17, 17);
  }

  lemma Rows18()
    ensures RowIs(AUTH_18, 18) && RowIs(AUTH_19, 19) && RowIs(AUTH_20, 20)
  {
    hide RowIs, WellFormed, MemSize;
    PlainRow(AUTH_18, 18);
    PlainRow(AUTH_19, 19);
    PlainRow(AUTH_20, 20);
  }

  lemma Rows21()
    ensures RowIs(AUTH_21, 21) && RowIs(AUTH_22, 22) && RowIs(AUTH_23, 23)
  {
    hide RowIs, WellFormed, MemSize;
    PlainRow(AUTH_21, 21);
    PlainRow(AUTH_22, 22);
    PlainRow(AUTH_23, 23);
  }

  lemma Rows24()
    ensures RowIs(AUTH_24, 24) && RowIs(AUTH_25, 25) && RowIs(AUTH_26, 26)
  {
    hide RowIs, WellFormed, MemSize;
    PlainRow(AUTH_24, 24);
    PlainRow(AUTH_25, 25);
    NestedRow();
  }

  lemma Rows27()
    ensures RowIs(AUTH_27, 27) && RowIs(AUTH_28, 28) && RowIs(AUTH_29, 29)
  {
    hide RowIs, WellFormed, MemSize;
    PlainRow(AUTH_27, 27);
    PlainRow(AUTH_28, 28);
    PlainRow(AUTH_29, 29);
  }

  lemma Rows30()
    ensures RowIs(AUTH_30, 30)
  {
    hide RowIs, WellFormed, MemSize;
    PlainRow(AUTH_30, 30);
  }

  lemma Rows31()
    ensures RowIs(AUTH_31, 31) && RowIs(AUTH_32, 32)
  {
    hide RowIs, WellFormed, MemSize;
    PlainRow(AUTH_31, 31);
    PlainRow(AUTH_32, 32);
  }

  lemma Rows33()
    ensures RowIs(AUTH_33, 33) && RowIs(AUTH_34, 34)
  {
    hide RowIs, WellFormed, MemSize;
    PlainRow(AUTH_33, 33);
    PlainRow(AUTH_34, 34);
  }

  lemma Rows35()
    ensures RowIs(AUTH_35, 35)
  {
    hide RowIs, WellFormed, MemSize;
    PlainRow(AUTH_35, 35);
  }

  lemma Rows36()
    ensures RowIs(AUTH_36, 36) && RowIs(AUTH_37, 37) && RowIs(AUTH_38, 38)
  {
    hide RowIs, WellFormed, MemSize;
    PlainRow(AUTH_36, 36);
    PlainRow(AUTH_37, 37);
    PlainRow(AUTH_38, 38);
  }

  /** Every row declares the size of its struct, and all but two of these fit the packet buffer. */
  lemma AuthFormats(h: nat)
    requires h < |AUTH_SERVER_FORMATS|
    ensures RowIs(AUTH_SERVER_FORMATS[h], h)
  {
    hide RowIs;
    Rows00();
    Rows04();
    Rows07();
    Rows09();
    Rows11();
    Rows13();
    Rows16();
    Rows17();
    Rows18();
    Rows21();
    Rows24();
    Rows27();
    Rows30();
    Rows31();
    Rows33();
    Rows35();
    Rows36();
  }

  /** Two bytes of the stream are enough to overrun the buffer, before the rest of the message has come. */
  lemma Header4Overruns(slots: nat, more: seq<Byte>)
    ensures Decode(AUTH_SERVER_FORMATS, slots, [4, 0] + more) == Decoded([], [4, 0] + more, Overrun)
  {
    AuthFormats(4);
    hide WellFormed, MemSize;
    assert Le16([4, 0] + more) == 4;
  }

  /** With this table decoding overruns the buffer exactly where it meets header 4 or 23, and models every other row. */
  lemma AuthStops(slots: nat, s: seq<Byte>)
    ensures var d := Decode(AUTH_SERVER_FORMATS, slots, s);
      && !d.fault.Unmodelled?
      && (d.fault.Overrun? <==> |d.rest| >= 2 && (Le16(d.rest) == 4 || Le16(d.rest) == 23))
  {
    hide Decode, Le16, WellFormed, MemSize;
    var d := Decode(AUTH_SERVER_FORMATS, slots, s);
    FaultsExactly(AUTH_SERVER_FORMATS, slots, s);
    if |d.rest| >= 2 && Le16(d.rest) < |AUTH_SERVER_FORMATS| {
      AuthFormats(Le16(d.rest));
    }
  }

  /** A stream of packed messages overruns the buffer exactly when one of them has the header 4 or 23. */
  lemma AuthOverruns(slots: nat, ms: seq<Message>)
    requires AllPackable(AUTH_SERVER_FORMATS, slots, ms)
    ensures Decode(AUTH_SERVER_FORMATS, slots, Stream(AUTH_SERVER_FORMATS, slots, ms)).fault.Overrun? <==>
      exists i :: 0 <= i < |ms| && (ms[i].header == 4 || ms[i].header == 23)
  {
    hide Decode, Stream, WellFormed, MemSize, Valid, Le16Bytes, AUTH_SERVER_FORMATS;
    PackedOverruns(AUTH_SERVER_FORMATS, slots, ms);
    forall i | 0 <= i < |ms|
      ensures Oversized(AUTH_SERVER_FORMATS, ms[i]) <==> ms[i].header == 4 || ms[i].header == 23
    {
      assert Packable(AUTH_SERVER_FORMATS, slots, ms[i]);
      AuthFormats(ms[i].header);
    }
  }

  // ---------- A text that holds a zero ----------

  /** A message with header 7 whose text has a zero in front of an A. */
  function ZeroText(): seq<Part> {
    [Part(1, [7, 0]), Part(1, Zeros(4)), Part(1, Zeros(16)), Part(1, Zeros(4)), Part(2, [0, 0, 65, 0]), Part(0, [])]
  }

  lemma FixedFirst(f: Field, fields: seq<Field>, p: Part, msg: seq<Part>)
    requires PrefixSize(f.kind) == 0 && p.count == 1 && |p.bytes| == ElementSize(f)
    requires Valid(fields, msg) && Strided(fields)
    ensures Valid([f] + fields, [p] + msg) && Strided([f] + fields)
    ensures CutTexts([f] + fields, [p] + msg) == [p] + CutTexts(fields, msg)
  {
    assert ([f] + fields)[1..] == fields && ([p] + msg)[1..] == msg;
  }

  lemma TextAndBytes(text: Field, bytes: Field, p: Part, b: Part)
    requires text == Field(String16, 20, 0) && bytes == Field(Array8, 64, 0)
    requires p == Part(2, [0, 0, 65, 0]) && b == Part(0, [])
    ensures Valid([text, bytes], [p, b]) && Strided([text, bytes])
    ensures CutTexts([text, bytes], [p, b]) == [Part(0, []), b]
  {
    assert [text, bytes][1..] == [bytes] && [p, b][1..] == [b] && [bytes][1..] == [] && [b][1..] == [];
    assert !Unit(p.bytes, 0);
    assert Cut(p.bytes, 0, 0) == [];
    assert CutTexts([bytes], [b]) == [b] + CutTexts([], []);
  }

  /** Packed again, this message has lost its text. */
  lemma ZeroInText(more: seq<Byte>)
    ensures var fields, msg := AUTH_07.fields, ZeroText();
      && Valid(fields, msg) && Strided(fields)
      && View(fields, Image(fields, msg) + more) == msg[4 := Part(0, [])] != msg
  {
    hide CutTexts, Valid, Strided, View, Image;
    var f, m := AUTH_07.fields, ZeroText();
    TextAndBytes(f[4], f[5], m[4], m[5]);
    FixedFirst(f[3], [f[4], f[5]], m[3], [m[4], m[5]]);
    FixedFirst(f[2], [f[3]] + [f[4], f[5]], m[2], [m[3]] + [m[4], m[5]]);
    FixedFirst(f[1], [f[2]] + ([f[3]] + [f[4], f[5]]), m[1], [m[2]] + ([m[3]] + [m[4], m[5]]));
    FixedFirst(f[0], [f[1]] + ([f[2]] + ([f[3]] + [f[4], f[5]])), m[0], [m[1]] + ([m[2]] + ([m[3]] + [m[4], m[5]])));
    assert f == [f[0]] + ([f[1]] + ([f[2]] + ([f[3]] + [f[4], f[5]])));
    assert m == [m[0]] + ([m[1]] + ([m[2]] + ([m[3]] + [m[4], m[5]])));
    ViewCut(f, m, more);
  }

  // ---------- Nested structs that hold a text ----------

  const GAME_401: MsgFormat :=
    MsgFormat(401, [Field(MsgHeader, 401, 0), Field(Word, 0, 0), Field(ByteField, 0, 0),
      Field(ByteField, 0, 0), Field(ByteField, 0, 0), Field(Dword, 0, 0), Field(String16, 64, 0),
      Field(NestedStruct, 8, 0), Field(String16, 20, 0)], 463)
  const GAME_412: MsgFormat :=
    MsgFormat(412, [Field(MsgHeader, 412, 0), Field(Dword, 0, 0), Field(Word, 0, 0), Field(Word, 0, 0),
      Field(ByteField, 0, 0), Field(ByteField, 0, 0), Field(ByteField, 0, 0), Field(NestedStruct, 2, 0),
      Field(ByteField, 0, 0), Field(ByteField, 0, 0), Field(ByteField, 0, 0), Field(ByteField, 0, 0),
      Field(ByteField, 0, 0), Field(ByteField, 0, 0), Field(ByteField, 0, 0), Field(Word, 0, 0),
      Field(ByteField, 0, 0), Field(String16, 48, 0)], 229)

  /** These two rows of the game server's table are outside the model. */
  lemma GameRowsUnmodelled()
    ensures !WellFormed(GAME_401.fields) && !WellFormed(GAME_412.fields)
  {
    hide WellFormed;
    NestedTextAt(GAME_401.fields, 7);
    NestedTextAt(GAME_412.fields, 7);
  }

  lemma {:induction false} NestedTextAt(fields: seq<Field>, k: nat)
    requires k < |fields| && fields[k].kind.NestedStruct?
    requires forall i :: 0 <= i < k ==> !fields[i].kind.NestedStruct?
    requires fields[|fields| - 1].kind.String16?
    ensures !WellFormed(fields)
    decreases k
  {
    if k == 0 {
      assert fields[|fields| - 1] in fields[1..] || |fields| == 1;
    } else {
      NestedTextAt(fields[1..], k - 1);
    }
  }
}
