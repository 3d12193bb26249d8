/** The structs in memory that messages are packed from and unpacked into. */
module WireLayout {
  import opened Bytes
  import opened WireFormat

  function CountBytes(f: Field, count: nat): (s: seq<Byte>)
    requires CountOk(f, count)
    ensures |s| == CountSize(f)
  {
    if CountSize(f) == 0 then [] else Le32Bytes(count)
  }

  function HeadImage(fields: seq<Field>, p: Part): (s: seq<Byte>)
    requires fields != [] && PartOk(fields, p)
    ensures |s| == SlotSize(fields)
  {
    SpanMonotone(p.count, Slots(fields[0]), Elem(fields));
    CountBytes(fields[0], p.count) + p.bytes + Zeros(Span(Slots(fields[0]), Elem(fields)) - |p.bytes|)
  }

  /** The struct in memory that holds the message, with zeros in every unused slot. */
  function Image(fields: seq<Field>, msg: seq<Part>): (s: seq<Byte>)
    requires Valid(fields, msg)
    ensures |s| == MemSize(fields)
    decreases |fields|
  {
    if fields == [] then [] else HeadImage(fields, msg[0]) + Image(Rest(fields), msg[1..])
  }

  function At(mem: seq<Byte>, i: nat): Byte {
    if i < |mem| then mem[i] else 0
  }

  function Cut(mem: seq<Byte>, from: nat, n: nat): (s: seq<Byte>)
    ensures |s| == n
  {
    seq<Byte>(n, (i: nat) => At(mem, from + i))
  }

  function Drop(mem: seq<Byte>, n: nat): seq<Byte> {
    if n <= |mem| then mem[n..] else []
  }

  /** Elements are read every `stride` bytes, whatever their size. */
  function Gather(mem: seq<Byte>, from: nat, stride: nat, e: nat, n: nat): (s: seq<Byte>)
    ensures |s| == Span(n, e)
    decreases n
  {
    SpanSteps(if n == 0 then 0 else n - 1, e);
    if n == 0 then [] else Cut(mem, from, e) + Gather(mem, from + stride, stride, e, n - 1)
  }

  function Stride(fields: seq<Field>): nat
    requires fields != []
  {
    if fields[0].kind.NestedStruct? then fields[0].size else Elem(fields)
  }

  predicate Unit(mem: seq<Byte>, i: nat) {
    At(mem, 2 * i) != 0 || At(mem, 2 * i + 1) != 0
  }

  /** The number of 16-bit units before the terminator, at most `n`. */
  function TextLength(mem: seq<Byte>, n: nat): (r: nat)
    ensures r <= n && (forall i :: 0 <= i < r ==> Unit(mem, i)) && (r < n ==> !Unit(mem, r))
  {
    TextFrom(mem, n, 0)
  }

  function TextFrom(mem: seq<Byte>, n: nat, k: nat): (r: nat)
    requires k <= n
    ensures k <= r <= n && (forall i :: k <= i < r ==> Unit(mem, i)) && (r < n ==> !Unit(mem, r))
    decreases n - k
  {
    if k == n || !Unit(mem, k) then k else TextFrom(mem, n, k + 1)
  }

  function HeldCount(f: Field, mem: seq<Byte>): nat {
    if PrefixSize(f.kind) == 0 then 1
    else if f.kind.String16? then TextLength(mem, f.param)
    else Le32(Cut(mem, 0, 4))
  }

  function HeadView(fields: seq<Field>, mem: seq<Byte>): (p: Part)
    requires fields != []
    ensures |p.bytes| == Span(p.count, Elem(fields))
  {
    var n := HeldCount(fields[0], mem);
    Part(n, Gather(mem, CountSize(fields[0]), Stride(fields), Elem(fields), n))
  }

  /** The message that packing reads out of memory. */
  function View(fields: seq<Field>, mem: seq<Byte>): seq<Part>
    decreases |fields|
  {
    if fields == [] then []
    else [HeadView(fields, mem)] + View(Rest(fields), Drop(mem, SlotSize(fields)))
  }

  // ---------- What one layout keeps of the other ----------

  /** Elements are read where unpacking puts them. */
  predicate HeadStrided(fields: seq<Field>)
    requires fields != []
  {
    Stride(fields) == Elem(fields) || Elem(fields) == 0 || Slots(fields[0]) <= 1
  }

  predicate Strided(fields: seq<Field>)
    decreases |fields|
  {
    fields != [] ==> HeadStrided(fields) && Strided(Rest(fields))
  }

  /** No text holds its own terminator. */
  predicate HeadClean(f: Field, p: Part) {
    f.kind.String16? ==> forall i :: 0 <= i < p.count ==> Unit(p.bytes, i)
  }

  predicate Clean(fields: seq<Field>, msg: seq<Part>)
    requires Valid(fields, msg)
    decreases |fields|
  {
    fields != [] ==> HeadClean(fields[0], msg[0]) && Clean(Rest(fields), msg[1..])
  }

  lemma {:induction false} GatherAll(mem: seq<Byte>, from: nat, stride: nat, e: nat, n: nat)
    requires stride == e || e == 0 || n <= 1
    ensures Gather(mem, from, stride, e, n) == Cut(mem, from, Span(n, e))
    decreases n
  {
    if n > 0 {
      SpanSteps(n - 1, e);
      GatherAll(mem, from + stride, stride, e, n - 1);
    }
  }

  lemma TextLengthIs(mem: seq<Byte>, n: nat, k: nat)
    requires k <= n && (forall i :: 0 <= i < k ==> Unit(mem, i)) && (k < n ==> !Unit(mem, k))
    ensures TextLength(mem, n) == k
  {
  }

  lemma HeldCountImage(fields: seq<Field>, p: Part, more: seq<Byte>)
    requires fields != [] && PartOk(fields, p)
    ensures HeadClean(fields[0], p) <==> HeldCount(fields[0], HeadImage(fields, p) + more) == p.count
  {
    var f, mem := fields[0], HeadImage(fields, p) + more;
    if f.kind.String16? {
      assert forall i :: 0 <= i < 2 * p.count ==> At(mem, i) == At(p.bytes, i);
      assert forall i :: 0 <= i < p.count ==> Unit(mem, i) == Unit(p.bytes, i);
      assert p.count < f.param ==> !Unit(mem, p.count);
    } else if CountSize(f) == 4 {
      assert Cut(mem, 0, 4) == CountBytes(f, p.count);
    }
  }

  lemma ImageBytes(fields: seq<Field>, p: Part, more: seq<Byte>)
    requires fields != [] && PartOk(fields, p)
    ensures Cut(HeadImage(fields, p) + more, CountSize(fields[0]), |p.bytes|) == p.bytes
  {
    var c, mem := CountSize(fields[0]), HeadImage(fields, p) + more;
    assert mem[..c + |p.bytes|] == CountBytes(fields[0], p.count) + p.bytes;
    assert forall i :: 0 <= i < |p.bytes| ==> mem[..c + |p.bytes|][c + i] == p.bytes[i] == At(mem, c + i);
  }

  lemma HeadViewImage(fields: seq<Field>, p: Part, more: seq<Byte>)
    requires fields != [] && PartOk(fields, p) && HeadStrided(fields)
    ensures HeadClean(fields[0], p) <==> HeadView(fields, HeadImage(fields, p) + more) == p
  {
    var mem := HeadImage(fields, p) + more;
    HeldCountImage(fields, p, more);
    if HeadClean(fields[0], p) {
      GatherAll(mem, CountSize(fields[0]), Stride(fields), Elem(fields), p.count);
      ImageBytes(fields, p, more);
    }
  }

  /** Packing reads back what unpacking stored, unless a text holds a zero. */
  lemma {:induction false} ViewImage(fields: seq<Field>, msg: seq<Part>, more: seq<Byte>)
    requires Valid(fields, msg) && Strided(fields)
    ensures Clean(fields, msg) <==> View(fields, Image(fields, msg) + more) == msg
    decreases |fields|
  {
    hide HeadImage, HeadView, PartOk, HeadStrided, HeadClean, Elem, SlotSize, View, MemSize;
    if fields == [] {
      ViewNone(Image(fields, msg) + more);
    } else {
      var head, tail := HeadImage(fields, msg[0]), Image(Rest(fields), msg[1..]);
      assert Image(fields, msg) + more == head + (tail + more);
      HeadViewImage(fields, msg[0], tail + more);
      ViewImage(Rest(fields), msg[1..], more);
      ViewCons(fields, head, tail + more);
      assert msg == [msg[0]] + msg[1..];
    }
  }

  lemma ViewNone(mem: seq<Byte>)
    ensures View([], mem) == []
  {
  }

  lemma ViewCons(fields: seq<Field>, head: seq<Byte>, rest: seq<Byte>)
    requires fields != [] && |head| == SlotSize(fields)
    ensures View(fields, head + rest) == [HeadView(fields, head + rest)] + View(Rest(fields), rest)
  {
    hide HeadView, SlotSize;
    assert Drop(head + rest, |head|) == rest;
  }

  /** A text ends at its first zero. */
  function CutText(f: Field, p: Part): Part {
    if f.kind.String16? then
      var n := TextLength(p.bytes, p.count);
      Part(n, Cut(p.bytes, 0, 2 * n))
    else p
  }

  function CutTexts(fields: seq<Field>, msg: seq<Part>): seq<Part>
    requires Valid(fields, msg)
    decreases |fields|
  {
    if fields == [] then [] else [CutText(fields[0], msg[0])] + CutTexts(Rest(fields), msg[1..])
  }

  lemma HeadViewCut(fields: seq<Field>, p: Part, more: seq<Byte>)
    requires fields != [] && PartOk(fields, p) && HeadStrided(fields)
    ensures HeadView(fields, HeadImage(fields, p) + more) == CutText(fields[0], p)
  {
    var f, mem := fields[0], HeadImage(fields, p) + more;
    if f.kind.String16? {
      var k := TextLength(p.bytes, p.count);
      assert forall i :: 0 <= i < 2 * p.count ==> At(mem, i) == At(p.bytes, i);
      assert forall i :: 0 <= i < p.count ==> Unit(mem, i) == Unit(p.bytes, i);
      assert p.count < f.param ==> !Unit(mem, p.count);
      TextLengthIs(mem, f.param, k);
      GatherAll(mem, 0, 2, 2, k);
      assert Cut(mem, 0, 2 * k) == Cut(p.bytes, 0, 2 * k);
    } else {
      HeadViewImage(fields, p, more);
    }
  }

  /** What packing reads of an unpacked message: every text up to its first zero, and all the rest. */
  lemma {:induction false} ViewCut(fields: seq<Field>, msg: seq<Part>, more: seq<Byte>)
    requires Valid(fields, msg) && Strided(fields)
    ensures View(fields, Image(fields, msg) + more) == CutTexts(fields, msg)
    decreases |fields|
  {
    hide HeadImage, HeadView, PartOk, HeadStrided, CutText, Elem, SlotSize, View, MemSize;
    if fields == [] {
      ViewNone(Image(fields, msg) + more);
    } else {
      var head, tail := HeadImage(fields, msg[0]), Image(Rest(fields), msg[1..]);
      assert Image(fields, msg) + more == head + (tail + more);
      HeadViewCut(fields, msg[0], tail + more);
      ViewCut(Rest(fields), msg[1..], more);
      ViewCons(fields, head, tail + more);
    }
  }

  /** Byte `k` of the struct is part of its content. */
  predicate LiveAt(fields: seq<Field>, mem: seq<Byte>, k: nat)
    decreases |fields|
  {
    fields != [] &&
    if k < SlotSize(fields) then k < CountSize(fields[0]) + Span(HeldCount(fields[0], mem), Elem(fields))
    else LiveAt(Rest(fields), Drop(mem, SlotSize(fields)), k - SlotSize(fields))
  }

  lemma HeadImageView(fields: seq<Field>, mem: seq<Byte>, k: nat)
    requires fields != [] && PartOk(fields, HeadView(fields, mem)) && HeadStrided(fields)
    requires SlotSize(fields) <= |mem| && k < SlotSize(fields)
    ensures HeadImage(fields, HeadView(fields, mem))[k] == if LiveAt(fields, mem, k) then mem[k] else 0
  {
    var f, p := fields[0], HeadView(fields, mem);
    SpanMonotone(p.count, Slots(f), Elem(fields));
    GatherAll(mem, CountSize(f), Stride(fields), Elem(fields), p.count);
    if CountSize(f) == 4 {
      Le32Unique(Cut(mem, 0, 4));
    }
  }

  /** Packing and unpacking a struct keeps its content and clears the rest. */
  lemma {:induction false} ImageView(fields: seq<Field>, mem: seq<Byte>, k: nat)
    requires Valid(fields, View(fields, mem)) && Strided(fields)
    requires MemSize(fields) <= |mem| && k < MemSize(fields)
    ensures Image(fields, View(fields, mem))[k] == if LiveAt(fields, mem, k) then mem[k] else 0
    decreases |fields|
  {
    hide HeadImage, HeadView, PartOk, SlotSize, CountSize, HeadStrided, Elem, HeldCount;
    var n := SlotSize(fields);
    var msg := View(fields, mem);
    assert msg[1..] == View(Rest(fields), Drop(mem, n));
    if k < n {
      HeadImageView(fields, mem, k);
    } else {
      ImageView(Rest(fields), Drop(mem, n), k - n);
    }
  }

  /** The round trip through the wire, from any struct whose counts fit their fields. */
  lemma RoundTrip(fields: seq<Field>, mem: seq<Byte>, more: seq<Byte>)
    requires Strided(fields) && MemSize(fields) <= |mem|
    requires Valid(fields, View(fields, mem))
    ensures var msg := View(fields, mem); Parse(fields, Wire(fields, msg) + more) == Got(msg, |Wire(fields, msg)|)
    ensures forall k :: 0 <= k < MemSize(fields) ==>
      Image(fields, View(fields, mem))[k] == if LiveAt(fields, mem, k) then mem[k] else 0
  {
    WireParse(fields, View(fields, mem), more);
    forall k | 0 <= k < MemSize(fields)
      ensures Image(fields, View(fields, mem))[k] == if LiveAt(fields, mem, k) then mem[k] else 0
    {
      ImageView(fields, mem, k);
    }
  }

  // ---------- Nested structs whose size is not set ----------

  /** A message with two different elements in the nested struct, everything else as small as can be. */
  function Uneven(fields: seq<Field>): (msg: seq<Part>)
    decreases |fields|
  {
    if fields == [] then []
    else if fields[0].kind.NestedStruct? && fields[0].param >= 2 && Elem(fields) > 0 then
      [Part(2, Zeros(Elem(fields)) + [1] + Zeros(Elem(fields) - 1))]
    else if PrefixSize(fields[0].kind) == 0 then [Part(1, Zeros(Elem(fields)))] + Uneven(Rest(fields))
    else [Part(0, [])] + Uneven(Rest(fields))
  }

  lemma {:induction false} UnevenValid(fields: seq<Field>)
    ensures Valid(fields, Uneven(fields)) && Clean(fields, Uneven(fields))
    decreases |fields|
  {
    if fields != [] {
      var e := Elem(fields);
      SpanSteps(0, e);
      SpanSteps(1, e);
      UnevenValid(Rest(fields));
      var msg := Uneven(fields);
      assert |msg| > 0 && PartOk(fields, msg[0]);
      if fields[0].kind.NestedStruct? {
        assert Rest(fields) == [] && msg[1..] == [];
      } else {
        assert msg[1..] == Uneven(Rest(fields));
      }
    }
  }

  lemma {:induction false} UnevenLost(fields: seq<Field>)
    requires !Strided(fields) && Valid(fields, Uneven(fields))
    ensures View(fields, Image(fields, Uneven(fields)) + []) != Uneven(fields)
    decreases |fields|
  {
    var msg := Uneven(fields);
    var head := HeadImage(fields, msg[0]);
    var tail := Image(Rest(fields), msg[1..]);
    var mem := Image(fields, msg) + [];
    assert mem == head + tail;
    if !HeadStrided(fields) {
      UnevenHeadLost(fields, tail);
    } else {
      assert msg[1..] == Uneven(Rest(fields));
      UnevenLost(Rest(fields));
      assert Drop(mem, |head|) == tail + [];
      assert View(fields, mem)[1..] == View(Rest(fields), tail + []);
    }
  }

  lemma UnevenHeadLost(fields: seq<Field>, tail: seq<Byte>)
    requires fields != [] && !HeadStrided(fields) && PartOk(fields, Uneven(fields)[0])
    requires Rest(fields) == [] ==> tail == []
    ensures HeadView(fields, HeadImage(fields, Uneven(fields)[0]) + tail) != Uneven(fields)[0]
  {
    var q := Uneven(fields)[0];
    var mem := HeadImage(fields, q) + tail;
    var e, s := Elem(fields), fields[0].size;
    var p := HeadView(fields, mem);
    if p.count == 2 {
      assert p.bytes == Gather(mem, 4, s, e, 2);
      GatherSecond(mem, s, e);
      UnevenByte(fields, q, tail, s);
    }
  }

  lemma UnevenByte(fields: seq<Field>, q: Part, tail: seq<Byte>, s: nat)
    requires fields != [] && fields[0].kind.NestedStruct? && PartOk(fields, q) && q.count == 2 && tail == []
    ensures |q.bytes| == 2 * Elem(fields) && At(HeadImage(fields, q) + tail, 4 + s) == At(q.bytes, s)
  {
  }

  lemma GatherSecond(mem: seq<Byte>, s: nat, e: nat)
    requires e > 0
    ensures |Gather(mem, 4, s, e, 2)| == 2 * e && Gather(mem, 4, s, e, 2)[e] == At(mem, 4 + s)
  {
    SpanSteps(1, e);
    assert Gather(mem, 4, s, e, 2) == Cut(mem, 4, e) + Gather(mem, 4 + s, s, e, 1);
    assert Gather(mem, 4 + s, s, e, 1) == Cut(mem, 4 + s, e) + Gather(mem, 4 + s + s, s, e, 0);
  }

  /**
    Every message survives unpacking into memory and packing again exactly when the
    nested struct's `size` is the size of its element, or at most one element fits.
  */
  lemma StrideNeeded(fields: seq<Field>)
    requires WellFormed(fields)
    ensures Strided(fields) <==>
      forall msg, more :: Valid(fields, msg) && Clean(fields, msg) ==> View(fields, Image(fields, msg) + more) == msg
  {
    if Strided(fields) {
      forall msg, more | Valid(fields, msg) && Clean(fields, msg)
        ensures View(fields, Image(fields, msg) + more) == msg
      {
        ViewImage(fields, msg, more);
      }
    } else {
      UnevenValid(fields);
      UnevenLost(fields);
    }
  }

  /** One client message of the tables, which sets no size for its nested struct. */
  const CLIENT_112_STRUCT := [Field(NestedStruct, 6, 0), Field(ByteField, 0, 0), Field(Dword, 0, 0)]
  const CLIENT_112 := [Field(MsgHeader, 112, 0), Field(ByteField, 0, 0)] + CLIENT_112_STRUCT

  lemma Client112Struct(p: Part)
    requires p == Part(2, Zeros(5) + [1, 0, 0, 0, 0])
    ensures Elem(CLIENT_112_STRUCT) == 5 && WellFormed(CLIENT_112_STRUCT) && Rest(CLIENT_112_STRUCT) == []
    ensures PartOk(CLIENT_112_STRUCT, p) && HeadClean(CLIENT_112_STRUCT[0], p)
    ensures HeadView(CLIENT_112_STRUCT, HeadImage(CLIENT_112_STRUCT, p)) == Part(2, Zeros(10))
  {
    var f := CLIENT_112_STRUCT;
    assert f[1..] == [f[1], f[2]] && f[1..][1..] == [f[2]];
    assert FixedSize(f[1..]) == 1 + FixedSize([f[2]]) && FixedSize([f[2]]) == 4 + FixedSize([]);
    var mem := HeadImage(f, p);
    assert mem == mem + [];
    HeldCountImage(f, p, []);
    SpanSteps(1, 5);
    assert Gather(mem, 4, 0, 5, 2) == Cut(mem, 4, 5) + Gather(mem, 4, 0, 5, 1);
    assert Gather(mem, 4, 0, 5, 1) == Cut(mem, 4, 5) + Gather(mem, 4, 0, 5, 0);
    assert forall i :: 0 <= i < 5 ==> mem[4 + i] == p.bytes[i];
  }

  /** So packing repeats the first element: the second one, which starts with a 1, is lost. */
  lemma Client112Repeats(a: Part, b: Part, p: Part)
    requires a == Part(1, [112, 0]) && b == Part(1, [7]) && p == Part(2, Zeros(5) + [1, 0, 0, 0, 0])
    ensures WellFormed(CLIENT_112) && Valid(CLIENT_112, [a, b, p]) && Clean(CLIENT_112, [a, b, p])
    ensures View(CLIENT_112, Image(CLIENT_112, [a, b, p])) == [a, b, Part(2, Zeros(10))]
  {
    hide HeadImage, HeadView, HeadStrided, HeadClean, PartOk, Valid, Clean, View, Image;
    var g, h := CLIENT_112[1..], CLIENT_112_STRUCT;
    Client112Struct(p);
    EmptyMessage();
    assert [p] + [] == [p] && [b] + [p] == [b, p] && [a] + [b, p] == [a, b, p];
    ViewFirst(h, p, []);
    HeadImageAlone(h, p);
    FixedFirst(g, b, h);
    ViewFirst(g, b, [p]);
    FixedFirst(CLIENT_112, a, g);
    ViewFirst(CLIENT_112, a, [b, p]);
  }

  lemma FixedFirst(fields: seq<Field>, p: Part, rest: seq<Field>)
    requires fields != [] && fields[1..] == rest && PrefixSize(fields[0].kind) == 0
    requires p.count == 1 && |p.bytes| == ElementSize(fields[0])
    ensures Rest(fields) == rest && PartOk(fields, p) && HeadStrided(fields) && HeadClean(fields[0], p)
    ensures WellFormed(fields) <==> WellFormed(rest)
  {
    SpanSteps(0, Elem(fields));
  }

  lemma EmptyMessage()
    ensures Valid([], []) && Clean([], []) && View([], Image([], [])) == []
  {
  }

  lemma HeadImageAlone(fields: seq<Field>, p: Part)
    requires fields != [] && PartOk(fields, p) && Rest(fields) == []
    ensures Image(fields, [p]) == HeadImage(fields, p)
  {
    hide HeadImage;
    assert [p][1..] == [] && Image([], []) == [];
  }

  lemma ViewFirst(fields: seq<Field>, p: Part, msg: seq<Part>)
    requires fields != [] && PartOk(fields, p) && Valid(Rest(fields), msg)
    ensures Valid(fields, [p] + msg)
    ensures Clean(fields, [p] + msg) <==> HeadClean(fields[0], p) && Clean(Rest(fields), msg)
    ensures var mem := Image(fields, [p] + msg);
      View(fields, mem) == [HeadView(fields, mem)] + View(Rest(fields), Image(Rest(fields), msg))
    ensures HeadStrided(fields) && HeadClean(fields[0], p) ==> HeadView(fields, Image(fields, [p] + msg)) == p
  {
    var tail := Image(Rest(fields), msg);
    if HeadStrided(fields) {
      HeadViewImage(fields, p, tail);
    }
    hide HeadImage, HeadView, HeadStrided, HeadClean;
    assert ([p] + msg)[1..] == msg;
    assert Image(fields, [p] + msg) == HeadImage(fields, p) + tail;
    assert Drop(HeadImage(fields, p) + tail, SlotSize(fields)) == tail;
  }

  // ---------- Fields of fixed size ----------

  /** The first of fields that all have fixed sizes. */
  lemma FixedHead(fields: seq<Field>, d: seq<Byte>)
    requires AllFixed(fields) && fields != []
    ensures AllFixed(fields[1..]) && Rest(fields) == fields[1..]
    ensures FixedSize(fields) == Elem(fields) + FixedSize(fields[1..]) && SlotSize(fields) == Elem(fields)
    ensures HeadView(fields, d) == Part(1, Cut(d, 0, Elem(fields)))
    ensures |d| < Elem(fields) ==> ParseHead(fields, d).Missing?
    ensures |d| >= Elem(fields) ==> ParseHead(fields, d) == Got(Part(1, d[..Elem(fields)]), Elem(fields))
    ensures forall s: seq<Byte> {:trigger Part(1, s)} :: |s| == Elem(fields) ==>
      PartOk(fields, Part(1, s)) && HeadWire(fields, Part(1, s)) == s && HeadImage(fields, Part(1, s)) == s
  {
    hide FixedSize, Gather;
    var f := fields[0];
    assert f in fields;
    SpanSteps(0, Elem(fields));
    GatherAll(d, 0, Stride(fields), Elem(fields), 1);
    FixedSizeStep(fields);
    assert PrefixSize(f.kind) == 0 && CountSize(f) == 0 && HeldCount(f, d) == 1;
  }

  lemma FixedSizeStep(fields: seq<Field>)
    requires fields != []
    ensures FixedSize(fields) == ElementSize(fields[0]) + FixedSize(fields[1..])
  {
  }

  lemma {:induction false} FixedView(fields: seq<Field>, mem: seq<Byte>)
    requires AllFixed(fields)
    ensures Valid(fields, View(fields, mem))
    ensures Wire(fields, View(fields, mem)) == Cut(mem, 0, FixedSize(fields))
    decreases |fields|
  {
    hide FixedSize, AllFixed, HeadView, PartOk, HeadWire, Elem, SlotSize, Rest;
    if fields == [] {
      FixedNone();
    } else {
      var n := Elem(fields);
      FixedHead(fields, mem);
      FixedView(fields[1..], Drop(mem, n));
      assert View(fields, mem)[1..] == View(fields[1..], Drop(mem, n));
      CutSplit(mem, n, FixedSize(fields[1..]));
    }
  }

  lemma FixedNone()
    ensures FixedSize([]) == 0
  {
  }

  lemma CutSplit(mem: seq<Byte>, n: nat, m: nat)
    ensures Cut(mem, 0, n + m) == Cut(mem, 0, n) + Cut(Drop(mem, n), 0, m)
  {
    var all, parts := Cut(mem, 0, n + m), Cut(mem, 0, n) + Cut(Drop(mem, n), 0, m);
    forall i | 0 <= i < n + m
      ensures all[i] == parts[i]
    {
      assert i >= n ==> parts[i] == At(Drop(mem, n), i - n) == At(mem, i);
    }
  }

  lemma {:induction false} FixedMemSize(fields: seq<Field>)
    requires AllFixed(fields)
    ensures MemSize(fields) == FixedSize(fields)
  {
    if fields != [] {
      FixedHead(fields, []);
      FixedMemSize(fields[1..]);
    }
  }

  lemma {:induction false} FixedParse(fields: seq<Field>, d: seq<Byte>)
    requires AllFixed(fields)
    ensures |d| < FixedSize(fields) ==> Parse(fields, d).Missing?
    ensures |d| >= FixedSize(fields) ==> Parse(fields, d).Got? && Parse(fields, d).used == FixedSize(fields)
    ensures |d| >= FixedSize(fields) ==> Image(fields, Parse(fields, d).value) == d[..FixedSize(fields)]
    decreases |fields|
  {
    hide FixedSize, AllFixed, ParseHead, PartOk, HeadImage, Elem, SlotSize, Rest;
    if fields == [] {
      FixedNone();
    } else {
      var n := Elem(fields);
      FixedHead(fields, d);
      if |d| >= n {
        FixedParse(fields[1..], d[n..]);
        if |d| >= FixedSize(fields) {
          assert Parse(fields, d).value[1..] == Parse(fields[1..], d[n..]).value;
          assert d[..FixedSize(fields)] == d[..n] + d[n..][..FixedSize(fields[1..])];
        }
      }
    }
  }
}
