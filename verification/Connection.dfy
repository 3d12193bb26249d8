/**
  The receive path of code/client/network.c.  What one chunk decodes to is defined on
  the whole stream; the connection decrypts and dispatches chunk by chunk.
*/
module PacketStream {
  import opened Bytes
  import opened WireFormat
  import opened WireLayout

  datatype MsgFormat = MsgFormat(header: nat, fields: seq<Field>, unpackSize: nat)

  /** A packet as its handler gets it. */
  datatype Packet = Packet(header: nat, bytes: seq<Byte>)

  /**
    Why decoding stops for good: a failed assert; a header that no handler slot exists
    for; a format whose struct is larger than the packet buffer, so that clearing it
    writes past the end; or a format that this model does not cover.
  */
  datatype Fault = Fine | AssertFailed | NoSlot | Overrun | Unmodelled

  datatype Decoded = Decoded(packets: seq<Packet>, rest: seq<Byte>, fault: Fault)

  const PACKET_BUFFER: nat := 4096

  /** The struct fits its declared size and that fits the packet buffer; nested structs are of fixed size. */
  predicate FormatOk(f: MsgFormat) {
    WellFormed(f.fields) && MemSize(f.fields) <= f.unpackSize <= PACKET_BUFFER
  }

  function StructBytes(f: MsgFormat, msg: seq<Part>): (s: seq<Byte>)
    requires Valid(f.fields, msg) && FormatOk(f)
    ensures |s| == f.unpackSize
  {
    Image(f.fields, msg) + Zeros(f.unpackSize - MemSize(f.fields))
  }

  function Before(packets: seq<Packet>, d: Decoded): Decoded {
    d.(packets := packets + d.packets)
  }

  /** The packets of a decrypted stream; `slots` is the size of the handler table. */
  function Decode(formats: seq<MsgFormat>, slots: nat, s: seq<Byte>): (d: Decoded)
    ensures |d.rest| <= |s|
    decreases |s|
  {
    if |s| < 2 then Decoded([], s, Fine)
    else
      var header := Le16(s);
      if header >= |formats| || formats[header].header != header then Decoded([], s, AssertFailed)
      else
        var f := formats[header];
        if f.unpackSize > PACKET_BUFFER then Decoded([], s, Overrun)
        else if !FormatOk(f) then Decoded([], s, Unmodelled)
        else
          match Parse(f.fields, s)
          case Missing => Decoded([], s, Fine)
          case Rejected => Decoded([], s, AssertFailed)
          case Got(msg, n) =>
            if n == 0 then Decoded([], s, Fine)
            else if header >= slots then Decoded([], s, NoSlot)
            else Before([Packet(header, StructBytes(f, msg))], Decode(formats, slots, s[n..]))
  }

  lemma Le16Same(s: seq<Byte>, t: seq<Byte>)
    requires |s| >= 2
    ensures Le16(s + t) == Le16(s)
  {
  }

  lemma ParseMore(fields: seq<Field>, s: seq<Byte>, t: seq<Byte>)
    requires Parse(fields, s).Got?
    ensures Parse(fields, s + t) == Parse(fields, s)
  {
    hide Parse, Wire;
    var r := Parse(fields, s);
    ParseWire(fields, s);
    assert s == s[..r.used] + s[r.used..];
    assert s + t == s[..r.used] + (s[r.used..] + t);
    WireParse(fields, r.value, s[r.used..] + t);
  }

  /** Decoding can stop anywhere and go on later with what is left. */
  lemma {:induction false} DecodeConcat(formats: seq<MsgFormat>, slots: nat, s: seq<Byte>, t: seq<Byte>)
    ensures var d, all := Decode(formats, slots, s), Decode(formats, slots, s + t);
      && (d.fault.Fine? ==> all == Before(d.packets, Decode(formats, slots, d.rest + t)))
      && (!d.fault.Fine? ==> all.packets == d.packets && all.fault == d.fault)
    decreases |s|
  {
    hide Parse, StructBytes, Le16, WellFormed, MemSize;
    var d := Decode(formats, slots, s);
    if |s| >= 2 {
      Le16Same(s, t);
      var header := Le16(s);
      if header < |formats| && formats[header].header == header && FormatOk(formats[header]) {
        var f := formats[header];
        var r := Parse(f.fields, s);
        if r.Rejected? {
          RejectedStays(f.fields, s, t);
        } else if r.Got? && r.used > 0 {
          ParseMore(f.fields, s, t);
          if header < slots {
            var first := [Packet(header, StructBytes(f, r.value))];
            assert (s + t)[r.used..] == s[r.used..] + t;
            DecodeConcat(formats, slots, s[r.used..], t);
            BeforeBefore(first, Decode(formats, slots, s[r.used..]).packets, Decode(formats, slots, d.rest + t));
          }
        }
      }
    }
    BeforeNothing(Decode(formats, slots, s + t));
  }

  /** The format that the stream's next header names. */
  predicate Names(formats: seq<MsgFormat>, s: seq<Byte>) {
    |s| >= 2 && Le16(s) < |formats| && formats[Le16(s)].header == Le16(s)
  }

  /**
    Clearing the packet buffer overruns it exactly where decoding meets a header whose
    struct is larger than the buffer, whether or not the rest of the message has come;
    and decoding leaves the model exactly where it meets a smaller format outside it.
  */
  lemma {:induction false} FaultsExactly(formats: seq<MsgFormat>, slots: nat, s: seq<Byte>)
    ensures var d := Decode(formats, slots, s);
      && (d.fault.Overrun? <==> Names(formats, d.rest) && formats[Le16(d.rest)].unpackSize > 4096)
      && (d.fault.Unmodelled? || d.fault.Overrun? <==>
        Names(formats, d.rest) && !FormatOk(formats[Le16(d.rest)]))
    decreases |s|
  {
    hide Parse, StructBytes, Le16, WellFormed, MemSize;
    if Names(formats, s) && FormatOk(formats[Le16(s)]) {
      var r := Parse(formats[Le16(s)].fields, s);
      if r.Got? && r.used > 0 && Le16(s) < slots {
        FaultsExactly(formats, slots, s[r.used..]);
      }
    }
  }

  /**
    The other faults by their cause: an unknown header or a count that is too large is a
    failed assert, and a header without a handler slot, once its message is complete,
    closes the connection.
  */
  lemma {:induction false} FaultCauses(formats: seq<MsgFormat>, slots: nat, s: seq<Byte>)
    ensures var d := Decode(formats, slots, s);
      var known := Names(formats, d.rest) && FormatOk(formats[Le16(d.rest)]);
      && (d.fault.AssertFailed? <==>
        (|d.rest| >= 2 && !Names(formats, d.rest))
        || (known && Parse(formats[Le16(d.rest)].fields, d.rest).Rejected?))
      && (d.fault.NoSlot? <==>
        known && Le16(d.rest) >= slots
        && var r := Parse(formats[Le16(d.rest)].fields, d.rest); r.Got? && r.used > 0)
    decreases |s|
  {
    hide Parse, StructBytes, Le16, WellFormed, MemSize;
    if Names(formats, s) && FormatOk(formats[Le16(s)]) {
      var r := Parse(formats[Le16(s)].fields, s);
      if r.Got? && r.used > 0 && Le16(s) < slots {
        FaultCauses(formats, slots, s[r.used..]);
      }
    }
  }

  lemma BeforeBefore(p: seq<Packet>, q: seq<Packet>, d: Decoded)
    ensures Before(p, Before(q, d)) == Before(p + q, d)
  {
    assert p + (q + d.packets) == (p + q) + d.packets;
  }

  lemma BeforeNothing(d: Decoded)
    ensures Before([], d) == d
  {
  }

  // ---------- Streams of packed messages ----------

  datatype Message = Message(header: nat, parts: seq<Part>)

  /** A message that the sender can pack and the receiver has a handler slot for. */
  predicate Packable(formats: seq<MsgFormat>, slots: nat, m: Message) {
    && m.header < |formats| && m.header < slots && m.header < 0x1_0000
    && var f := formats[m.header];
    && f.header == m.header && WellFormed(f.fields) && MemSize(f.fields) <= f.unpackSize
    && f.fields != [] && f.fields[0].kind.MsgHeader?
    && Valid(f.fields, m.parts) && m.parts[0].bytes == Le16Bytes(m.header)
  }

  predicate AllPackable(formats: seq<MsgFormat>, slots: nat, ms: seq<Message>) {
    forall i :: 0 <= i < |ms| ==> Packable(formats, slots, ms[i])
  }

  /** Its struct is larger than the receiver's packet buffer. */
  predicate Oversized(formats: seq<MsgFormat>, m: Message)
    requires m.header < |formats|
  {
    formats[m.header].unpackSize > PACKET_BUFFER
  }

  predicate Sendable(formats: seq<MsgFormat>, slots: nat, m: Message) {
    Packable(formats, slots, m) && !Oversized(formats, m)
  }

  predicate AllSendable(formats: seq<MsgFormat>, slots: nat, ms: seq<Message>) {
    forall i :: 0 <= i < |ms| ==> Sendable(formats, slots, ms[i])
  }

  function Stream(formats: seq<MsgFormat>, slots: nat, ms: seq<Message>): seq<Byte>
    requires AllPackable(formats, slots, ms)
  {
    if ms == [] then []
    else Wire(formats[ms[0].header].fields, ms[0].parts) + Stream(formats, slots, ms[1..])
  }

  function Structs(formats: seq<MsgFormat>, slots: nat, ms: seq<Message>): seq<Packet>
    requires AllSendable(formats, slots, ms)
  {
    if ms == [] then []
    else
      var f := formats[ms[0].header];
      [Packet(ms[0].header, StructBytes(f, ms[0].parts))] + Structs(formats, slots, ms[1..])
  }

  lemma {:induction false} StructsAre(formats: seq<MsgFormat>, slots: nat, ms: seq<Message>)
    requires AllSendable(formats, slots, ms)
    ensures var p := Structs(formats, slots, ms);
      |p| == |ms| && forall i :: 0 <= i < |ms| ==>
        ms[i].header < slots && Sendable(formats, slots, ms[i]) &&
        p[i] == Packet(ms[i].header, StructBytes(formats[ms[i].header], ms[i].parts))
  {
    hide StructBytes, WellFormed, MemSize, Valid;
    if ms != [] {
      StructsAre(formats, slots, ms[1..]);
      assert forall i :: 1 <= i < |ms| ==> ms[i] == ms[1..][i - 1];
    }
  }

  lemma WireHeader(f: MsgFormat, m: Message, more: seq<Byte>)
    requires f.fields != [] && f.fields[0].kind.MsgHeader? && m.header < 0x1_0000
    requires Valid(f.fields, m.parts) && m.parts[0].bytes == Le16Bytes(m.header)
    ensures |Wire(f.fields, m.parts)| >= 2 && Le16(Wire(f.fields, m.parts) + more) == m.header
  {
    var w := Wire(f.fields, m.parts);
    assert w[..2] == m.parts[0].bytes;
    assert (w + more)[..2] == w[..2];
  }

  /** A stream of packed messages decodes to their structs, in order and with nothing over. */
  lemma {:induction false} StreamDecodes(formats: seq<MsgFormat>, slots: nat, ms: seq<Message>)
    requires AllSendable(formats, slots, ms)
    ensures Decode(formats, slots, Stream(formats, slots, ms)) == Decoded(Structs(formats, slots, ms), [], Fine)
  {
    if ms != [] {
      hide Parse, Wire, Le16, Valid, StructBytes, WellFormed, MemSize;
      var m, s := ms[0], Stream(formats, slots, ms);
      assert Sendable(formats, slots, m);
      var f := formats[m.header];
      var w, more := Wire(f.fields, m.parts), Stream(formats, slots, ms[1..]);
      WireHeader(f, m, more);
      WireParse(f.fields, m.parts, more);
      assert s[|w|..] == more;
      StreamDecodes(formats, slots, ms[1..]);
    }
  }

  // ---------- Which streams overrun the packet buffer ----------

  /** Some stream overruns the buffer unless every row that a header can name fits it. */
  lemma NeverOverruns(formats: seq<MsgFormat>, slots: nat)
    ensures (forall s :: !Decode(formats, slots, s).fault.Overrun?) <==>
      forall h: nat :: h < |formats| && h < 0x1_0000 && formats[h].header == h ==> formats[h].unpackSize <= 4096
  {
    hide Decode, Le16, Le16Bytes;
    if h: nat :| h < |formats| && h < 0x1_0000 && formats[h].header == h && formats[h].unpackSize > PACKET_BUFFER {
      HeaderBack(h);
      OverrunsAtOnce(formats, slots, Le16Bytes(h));
      assert Decode(formats, slots, Le16Bytes(h)).fault.Overrun?;
    } else {
      forall s
        ensures !Decode(formats, slots, s).fault.Overrun?
      {
        FaultsExactly(formats, slots, s);
        HeaderSmall(Decode(formats, slots, s).rest);
      }
    }
  }

  lemma HeaderSmall(s: seq<Byte>)
    ensures |s| >= 2 ==> Le16(s) < 0x1_0000
  {
  }

  lemma HeaderBack(h: nat)
    requires h < 0x1_0000
    ensures |Le16Bytes(h)| == 2 && Le16(Le16Bytes(h)) == h
  {
  }

  /** Clearing comes before unpacking: the header is enough. */
  lemma OverrunsAtOnce(formats: seq<MsgFormat>, slots: nat, s: seq<Byte>)
    requires Names(formats, s) && formats[Le16(s)].unpackSize > PACKET_BUFFER
    ensures Decode(formats, slots, s) == Decoded([], s, Overrun)
  {
    hide Le16;
  }

  /** Behind any messages that fit, two bytes that name a larger struct overrun the buffer. */
  lemma StreamOverruns(formats: seq<MsgFormat>, slots: nat, ms: seq<Message>, tail: seq<Byte>)
    requires AllSendable(formats, slots, ms)
    requires Names(formats, tail) && formats[Le16(tail)].unpackSize > 4096
    ensures Decode(formats, slots, Stream(formats, slots, ms) + tail) == Decoded(Structs(formats, slots, ms), tail, Overrun)
  {
    hide Decode, Le16, Packable, Oversized, Stream, Structs;
    StreamDecodes(formats, slots, ms);
    DecodeConcat(formats, slots, Stream(formats, slots, ms), tail);
    OverrunsAtOnce(formats, slots, tail);
    assert [] + tail == tail;
    assert Structs(formats, slots, ms) + [] == Structs(formats, slots, ms);
  }

  /** A stream of messages that the sender can pack overruns the buffer exactly when one of them is oversized. */
  lemma PackedOverruns(formats: seq<MsgFormat>, slots: nat, ms: seq<Message>)
    requires AllPackable(formats, slots, ms)
    ensures var d := Decode(formats, slots, Stream(formats, slots, ms));
      d.fault.Overrun? <==> exists i :: 0 <= i < |ms| && Oversized(formats, ms[i])
  {
    hide Decode, Stream, Structs, Le16, Le16Bytes, WellFormed, MemSize, Valid;
    var i := FirstOversized(formats, slots, ms);
    assert AllSendable(formats, slots, ms[..i]);
    if i < |ms| {
      StreamSplit(formats, slots, ms, i);
      StreamHeader(formats, slots, ms[i..]);
      StreamOverruns(formats, slots, ms[..i], Stream(formats, slots, ms[i..]));
    } else {
      assert ms[..i] == ms;
      StreamDecodes(formats, slots, ms);
    }
  }

  lemma FirstOversized(formats: seq<MsgFormat>, slots: nat, ms: seq<Message>) returns (i: nat)
    requires AllPackable(formats, slots, ms)
    ensures i <= |ms| && (forall j :: 0 <= j < i ==> !Oversized(formats, ms[j]))
    ensures i < |ms| ==> Oversized(formats, ms[i])
  {
    i := 0;
    while i < |ms| && !Oversized(formats, ms[i])
      invariant i <= |ms| && forall j :: 0 <= j < i ==> !Oversized(formats, ms[j])
    {
      i := i + 1;
    }
  }

  lemma {:induction false} StreamSplit(formats: seq<MsgFormat>, slots: nat, ms: seq<Message>, i: nat)
    requires AllPackable(formats, slots, ms) && i <= |ms|
    ensures Stream(formats, slots, ms) == Stream(formats, slots, ms[..i]) + Stream(formats, slots, ms[i..])
  {
    hide Packable, Wire;
    if i == 0 {
      assert ms[0..] == ms;
    } else {
      StreamSplit(formats, slots, ms[1..], i - 1);
      assert ms[..i][1..] == ms[1..][..i - 1] && ms[1..][i - 1..] == ms[i..];
    }
  }

  lemma StreamHeader(formats: seq<MsgFormat>, slots: nat, ms: seq<Message>)
    requires ms != [] && AllPackable(formats, slots, ms)
    ensures var s := Stream(formats, slots, ms); Names(formats, s) && Le16(s) == ms[0].header
  {
    hide Le16, Wire, WellFormed, MemSize, Valid;
    assert Packable(formats, slots, ms[0]);
    WireHeader(formats[ms[0].header], ms[0], Stream(formats, slots, ms[1..]));
  }
}

module Connections {
  import opened Bytes
  import opened WireFormat
  import opened WireLayout
  import opened Codec
  import opened Unpacking
  import opened PacketStream
  import opened Arc4

  /**
    `Closed` is a shutdown of the connection, `Aborted` a failed assert, and `Undefined`
    a format whose struct overruns the packet buffer or is not modelled.
  */
  datatype Outcome = Open | Closed | Aborted | Undefined

  /** The packets whose header has a handler. */
  function Handled(handlers: seq<bool>, packets: seq<Packet>): seq<Packet> {
    if packets == [] then []
    else
      var p := packets[0];
      (if p.header < |handlers| && handlers[p.header] then [p] else []) + Handled(handlers, packets[1..])
  }

  lemma {:induction false} HandledConcat(handlers: seq<bool>, p: seq<Packet>, q: seq<Packet>)
    ensures Handled(handlers, p + q) == Handled(handlers, p) + Handled(handlers, q)
  {
    if p == [] {
      assert p + q == q;
    } else {
      assert (p + q)[1..] == p[1..] + q;
      HandledConcat(handlers, p[1..], q);
    }
  }

  /** `got` holds the packets at the places `at`: in order, those whose header has a handler, and no other. */
  predicate Selected(handlers: seq<bool>, packets: seq<Packet>, at: seq<nat>, got: seq<Packet>) {
    && |at| == |got| && (forall i, j :: 0 <= i < j < |at| ==> at[i] < at[j])
    && (forall i :: 0 <= i < |at| ==> at[i] < |packets| && got[i] == packets[at[i]])
    && (forall i :: 0 <= i < |at| ==> got[i].header < |handlers| && handlers[got[i].header])
    && (forall k :: 0 <= k < |packets| && packets[k].header < |handlers| && handlers[packets[k].header] ==> k in at)
  }

  lemma {:induction false} HandledSelected(handlers: seq<bool>, packets: seq<Packet>) returns (at: seq<nat>)
    ensures Selected(handlers, packets, at, Handled(handlers, packets))
  {
    hide Handled;
    HandledNothing(handlers);
    if packets == [] {
      at := [];
    } else {
      var n := |packets| - 1;
      var init, p := packets[..n], packets[n];
      at := HandledSelected(handlers, init);
      HandledConcat(handlers, init, [p]);
      assert packets == init + [p];
      HandledOne(handlers, p);
      var before := at;
      if p.header < |handlers| && handlers[p.header] {
        at := at + [n];
        assert at[|before|] == n;
      }
      assert forall k :: k in before ==> k in at;
    }
  }

  lemma HandledOne(handlers: seq<bool>, p: Packet)
    ensures Handled(handlers, [p]) == if p.header < |handlers| && handlers[p.header] then [p] else []
  {
    assert [p][1..] == [];
  }

  function OutcomeOf(f: Fault): Outcome {
    match f
    case Fine => Open
    case NoSlot => Closed
    case AssertFailed => Outcome.Aborted
    case Overrun => Undefined
    case Unmodelled => Undefined
  }

  /**
    Why receiving ends as it does, from the bytes that are not decoded: they start with an
    unknown header or hold a count that is too large; with a complete message that no
    handler slot exists for; or with a header whose struct overruns the packet buffer or
    is not modelled.
  */
  predicate Caused(formats: seq<MsgFormat>, slots: nat, rest: seq<Byte>, r: Outcome) {
    var known := Names(formats, rest) && FormatOk(formats[Le16(rest)]);
    && (r.Aborted? <==>
      (|rest| >= 2 && !Names(formats, rest)) || (known && Parse(formats[Le16(rest)].fields, rest).Rejected?))
    && (r.Closed? <==>
      known && Le16(rest) >= slots
      && var p := Parse(formats[Le16(rest)].fields, rest); p.Got? && p.used > 0)
    && (r.Undefined? <==> Names(formats, rest) && !known)
  }

  lemma OutcomeCauses(formats: seq<MsgFormat>, slots: nat, s: seq<Byte>)
    ensures var d := Decode(formats, slots, s); Caused(formats, slots, d.rest, OutcomeOf(d.fault))
  {
    hide Decode, Parse, FormatOk, Le16, Names;
    FaultCauses(formats, slots, s);
    FaultsExactly(formats, slots, s);
  }

  class Connection {
    const data: array<Byte>
    var size: nat
    const decrypt: Context
    const formats: seq<MsgFormat>
    /** Which headers have a handler. */
    const handlers: seq<bool>
    /** What the handlers have been called with, in order. */
    ghost var delivered: seq<Packet>
    /** The state of the cipher at the start, and all that was received since. */
    ghost const start: Cipher
    ghost var received: seq<Byte>

    /** The decrypted stream so far. */
    ghost function Plain(): seq<Byte>
      requires |start.m| == 256
      reads this
    {
      Crypted(start, received)
    }

    /** The parts that make up a connection, and the cipher's progress. */
    ghost predicate Ready()
      reads this, data, decrypt, decrypt.m
    {
      && size <= data.Length
      && data != decrypt.m && decrypt.Valid()
      && |start.m| == 256 && decrypt.State() == After(start, |received|)
    }

    /** The buffer holds exactly what is not decoded yet; all the rest has been delivered. */
    ghost predicate Valid()
      reads this, data, decrypt, decrypt.m
    {
      && Ready()
      && var d := Decode(formats, |handlers|, Plain());
      && d.fault.Fine? && data[..size] == d.rest && delivered == Handled(handlers, d.packets)
    }

    constructor (key: array<Byte>, capacity: nat, formats: seq<MsgFormat>, handlers: seq<bool>)
      requires key.Length > 0
      ensures Valid() && received == [] && delivered == []
      ensures data.Length == capacity && start == SetUp(key[..])
      ensures this.formats == formats && this.handlers == handlers
      ensures fresh(data) && fresh(decrypt) && fresh(decrypt.m)
    {
      hide FormatOk, SetUp, Permutation;
      data := new Byte[capacity];
      size := 0;
      decrypt := new Context(key);
      this.formats, this.handlers := formats, handlers;
      delivered, received := [], [];
      start := SetUp(key[..]);
      new;
      assert Plain() == [];
    }

    /** What a packet handler is called with is all that is modelled of it. */
    method Handle(header: nat, packet: array<Byte>, n: nat)
      requires n <= packet.Length
      modifies this`delivered
      ensures delivered == old(delivered) + [Packet(header, packet[..n])]
    {
      delivered := delivered + [Packet(header, packet[..n])];
    }

    /**
      `NetConn_Recv`, with the bytes that `recv` returned: the next chunk of the stream,
      of any size that fits.
    */
    method Recv(buffer: array<Byte>, n: nat) returns (r: Outcome)
      requires Valid() && n <= buffer.Length && size + n <= data.Length
      requires buffer != data && buffer != decrypt.m
      modifies this, data, decrypt, decrypt.m
      ensures received == old(received) + old(buffer[..n]) && Ready()
      ensures r == OutcomeOf(Decode(formats, |handlers|, Plain()).fault)
      ensures delivered == Handled(handlers, Decode(formats, |handlers|, Plain()).packets)
      ensures exists at :: Selected(handlers, Decode(formats, |handlers|, Plain()).packets, at, delivered)
      ensures Caused(formats, |handlers|, Decode(formats, |handlers|, Plain()).rest, r)
      ensures r.Open? ==> Valid()
    {
      hide FormatOk, Decode, Handled, Permutation, Crypted, After;
      ghost var chunk, left, was := buffer[..n], data[..size], Decode(formats, |handlers|, Plain());
      assert buffer[0..n] == chunk;
      decrypt.Crypt(n, buffer, 0, data, size);
      ghost var text := data[size..size + n];
      CryptConcat(start, received, chunk);
      DecodeConcat(formats, |handlers|, Plain(), text);
      received := received + chunk;
      assert data[..size] == left;
      assert data[..size + n] == left + text;
      size := size + n;
      r := Dispatch();
      HandledConcat(handlers, was.packets, Decode(formats, |handlers|, left + text).packets);
      ghost var at := HandledSelected(handlers, Decode(formats, |handlers|, Plain()).packets);
      OutcomeCauses(formats, |handlers|, Plain());
    }

    /** `NetConn_DispatchPackets`. */
    method Dispatch() returns (r: Outcome)
      requires size <= data.Length
      modifies this`size, this`delivered, data
      ensures size <= data.Length
      ensures var d := Decode(formats, |handlers|, old(data[..size]));
        && r == OutcomeOf(d.fault)
        && delivered == old(delivered) + Handled(handlers, d.packets)
        && (r.Open? ==> data[..size] == d.rest)
      ensures var d := Decode(formats, |handlers|, old(data[..size]));
        && Caused(formats, |handlers|, d.rest, r) && old(delivered) <= delivered
        && exists at :: Selected(handlers, d.packets, at, delivered[|old(delivered)|..])
    {
      hide *;
      var buffer := new Byte[PACKET_BUFFER];
      ghost var slots, all, was := |handlers|, data[..size], delivered;
      ghost var d := Decode(formats, slots, all);
      ghost var done: seq<Packet> := [];
      ghost var at' := HandledSelected(handlers, d.packets);
      assert (was + Handled(handlers, d.packets))[|was|..] == Handled(handlers, d.packets);
      OutcomeCauses(formats, slots, all);
      BeforeNothing(d);
      HandledNothing(handlers);
      assert all[0..] == all;
      var at: nat, left: nat := 0, size;
      while left >= 2
        invariant at + left == size == |all| && data[..size] == all && size == old(size)
        invariant d == Before(done, Decode(formats, slots, all[at..]))
        invariant delivered == was + Handled(handlers, done)
        decreases left
      {
        ghost var rest := Decode(formats, slots, all[at..]);
        assert data[at..at + left] == all[at..];
        var readed, out, p := DispatchOne(at, left, buffer);
        BeforeIs(done, rest);
        if !out.Open? {
          assert done + [] == done;
          return out;
        }
        if readed == 0 { break; }
        assert all[at..][readed..] == all[at + readed..];
        HandledConcat(handlers, done, [p]);
        BeforeBefore(done, [p], Decode(formats, slots, all[at + readed..]));
        at := at + readed;
        left := left - readed;
        done := done + [p];
      }
      if left < 2 {
        DecodeShort(formats, slots, all[at..]);
      }
      BeforeIs(done, Decode(formats, slots, all[at..]));
      FineIsOpen();
      assert done + [] == done && data[at..at + left] == all[at..];
      MoveDown(data, at, left);
      size := left;
      return Open;
    }

    /** One round of the loop: nothing read means that the packet is not all there. */
    method DispatchOne(at: nat, left: nat, buffer: array<Byte>) returns (readed: nat, r: Outcome, ghost p: Packet)
      requires left >= 2 && at + left <= data.Length
      requires buffer != data && buffer.Length == PACKET_BUFFER
      modifies this`delivered, buffer
      ensures readed <= left
      ensures var s := data[at..at + left];
        var d := Decode(formats, |handlers|, s);
        && (!r.Open? ==> d.packets == [] && r == OutcomeOf(d.fault))
        && (r.Open? && readed == 0 ==> d == Decoded([], s, Fine))
        && (r.Open? && readed > 0 ==> d == Before([p], Decode(formats, |handlers|, s[readed..])))
      ensures delivered == old(delivered) + if r.Open? && readed > 0 then Handled(handlers, [p]) else []
    {
      hide Decode, Parse, StructBytes, Le16, WellFormed, MemSize;
      p := Packet(0, []);
      ghost var s := data[at..at + left];
      Le16Slice(data[at..at + 2], s);
      DecodeStep(formats, |handlers|, s);
      HandledNothing(handlers);
      var header := Le16(data[at..at + 2]);
      if header >= |formats| || formats[header].header != header { return 0, Outcome.Aborted, p; }
      // From here on the source clears `unpackSize` bytes of its buffer, whatever its length.
      if !FormatOk(formats[header]) { return 0, Undefined, p; }
      var aborted;
      readed, aborted := Extract(header, at, left, buffer);
      if aborted { return 0, Outcome.Aborted, p; }
      if readed == 0 { return 0, Open, p; }
      if header >= |handlers| { return readed, Closed, p; }
      p := Packet(header, buffer[..formats[header].unpackSize]);
      assert [p][1..] == [];
      if handlers[header] {
        Handle(header, buffer, formats[header].unpackSize);
      }
      return readed, Open, p;
    }

    /** One packet into the cleared packet buffer; nothing is read when it is not all there yet. */
    method Extract(header: nat, at: nat, left: nat, buffer: array<Byte>) returns (readed: nat, aborted: bool)
      requires header < |formats| && FormatOk(formats[header]) && at + left <= data.Length
      requires buffer != data && buffer.Length == PACKET_BUFFER
      modifies buffer
      ensures var r := Parse(formats[header].fields, data[at..at + left]);
        && aborted == r.Rejected? && readed == (if r.Got? then r.used else 0)
        && (r.Got? ==> buffer[..formats[header].unpackSize] == StructBytes(formats[header], r.value))
    {
      hide Parse, Image, Valid, WellFormed, MemSize;
      var f := formats[header];
      Clear(buffer, f.unpackSize);
      var s := Unpack(data, at, left, buffer, 0, f.fields);
      readed := if s.Finished? then s.used else 0;
      aborted := s.Aborted?;
      ghost var r := Parse(f.fields, data[at..at + left]);
      if r.Got? {
        assert buffer[..f.unpackSize] == StructBytes(f, r.value);
      }
    }
  }

  /** memzero. */
  method Clear(buffer: array<Byte>, n: nat)
    requires n <= buffer.Length
    modifies buffer
    ensures buffer[..n] == Zeros(n)
  {
    for i := 0 to n
      invariant buffer[..i] == Zeros(i)
    {
      buffer[i] := 0;
    }
  }

  /** memmove to the front of the same array. */
  method MoveDown(data: array<Byte>, at: nat, n: nat)
    requires at + n <= data.Length
    modifies data
    ensures data[..n] == old(data[at..at + n])
  {
    for i := 0 to n
      invariant data[..i] == old(data[at..at + i])
      invariant data[at + i..] == old(data[at + i..])
    {
      data[i] := data[at + i];
    }
  }

  lemma HandledNothing(handlers: seq<bool>)
    ensures Handled(handlers, []) == []
  {
  }

  lemma BeforeIs(p: seq<Packet>, d: Decoded)
    ensures Before(p, d) == Decoded(p + d.packets, d.rest, d.fault)
  {
  }

  lemma FineIsOpen()
    ensures OutcomeOf(Fine) == Open
  {
  }

  lemma Le16Slice(a: seq<Byte>, s: seq<Byte>)
    requires |s| >= 2 && a == s[..2]
    ensures Le16(a) == Le16(s)
  {
  }

  lemma DecodeShort(formats: seq<MsgFormat>, slots: nat, s: seq<Byte>)
    requires |s| < 2
    ensures Decode(formats, slots, s) == Decoded([], s, Fine)
  {
  }

  /** The first step of decoding. */
  lemma DecodeStep(formats: seq<MsgFormat>, slots: nat, s: seq<Byte>)
    requires |s| >= 2
    ensures var h, d := Le16(s), Decode(formats, slots, s);
      if h >= |formats| || formats[h].header != h then d == Decoded([], s, AssertFailed)
      else
        var f, r := formats[h], Parse(formats[h].fields, s);
        if f.unpackSize > PACKET_BUFFER then d == Decoded([], s, Overrun)
        else if !FormatOk(f) then d == Decoded([], s, Unmodelled)
        else
          && (r.Rejected? ==> d == Decoded([], s, AssertFailed))
          && (r.Missing? || (r.Got? && r.used == 0) ==> d == Decoded([], s, Fine))
          && (r.Got? && r.used > 0 && h >= slots ==> d == Decoded([], s, NoSlot))
          && (r.Got? && r.used > 0 && h < slots ==>
            d == Before([Packet(h, StructBytes(f, r.value))], Decode(formats, slots, s[r.used..])))
  {
    hide Parse, StructBytes, Le16, FormatOk;
  }

  /**
    However the sender's stream was cut, once all of it has come in the handlers have
    been called with every packed message in order, and nothing is left in the buffer.
    Before that, they have been called with the first of them.
  */
  lemma EndToEnd(c: Connection, ms: seq<Message>, missing: seq<Byte>) returns (n: nat, at: seq<nat>)
    requires c.Valid() && AllSendable(c.formats, |c.handlers|, ms)
    requires Crypted(c.start, Stream(c.formats, |c.handlers|, ms)) == c.received + missing
    ensures n <= |ms| && (missing == [] ==> n == |ms| && c.size == 0)
    ensures |at| == |c.delivered| && (forall i, j :: 0 <= i < j < |at| ==> at[i] < at[j])
    ensures forall i :: 0 <= i < |at| ==> at[i] < n && c.handlers[ms[at[i]].header]
    ensures forall k :: 0 <= k < n && c.handlers[ms[k].header] ==> k in at
    ensures forall i :: 0 <= i < |at| ==> var m := ms[at[i]];
      c.delivered[i] == Packet(m.header, StructBytes(c.formats[m.header], m.parts))
  {
    hide Decode, Handled, Crypted, Packable, FormatOk, Stream, Structs, After;
    var slots := |c.handlers|;
    var stream, all := Stream(c.formats, slots, ms), Structs(c.formats, slots, ms);
    var tail := Crypted(After(c.start, |c.received|), missing);
    CryptUndone(c.start, stream);
    CryptConcat(c.start, c.received, missing);
    assert stream == c.Plain() + tail;
    StreamDecodes(c.formats, slots, ms);
    DecodeConcat(c.formats, slots, c.Plain(), tail);
    var d := Decode(c.formats, slots, c.Plain());
    var later := Decode(c.formats, slots, d.rest + tail);
    if missing == [] {
      assert |tail| == 0 && c.Plain() + tail == c.Plain();
      assert |c.data[..c.size]| == 0;
    }
    n := |d.packets|;
    StructsAre(c.formats, slots, ms);
    assert forall i :: 0 <= i < n ==> d.packets[i] == all[i];
    at := HandledSelected(c.handlers, d.packets);
    forall k | 0 <= k < n
      ensures ms[k].header < |c.handlers| && (c.handlers[ms[k].header] ==> k in at)
    {
      assert d.packets[k] == all[k];
    }
  }
}
