/** The writer against the parser: packaging and parsing are inverse to each other. */
module Codec {
  import opened Bytes
  import opened Messages
  import opened Parser
  import opened Writer

  /** A buffer that starts with a message's bytes. */
  ghost predicate StartsWith(buffer: seq<byte>, m: Message)
    requires Encodable(m)
  {
    |Encode(m)| <= |buffer| && buffer[..|Encode(m)|] == Encode(m)
  }

  lemma StartsWithHolds(buffer: seq<byte>, m: Message)
    requires Encodable(m) && StartsWith(buffer, m)
    ensures HoldsBody(buffer, m.version, m.mtype, EncodeParams(m.params))
  {
  }

  /**
   Of the buffers that start with a packaged message, exactly those are accepted
   whose message has a parameter and a body below the limit; the version, the type
   and the exact parameter list come back, whatever follows in the buffer.
  */
  lemma ParsePackaged(buffer: seq<byte>, m: Message)
    requires |buffer| >= INPUT_EXTENT && Encodable(m) && StartsWith(buffer, m)
    ensures Accepted(buffer)
       <==> (m.params != [] && |EncodeParams(m.params)| < MAX_MESSAGE_LENGTH - MESSAGE_HEAD_LENGTH)
    ensures VersionOf(buffer) == m.version && TypeOf(buffer) == m.mtype
    ensures EndOf(buffer) == |Encode(m)| && BodyParams(buffer) == Some(m.params)
  {
    StartsWithHolds(buffer, m);
    HeldHead(buffer, m.version, m.mtype, EncodeParams(m.params));
    DecodeEncode(m.params);
    AcceptedExactly(buffer);
  }

  /** The message an accepted buffer carries. */
  function Carried(buffer: seq<byte>): Message
    requires |buffer| >= INPUT_EXTENT && Accepted(buffer)
  {
    AcceptedExactly(buffer);
    Message(VersionOf(buffer), TypeOf(buffer), BodyParams(buffer).value)
  }

  /** Packaging what was parsed, into any buffer, reproduces the accepted bytes up to the end of the body. */
  lemma PackageParsed(buffer: seq<byte>, scratch: seq<byte>)
    requires |buffer| >= INPUT_EXTENT && Accepted(buffer) && |scratch| >= CURSOR_RANGE
    ensures Fits(Carried(buffer)) && Encode(Carried(buffer)) == buffer[..EndOf(buffer)]
    ensures Packaged(scratch, Carried(buffer))[..EndOf(buffer)] == buffer[..EndOf(buffer)]
  {
    AcceptedExactly(buffer);
    var m, end := Carried(buffer), EndOf(buffer);
    EncodeDecode(buffer[MESSAGE_HEAD_LENGTH..end]);
    assert Be16(TypeOf(buffer)) == buffer[1..3] && Be16(BodyLengthOf(buffer)) == buffer[3..5];
    assert Head(m) == buffer[..MESSAGE_HEAD_LENGTH];
    assert buffer[..end] == buffer[..MESSAGE_HEAD_LENGTH] + buffer[MESSAGE_HEAD_LENGTH..end];
    PackagedIsEncoded(scratch, m);
  }

  lemma BodyAfterIsSum(s: seq<byte>, p: Param)
    requires |s| >= MESSAGE_HEAD_LENGTH
    ensures BodyAfter(s, p) == Wrap(BodyLengthOf(s) + |EncodeParam(p)|)
  {
    var n := |EncodeParam(p)| - MESSAGE_HEAD_LENGTH;
    WrapSum(BodyLengthOf(s) + MESSAGE_HEAD_LENGTH, n);
  }

  /** The head of a packaged buffer states the body's length modulo the cursor's range, wrapped or not. */
  lemma {:induction false} StatedLength(s: seq<byte>, ps: seq<Param>)
    requires |s| >= CURSOR_RANGE
    ensures BodyLengthOf(AllAppended(s, ps)) == Wrap(BodyLengthOf(s) + |EncodeParams(ps)|)
    decreases ps
  {
    if ps != [] {
      var e, rest := |EncodeParam(ps[0])|, |EncodeParams(ps[1..])|;
      AppendedLength(s, ps[0]);
      BodyAfterIsSum(s, ps[0]);
      StatedLength(Appended(s, ps[0]), ps[1..]);
      WrapSum(BodyLengthOf(s) + e, rest);
      assert |EncodeParams(ps)| == e + rest;
    }
  }

  // ---- A stream of messages ----

  /** What alternating five-byte head reads and body reads deliver, and what is left on the stream. */
  datatype Delivery = Delivery(messages: seq<seq<byte>>, rest: seq<byte>)

  function Deliver(stream: seq<byte>): Delivery
    decreases |stream|
  {
    if |stream| < MESSAGE_HEAD_LENGTH || !BodyFits(BodyLengthOf(stream)) || |stream| < EndOf(stream) then
      Delivery([], stream)
    else
      var more := Deliver(stream[EndOf(stream)..]);
      Delivery([stream[..EndOf(stream)]] + more.messages, more.rest)
  }

  /** Messages whose body is below the limit. */
  type Sendable = m: Message | |EncodeParams(m.params)| < MAX_MESSAGE_LENGTH - MESSAGE_HEAD_LENGTH
    witness Message(0, 0, [])

  function EncodeAll(ms: seq<Sendable>): seq<byte> {
    if ms == [] then [] else Encode(ms[0]) + EncodeAll(ms[1..])
  }

  function EncodeEach(ms: seq<Sendable>): seq<seq<byte>> {
    if ms == [] then [] else [Encode(ms[0])] + EncodeEach(ms[1..])
  }

  lemma DeliverFirst(m: Sendable, rest: seq<byte>)
    ensures Deliver(Encode(m) + rest) == Delivery([Encode(m)] + Deliver(rest).messages, Deliver(rest).rest)
  {
    var stream := Encode(m) + rest;
    assert stream[..|Encode(m)|] == Encode(m) && stream[|Encode(m)|..] == rest;
    StartsWithHolds(stream, m);
    HeldHead(stream, m.version, m.mtype, EncodeParams(m.params));
  }

  lemma EncodeAllFirst(ms: seq<Sendable>, rest: seq<byte>)
    requires ms != []
    ensures EncodeAll(ms) + rest == Encode(ms[0]) + (EncodeAll(ms[1..]) + rest)
  {
  }

  lemma EncodeEachFirst(ms: seq<Sendable>, more: seq<seq<byte>>)
    requires ms != []
    ensures EncodeEach(ms) + more == [Encode(ms[0])] + (EncodeEach(ms[1..]) + more)
  {
  }

  /** A stream of packaged messages is cut back into exactly those messages, with nothing of theirs left over. */
  lemma {:induction false} DeliverEncoded(ms: seq<Sendable>, rest: seq<byte>)
    ensures Deliver(EncodeAll(ms) + rest)
         == Delivery(EncodeEach(ms) + Deliver(rest).messages, Deliver(rest).rest)
  {
    if ms == [] {
      assert EncodeAll(ms) + rest == rest;
    } else {
      EncodeAllFirst(ms, rest);
      DeliverFirst(ms[0], EncodeAll(ms[1..]) + rest);
      DeliverEncoded(ms[1..], rest);
      EncodeEachFirst(ms, Deliver(rest).messages);
    }
  }

  lemma DeliverAll(ms: seq<Sendable>)
    ensures Deliver(EncodeAll(ms)) == Delivery(EncodeEach(ms), [])
  {
    assert EncodeAll(ms) + [] == EncodeAll(ms);
    DeliverEncoded(ms, []);
  }

  /** Different messages have different bytes. */
  lemma EncodeInjective(a: Sendable, b: Sendable)
    requires Encode(a) == Encode(b)
    ensures a == b
  {
    StartsWithHolds(Encode(a), a);
    StartsWithHolds(Encode(a), b);
    HeldHead(Encode(a), a.version, a.mtype, EncodeParams(a.params));
    HeldHead(Encode(a), b.version, b.mtype, EncodeParams(b.params));
    DecodeEncode(a.params);
    DecodeEncode(b.params);
  }

  lemma {:induction false} EncodeEachInjective(a: seq<Sendable>, b: seq<Sendable>)
    requires EncodeEach(a) == EncodeEach(b)
    ensures a == b
    decreases |a|
  {
    EncodeEachParts(a);
    EncodeEachParts(b);
    if a != [] {
      EncodeInjective(a[0], b[0]);
      EncodeEachInjective(a[1..], b[1..]);
      assert a == [a[0]] + a[1..] && b == [b[0]] + b[1..];
    }
  }

  lemma {:induction false} EncodeEachParts(ms: seq<Sendable>)
    ensures |EncodeEach(ms)| == |ms|
    ensures ms != [] ==> EncodeEach(ms)[0] == Encode(ms[0]) && EncodeEach(ms)[1..] == EncodeEach(ms[1..])
  {
    if ms != [] {
      EncodeEachParts(ms[1..]);
    }
  }
}
