/**
 Runs of one session: the messages it handles are those of the bytes it read,
 and what it answers follows from them.
*/
module SessionRuns {
  import opened Bytes
  import opened Messages
  import opened Lookups
  import opened Parser
  import opened Codec
  import opened Interface
  import opened Audio
  import opened Sessions
  import opened Conversations
  import opened SessionInvariants

  /** The events can complete one after the other, each when its operation is outstanding. */
  ghost predicate CanRun(polarity: Polarity, s: Session, es: seq<Event>)
    decreases |es|
  {
    es != [] ==> Shaped(s) && Enabled(s, es[0]) && CanRun(polarity, Step(polarity, s, es[0]), es[1..])
  }

  ghost function RunOf(polarity: Polarity, s: Session, es: seq<Event>): Session
    requires CanRun(polarity, s, es)
    decreases |es|
  {
    if es == [] then s else RunOf(polarity, Step(polarity, s, es[0]), es[1..])
  }

  /** And what the run makes of the pipeline. */
  ghost function AudioOf(polarity: Polarity, s: Session, es: seq<Event>, p: Pipeline, frameSize: nat): Pipeline
    requires CanRun(polarity, s, es) && frameSize > 0
    decreases |es|
  {
    if es == [] then p
    else AudioOf(polarity, Step(polarity, s, es[0]), es[1..], AudioStep(polarity, s, es[0], p, frameSize), frameSize)
  }

  lemma {:induction false} RunIsGood(polarity: Polarity, s: Session, es: seq<Event>)
    requires Good(polarity, s) && CanRun(polarity, s, es)
    ensures Good(polarity, RunOf(polarity, s, es))
    decreases |es|
  {
    if es != [] {
      StepIsGood(polarity, s, es[0]);
      RunIsGood(polarity, Step(polarity, s, es[0]), es[1..]);
    }
  }

  // ---- The bytes a session reads ----

  function BytesIn(e: Event): seq<byte> {
    match e
    case HeadRead(ok, bytes) => if ok then bytes else []
    case BodyRead(ok, bytes, _) => if ok then bytes else []
    case Written(_, _) => []
  }

  function BytesRead(es: seq<Event>): seq<byte> {
    if es == [] then [] else BytesIn(es[0]) + BytesRead(es[1..])
  }

  lemma BytesReadStep(es: seq<Event>, stream: seq<byte>)
    requires es != []
    ensures stream + BytesRead(es) == stream + BytesIn(es[0]) + BytesRead(es[1..])
  {
  }

  /** A body that is not empty, and below the limit. */
  predicate HasBody(m: Message) {
    m.params != [] && |EncodeParams(m.params)| < MAX_MESSAGE_LENGTH - MESSAGE_HEAD_LENGTH
  }

  ghost predicate AllSendable(rs: seq<Receipt>) {
    forall k | 0 <= k < |rs| :: HasBody(rs[k].message)
  }

  ghost function SendableOf(rs: seq<Receipt>): (ms: seq<Sendable>)
    requires AllSendable(rs)
    ensures |ms| == |rs|
  {
    seq(|rs|, k requires 0 <= k < |rs| => rs[k].message)
  }

  lemma {:induction false} EncodeAllSnoc(ms: seq<Sendable>, m: Sendable)
    ensures EncodeAll(ms + [m]) == EncodeAll(ms) + Encode(m)
  {
    if ms == [] {
      assert ([m] + [])[1..] == [];
      assert [] + [m] == [m];
    } else {
      assert (ms + [m])[1..] == ms[1..] + [m];
      EncodeAllSnoc(ms[1..], m);
    }
  }

  // ---- What is acceptable in a stream ----

  /** A delivered message that parse_message accepts: its body is not empty, and parameters tile it. */
  predicate Acceptable(bytes: seq<byte>) {
    |bytes| > MESSAGE_HEAD_LENGTH && DecodeParams(bytes[MESSAGE_HEAD_LENGTH..]).Some?
  }

  function UpToRefused(messages: seq<seq<byte>>): seq<seq<byte>> {
    if messages == [] || !Acceptable(messages[0]) then [] else [messages[0]] + UpToRefused(messages[1..])
  }

  lemma AcceptableBytes(buffer: seq<byte>)
    requires |buffer| >= INPUT_EXTENT && BodyFits(BodyLengthOf(buffer))
    ensures BodyLengthOf(buffer[..EndOf(buffer)]) == BodyLengthOf(buffer)
    ensures Accepted(buffer) <==> Acceptable(buffer[..EndOf(buffer)])
  {
    var bytes := buffer[..EndOf(buffer)];
    assert bytes[3..5] == buffer[3..5];
    assert bytes[MESSAGE_HEAD_LENGTH..] == buffer[MESSAGE_HEAD_LENGTH..EndOf(buffer)];
    AcceptedExactly(buffer);
  }

  /** A head alone, or a message that is refused, delivers nothing acceptable. */
  lemma RestIsRefused(rest: seq<byte>)
    requires |rest| <= MESSAGE_HEAD_LENGTH || Refused(rest)
    ensures UpToRefused(Deliver(rest).messages) == []
  {
    if |rest| >= MESSAGE_HEAD_LENGTH && BodyFits(BodyLengthOf(rest)) && |rest| >= EndOf(rest) {
      assert rest[..EndOf(rest)] == rest;
    }
  }

  lemma {:induction false} EncodedIsAcceptable(ms: seq<Sendable>, more: seq<seq<byte>>)
    requires forall k | 0 <= k < |ms| :: ms[k].params != []
    requires UpToRefused(more) == []
    ensures UpToRefused(EncodeEach(ms) + more) == EncodeEach(ms)
  {
    if ms == [] {
      assert EncodeEach(ms) + more == more;
    } else {
      DecodeEncode(ms[0].params);
      EncodeParamsFirst(ms[0].params, []);
      assert Encode(ms[0])[MESSAGE_HEAD_LENGTH..] == EncodeParams(ms[0].params);
      EncodeEachFirst(ms, more);
      EncodedIsAcceptable(ms[1..], more);
    }
  }

  /** The head of a message whose body is still to come. */
  function Awaiting(s: Session): seq<byte>
    requires Shaped(s)
  {
    if ReadBody(s.info.bodyLength) in s.pending then s.input[..MESSAGE_HEAD_LENGTH] else []
  }

  /** A head and a body behind it that parse_message refuses. */
  predicate Refused(bytes: seq<byte>) {
    && |bytes| >= MESSAGE_HEAD_LENGTH && BodyFits(BodyLengthOf(bytes)) && |bytes| == EndOf(bytes)
    && !Acceptable(bytes)
  }

  /**
   What was read is the accepted messages, then at most a head. A session that has
   been closed may have read less than a message more, or one that it refused.
  */
  ghost predicate FramedBy(rs: seq<Receipt>, closed: bool, awaiting: seq<byte>, stream: seq<byte>) {
    && AllSendable(rs)
    && exists rest: seq<byte> :: LeavesOver(rs, closed, awaiting, stream, rest)
  }

  ghost predicate LeavesOver(rs: seq<Receipt>, closed: bool, awaiting: seq<byte>, stream: seq<byte>, rest: seq<byte>)
    requires AllSendable(rs)
  {
    && stream == EncodeAll(SendableOf(rs)) + rest
    && (if closed then |rest| <= MESSAGE_HEAD_LENGTH || Refused(rest) else rest == awaiting)
  }

  ghost predicate Framed(s: Session, stream: seq<byte>)
    requires Shaped(s)
  {
    FramedBy(s.received, s.closed, Awaiting(s), stream)
  }

  lemma FramedMore(rs: seq<Receipt>, closed: bool, awaiting: seq<byte>, stream: seq<byte>, more: seq<byte>)
    requires FramedBy(rs, false, [], stream) && (if closed then |more| <= MESSAGE_HEAD_LENGTH else awaiting == more)
    ensures FramedBy(rs, closed, awaiting, stream + more)
  {
    assert stream == EncodeAll(SendableOf(rs));
    assert LeavesOver(rs, closed, awaiting, stream + more, more);
  }

  lemma FramedRefusal(rs: seq<Receipt>, head: seq<byte>, awaiting: seq<byte>, stream: seq<byte>, more: seq<byte>)
    requires FramedBy(rs, false, head, stream)
    requires |head + more| <= MESSAGE_HEAD_LENGTH || Refused(head + more)
    ensures FramedBy(rs, true, awaiting, stream + more)
  {
    assert stream + more == EncodeAll(SendableOf(rs)) + (head + more);
    assert LeavesOver(rs, true, awaiting, stream + more, head + more);
  }

  lemma FramedMessage(rs: seq<Receipt>, closed: bool, head: seq<byte>, stream: seq<byte>, body: seq<byte>, r: Receipt)
    requires FramedBy(rs, false, head, stream)
    requires HasBody(r.message) && Encode(r.message) == head + body
    ensures FramedBy(rs + [r], closed, [], stream + body)
  {
    assert SendableOf(rs + [r]) == SendableOf(rs) + [r.message];
    EncodeAllSnoc(SendableOf(rs), r.message);
    assert stream + body == EncodeAll(SendableOf(rs)) + (head + body);
    assert LeavesOver(rs + [r], closed, [], stream + body, []);
  }

  /** What a head read does to the history and to the head that is waited with. */
  lemma HeadShape(polarity: Polarity, s: Session, ok: bool, bytes: seq<byte>)
    requires Good(polarity, s) && Enabled(s, HeadRead(ok, bytes))
    ensures !s.closed && Awaiting(s) == []
    ensures var r := Step(polarity, s, HeadRead(ok, bytes));
            && Shaped(r) && r.received == s.received
            && (!r.closed ==> ok && Awaiting(r) == bytes) && (ok ==> |bytes| == MESSAGE_HEAD_LENGTH)
  {
    OnlyPending(s, ReadHead);
    var t := Delivered(s, HeadRead(ok, bytes));
    if ok {
      assert t.input[..MESSAGE_HEAD_LENGTH] == bytes;
    }
  }

  lemma WriteShape(polarity: Polarity, s: Session, ok: bool, n: nat)
    requires Good(polarity, s) && Enabled(s, Written(ok, n))
    ensures !s.closed && Awaiting(s) == []
    ensures var r := Step(polarity, s, Written(ok, n));
            Shaped(r) && r.received == s.received && Awaiting(r) == []
  {
    OnlyPending(s, Write(n));
  }

  lemma BodyRefusedShape(polarity: Polarity, s: Session, ok: bool, bytes: seq<byte>, env: Environment)
    requires Good(polarity, s) && Enabled(s, BodyRead(ok, bytes, env))
    requires ok ==> !Accepted(Delivered(s, BodyRead(ok, bytes, env)).input)
    ensures var r := Step(polarity, s, BodyRead(ok, bytes, env));
            Shaped(r) && r.received == s.received && r.closed
    ensures !s.closed && |Awaiting(s)| == MESSAGE_HEAD_LENGTH
  {
  }

  /** The bytes of a refused message are those of its head and its body. */
  lemma RefusedBytes(polarity: Polarity, s: Session, bytes: seq<byte>, env: Environment)
    requires Good(polarity, s) && Enabled(s, BodyRead(true, bytes, env))
    requires !Accepted(Delivered(s, BodyRead(true, bytes, env)).input)
    ensures Refused(Awaiting(s) + bytes)
  {
    BodyKeepsHead(polarity, s, bytes, env);
    assert ReadBody(s.info.bodyLength) in s.pending;
    var buffer := Delivered(s, BodyRead(true, bytes, env)).input;
    assert Awaiting(s) + bytes == buffer[..EndOf(buffer)];
    AcceptableBytes(buffer);
  }

  /** The message of an accepted body read encodes to the head and the body that were read. */
  lemma AcceptedIsEncoded(polarity: Polarity, s: Session, bytes: seq<byte>, env: Environment, last: Message)
    requires Good(polarity, s) && Enabled(s, BodyRead(true, bytes, env))
    requires var buffer := Delivered(s, BodyRead(true, bytes, env)).input; Accepted(buffer) && last == Carried(buffer)
    ensures HasBody(last)
    ensures Encode(last) == s.input[..MESSAGE_HEAD_LENGTH] + bytes
  {
    var buffer := Delivered(s, BodyRead(true, bytes, env)).input;
    BodyKeepsHead(polarity, s, bytes, env);
    PackageParsed(buffer, s.output);
    assert buffer[..EndOf(buffer)] == buffer[..MESSAGE_HEAD_LENGTH] + buffer[MESSAGE_HEAD_LENGTH..EndOf(buffer)];
    AcceptedExactly(buffer);
    assert |Encode(last)| == MESSAGE_HEAD_LENGTH + |EncodeParams(last.params)|;
  }

  lemma ProcessedAwaitsNoBody(polarity: Polarity, s: Session, env: Environment)
    requires Shaped(s) && Loaded(s.info) && s.pending == multiset{}
    ensures Awaiting(Processed(polarity, s, env)) == []
  {
  }

  /** An accepted body read adds the message that the buffer carries. */
  lemma BodyShape(polarity: Polarity, s: Session, bytes: seq<byte>, env: Environment) returns (r: Receipt)
    requires Good(polarity, s) && Enabled(s, BodyRead(true, bytes, env))
    requires Accepted(Delivered(s, BodyRead(true, bytes, env)).input)
    ensures r.message == Carried(Delivered(s, BodyRead(true, bytes, env)).input)
    ensures Shaped(Step(polarity, s, BodyRead(true, bytes, env)))
    ensures Step(polarity, s, BodyRead(true, bytes, env)).received == s.received + [r]
    ensures Awaiting(Step(polarity, s, BodyRead(true, bytes, env))) == []
  {
    var parsed := BodyAccepts(polarity, s, bytes, env);
    r := ReceiptOf(parsed, env);
    ProcessedReceives(polarity, parsed, env);
    ProcessedAwaitsNoBody(polarity, parsed, env);
  }

  lemma BodyKeepsFraming(polarity: Polarity, s: Session, ok: bool, bytes: seq<byte>, env: Environment, stream: seq<byte>)
    requires Good(polarity, s) && Enabled(s, BodyRead(ok, bytes, env)) && Framed(s, stream)
    ensures var r := Step(polarity, s, BodyRead(ok, bytes, env));
            Shaped(r) && Framed(r, stream + BytesIn(BodyRead(ok, bytes, env)))
  {
    var e := BodyRead(ok, bytes, env);
    var after := Step(polarity, s, e);
    if ok && Accepted(Delivered(s, e).input) {
      var r := BodyShape(polarity, s, bytes, env);
      AcceptedIsEncoded(polarity, s, bytes, env, r.message);
      FramedMessage(s.received, after.closed, Awaiting(s), stream, bytes, r);
    } else {
      BodyRefusedShape(polarity, s, ok, bytes, env);
      if ok {
        RefusedBytes(polarity, s, bytes, env);
      }
      FramedRefusal(s.received, Awaiting(s), Awaiting(after), stream, BytesIn(e));
    }
  }

  lemma StepKeepsFraming(polarity: Polarity, s: Session, e: Event, stream: seq<byte>)
    requires Good(polarity, s) && Enabled(s, e) && Framed(s, stream)
    ensures Shaped(Step(polarity, s, e)) && Framed(Step(polarity, s, e), stream + BytesIn(e))
  {
    var r := Step(polarity, s, e);
    match e
    case HeadRead(ok, bytes) =>
      HeadShape(polarity, s, ok, bytes);
      FramedMore(s.received, r.closed, Awaiting(r), stream, BytesIn(e));
    case BodyRead(ok, bytes, env) => BodyKeepsFraming(polarity, s, ok, bytes, env, stream);
    case Written(ok, n) =>
      WriteShape(polarity, s, ok, n);
      FramedMore(s.received, r.closed, Awaiting(r), stream, []);
  }

  lemma {:induction false} RunKeepsFraming(polarity: Polarity, s: Session, es: seq<Event>, stream: seq<byte>)
    requires Good(polarity, s) && CanRun(polarity, s, es) && Framed(s, stream)
    ensures Shaped(RunOf(polarity, s, es)) && Framed(RunOf(polarity, s, es), stream + BytesRead(es))
    decreases |es|
  {
    if es == [] {
      assert stream + [] == stream;
    } else {
      BytesReadStep(es, stream);
      StepIsGood(polarity, s, es[0]);
      StepKeepsFraming(polarity, s, es[0], stream);
      RunKeepsFraming(polarity, Step(polarity, s, es[0]), es[1..], stream + BytesIn(es[0]));
    }
  }

  /**
   The messages a session has accepted are exactly those that cutting its byte
   stream by head and body lengths delivers, up to the first that is refused, also
   when it has been closed or waits for a body. Between two messages of an open
   session no byte is left over.
  */
  lemma StreamIsFramed(polarity: Polarity, s: Session, es: seq<Event>)
    requires Fresh(s) && CanRun(polarity, s, es)
    ensures Shaped(RunOf(polarity, s, es)) && AllSendable(RunOf(polarity, s, es).received)
    ensures var r := RunOf(polarity, s, es);
            && EncodeEach(SendableOf(r.received)) == UpToRefused(Deliver(BytesRead(es)).messages)
            && (!r.closed && Awaiting(r) == [] ==>
                  Deliver(BytesRead(es)) == Delivery(EncodeEach(SendableOf(r.received)), []))
  {
    FreshIsGood(polarity, s);
    FreshIsFramed(s);
    RunKeepsFraming(polarity, s, es, []);
    var r, stream := RunOf(polarity, s, es), BytesRead(es);
    assert [] + stream == stream;
    FramedDelivery(r.received, r.closed, Awaiting(r), stream);
  }

  lemma FreshIsFramed(s: Session)
    requires Fresh(s)
    ensures Framed(s, [])
  {
    assert SendableOf([]) == [];
    assert LeavesOver([], false, [], [], []);
  }

  lemma FramedDelivery(rs: seq<Receipt>, closed: bool, awaiting: seq<byte>, stream: seq<byte>)
    requires FramedBy(rs, closed, awaiting, stream) && |awaiting| <= MESSAGE_HEAD_LENGTH
    ensures EncodeEach(SendableOf(rs)) == UpToRefused(Deliver(stream).messages)
    ensures !closed && awaiting == [] ==> Deliver(stream) == Delivery(EncodeEach(SendableOf(rs)), [])
  {
    var rest :| LeavesOver(rs, closed, awaiting, stream, rest);
    DeliverEncoded(SendableOf(rs), rest);
    RestIsRefused(rest);
    EncodedIsAcceptable(SendableOf(rs), Deliver(rest).messages);
  }

  /** The session as a function of its messages: channel id and replies, byte by byte, in both readings of the tests. */
  lemma RunIsConversation(polarity: Polarity, s: Session, es: seq<Event>)
    requires Fresh(s) && CanRun(polarity, s, es)
    ensures var r := RunOf(polarity, s, es);
            && (forall k | 0 <= k < |r.received| :: |r.received[k].tail| >= PHANTOM_EXTENT)
            && Conversation(r.channelId, r.sent) == Answers(polarity, r.received)
            && |r.sent| <= |r.received| && r.channelId == LastId(r.received)
  {
    FreshIsGood(polarity, s);
    RunIsGood(polarity, s, es);
    var r := RunOf(polarity, s, es);
    OneReplyEach(polarity, r.received, 0);
    ConversationIsAnswers(polarity, r.received);
    ChannelIdIsLast(polarity, r.received);
  }

  /**
   Refinement: with the tests as intended, the reply stream of a session is the
   intended one of its own messages, if those were handled as meant.
  */
  lemma RunIsIntended(s: Session, es: seq<Event>)
    requires Fresh(s) && CanRun(Negated, s, es)
    requires Legible(RunOf(Negated, s, es))
    ensures var r := RunOf(Negated, s, es);
            Conversation(r.channelId, r.sent) == IntendedConversation(MessagesOf(r.received))
  {
    FreshIsGood(Negated, s);
    RunIsGood(Negated, s, es);
    ConversationOfMessages(RunOf(Negated, s, es).received);
  }

  /** A session whose messages have all been handled as meant so far. */
  ghost predicate Legible(r: Session) {
    && (forall k | 0 <= k < |r.received| :: |r.received[k].tail| >= PHANTOM_EXTENT)
    && AllAsMeant(r.received)
  }

  /**
   Two runs of such sessions that read the same bytes answer the same bytes, whatever else
   differs between them: how the buffers were filled before, what other sessions
   left to the surroundings, and when the operations completed.
  */
  lemma SameBytesSameReplies(s: Session, es: seq<Event>, s': Session, es': seq<Event>)
    requires Fresh(s) && CanRun(Negated, s, es) && Legible(RunOf(Negated, s, es))
    requires Fresh(s') && CanRun(Negated, s', es') && Legible(RunOf(Negated, s', es'))
    requires BytesRead(es) == BytesRead(es')
    ensures RunOf(Negated, s, es).sent == RunOf(Negated, s', es').sent
    ensures RunOf(Negated, s, es).channelId == RunOf(Negated, s', es').channelId
  {
    var r, r' := RunOf(Negated, s, es), RunOf(Negated, s', es');
    StreamIsFramed(Negated, s, es);
    StreamIsFramed(Negated, s', es');
    EncodeEachInjective(SendableOf(r.received), SendableOf(r'.received));
    SameMessages(r.received, r'.received);
    RunIsIntended(s, es);
    RunIsIntended(s', es');
  }

  lemma SameMessages(a: seq<Receipt>, b: seq<Receipt>)
    requires AllSendable(a) && AllSendable(b) && SendableOf(a) == SendableOf(b)
    ensures MessagesOf(a) == MessagesOf(b)
  {
    forall k | 0 <= k < |a| ensures MessagesOf(a)[k] == MessagesOf(b)[k] {
      assert SendableOf(a)[k] == SendableOf(b)[k];
    }
  }

  // ---- The replies of a session ----

  /** Reply k was made when the n-th message was handled, and these are its bytes, with the id of that moment. */
  ghost predicate MadeAfter(polarity: Polarity, rs: Receipts, n: nat, k: nat, bytes: seq<byte>) {
    && 0 < n <= |rs| && AnswersAt(polarity, rs, n, k)
    && LastId(rs[..n]) < 0x1_0000 && IsReplyFrom(bytes, LastId(rs[..n]))
  }

  /** The n-th message is the one that reply k answers. */
  ghost predicate AnswersAt(polarity: Polarity, rs: Receipts, n: nat, k: nat)
    requires 0 < n <= |rs|
  {
    |Converse(polarity, rs[..n - 1]).replies| == k && |Converse(polarity, rs[..n]).replies| == k + 1
  }

  /** Every reply of a conversation answers one message, and leads with the id the session had when it handled that. */
  lemma {:induction false} EveryReplyIsMade(polarity: Polarity, rs: Receipts, k: nat) returns (n: nat)
    requires k < |Converse(polarity, rs).replies|
    ensures MadeAfter(polarity, rs, n, k, Converse(polarity, rs).replies[k])
    decreases |rs|
  {
    var before := rs[..|rs| - 1];
    var earlier := Converse(polarity, before).replies;
    if k < |earlier| {
      n := EveryReplyIsMade(polarity, before, k);
      assert rs[..n] == before[..n] && rs[..n - 1] == before[..n - 1];
    } else {
      n := |rs|;
      LastReplyIsMade(polarity, rs);
    }
  }

  lemma LastReplyIsMade(polarity: Polarity, rs: Receipts)
    requires rs != [] && LastOutcome(polarity, rs).action.Reply?
    ensures MadeAfter(polarity, rs, |rs|, |Converse(polarity, rs).replies| - 1,
                      Encode(LastOutcome(polarity, rs).action.message))
    ensures Converse(polarity, rs).channelId == LastId(rs)
  {
    var last := rs[|rs| - 1];
    RepliesLeadWithId(polarity, Converse(polarity, rs[..|rs| - 1]).channelId, last.message, last.tail, last.env);
    ChannelIdIsLast(polarity, rs);
    assert rs[..|rs|] == rs;
    var out := LastOutcome(polarity, rs);
    assert IsEncodedReply(Encode(out.action.message), out.action.message, out.channelId);
  }

  /**
   The buffer is accepted, and its channel id lookup yields the id that the session
   had on handling the message that reply k answers, the n-th.
  */
  ghost predicate YieldsIdAfter(polarity: Polarity, rs: Receipts, n: nat, k: nat, buffer: seq<byte>, tail: seq<byte>)
    requires |buffer| >= INPUT_EXTENT && |tail| >= PHANTOM_EXTENT
  {
    && Accepted(buffer) && 0 < n <= |rs| && AnswersAt(polarity, rs, n, k)
    && ChannelIdOf(Carried(buffer).params, tail) == Some(LastId(rs[..n]))
  }

  lemma MadeIsAccepted(polarity: Polarity, rs: Receipts, n: nat, k: nat, bytes: seq<byte>, buffer: seq<byte>,
                       tail: seq<byte>)
    requires MadeAfter(polarity, rs, n, k, bytes)
    requires |buffer| >= INPUT_EXTENT && bytes <= buffer && |tail| >= PHANTOM_EXTENT
    ensures YieldsIdAfter(polarity, rs, n, k, buffer, tail)
  {
    var m: Sendable :| IsEncodedReply(bytes, m, LastId(rs[..n]));
    ReplyAccepted(bytes, m, LastId(rs[..n]), buffer, tail);
  }

  /**
   A receiver that has reply k of a run at the front of its buffer accepts it, and
   its lookup of the channel id yields, whatever its store holds, the last id that
   the messages up to and with the one that reply k answers had given the session.
  */
  lemma RepliesAreAccepted(polarity: Polarity, s: Session, es: seq<Event>, k: nat, buffer: seq<byte>, tail: seq<byte>)
      returns (n: nat)
    requires Fresh(s) && CanRun(polarity, s, es) && k < |RunOf(polarity, s, es).sent|
    requires |buffer| >= INPUT_EXTENT && RunOf(polarity, s, es).sent[k] <= buffer && |tail| >= PHANTOM_EXTENT
    ensures forall j | 0 <= j < |RunOf(polarity, s, es).received| ::
              |RunOf(polarity, s, es).received[j].tail| >= PHANTOM_EXTENT
    ensures YieldsIdAfter(polarity, RunOf(polarity, s, es).received, n, k, buffer, tail)
  {
    RunIsConversation(polarity, s, es);
    var r := RunOf(polarity, s, es);
    ConversationIsAnswers(polarity, r.received);
    n := EveryReplyIsMade(polarity, r.received, k);
    MadeIsAccepted(polarity, r.received, n, k, r.sent[k], buffer, tail);
  }

  /** A reply in flight carries the session's current id. */
  lemma ReplyInFlight(polarity: Polarity, s: Session, n: nat)
    requires Good(polarity, s) && Write(n) in s.pending
    ensures s.sent != [] && IsReplyFrom(Last(s.sent), s.channelId)
  {
    LastReplyIsMade(polarity, s.received);
    assert s.received[..|s.received|] == s.received;
    assert Last(s.sent) == Encode(LastOutcome(polarity, s.received).action.message);
  }
}
