/** What every completed operation keeps of a session, whatever the completions are. */
module SessionInvariants {
  import opened Bytes
  import opened Messages
  import opened Lookups
  import opened Parser
  import opened Codec
  import opened Interface
  import opened Audio
  import opened Sessions
  import opened Conversations

  // ---- What every step of one session keeps ----

  ghost predicate History(polarity: Polarity, s: Session) {
    && (forall k | 0 <= k < |s.received| :: |s.received[k].tail| >= PHANTOM_EXTENT)
    && s.sent == Converse(polarity, s.received).replies
    && s.channelId == Converse(polarity, s.received).channelId
  }

  /** What the one outstanding operation presupposes. */
  ghost predicate Consistent(s: Session)
    requires Shaped(s)
  {
    forall op | op in s.pending ::
      match op
      case ReadHead => true
      case ReadBody(n) =>
        n == s.info.bodyLength && BodyFits(s.info.bodyLength) && s.info == HeadParsed(s.info, s.input)
      case Write(n) => s.sent != [] && n == |Last(s.sent)| <= |s.output| && s.output[..n] == Last(s.sent)
  }

  /**
   A session waits for one thing at most. What it waits to write is a reply to its
   last message; one that waits for nothing was closed or left behind by its last message.
  */
  ghost predicate Accounted(polarity: Polarity, s: Session)
    requires History(polarity, s)
  {
    && |s.pending| <= 1
    && (s.closed ==> s.pending == multiset{})
    && (forall n: nat | Write(n) in s.pending :: s.received != [] && LastOutcome(polarity, s.received).action.Reply?)
    && (s.pending == multiset{} && !s.closed ==> s.received != [] && LastOutcome(polarity, s.received).action == Stall)
  }

  ghost predicate Good(polarity: Polarity, s: Session) {
    Shaped(s) && History(polarity, s) && Consistent(s) && Accounted(polarity, s)
  }

  /** A connection just accepted: a head read is outstanding, the buffers and the message object hold anything. */
  ghost predicate Fresh(s: Session) {
    && Shaped(s) && s.pending == multiset{ReadHead} && !s.closed && s.channelId == 0
    && s.received == [] && s.sent == []
  }

  lemma FreshIsGood(polarity: Polarity, s: Session)
    requires Fresh(s)
    ensures Good(polarity, s)
  {
  }

  /** The one outstanding operation is the one that completes. */
  lemma OnlyPending(s: Session, op: Operation)
    requires |s.pending| <= 1 && op in s.pending
    ensures s.pending == multiset{op} && Completed(s, op).pending == multiset{}
  {
    assert s.pending == multiset{op} + (s.pending - multiset{op});
  }

  lemma HeadStepIsGood(polarity: Polarity, s: Session, ok: bool, bytes: seq<byte>)
    requires Good(polarity, s) && Enabled(s, HeadRead(ok, bytes))
    ensures Good(polarity, Step(polarity, s, HeadRead(ok, bytes)))
  {
    OnlyPending(s, ReadHead);
  }

  lemma WriteStepIsGood(polarity: Polarity, s: Session, ok: bool, n: nat)
    requires Good(polarity, s) && Enabled(s, Written(ok, n))
    ensures Good(polarity, Step(polarity, s, Written(ok, n)))
  {
    OnlyPending(s, Write(n));
  }

  // ---- The body read ----

  /**
   parse_message parses the head again. By then the body has been read behind it,
   and the head it finds is the one that parse_message_head found.
  */
  lemma BodyKeepsHead(polarity: Polarity, s: Session, bytes: seq<byte>, env: Environment)
    requires Good(polarity, s) && Enabled(s, BodyRead(true, bytes, env))
    ensures var buffer := Delivered(s, BodyRead(true, bytes, env)).input;
            && HeadParsed(s.info, buffer) == s.info
            && EndOf(buffer) == MESSAGE_HEAD_LENGTH + |bytes|
            && buffer[..MESSAGE_HEAD_LENGTH] == s.input[..MESSAGE_HEAD_LENGTH]
            && buffer[MESSAGE_HEAD_LENGTH..EndOf(buffer)] == bytes
  {
    assert ReadBody(s.info.bodyLength) in s.pending;
    var head, buffer := s.input[..MESSAGE_HEAD_LENGTH], Placed(s.input, MESSAGE_HEAD_LENGTH, bytes);
    assert buffer[..MESSAGE_HEAD_LENGTH] == head;
    assert buffer[1..3] == head[1..3] == s.input[1..3] && buffer[3..5] == head[3..5] == s.input[3..5];
  }

  /** One more accepted message is one more turn of the conversation. */
  lemma ConverseStep(polarity: Polarity, before: Receipts, last: Receipt)
    requires |last.tail| >= PHANTOM_EXTENT
    ensures var out := Reacts(polarity, Converse(polarity, before).channelId, last.message, last.tail, last.env);
            && LastOutcome(polarity, before + [last]) == out
            && Converse(polarity, before + [last])
               == Conversation(out.channelId, Converse(polarity, before).replies + ReplyBytes(out.action))
  {
    assert (before + [last])[..|before|] == before;
  }

  lemma RepliedIsConsistent(s: Session, m: Sendable)
    requires Shaped(s) && s.pending == multiset{}
    ensures Consistent(Replied(s, m)) && Replied(s, m).pending == multiset{Write(|Encode(m)|)}
  {
    var r := Replied(s, m);
    assert r.output[..|Encode(m)|] == Encode(m);
  }

  lemma ActedIsGood(polarity: Polarity, s: Session, action: Action)
    requires Shaped(s) && s.pending == multiset{} && !s.closed
    requires forall k | 0 <= k < |s.received| :: |s.received[k].tail| >= PHANTOM_EXTENT
    requires s.received != [] && LastOutcome(polarity, s.received).action == action
    requires s.channelId == Converse(polarity, s.received).channelId
    requires s.sent + ReplyBytes(action) == Converse(polarity, s.received).replies
    ensures Good(polarity, Acted(s, action))
  {
    match action
    case Reply(m) => RepliedIsConsistent(s, m);
    case _ =>
  }

  lemma ProcessedIsGood(polarity: Polarity, s: Session, env: Environment)
    requires Shaped(s) && Loaded(s.info) && History(polarity, s) && s.pending == multiset{} && !s.closed
    ensures Good(polarity, Processed(polarity, s, env))
  {
    var receipt := ReceiptOf(s, env);
    ConverseStep(polarity, s.received, receipt);
    var out := OutcomeOf(polarity, s, env);
    ActedIsGood(polarity, s.(received := s.received + [receipt], channelId := out.channelId), out.action);
  }

  lemma BodyStepIsGood(polarity: Polarity, s: Session, ok: bool, bytes: seq<byte>, env: Environment)
    requires Good(polarity, s) && Enabled(s, BodyRead(ok, bytes, env))
    ensures Good(polarity, Step(polarity, s, BodyRead(ok, bytes, env)))
  {
    OnlyPending(s, ReadBody(s.info.bodyLength));
    var t := Delivered(s, BodyRead(ok, bytes, env));
    if ok && Accepted(t.input) {
      ParsedLoads(t.info, t.input);
      ProcessedIsGood(polarity, t.(info := Parsed(t.info, t.input)), env);
    }
  }

  /** Every handler keeps the invariant. */
  lemma StepIsGood(polarity: Polarity, s: Session, e: Event)
    requires Good(polarity, s) && Enabled(s, e)
    ensures Good(polarity, Step(polarity, s, e))
  {
    match e
    case HeadRead(ok, bytes) => HeadStepIsGood(polarity, s, ok, bytes);
    case BodyRead(ok, bytes, env) => BodyStepIsGood(polarity, s, ok, bytes, env);
    case Written(ok, n) => WriteStepIsGood(polarity, s, ok, n);
  }

  // ---- What the invariant means ----

  /**
   While a write is in flight its completion is the only thing that can happen
   to the session, the bytes in flight are the last reply, and the completion
   leaves the output buffer alone.
  */
  lemma OutputStaysWhileWriting(polarity: Polarity, s: Session, n: nat, e: Event)
    requires Good(polarity, s) && Write(n) in s.pending && Enabled(s, e)
    ensures e.Written? && e.length == n && Step(polarity, s, e).output == s.output
    ensures s.sent != [] && n <= |s.output| && s.output[..n] == Last(s.sent)
  {
    OnlyPending(s, Write(n));
  }

  /** Handlers of a session exclude each other: whatever completes, nothing else was outstanding. */
  lemma OneAtATime(polarity: Polarity, s: Session, e: Event)
    requires Good(polarity, s) && Enabled(s, e)
    ensures !s.closed && s.pending == multiset{OperationOf(s, e)}
    ensures |Step(polarity, s, e).pending| <= 1
  {
    OnlyPending(s, OperationOf(s, e));
    StepIsGood(polarity, s, e);
  }

  /** The session once an accepted body has been parsed, before it is dispatched on. */
  lemma BodyAccepts(polarity: Polarity, s: Session, bytes: seq<byte>, env: Environment) returns (parsed: Session)
    requires Good(polarity, s) && Enabled(s, BodyRead(true, bytes, env))
    requires Accepted(Delivered(s, BodyRead(true, bytes, env)).input)
    ensures Shaped(parsed) && Loaded(parsed.info)
    ensures parsed.received == s.received && parsed.pending == multiset{} && !parsed.closed
    ensures History(polarity, parsed)
    ensures ReceiptOf(parsed, env).message == Carried(Delivered(s, BodyRead(true, bytes, env)).input)
    ensures TailIn(parsed.info) == s.info.store[EndOf(Delivered(s, BodyRead(true, bytes, env)).input)..]
    ensures Step(polarity, s, BodyRead(true, bytes, env)) == Processed(polarity, parsed, env)
    ensures IntakeOf(polarity, Delivered(s, BodyRead(true, bytes, env)), true, env)
         == OutcomeOf(polarity, parsed, env).intake
  {
    OnlyPending(s, ReadBody(s.info.bodyLength));
    var t := Delivered(s, BodyRead(true, bytes, env));
    ParsedLoads(t.info, t.input);
    parsed := t.(info := Parsed(t.info, t.input));
  }

  // ---- When a session closes, and when it is left behind ----

  /** The messages that end a session. */
  predicate Ends(m: Message) {
    m.mtype == MESSAGE_CHANNEL_ERROR || m.mtype == MESSAGE_CHANNEL_CLOSE
  }

  /** The messages that a session neither answers nor follows with a read. */
  predicate Abandons(polarity: Polarity, m: Message, tail: seq<byte>)
    requires |tail| >= PHANTOM_EXTENT
  {
    || (m.mtype == MESSAGE_CHANNEL_SETUP && ChannelIdOf(m.params, tail) == None)
    || (m.mtype == MESSAGE_PCM_DATA_SEND_REQUEST && PcmGivesUp(polarity, m.params, tail))
  }

  /** What a completion does to the life of a session. */
  datatype Fate = GoesOn(next: Operation) | IsClosed | IsAbandoned

  ghost predicate HasFate(s: Session, fate: Fate) {
    match fate
    case GoesOn(next) => !s.closed && s.pending == multiset{next}
    case IsClosed => s.closed && s.pending == multiset{}
    case IsAbandoned => !s.closed && s.pending == multiset{}
  }

  /** What a session waits for after an accepted message: a head, or the reply's bytes to be written. */
  function FateOfMessage(polarity: Polarity, m: Message, tail: seq<byte>, env: Environment): Fate
    requires |tail| >= PHANTOM_EXTENT
  {
    if Ends(m) then IsClosed
    else if Abandons(polarity, m, tail) then IsAbandoned
    else if m.mtype == MESSAGE_CHANNEL_STATUS then GoesOn(ReadHead)
    else if m.mtype == MESSAGE_CHANNEL_SETUP || m.mtype == MESSAGE_CHANNEL_TEST then GoesOn(Write(11))
    else if m.mtype == MESSAGE_PCM_DATA_SEND_REQUEST then
      GoesOn(Write(|AnswerTo(0, 0, BlockDataOf(m.params, tail), env)|))
    else GoesOn(Write(17))
  }

  function FateOfAction(action: Action): Fate {
    match action
    case Reply(m) => GoesOn(Write(|Encode(m)|))
    case Listen => GoesOn(ReadHead)
    case Close => IsClosed
    case Stall => IsAbandoned
  }

  lemma BlockFate(id: u16, blockId: u32, data: Option<seq<byte>>, env: Environment)
    ensures FateOfAction(ReactsToBlock(id, blockId, data, env).action) == GoesOn(Write(|AnswerTo(0, 0, data, env)|))
  {
    BlockIsAnswered(id, blockId, data, env);
    assert |AnswerTo(id, blockId, data, env)| == |AnswerTo(0, 0, data, env)|;
  }

  lemma PcmFate(polarity: Polarity, channelId: u16, ps: seq<Param>, tail: seq<byte>, env: Environment)
    requires |tail| >= PHANTOM_EXTENT
    ensures FateOfAction(ReactsToPcm(polarity, channelId, ps, tail, env).action)
         == if PcmGivesUp(polarity, ps, tail) then IsAbandoned
            else GoesOn(Write(|AnswerTo(0, 0, BlockDataOf(ps, tail), env)|))
  {
    BlockFate(AsU16(ChannelIdOf(ps, tail), channelId), AsU32(BlockIdOf(ps, tail), env.blockId), BlockDataOf(ps, tail), env);
  }

  lemma ReactsFate(polarity: Polarity, channelId: u16, m: Message, tail: seq<byte>, env: Environment)
    requires |tail| >= PHANTOM_EXTENT
    ensures FateOfAction(Reacts(polarity, channelId, m, tail, env).action) == FateOfMessage(polarity, m, tail, env)
  {
    if m.mtype == MESSAGE_PCM_DATA_SEND_REQUEST {
      PcmFate(polarity, channelId, m.params, tail, env);
    } else {
      ReplySizes(PROTOCOL_VERSION, 0, channelId, ERROR_UNKNOWN_MESSAGE_TYPE, 0);
      var id := AsU16(ChannelIdOf(m.params, tail), channelId);
      ReplySizes(PROTOCOL_VERSION, MESSAGE_CHANNEL_STATUS, id, 0, 0);
      ReplySizes(PROTOCOL_VERSION, MESSAGE_CHANNEL_STATUS, channelId, 0, 0);
    }
  }

  lemma ActedFate(s: Session, action: Action)
    requires Shaped(s) && s.pending == multiset{} && !s.closed
    ensures HasFate(Acted(s, action), FateOfAction(action))
  {
  }

  lemma ProcessedFate(polarity: Polarity, s: Session, env: Environment)
    requires Shaped(s) && Loaded(s.info) && s.pending == multiset{} && !s.closed
    ensures HasFate(Processed(polarity, s, env),
                    FateOfMessage(polarity, ReceiptOf(s, env).message, TailIn(s.info), env))
  {
    ReactsFate(polarity, s.channelId, ReceiptOf(s, env).message, TailIn(s.info), env);
    var out := OutcomeOf(polarity, s, env);
    ActedFate(s.(received := s.received + [ReceiptOf(s, env)], channelId := out.channelId), out.action);
  }

  /** Why a completion ends a session, if it does, and what it waits for otherwise. */
  function FateBy(polarity: Polarity, s: Session, e: Event): Fate
    requires Shaped(s) && Enabled(s, e)
  {
    if !e.ok then IsClosed
    else
      match e
      case HeadRead(_, bytes) =>
        if BodyFits(BodyLengthOf(bytes)) then GoesOn(ReadBody(BodyLengthOf(bytes))) else IsClosed
      case BodyRead(_, _, env) =>
        var buffer := Delivered(s, e).input;
        if Accepted(buffer) then FateOfMessage(polarity, Carried(buffer), s.info.store[EndOf(buffer)..], env) else IsClosed
      case Written(_, _) => GoesOn(ReadHead)
  }

  lemma HeadFate(polarity: Polarity, s: Session, ok: bool, bytes: seq<byte>)
    requires Good(polarity, s) && Enabled(s, HeadRead(ok, bytes))
    ensures HasFate(Step(polarity, s, HeadRead(ok, bytes)), FateBy(polarity, s, HeadRead(ok, bytes)))
  {
    OnlyPending(s, ReadHead);
    if ok {
      var input := Delivered(s, HeadRead(ok, bytes)).input;
      assert input[3..5] == bytes[3..5];
    }
  }

  lemma BodyFate(polarity: Polarity, s: Session, ok: bool, bytes: seq<byte>, env: Environment)
    requires Good(polarity, s) && Enabled(s, BodyRead(ok, bytes, env))
    ensures HasFate(Step(polarity, s, BodyRead(ok, bytes, env)), FateBy(polarity, s, BodyRead(ok, bytes, env)))
  {
    if ok && Accepted(Delivered(s, BodyRead(ok, bytes, env)).input) {
      var parsed := BodyAccepts(polarity, s, bytes, env);
      ProcessedFate(polarity, parsed, env);
    } else {
      OnlyPending(s, ReadBody(s.info.bodyLength));
    }
  }

  lemma WriteFate(polarity: Polarity, s: Session, ok: bool, n: nat)
    requires Good(polarity, s) && Enabled(s, Written(ok, n))
    ensures HasFate(Step(polarity, s, Written(ok, n)), FateBy(polarity, s, Written(ok, n)))
  {
    OnlyPending(s, Write(n));
  }

  /**
   A completion closes a session exactly on a failure, a refused head or body, or an
   error or close message; it leaves the session behind with nothing outstanding
   exactly on a setup whose id is not found or a PCM request whose tests return. In
   every other case the next operation is outstanding: the body after a head, of the
   length it states, the reply or the next head after a body, the next head after a
   reply.
  */
  lemma StepFate(polarity: Polarity, s: Session, e: Event)
    requires Good(polarity, s) && Enabled(s, e)
    ensures HasFate(Step(polarity, s, e), FateBy(polarity, s, e))
  {
    match e
    case HeadRead(ok, bytes) => HeadFate(polarity, s, ok, bytes);
    case BodyRead(ok, bytes, env) => BodyFate(polarity, s, ok, bytes, env);
    case Written(ok, n) => WriteFate(polarity, s, ok, n);
  }

  // ---- The samples a step adds ----

  function SamplesOfEvent(polarity: Polarity, s: Session, e: Event): seq<Sample>
    requires Shaped(s) && Enabled(s, e)
  {
    match e
    case BodyRead(ok, _, env) =>
      Kept(IntakeOf(polarity, Delivered(s, e), ok, env))
    case HeadRead(_, _) => []
    case Written(_, _) => []
  }

  lemma ActedKeepsHistory(s: Session, action: Action)
    requires Shaped(s)
    ensures Acted(s, action).received == s.received
  {
  }

  /** The messages a history has gained contribute these samples. */
  ghost predicate Gains(polarity: Polarity, before: seq<Receipt>, after: seq<Receipt>, samples: seq<Sample>) {
    && (forall k | 0 <= k < |before| :: |before[k].tail| >= PHANTOM_EXTENT)
    && (forall k | 0 <= k < |after| :: |after[k].tail| >= PHANTOM_EXTENT)
    && Contribution(polarity, after) == Contribution(polarity, before) + samples
  }

  lemma ContributionStep(polarity: Polarity, before: Receipts, last: Receipt)
    requires |last.tail| >= PHANTOM_EXTENT
    ensures Gains(polarity, before, before + [last],
                  Kept(Reacts(polarity, Converse(polarity, before).channelId, last.message, last.tail, last.env).intake))
  {
    assert (before + [last])[..|before|] == before;
  }

  lemma ProcessedReceives(polarity: Polarity, s: Session, env: Environment)
    requires Shaped(s) && Loaded(s.info)
    ensures Processed(polarity, s, env).received == s.received + [ReceiptOf(s, env)]
  {
    var out := OutcomeOf(polarity, s, env);
    ActedKeepsHistory(s.(received := s.received + [ReceiptOf(s, env)], channelId := out.channelId), out.action);
  }

  lemma ProcessedContributes(polarity: Polarity, s: Session, env: Environment)
    requires Shaped(s) && Loaded(s.info) && History(polarity, s)
    ensures Gains(polarity, s.received, Processed(polarity, s, env).received, Kept(OutcomeOf(polarity, s, env).intake))
  {
    ProcessedReceives(polarity, s, env);
    ContributionStep(polarity, s.received, ReceiptOf(s, env));
  }

  lemma BodyStepContributes(polarity: Polarity, s: Session, bytes: seq<byte>, env: Environment)
    requires Good(polarity, s) && Enabled(s, BodyRead(true, bytes, env))
    requires Accepted(Delivered(s, BodyRead(true, bytes, env)).input)
    ensures Gains(polarity, s.received, Step(polarity, s, BodyRead(true, bytes, env)).received,
                  SamplesOfEvent(polarity, s, BodyRead(true, bytes, env)))
  {
    var parsed := BodyAccepts(polarity, s, bytes, env);
    ProcessedContributes(polarity, parsed, env);
  }

  /** Every other step adds nothing and accepts nothing. */
  lemma OtherStepsAddNothing(polarity: Polarity, s: Session, e: Event)
    requires Good(polarity, s) && Enabled(s, e)
    requires e.BodyRead? && e.ok ==> !Accepted(Delivered(s, e).input)
    ensures Step(polarity, s, e).received == s.received && SamplesOfEvent(polarity, s, e) == []
  {
  }

  /** What a step puts into the FIFO is what the message it accepts contributes. */
  lemma StepContributes(polarity: Polarity, s: Session, e: Event)
    requires Good(polarity, s) && Enabled(s, e)
    ensures Gains(polarity, s.received, Step(polarity, s, e).received, SamplesOfEvent(polarity, s, e))
  {
    if e.BodyRead? && e.ok && Accepted(Delivered(s, e).input) {
      BodyStepContributes(polarity, s, e.bytes, e.env);
    } else {
      OtherStepsAddNothing(polarity, s, e);
    }
  }
}
