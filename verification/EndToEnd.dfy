/** From a client's PCM block to the frames of the encoder, through every layer. */
module EndToEnd {
  import opened Bytes
  import opened Messages
  import opened Lookups
  import opened Parser
  import opened Writer
  import opened Codec
  import opened Interface
  import opened Crc
  import opened Folds
  import opened CrcDetection
  import opened Audio
  import opened Sessions
  import opened Conversations
  import opened SessionInvariants

  // ---- One message through the two reads ----

  function HeadOf(m: Sendable): Event {
    HeadRead(true, Encode(m)[..MESSAGE_HEAD_LENGTH])
  }

  function BodyOf(m: Sendable, env: Environment): Event {
    BodyRead(true, Encode(m)[MESSAGE_HEAD_LENGTH..], env)
  }

  /** The bytes that lookups can see past a message: what longer messages before it left in the store. */
  function LeftBehind(s: Session, m: Sendable): (tail: seq<byte>)
    requires Shaped(s)
    ensures |tail| >= PHANTOM_EXTENT
  {
    s.info.store[|Encode(m)|..]
  }

  /** The head read of a packaged message asks for exactly its body. */
  lemma HeadAsksForBody(polarity: Polarity, s: Session, m: Sendable, env: Environment) returns (t: Session)
    requires Good(polarity, s) && s.pending == multiset{ReadHead}
    ensures Enabled(s, HeadOf(m)) && t == Step(polarity, s, HeadOf(m))
    ensures Shaped(t) && !t.closed && Enabled(t, BodyOf(m, env)) && t.info.store == s.info.store
    ensures t.input[..MESSAGE_HEAD_LENGTH] == Encode(m)[..MESSAGE_HEAD_LENGTH]
    ensures t.received == s.received && t.sent == s.sent && t.channelId == s.channelId
    ensures t.pending == multiset{ReadBody(t.info.bodyLength)}
  {
    var bytes := Encode(m);
    var d := Delivered(s, HeadOf(m));
    t := Step(polarity, s, HeadOf(m));
    assert d.input[..MESSAGE_HEAD_LENGTH] == bytes[..MESSAGE_HEAD_LENGTH];
    HeadOfEncoded(m, d.input);
  }

  lemma HeadOfEncoded(m: Sendable, buffer: seq<byte>)
    requires |buffer| >= MESSAGE_HEAD_LENGTH && buffer[..MESSAGE_HEAD_LENGTH] == Encode(m)[..MESSAGE_HEAD_LENGTH]
    ensures BodyLengthOf(buffer) == |EncodeParams(m.params)| == |Encode(m)| - MESSAGE_HEAD_LENGTH
  {
    StartsWithHolds(Encode(m), m);
    HeldHead(Encode(m), m.version, m.mtype, EncodeParams(m.params));
    assert buffer[3..5] == buffer[..MESSAGE_HEAD_LENGTH][3..5] == Encode(m)[3..5];
  }

  /** What parsing a buffer that starts with a message leaves for the lookups. */
  lemma ParsedMessage(st: MessageState, m: Sendable, buffer: seq<byte>)
    requires m.params != [] && |buffer| >= INPUT_EXTENT && |st.store| == STORE_EXTENT && StartsWith(buffer, m)
    ensures Accepted(buffer) && Loaded(Parsed(st, buffer))
    ensures var after := Parsed(st, buffer);
            && Message(after.version, after.mtype, ParamsIn(after)) == m
            && TailIn(after) == st.store[|Encode(m)|..]
            && after.store[..|Encode(m)|] == Encode(m)
  {
    ParsePackaged(buffer, m);
    ParsedLoads(st, buffer);
  }

  /** The body read puts the message together again. */
  lemma BodyCompletesMessage(t: Session, m: Sendable, env: Environment)
    requires Shaped(t) && Enabled(t, BodyOf(m, env))
    requires t.input[..MESSAGE_HEAD_LENGTH] == Encode(m)[..MESSAGE_HEAD_LENGTH]
    ensures StartsWith(Delivered(t, BodyOf(m, env)).input, m)
  {
    var bytes, n := Encode(m), MESSAGE_HEAD_LENGTH;
    var buffer := Placed(t.input, n, bytes[n..]);
    assert buffer[..|bytes|] == t.input[..n] + bytes[n..];
    assert bytes == bytes[..n] + bytes[n..];
  }

  function PendingAfter(action: Action): multiset<Operation> {
    match action
    case Reply(m) => multiset{Write(|Encode(m)|)}
    case Listen => multiset{ReadHead}
    case Close => multiset{}
    case Stall => multiset{}
  }

  /** A message has had this outcome on the session. */
  ghost predicate Handled(s: Session, r: Session, receipt: Receipt, out: Outcome) {
    && r.channelId == out.channelId
    && r.received == s.received + [receipt]
    && r.sent == s.sent + ReplyBytes(out.action)
    && r.pending == PendingAfter(out.action)
    && r.closed == out.action.Close?
  }

  lemma ProcessedHandles(polarity: Polarity, s: Session, env: Environment)
    requires Shaped(s) && Loaded(s.info) && s.pending == multiset{} && !s.closed
    ensures var m := Message(s.info.version, s.info.mtype, ParamsIn(s.info));
            Handled(s, Processed(polarity, s, env), Receipt(m, TailIn(s.info), env), OutcomeOf(polarity, s, env))
  {
  }

  lemma BodyHandles(polarity: Polarity, t: Session, m: Sendable, env: Environment)
    requires Shaped(t) && !t.closed && m.params != []
    requires t.pending == multiset{ReadBody(t.info.bodyLength)} && Enabled(t, BodyOf(m, env))
    requires t.input[..MESSAGE_HEAD_LENGTH] == Encode(m)[..MESSAGE_HEAD_LENGTH]
    ensures var out := Reacts(polarity, t.channelId, m, LeftBehind(t, m), env);
            && Handled(t, Step(polarity, t, BodyOf(m, env)), Receipt(m, LeftBehind(t, m), env), out)
            && IntakeOf(polarity, Delivered(t, BodyOf(m, env)), true, env) == out.intake
  {
    BodyCompletesMessage(t, m, env);
    var d := Delivered(t, BodyOf(m, env));
    ParsedMessage(d.info, m, d.input);
    OnlyPending(t, ReadBody(t.info.bodyLength));
    ProcessedHandles(polarity, d.(info := Parsed(d.info, d.input)), env);
  }

  lemma BodyStores(polarity: Polarity, t: Session, m: Sendable, env: Environment)
    requires Shaped(t) && !t.closed && m.params != [] && Enabled(t, BodyOf(m, env))
    requires t.input[..MESSAGE_HEAD_LENGTH] == Encode(m)[..MESSAGE_HEAD_LENGTH]
    ensures Shaped(Step(polarity, t, BodyOf(m, env)))
    ensures Step(polarity, t, BodyOf(m, env)).info.store[..|Encode(m)|] == Encode(m)
  {
    BodyCompletesMessage(t, m, env);
    var d := Delivered(t, BodyOf(m, env));
    ParsedMessage(d.info, m, d.input);
    ProcessedKeepsInfo(polarity, d.(info := Parsed(d.info, d.input)), env);
  }

  lemma ProcessedKeepsInfo(polarity: Polarity, s: Session, env: Environment)
    requires Shaped(s) && Loaded(s.info)
    ensures Shaped(Processed(polarity, s, env)) && Processed(polarity, s, env).info == s.info
  {
  }

  /** The two reads of a message take session s to r and the pipeline from p to q. */
  ghost predicate Exchanged(polarity: Polarity, s: Session, m: Sendable, env: Environment, r: Session,
                            p: Pipeline, frameSize: nat, q: Pipeline)
    requires frameSize > 0
  {
    && Shaped(s) && Enabled(s, HeadOf(m))
    && var t := Step(polarity, s, HeadOf(m));
       && Shaped(t) && Enabled(t, BodyOf(m, env)) && r == Step(polarity, t, BodyOf(m, env))
       && q == AudioStep(polarity, t, BodyOf(m, env), p, frameSize)
  }

  /**
   A packaged message that arrives at a session waiting for one takes exactly two
   reads and has the outcome that the message and the bytes left behind determine.
   The session is in order afterwards, and its store starts with the message.
  */
  lemma Exchange(polarity: Polarity, s: Session, m: Sendable, env: Environment, p: Pipeline, frameSize: nat)
      returns (r: Session)
    requires Good(polarity, s) && s.pending == multiset{ReadHead} && m.params != [] && frameSize > 0
    ensures var out := Reacts(polarity, s.channelId, m, LeftBehind(s, m), env);
            && Exchanged(polarity, s, m, env, r, p, frameSize, AudioAfter(p, frameSize, out.intake, env))
            && Handled(s, r, Receipt(m, LeftBehind(s, m), env), out)
    ensures Good(polarity, r) && r.info.store[..|Encode(m)|] == Encode(m)
  {
    var t := HeadAsksForBody(polarity, s, m, env);
    BodyHandles(polarity, t, m, env);
    r := Step(polarity, t, BodyOf(m, env));
    StepIsGood(polarity, s, HeadOf(m));
    StepIsGood(polarity, t, BodyOf(m, env));
    BodyStores(polarity, t, m, env);
  }

  // ---- A block of PCM ----

  /** The request a client builds around a block, as long as it can be accepted. */
  function BlockRequest(channelId: u16, blockId: u32, block: seq<byte>, crc: u32): (m: Sendable)
    requires |block| <= 16352
    ensures m.params != []
  {
    RequestSize(PROTOCOL_VERSION, channelId, blockId, block, crc);
    PcmRequest(PROTOCOL_VERSION, channelId, blockId, block, crc)
  }

  /** A sealed block holds its PCM, a quarter as many samples as bytes, in front of a checksum that fits. */
  lemma SealedBlock(pcm: seq<byte>, env: Environment)
    ensures |Sealed(pcm)| == |pcm| + 4 && Intact(Sealed(pcm), env) && Accepts(Sealed(pcm))
    ensures SamplesFor(|Sealed(pcm)|) == |pcm| / 4
    ensures forall n: nat | 4 * n <= |pcm| :: Sealed(pcm)[..4 * n] == pcm[..4 * n]
  {
    var block := Sealed(pcm);
    assert block[..|block| - 4] == pcm;
    AcceptsExactlySealed(block);
  }

  /** With the tests as intended, the outcome of a request depends on its block alone, which is found up to 8192 bytes. */
  lemma RequestOutcome(channelId: u16, id: u16, blockId: u32, block: seq<byte>, crc: u32,
                       tail: seq<byte>, env: Environment)
    requires |block| <= 16352 && |tail| >= PHANTOM_EXTENT
    ensures Reacts(Negated, channelId, BlockRequest(id, blockId, block, crc), tail, env)
         == ReactsToBlock(id, blockId, if |block| <= MAX_PARAMETER_LENGTH then Some(block) else None, env)
  {
    RequestLookups(BlockRequest(id, blockId, block, crc), id, blockId, block, crc, tail);
  }

  lemma BlockArrives(s: Session, id: u16, blockId: u32, block: seq<byte>, crc: u32, env: Environment, p: Pipeline,
                     frameSize: nat, data: Option<seq<byte>>)
      returns (r: Session)
    requires Good(Negated, s) && s.pending == multiset{ReadHead} && frameSize > 0 && |block| <= 16352
    requires data == if |block| <= MAX_PARAMETER_LENGTH then Some(block) else None
    ensures Exchanged(Negated, s, BlockRequest(id, blockId, block, crc), env, r, p, frameSize,
                      AudioAfter(p, frameSize, ReactsToBlock(id, blockId, data, env).intake, env))
    ensures r.channelId == id && r.sent == s.sent + [AnswerTo(id, blockId, data, env)]
  {
    var m := BlockRequest(id, blockId, block, crc);
    r := Exchange(Negated, s, m, env, p, frameSize);
    RequestOutcome(s.channelId, id, blockId, block, crc, LeftBehind(s, m), env);
    BlockIsAnswered(id, blockId, data, env);
  }

  /** Whoever has these bytes at the front of a buffer reads them as the response for this block. */
  ghost predicate AnswersBlock(bytes: seq<byte>, id: u16, blockId: u32) {
    forall buffer, tail {:trigger ReadAsResponse(buffer, tail, id, blockId)}
      | |buffer| >= INPUT_EXTENT && bytes <= buffer && |tail| >= PHANTOM_EXTENT ::
      ReadAsResponse(buffer, tail, id, blockId)
  }

  lemma ResponseAnswers(id: u16, blockId: u32)
    ensures AnswersBlock(ResponseBytes(id, blockId), id, blockId)
  {
    forall buffer, tail | |buffer| >= INPUT_EXTENT && ResponseBytes(id, blockId) <= buffer && |tail| >= PHANTOM_EXTENT
      ensures ReadAsResponse(buffer, tail, id, blockId)
    {
      ResponseIsRead(id, blockId, buffer, tail);
    }
  }

  /**
   A block of PCM of at most 8188 bytes, sealed by pack_crc, packaged by
   pcm_data_send_request and read by a session: the session takes its id, answers
   with a response from which a receiver reads both ids, and adds exactly the block's
   samples, whose bytes are those of the PCM, and cuts frames.
  */
  lemma PcmArrives(s: Session, id: u16, blockId: u32, crc: u32, pcm: seq<byte>, env: Environment, p: Pipeline,
                   frameSize: nat)
      returns (r: Session, samples: seq<Sample>)
    requires Good(Negated, s) && s.pending == multiset{ReadHead} && frameSize > 0
    requires |Sealed(pcm)| <= MAX_PARAMETER_LENGTH && AllWritten(Sealed(pcm), env)
    ensures Exchanged(Negated, s, BlockRequest(id, blockId, Sealed(pcm), crc), env, r, p, frameSize,
                      Drained(Stored(p, samples), frameSize, env.frames))
    ensures Flatten(BytesOfSample, samples) == pcm[..4 * (|pcm| / 4)]
    ensures r.channelId == id && r.sent == s.sent + [ResponseBytes(id, blockId)]
    ensures AnswersBlock(Last(r.sent), id, blockId)
  {
    r := BlockArrives(s, id, blockId, Sealed(pcm), crc, env, p, frameSize, Some(Sealed(pcm)));
    samples := Kept(ReactsToBlock(id, blockId, Some(Sealed(pcm)), env).intake);
    BlockIsTaken(id, blockId, Sealed(pcm), env);
    SealedBlock(pcm, env);
    ResponseAnswers(id, blockId);
  }

  /**
   The same request when some call in front of the frame loop fails: the session
   answers with the unknown error, and the pipeline gains at most the samples that
   were written, the first of the block, but no frame.
  */
  lemma UnservedPcmIsReported(s: Session, id: u16, blockId: u32, crc: u32, pcm: seq<byte>, env: Environment, p: Pipeline,
                              frameSize: nat)
      returns (r: Session, q: Pipeline, samples: seq<Sample>)
    requires Good(Negated, s) && s.pending == multiset{ReadHead} && frameSize > 0
    requires |Sealed(pcm)| <= MAX_PARAMETER_LENGTH && !AllWritten(Sealed(pcm), env)
    ensures Exchanged(Negated, s, BlockRequest(id, blockId, Sealed(pcm), crc), env, r, p, frameSize, q)
    ensures 4 * WrittenOf(Sealed(pcm), env) <= |pcm|
    ensures Flatten(BytesOfSample, samples) == pcm[..4 * WrittenOf(Sealed(pcm), env)]
    ensures q == Pipeline(p.fifo + samples, p.pts, p.frames, p.added + samples)
    ensures r.channelId == id && r.sent == s.sent + [ErrorBytes(id, 0x7000)]
  {
    r := BlockArrives(s, id, blockId, Sealed(pcm), crc, env, p, frameSize, Some(Sealed(pcm)));
    var intake := ReactsToBlock(id, blockId, Some(Sealed(pcm)), env).intake;
    q, samples := AudioAfter(p, frameSize, intake, env), Kept(intake);
    BlockIsTaken(id, blockId, Sealed(pcm), env);
    SealedBlock(pcm, env);
    assert p.fifo + [] == p.fifo && p.added + [] == p.added;
  }

  /**
   The same request with its block damaged in any window of four bytes: the session
   says so, and the pipeline does not notice.
  */
  lemma DamagedPcmIsRefused(s: Session, id: u16, blockId: u32, crc: u32, pcm: seq<byte>, damaged: seq<byte>, at: nat,
                            env: Environment, p: Pipeline, frameSize: nat)
      returns (r: Session)
    requires Good(Negated, s) && s.pending == multiset{ReadHead} && frameSize > 0
    requires |damaged| == |Sealed(pcm)| <= MAX_PARAMETER_LENGTH && damaged != Sealed(pcm)
    requires forall k | 0 <= k < |damaged| && (k < at || at + 4 <= k) :: damaged[k] == Sealed(pcm)[k]
    ensures Exchanged(Negated, s, BlockRequest(id, blockId, damaged, crc), env, r, p, frameSize, p)
    ensures r.channelId == id && r.sent == s.sent + [ErrorBytes(id, 0x03)]
  {
    r := BlockArrives(s, id, blockId, damaged, crc, env, p, frameSize, Some(damaged));
    DamagedBlock(pcm, damaged, at, env);
    IntactIsValid(damaged, env);
  }

  lemma DamagedBlock(pcm: seq<byte>, damaged: seq<byte>, at: nat, env: Environment)
    requires |damaged| == |Sealed(pcm)| && damaged != Sealed(pcm)
    requires forall k | 0 <= k < |damaged| && (k < at || at + 4 <= k) :: damaged[k] == Sealed(pcm)[k]
    ensures !Intact(damaged, env)
  {
    SealedBlock(pcm, env);
    ByteBurstDetected(Sealed(pcm), damaged, at);
    AcceptsExactlySealed(damaged);
  }

  /** A request whose block is too long for a parameter, but not for a message: no block is found. */
  lemma OversizedPcmIsRefused(s: Session, id: u16, blockId: u32, crc: u32, block: seq<byte>, env: Environment,
                              p: Pipeline, frameSize: nat)
      returns (r: Session)
    requires Good(Negated, s) && s.pending == multiset{ReadHead} && frameSize > 0
    requires MAX_PARAMETER_LENGTH < |block| <= 16352
    ensures Exchanged(Negated, s, BlockRequest(id, blockId, block, crc), env, r, p, frameSize, p)
    ensures r.channelId == id && r.sent == s.sent + [ErrorBytes(id, 0x02)]
  {
    r := BlockArrives(s, id, blockId, block, crc, env, p, frameSize, None);
  }

  lemma TooLongHead(scratch: seq<byte>, m: Message, id: u16, blockId: u32, block: seq<byte>, crc: u32)
    requires |scratch| >= CURSOR_RANGE
    requires 16352 < |block| < 65510 && m == PcmRequest(m.version, id, blockId, block, crc)
    ensures !BodyFits(BodyLengthOf(Packaged(scratch, m)[..MESSAGE_HEAD_LENGTH]))
  {
    var h := HeadWritten(scratch, m.version, m.mtype);
    RequestSize(m.version, id, blockId, block, crc);
    assert h[3..5] == [0, 0];
    StatedLength(h, m.params);
    assert Packaged(scratch, m)[..MESSAGE_HEAD_LENGTH][3..5] == Packaged(scratch, m)[3..5];
  }

  lemma RefusedHeadCloses(polarity: Polarity, s: Session, head: seq<byte>)
    requires Good(polarity, s) && s.pending == multiset{ReadHead}
    requires |head| == MESSAGE_HEAD_LENGTH && !BodyFits(BodyLengthOf(head))
    ensures Enabled(s, HeadRead(true, head))
    ensures Step(polarity, s, HeadRead(true, head)).closed && Step(polarity, s, HeadRead(true, head)).sent == s.sent
  {
    StepFate(polarity, s, HeadRead(true, head));
  }

  /** A request too long for a message closes the session on its head, in both readings of the tests. */
  lemma TooLongPcmCloses(polarity: Polarity, s: Session, scratch: seq<byte>, m: Message, id: u16, blockId: u32,
                         block: seq<byte>, crc: u32)
    requires Good(polarity, s) && s.pending == multiset{ReadHead} && |scratch| >= CURSOR_RANGE
    requires 16352 < |block| < 65510 && m == PcmRequest(m.version, id, blockId, block, crc)
    ensures var e := HeadRead(true, Packaged(scratch, m)[..MESSAGE_HEAD_LENGTH]);
            && Enabled(s, e)
            && Step(polarity, s, e).closed && Step(polarity, s, e).sent == s.sent
  {
    TooLongHead(scratch, m, id, blockId, block, crc);
    RefusedHeadCloses(polarity, s, Packaged(scratch, m)[..MESSAGE_HEAD_LENGTH]);
  }

  /**
   As the tests are written, every request that can be accepted is dropped: no
   answer, nothing added, and nothing outstanding, so that the session never acts
   again.
  */
  lemma PcmAsWrittenStalls(s: Session, id: u16, blockId: u32, crc: u32, block: seq<byte>, env: Environment,
                           p: Pipeline, frameSize: nat) returns (r: Session)
    requires Good(AsWritten, s) && s.pending == multiset{ReadHead} && frameSize > 0 && |block| <= 16352
    ensures Exchanged(AsWritten, s, BlockRequest(id, blockId, block, crc), env, r, p, frameSize, p)
    ensures r.sent == s.sent && r.pending == multiset{} && !r.closed
  {
    var m := BlockRequest(id, blockId, block, crc);
    r := Exchange(AsWritten, s, m, env, p, frameSize);
    RequestAsWritten(s.channelId, m, id, blockId, block, crc, LeftBehind(s, m), env);
  }

  // ---- What the recorded end of the body does ----

  /** A setup message with a parameter of no meaning in front of its channel id, and one without a channel id. */
  function PaddedSetup(id: u16): (m: Sendable)
    ensures |EncodeParams(m.params)| == 10 && m.params != []
  {
    var ps: seq<Param> := [Parameter(0x99, []), Parameter(PARAMETER_CHANNEL_ID, Be16(id))];
    assert ps[1..][1..] == [];
    assert EncodeParams(ps[1..]) == EncodeParam(ps[1]) + EncodeParams([]);
    Message(PROTOCOL_VERSION, MESSAGE_CHANNEL_SETUP, ps)
  }

  function BareSetup(): (m: Sendable)
    ensures |EncodeParams(m.params)| == 4 && m.params != []
  {
    var ps: seq<Param> := [Parameter(0x99, [])];
    assert ps[1..] == [];
    Message(PROTOCOL_VERSION, MESSAGE_CHANNEL_SETUP, ps)
  }

  lemma PaddedLookup(id: u16, tail: seq<byte>)
    requires |tail| >= PHANTOM_EXTENT
    ensures ChannelIdOf(PaddedSetup(id).params, tail) == Some(id)
  {
    var ps := PaddedSetup(id).params;
    NumberOfBe16(id);
    assert ps[1..][0] == ps[1];
    assert FindNumber(ps[1..], PARAMETER_CHANNEL_ID, 2) == Some(id);
    NumberPresent(ps, tail, PARAMETER_CHANNEL_ID, 2);
  }

  /** Behind the bare setup the store still holds the padded one's channel id. */
  lemma StaleLookup(id: u16, store: seq<byte>)
    requires |store| == STORE_EXTENT && store[..15] == Encode(PaddedSetup(id))
    ensures ChannelIdOf(BareSetup().params, store[9..]) == Some(id)
    ensures FindNumber(BareSetup().params, PARAMETER_CHANNEL_ID, 2) == None
    ensures ContentAsCoded(BareSetup().params, store[9..], PARAMETER_CHANNEL_ID, 0) == Some(Be16(id))
    ensures FindContent(BareSetup().params, PARAMETER_CHANNEL_ID, 0) == None
  {
    var ps, tail := BareSetup().params, store[9..];
    StaleBytes(store, id);
    assert ps[1..] == [];
    NumberOfBe16(id);
    assert NumberAsCoded(ps, tail, PARAMETER_CHANNEL_ID, 2) == NumberAsCoded([], tail, PARAMETER_CHANNEL_ID, 2);
    assert Count(ps, PARAMETER_CHANNEL_ID) == 0;
    FindContentAppended(ps, Phantom(tail), PARAMETER_CHANNEL_ID, 0);
    FindContentAbsent(ps, PARAMETER_CHANNEL_ID, 0);
  }

  lemma StaleBytes(store: seq<byte>, id: u16)
    requires |store| == STORE_EXTENT && store[..15] == Encode(PaddedSetup(id))
    ensures TypeAt(store[9..], 0) == PARAMETER_CHANNEL_ID && LengthAt(store[9..], 0) == 2
    ensures store[9..][4..6] == Be16(id)
  {
    var ps := PaddedSetup(id).params;
    assert ps[1..][1..] == [];
    assert EncodeParams(ps[1..]) == EncodeParam(ps[1]) + EncodeParams([]);
    var rest := store[9..];
    assert rest[..6] == store[..15][9..];
    assert store[..15][9..] == EncodeParam(ps[1]);
    HeaderOfEncoded(ps[1], rest[6..]);
    assert rest == EncodeParam(ps[1]) + rest[6..];
  }

  /**
   A lookup can find what is not there: a session that has answered a setup with an
   id answers a setup that has no channel id at all, again with the id that the first
   one left in the store, in both readings of the tests. It was not meant to answer.
  */
  lemma StaleIdIsAnswered(polarity: Polarity, s: Session, id: u16, env: Environment, env': Environment,
                          p: Pipeline, frameSize: nat)
      returns (a: Session, b: Session, t: Session)
    requires Good(polarity, s) && s.pending == multiset{ReadHead} && frameSize > 0
    ensures Exchanged(polarity, s, PaddedSetup(id), env, a, p, frameSize, p)
    ensures Shaped(a) && Enabled(a, Written(true, |StatusBytes(id)|))
    ensures b == Step(polarity, a, Written(true, |StatusBytes(id)|)) && b.channelId == id
    ensures Exchanged(polarity, b, BareSetup(), env', t, p, frameSize, p)
    ensures t.sent == s.sent + [StatusBytes(id)] + [StatusBytes(id)]
    ensures Intended(id, BareSetup()) == Conversation(id, [])
  {
    a := Exchange(polarity, s, PaddedSetup(id), env, p, frameSize);
    PaddedLookup(id, LeftBehind(s, PaddedSetup(id)));
    RepliesOnTheWire(id, 0, 0);
    var n := |StatusBytes(id)|;
    b := ReplyWritten(polarity, a, n);
    StaleLookup(id, b.info.store);
    t := Exchange(polarity, b, BareSetup(), env', p, frameSize);
  }

  lemma ReplyWritten(polarity: Polarity, a: Session, n: nat) returns (b: Session)
    requires Good(polarity, a) && a.pending == multiset{Write(n)}
    ensures Enabled(a, Written(true, n)) && b == Step(polarity, a, Written(true, n))
    ensures Good(polarity, b) && b.pending == multiset{ReadHead}
    ensures b.info == a.info && b.channelId == a.channelId && b.sent == a.sent
  {
    OnlyPending(a, Write(n));
    b := Step(polarity, a, Written(true, n));
    StepIsGood(polarity, a, Written(true, n));
  }

  /** A typed lookup reads past the end of a parameter that is too short: here the type of the next one. */
  lemma ShortIdIsRead(tail: seq<byte>)
    requires |tail| >= PHANTOM_EXTENT
    ensures var ps := [Parameter(PARAMETER_CHANNEL_ID, []), Parameter(0x1234, [])];
            && ChannelIdOf(ps, tail) == Some(0x1234)
            && FindNumber(ps, PARAMETER_CHANNEL_ID, 2) == None
  {
    var ps: seq<Param> := [Parameter(PARAMETER_CHANNEL_ID, []), Parameter(0x1234, [])];
    assert ps[1..][1..] == [];
    var bytes := ps[0].value + EncodeParams(ps[1..]) + tail;
    assert EncodeParams(ps[1..]) == EncodeParam(ps[1]) + EncodeParams([]);
    assert bytes[..2] == Be16(0x1234);
    NumberOfBe16(0x1234);
  }
}
