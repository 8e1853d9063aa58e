/**
 All sessions of the server together: they share one pipeline, and a single
 thread runs one handler at a time, in whatever order operations complete.
*/
module Runs {
  import opened Bytes
  import opened Folds
  import opened Lookups
  import opened Messages
  import opened Parser
  import opened Audio
  import opened Sessions
  import opened Conversations
  import opened SessionInvariants
  import opened SessionRuns

  /** How the PCM handler's tests read, and the encoder's frame size. */
  datatype Settings = Settings(polarity: Polarity, frameSize: nat)
  type Config = c: Settings | c.frameSize > 0 witness Settings(AsWritten, 1)

  datatype World = World(sessions: map<nat, Session>, audio: Pipeline)

  const INITIAL := World(map[], EMPTY_PIPELINE)

  /** A connection is accepted, or one outstanding operation of one session completes. */
  datatype Move = Accept(id: nat, session: Session) | Complete(id: nat, event: Event)

  ghost predicate Possible(w: World, move: Move) {
    match move
    case Accept(id, s) => id !in w.sessions && Fresh(s)
    case Complete(id, e) => id in w.sessions && Shaped(w.sessions[id]) && Enabled(w.sessions[id], e)
  }

  ghost function Next(c: Config, w: World, move: Move): World
    requires Possible(w, move)
  {
    match move
    case Accept(id, s) => w.(sessions := w.sessions[id := s])
    case Complete(id, e) =>
      var s := w.sessions[id];
      World(w.sessions[id := Step(c.polarity, s, e)], AudioStep(c.polarity, s, e, w.audio, c.frameSize))
  }

  ghost predicate IsRun(c: Config, w: World, moves: seq<Move>)
    decreases |moves|
  {
    moves != [] ==> Possible(w, moves[0]) && IsRun(c, Next(c, w, moves[0]), moves[1..])
  }

  ghost function After(c: Config, w: World, moves: seq<Move>): World
    requires IsRun(c, w, moves)
    decreases |moves|
  {
    if moves == [] then w else After(c, Next(c, w, moves[0]), moves[1..])
  }

  // ---- The invariant of the whole server ----

  ghost predicate AllGood(c: Config, w: World) {
    && (forall id | id in w.sessions :: Good(c.polarity, w.sessions[id]))
    && Conserved(w.audio, c.frameSize)
  }

  lemma AudioAfterConserves(p: Pipeline, frameSize: nat, intake: Intake, env: Environment)
    requires frameSize > 0 && Conserved(p, frameSize)
    ensures Conserved(AudioAfter(p, frameSize, intake, env), frameSize)
    ensures AudioAfter(p, frameSize, intake, env).added == p.added + Kept(intake)
  {
    StoredConserves(p, frameSize, Kept(intake));
    if intake.Whole? {
      DrainedConserves(Received(p, intake), frameSize, env.frames);
    }
  }

  lemma AudioStepConserves(c: Config, s: Session, e: Event, p: Pipeline)
    requires Shaped(s) && Enabled(s, e) && Conserved(p, c.frameSize)
    ensures Conserved(AudioStep(c.polarity, s, e, p, c.frameSize), c.frameSize)
  {
    match e
    case BodyRead(ok, _, env) =>
      AudioAfterConserves(p, c.frameSize, IntakeOf(c.polarity, Delivered(s, e), ok, env), env);
    case _ =>
  }

  /** What a completed operation puts into the FIFO. */
  function IntakeOfEvent(c: Config, s: Session, e: Event): Intake
    requires Shaped(s) && Enabled(s, e)
  {
    match e
    case BodyRead(ok, _, env) => IntakeOf(c.polarity, Delivered(s, e), ok, env)
    case _ => Nothing
  }

  /** Unless a whole block got in, no frame is cut: the FIFO is what it was and the samples that did get in. */
  lemma NoFramesWithoutBlock(c: Config, s: Session, e: Event, p: Pipeline)
    requires Shaped(s) && Enabled(s, e) && !IntakeOfEvent(c, s, e).Whole?
    ensures var q := AudioStep(c.polarity, s, e, p, c.frameSize);
            && q.frames == p.frames && q.pts == p.pts
            && q.fifo == p.fifo + Kept(IntakeOfEvent(c, s, e)) && q.added == p.added + Kept(IntakeOfEvent(c, s, e))
  {
    assert p.fifo + [] == p.fifo && p.added + [] == p.added;
  }

  /** After a whole block, frames are cut up to the first failure: how many, and so the whole pipeline, exactly. */
  lemma FramesAfterBlock(p: Pipeline, frameSize: nat, samples: seq<Sample>, env: Environment, k: nat, n: nat)
    requires frameSize > 0 && Conserved(p, frameSize) && FirstFailure(env.frames, k)
    requires n == |p.frames| + Min(FrameCount(|p.fifo| + |samples|, frameSize),
                                   if env.frames[k] == NotSent then k + 1 else k)
    ensures n * frameSize <= |p.added + samples|
    ensures AudioAfter(p, frameSize, Whole(samples), env) == AfterFrames(p.added + samples, frameSize, n)
  {
    StoredConserves(p, frameSize, samples);
    DrainedExactly(Stored(p, samples), frameSize, env.frames, k, n);
  }

  lemma MoveKeepsAllGood(c: Config, w: World, move: Move)
    requires AllGood(c, w) && Possible(w, move)
    ensures AllGood(c, Next(c, w, move))
  {
    match move
    case Accept(id, s) => FreshIsGood(c.polarity, s);
    case Complete(id, e) =>
      StepIsGood(c.polarity, w.sessions[id], e);
      AudioStepConserves(c, w.sessions[id], e, w.audio);
  }

  /** Over every run, however the sessions interleave and whatever fails. */
  lemma {:induction false} RunsKeepAllGood(c: Config, w: World, moves: seq<Move>)
    requires AllGood(c, w) && IsRun(c, w, moves)
    ensures AllGood(c, After(c, w, moves))
    decreases |moves|
  {
    if moves != [] {
      MoveKeepsAllGood(c, w, moves[0]);
      RunsKeepAllGood(c, Next(c, w, moves[0]), moves[1..]);
    }
  }

  lemma InitialIsGood(c: Config)
    ensures AllGood(c, INITIAL)
  {
  }

  /**
   Conservation over every run: the frames read out, then the FIFO, are all samples
   added in order, and the timestamp counter has advanced by a frame for each frame.
  */
  lemma RunsConserve(c: Config, moves: seq<Move>)
    requires IsRun(c, INITIAL, moves)
    ensures var p := After(c, INITIAL, moves).audio;
            && SamplesIn(p.frames) + p.fifo == p.added
            && p.pts == c.frameSize * |p.frames|
            && (forall k | 0 <= k < |p.frames| :: p.frames[k].pts == c.frameSize * k && |p.frames[k].samples| == c.frameSize)
  {
    InitialIsGood(c);
    RunsKeepAllGood(c, INITIAL, moves);
    var p := After(c, INITIAL, moves).audio;
    ConservedSamples(p, c.frameSize);
    CutFrames(p.added, c.frameSize, |p.frames|);
  }

  lemma {:induction false} CutFrames(all: seq<Sample>, frameSize: nat, n: nat)
    requires n * frameSize <= |all|
    ensures forall k | 0 <= k < n :: Cut(all, frameSize, n)[k].pts == frameSize * k
                                  && |Cut(all, frameSize, n)[k].samples| == frameSize
    decreases n
  {
    if n > 0 {
      CutBound(frameSize, n);
      CutFrames(all, frameSize, n - 1);
      assert (n - 1) * frameSize == frameSize * (n - 1);
    }
  }

  // ---- Safety of the sessions while others run ----

  /**
   Whatever happens next on the server: while a session's write is in flight, the
   bytes in flight stay in its output buffer, until that write completes nothing of
   the session changes, and with nothing outstanding nothing of it changes at all.
  */
  lemma MovesLeaveWaitingSessions(c: Config, w: World, move: Move, id: nat)
    requires AllGood(c, w) && Possible(w, move) && id in w.sessions
    ensures id in Next(c, w, move).sessions
    ensures var s, t := w.sessions[id], Next(c, w, move).sessions[id];
            && (s.pending == multiset{} ==> t == s)
            && (forall n: nat | Write(n) in s.pending ::
                  t.output == s.output && (t == s || (move.Complete? && move.event.Written? && move.event.length == n)))
  {
    var s := w.sessions[id];
    if move.Complete? && move.id == id {
      forall n: nat | Write(n) in s.pending
        ensures move.event.Written? && move.event.length == n && Step(c.polarity, s, move.event).output == s.output
      {
        OutputStaysWhileWriting(c.polarity, s, n, move.event);
      }
    }
  }

  /** The completions of one session. */
  function OwnEvents(moves: seq<Move>, id: nat): seq<Event> {
    if moves == [] then []
    else (if moves[0].Complete? && moves[0].id == id then [moves[0].event] else []) + OwnEvents(moves[1..], id)
  }

  /**
   A session with nothing outstanding never acts again: no continuation of the run
   has an event of it, and none changes it. It was closed, or its last message was
   one that a session neither answers nor follows with a read.
  */
  lemma {:induction false} NothingOutstanding(c: Config, w: World, moves: seq<Move>, id: nat)
    requires AllGood(c, w) && IsRun(c, w, moves)
    requires id in w.sessions && w.sessions[id].pending == multiset{}
    ensures OwnEvents(moves, id) == []
    ensures id in After(c, w, moves).sessions && After(c, w, moves).sessions[id] == w.sessions[id]
    ensures w.sessions[id].closed || LeftBehind(c.polarity, w.sessions[id])
    decreases |moves|
  {
    LastMessageAbandons(c.polarity, w.sessions[id]);
    if moves != [] {
      MovesLeaveWaitingSessions(c, w, moves[0], id);
      MoveKeepsAllGood(c, w, moves[0]);
      NothingOutstanding(c, Next(c, w, moves[0]), moves[1..], id);
    }
  }

  ghost predicate LeftBehind(polarity: Polarity, s: Session) {
    && s.received != []
    && |Last(s.received).tail| >= PHANTOM_EXTENT && Abandons(polarity, Last(s.received).message, Last(s.received).tail)
  }

  lemma LastMessageAbandons(polarity: Polarity, s: Session)
    requires Good(polarity, s) && s.pending == multiset{}
    ensures s.closed || LeftBehind(polarity, s)
  {
    if !s.closed {
      var last := Last(s.received);
      ReactsFate(polarity, Converse(polarity, s.received[..|s.received| - 1]).channelId, last.message, last.tail, last.env);
    }
  }

  // ---- Sessions do not see each other ----

  lemma OwnFirst(moves: seq<Move>, id: nat)
    requires moves != [] && moves[0].Complete? && moves[0].id == id
    ensures OwnEvents(moves, id) == [moves[0].event] + OwnEvents(moves[1..], id)
    ensures OwnEvents(moves, id)[1..] == OwnEvents(moves[1..], id)
  {
  }

  /** A session's state is its own run, with all other sessions' moves left out. */
  lemma {:induction false} OthersDoNotInterfere(c: Config, w: World, moves: seq<Move>, id: nat)
    requires IsRun(c, w, moves) && id in w.sessions
    ensures CanRun(c.polarity, w.sessions[id], OwnEvents(moves, id))
    ensures id in After(c, w, moves).sessions
    ensures After(c, w, moves).sessions[id] == RunOf(c.polarity, w.sessions[id], OwnEvents(moves, id))
    decreases |moves|
  {
    if moves != [] {
      OthersDoNotInterfere(c, Next(c, w, moves[0]), moves[1..], id);
      if moves[0].Complete? && moves[0].id == id {
        OwnFirst(moves, id);
      } else {
        assert OwnEvents(moves, id) == OwnEvents(moves[1..], id);
      }
    }
  }

  /** Every session of a run began fresh and has made a run of its own. */
  lemma {:induction false} EverySessionHasItsRun(c: Config, w: World, moves: seq<Move>, id: nat) returns (s: Session)
    requires IsRun(c, w, moves) && id !in w.sessions && id in After(c, w, moves).sessions
    ensures Fresh(s) && CanRun(c.polarity, s, OwnEvents(moves, id))
    ensures After(c, w, moves).sessions[id] == RunOf(c.polarity, s, OwnEvents(moves, id))
    decreases |moves|
  {
    var w' := Next(c, w, moves[0]);
    assert OwnEvents(moves, id) == OwnEvents(moves[1..], id);
    if moves[0].Accept? && moves[0].id == id {
      s := moves[0].session;
      OthersDoNotInterfere(c, w', moves[1..], id);
    } else {
      s := EverySessionHasItsRun(c, w', moves[1..], id);
    }
  }

  /**
   Sessions of two servers that read the same bytes answer the same bytes, under
   every interleaving with other sessions, as long as their messages
   were handled as meant.
  */
  lemma RepliesFollowFromOwnBytes(c: Config, moves: seq<Move>, id: nat, c': Config, moves': seq<Move>, id': nat)
    requires IsRun(c, INITIAL, moves) && id in After(c, INITIAL, moves).sessions
    requires IsRun(c', INITIAL, moves') && id' in After(c', INITIAL, moves').sessions
    requires c.polarity == c'.polarity == Negated
    requires Legible(After(c, INITIAL, moves).sessions[id]) && Legible(After(c', INITIAL, moves').sessions[id'])
    requires BytesRead(OwnEvents(moves, id)) == BytesRead(OwnEvents(moves', id'))
    ensures After(c, INITIAL, moves).sessions[id].sent == After(c', INITIAL, moves').sessions[id'].sent
    ensures After(c, INITIAL, moves).sessions[id].channelId == After(c', INITIAL, moves').sessions[id'].channelId
  {
    var s := EverySessionHasItsRun(c, INITIAL, moves, id);
    var s' := EverySessionHasItsRun(c', INITIAL, moves', id');
    SameBytesSameReplies(s, OwnEvents(moves, id), s', OwnEvents(moves', id'));
  }

  /**
   Every reply that any run has produced is accepted by a receiver, and its channel
   id lookup yields the last id that the session's own setup and PCM messages, up to
   the one that the reply answers, had given it, or 0.
  */
  lemma EveryReplyIsAccepted(c: Config, moves: seq<Move>, id: nat, k: nat, buffer: seq<byte>, tail: seq<byte>)
      returns (n: nat)
    requires IsRun(c, INITIAL, moves) && id in After(c, INITIAL, moves).sessions
    requires k < |After(c, INITIAL, moves).sessions[id].sent|
    requires |buffer| >= INPUT_EXTENT && |tail| >= PHANTOM_EXTENT
    requires After(c, INITIAL, moves).sessions[id].sent[k] <= buffer
    ensures AllGood(c, After(c, INITIAL, moves))
    ensures YieldsIdAfter(c.polarity, After(c, INITIAL, moves).sessions[id].received, n, k, buffer, tail)
  {
    InitialIsGood(c);
    RunsKeepAllGood(c, INITIAL, moves);
    var s := EverySessionHasItsRun(c, INITIAL, moves, id);
    n := RepliesAreAccepted(c.polarity, s, OwnEvents(moves, id), k, buffer, tail);
  }

  /** What every session of every run has said, byte by byte, in both readings of the tests. */
  lemma EverySessionAnswers(c: Config, moves: seq<Move>, id: nat)
    requires IsRun(c, INITIAL, moves) && id in After(c, INITIAL, moves).sessions
    ensures AllGood(c, After(c, INITIAL, moves))
    ensures var s := After(c, INITIAL, moves).sessions[id];
            Conversation(s.channelId, s.sent) == Answers(c.polarity, s.received)
  {
    InitialIsGood(c);
    RunsKeepAllGood(c, INITIAL, moves);
    ConversationIsAnswers(c.polarity, After(c, INITIAL, moves).sessions[id].received);
  }

  // ---- Whose samples the FIFO gets ----

  datatype Addition = Addition(id: nat, samples: seq<Sample>)

  /** The blocks a run adds, with the sessions they come from. */
  ghost function Additions(c: Config, w: World, moves: seq<Move>): seq<Addition>
    requires IsRun(c, w, moves)
    decreases |moves|
  {
    if moves == [] then []
    else AdditionOf(c, w, moves[0]) + Additions(c, Next(c, w, moves[0]), moves[1..])
  }

  ghost function AdditionOf(c: Config, w: World, move: Move): seq<Addition>
    requires Possible(w, move)
  {
    match move
    case Accept(_, _) => []
    case Complete(id, e) => [Addition(id, SamplesOfEvent(c.polarity, w.sessions[id], e))]
  }

  function Everyones(adds: seq<Addition>): seq<Sample> {
    if adds == [] then [] else adds[0].samples + Everyones(adds[1..])
  }

  function OnlyOf(adds: seq<Addition>, id: nat): seq<Sample> {
    if adds == [] then [] else (if adds[0].id == id then adds[0].samples else []) + OnlyOf(adds[1..], id)
  }

  lemma EveryonesStep(before: seq<Sample>, adds: seq<Addition>, rest: seq<Addition>)
    requires |adds| <= 1
    ensures before + Everyones(adds + rest) == (before + Everyones(adds)) + Everyones(rest)
  {
    if adds == [] {
      assert adds + rest == rest;
    } else {
      assert (adds + rest)[1..] == rest;
      assert adds[1..] == [];
    }
  }

  lemma OnlyOfStep(before: seq<Sample>, adds: seq<Addition>, rest: seq<Addition>, id: nat)
    requires |adds| <= 1
    ensures before + OnlyOf(adds + rest, id) == (before + OnlyOf(adds, id)) + OnlyOf(rest, id)
  {
    if adds == [] {
      assert adds + rest == rest;
    } else {
      assert (adds + rest)[1..] == rest;
      assert adds[1..] == [];
    }
  }

  lemma One(add: Addition, id: nat)
    ensures Everyones([add]) == add.samples
    ensures OnlyOf([add], id) == if add.id == id then add.samples else []
  {
    assert [add][1..] == [];
  }

  lemma AudioStepAdds(c: Config, s: Session, e: Event, p: Pipeline)
    requires Shaped(s) && Enabled(s, e) && Conserved(p, c.frameSize)
    ensures AudioStep(c.polarity, s, e, p, c.frameSize).added == p.added + SamplesOfEvent(c.polarity, s, e)
  {
    match e
    case BodyRead(ok, _, env) =>
      AudioAfterConserves(p, c.frameSize, IntakeOf(c.polarity, Delivered(s, e), ok, env), env);
    case _ =>
  }

  lemma MoveAdds(c: Config, w: World, move: Move)
    requires AllGood(c, w) && Possible(w, move)
    ensures Next(c, w, move).audio.added == w.audio.added + Everyones(AdditionOf(c, w, move))
  {
    if move.Complete? {
      One(AdditionOf(c, w, move)[0], move.id);
      AudioStepAdds(c, w.sessions[move.id], move.event, w.audio);
    }
  }

  /** What a session's messages contribute; a connection to come has contributed nothing. */
  ghost function ContributionOf(c: Config, w: World, id: nat): seq<Sample>
    requires AllGood(c, w)
  {
    if id in w.sessions then Contribution(c.polarity, w.sessions[id].received) else []
  }

  lemma OwnMoveContributes(c: Config, w: World, id: nat, e: Event)
    requires AllGood(c, w) && Possible(w, Complete(id, e)) && AllGood(c, Next(c, w, Complete(id, e)))
    ensures ContributionOf(c, Next(c, w, Complete(id, e)), id)
         == ContributionOf(c, w, id) + SamplesOfEvent(c.polarity, w.sessions[id], e)
  {
    assert Next(c, w, Complete(id, e)).sessions[id] == Step(c.polarity, w.sessions[id], e);
    StepContributes(c.polarity, w.sessions[id], e);
  }

  lemma OtherMoveContributes(c: Config, w: World, move: Move, id: nat)
    requires AllGood(c, w) && Possible(w, move)
    requires move.Complete? ==> move.id != id
    ensures AllGood(c, Next(c, w, move))
    ensures ContributionOf(c, Next(c, w, move), id) == ContributionOf(c, w, id)
  {
    MoveKeepsAllGood(c, w, move);
  }

  lemma MoveContributes(c: Config, w: World, move: Move, id: nat)
    requires AllGood(c, w) && Possible(w, move)
    ensures AllGood(c, Next(c, w, move))
    ensures ContributionOf(c, Next(c, w, move), id) == ContributionOf(c, w, id) + OnlyOf(AdditionOf(c, w, move), id)
  {
    MoveKeepsAllGood(c, w, move);
    if move.Complete? {
      One(AdditionOf(c, w, move)[0], id);
    }
    if move.Complete? && move.id == id {
      OwnMoveContributes(c, w, id, move.event);
    } else {
      OtherMoveContributes(c, w, move, id);
    }
  }

  lemma {:induction false} RunsAdd(c: Config, w: World, moves: seq<Move>)
    requires AllGood(c, w) && IsRun(c, w, moves)
    ensures After(c, w, moves).audio.added == w.audio.added + Everyones(Additions(c, w, moves))
    decreases |moves|
  {
    if moves != [] {
      var w' := Next(c, w, moves[0]);
      MoveKeepsAllGood(c, w, moves[0]);
      MoveAdds(c, w, moves[0]);
      RunsAdd(c, w', moves[1..]);
      EveryonesStep(w.audio.added, AdditionOf(c, w, moves[0]), Additions(c, w', moves[1..]));
    }
  }

  lemma {:induction false} RunsContribute(c: Config, w: World, moves: seq<Move>, id: nat)
    requires AllGood(c, w) && IsRun(c, w, moves) && AllGood(c, After(c, w, moves))
    ensures ContributionOf(c, After(c, w, moves), id) == ContributionOf(c, w, id) + OnlyOf(Additions(c, w, moves), id)
    decreases |moves|
  {
    if moves != [] {
      var w' := Next(c, w, moves[0]);
      MoveKeepsAllGood(c, w, moves[0]);
      MoveContributes(c, w, moves[0], id);
      RunsContribute(c, w', moves[1..], id);
      OnlyOfStep(ContributionOf(c, w, id), AdditionOf(c, w, moves[0]), Additions(c, w', moves[1..]), id);
    }
  }

  /**
   The sample stream of a run is an interleaving, block by block, of what each
   session's own messages contribute: nothing is added by no one, and no session's
   samples are lost, doubled or reordered.
  */
  lemma SamplesAreTheSessions(c: Config, moves: seq<Move>, id: nat)
    requires IsRun(c, INITIAL, moves)
    ensures AllGood(c, After(c, INITIAL, moves))
    ensures After(c, INITIAL, moves).audio.added == Everyones(Additions(c, INITIAL, moves))
    ensures OnlyOf(Additions(c, INITIAL, moves), id) == ContributionOf(c, After(c, INITIAL, moves), id)
  {
    InitialIsGood(c);
    RunsAdd(c, INITIAL, moves);
    RunsKeepAllGood(c, INITIAL, moves);
    RunsContribute(c, INITIAL, moves, id);
  }

  /** And byte for byte: the fronts of the blocks that the session was sent. */
  lemma BytesAreTheSessions(c: Config, moves: seq<Move>, id: nat)
    requires IsRun(c, INITIAL, moves) && id in After(c, INITIAL, moves).sessions
    ensures AllGood(c, After(c, INITIAL, moves))
    ensures Flatten(BytesOfSample, OnlyOf(Additions(c, INITIAL, moves), id))
         == AllBytesTaken(c.polarity, After(c, INITIAL, moves).sessions[id].received)
  {
    SamplesAreTheSessions(c, moves, id);
    ContributionIsTheBytes(c.polarity, After(c, INITIAL, moves).sessions[id].received);
  }

  /** If its messages were handled as meant, a session's part of the stream follows from its messages alone. */
  lemma SamplesAreIntended(c: Config, moves: seq<Move>, id: nat)
    requires IsRun(c, INITIAL, moves) && id in After(c, INITIAL, moves).sessions && c.polarity == Negated
    requires Legible(After(c, INITIAL, moves).sessions[id])
    ensures OnlyOf(Additions(c, INITIAL, moves), id)
         == IntendedContribution(MessagesOf(After(c, INITIAL, moves).sessions[id].received))
  {
    SamplesAreTheSessions(c, moves, id);
    ContributionOfMessages(After(c, INITIAL, moves).sessions[id].received);
  }

  lemma {:induction false} NobodysIsEmpty(adds: seq<Addition>)
    requires forall id: nat :: OnlyOf(adds, id) == []
    ensures Everyones(adds) == []
  {
    if adds != [] {
      assert OnlyOf(adds, adds[0].id) == [];
      forall id: nat ensures OnlyOf(adds[1..], id) == [] {
        assert OnlyOf(adds, id) == [];
      }
      NobodysIsEmpty(adds[1..]);
    }
  }

  /** As the PCM handler's tests are written, no run of the server encodes anything that a client with an id has sent. */
  lemma NothingEncodedAsWritten(c: Config, moves: seq<Move>)
    requires IsRun(c, INITIAL, moves) && c.polarity == AsWritten
    requires forall id, k | id in After(c, INITIAL, moves).sessions
                            && 0 <= k < |After(c, INITIAL, moves).sessions[id].received| ::
               Identified(After(c, INITIAL, moves).sessions[id].received[k])
    ensures After(c, INITIAL, moves).audio.added == [] && After(c, INITIAL, moves).audio.frames == []
  {
    var w := After(c, INITIAL, moves);
    forall id: nat ensures OnlyOf(Additions(c, INITIAL, moves), id) == [] {
      SamplesAreTheSessions(c, moves, id);
      if id in w.sessions {
        NothingAddedAsWritten(w.sessions[id].received);
      }
    }
    SamplesAreTheSessions(c, moves, 0);
    NobodysIsEmpty(Additions(c, INITIAL, moves));
    NoSamplesNoFrames(w.audio, c.frameSize);
  }

  lemma NoSamplesNoFrames(p: Pipeline, frameSize: nat)
    requires frameSize > 0 && Conserved(p, frameSize) && p.added == []
    ensures p.frames == []
  {
    if p.frames != [] {
      CutBound(frameSize, |p.frames|);
    }
  }

  // ---- Frames do not depend on how the stream was cut up ----

  /** No block of the run is stored in part, and no frame is held up by the encoder or by memory. */
  predicate FramesEncode(moves: seq<Move>) {
    forall k | 0 <= k < |moves| :: EventEncodes(moves[k])
  }

  predicate EventEncodes(move: Move) {
    match move
    case Complete(_, BodyRead(_, _, env)) =>
      !env.storing.WroteOnly? && forall j | 0 <= j < |env.frames| :: env.frames[j] == Encoded
    case _ => true
  }

  lemma IntakeIsNoPart(c: Config, s: Session, e: Event)
    requires Shaped(s) && Enabled(s, e) && e.BodyRead? && !e.env.storing.WroteOnly?
    ensures !IntakeOf(c.polarity, Delivered(s, e), e.ok, e.env).Part?
  {
  }

  lemma MoveSettles(c: Config, w: World, move: Move)
    requires Possible(w, move) && EventEncodes(move) && Settled(w.audio, c.frameSize)
    ensures Settled(Next(c, w, move).audio, c.frameSize)
  {
    match move
    case Accept(_, _) =>
    case Complete(id, e) =>
      match e {
        case BodyRead(ok, _, env) =>
          var intake := IntakeOf(c.polarity, Delivered(w.sessions[id], e), ok, env);
          IntakeIsNoPart(c, w.sessions[id], e);
          SuccessSettles(Received(w.audio, intake), c.frameSize, env.frames);
        case _ =>
      }
  }

  lemma {:induction false} RunsSettle(c: Config, w: World, moves: seq<Move>)
    requires IsRun(c, w, moves) && FramesEncode(moves) && Settled(w.audio, c.frameSize)
    ensures Settled(After(c, w, moves).audio, c.frameSize)
    decreases |moves|
  {
    if moves != [] {
      assert EventEncodes(moves[0]);
      MoveSettles(c, w, moves[0]);
      RunsSettle(c, Next(c, w, moves[0]), moves[1..]);
    }
  }

  /** With the encoder keeping up, N samples have become max(0, (N - 1) / frameSize) frames, the canonical ones. */
  lemma FramesOfRun(c: Config, moves: seq<Move>)
    requires IsRun(c, INITIAL, moves) && FramesEncode(moves)
    ensures var p := After(c, INITIAL, moves).audio;
            && p == Canonical(p.added, c.frameSize)
            && |p.frames| == (if |p.added| == 0 then 0 else (|p.added| - 1) / c.frameSize)
  {
    InitialIsGood(c);
    RunsKeepAllGood(c, INITIAL, moves);
    RunsSettle(c, INITIAL, moves);
    SettledIsCanonical(After(c, INITIAL, moves).audio, c.frameSize);
  }

  /**
   Two runs that add the same samples emit the same frames with the same timestamps
   and have the same samples left, however the stream was split into blocks and
   sessions, and whatever else their sessions did.
  */
  lemma SameSamplesSameFrames(c: Config, moves: seq<Move>, c': Config, moves': seq<Move>)
    requires IsRun(c, INITIAL, moves) && FramesEncode(moves)
    requires IsRun(c', INITIAL, moves') && FramesEncode(moves')
    requires c.frameSize == c'.frameSize
    requires After(c, INITIAL, moves).audio.added == After(c', INITIAL, moves').audio.added
    ensures After(c, INITIAL, moves).audio == After(c', INITIAL, moves').audio
  {
    FramesOfRun(c, moves);
    FramesOfRun(c', moves');
  }
}
