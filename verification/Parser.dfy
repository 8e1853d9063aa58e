/** The parsing half of protocol.cpp: CommonMessage and its lookups. */
module Parser {
  import opened Bytes
  import opened Messages
  import opened Lookups

  /** The largest index a header read during the walk can reach, plus one. */
  const INPUT_EXTENT := MAX_MESSAGE_LENGTH + PARAMETER_HEAD_LENGTH

  /** No walk, accepted or not, records a position past this. */
  const POSITION_LIMIT := INPUT_EXTENT + 0xffff

  /** message_data_ and the memory a lookup can touch past it. */
  const STORE_EXTENT := POSITION_LIMIT + PHANTOM_EXTENT

  datatype MessageState = MessageState(
    version: byte, mtype: u16, bodyLength: u16, positions: seq<nat>, store: seq<byte>)

  predicate BodyFits(bodyLength: u16) {
    bodyLength < MAX_MESSAGE_LENGTH - MESSAGE_HEAD_LENGTH
  }

  /** The offset one past the body. */
  function EndOf(message: seq<byte>): nat
    requires |message| >= MESSAGE_HEAD_LENGTH
  {
    MESSAGE_HEAD_LENGTH + BodyLengthOf(message)
  }

  function WalkOf(message: seq<byte>): (r: seq<nat>)
    requires |message| >= INPUT_EXTENT && BodyFits(BodyLengthOf(message))
    ensures |r| > 0
  {
    Walk(message, EndOf(message), MESSAGE_HEAD_LENGTH)
  }

  /** parse_message's verdict on a buffer. */
  predicate Accepted(message: seq<byte>)
    requires |message| >= INPUT_EXTENT
  {
    BodyFits(BodyLengthOf(message)) && Last(WalkOf(message)) == EndOf(message)
  }

  /** What parse_message_head leaves behind. */
  function HeadParsed(st: MessageState, head: seq<byte>): MessageState
    requires |head| >= MESSAGE_HEAD_LENGTH
  {
    st.(version := VersionOf(head), mtype := TypeOf(head), bodyLength := BodyLengthOf(head))
  }

  /**
   What parse_message leaves behind. A body that is too long leaves the old
   positions; a body that is not tiled leaves the new ones, but the old store.
  */
  function Parsed(st: MessageState, message: seq<byte>): MessageState
    requires |message| >= INPUT_EXTENT && |st.store| == STORE_EXTENT
  {
    var headed := HeadParsed(st, message);
    if !BodyFits(headed.bodyLength) then headed
    else
      var walked := headed.(positions := [MESSAGE_HEAD_LENGTH] + WalkOf(message));
      if Accepted(message) then
        walked.(store := message[..EndOf(message)] + st.store[EndOf(message)..])
      else walked
  }

  // ---- What an accepted message is ----

  /** The parameters of the body, if they tile it. */
  function BodyParams(message: seq<byte>): Option<seq<Param>>
    requires |message| >= MESSAGE_HEAD_LENGTH && EndOf(message) <= |message|
  {
    DecodeParams(message[MESSAGE_HEAD_LENGTH..EndOf(message)])
  }

  /**
   Exact acceptance: a nonempty body below the limit, tiled by parameters.
   The recorded positions are then those of the parameters and the end.
  */
  lemma AcceptedExactly(message: seq<byte>)
    requires |message| >= INPUT_EXTENT
    ensures Accepted(message)
       <==> (0 < BodyLengthOf(message) < MAX_MESSAGE_LENGTH - MESSAGE_HEAD_LENGTH && BodyParams(message).Some?)
    ensures Accepted(message) ==>
              [MESSAGE_HEAD_LENGTH] + WalkOf(message) == Positions(BodyParams(message).value, MESSAGE_HEAD_LENGTH)
  {
    if BodyFits(BodyLengthOf(message)) {
      if BodyLengthOf(message) == 0 {
        WalkFromEnd(message, EndOf(message), MESSAGE_HEAD_LENGTH);
      } else {
        WalkDecodes(message, EndOf(message), MESSAGE_HEAD_LENGTH);
      }
    }
  }

  /** Recorded positions start at 5, advance by at least 4, end at the body's end; at most body / 4 headers are read. */
  lemma AcceptedPositions(message: seq<byte>)
    requires |message| >= INPUT_EXTENT && Accepted(message)
    ensures var r := [MESSAGE_HEAD_LENGTH] + WalkOf(message);
            && r[0] == MESSAGE_HEAD_LENGTH && Last(r) == EndOf(message)
            && (forall k | 0 <= k < |r| - 1 :: r[k] + PARAMETER_HEAD_LENGTH <= r[k + 1])
            && 1 <= |WalkOf(message)| <= BodyLengthOf(message) / PARAMETER_HEAD_LENGTH
  {
    AcceptedExactly(message);
    var ps := BodyParams(message).value;
    PositionsGrow(ps, MESSAGE_HEAD_LENGTH);
    EncodeDecode(message[MESSAGE_HEAD_LENGTH..EndOf(message)]);
  }

  /**
   A chain of positions: each is a header and the length it states past the one
   before, only the last one reaches the end.
  */
  ghost predicate IsChain(message: seq<byte>, end: nat, r: seq<nat>) {
    && |r| >= 2 && Last(r) >= end
    && (forall k | 0 < k < |r| - 1 :: r[k] < end)
    && (forall k | 0 <= k < |r| - 1 :: r[k] + PARAMETER_HEAD_LENGTH <= |message|
                                      && r[k + 1] == r[k] + PARAMETER_HEAD_LENGTH + LengthAt(message, r[k]))
  }

  lemma {:induction false} WalkIsChain(s: seq<byte>, end: nat, pos: nat)
    requires pos + PARAMETER_HEAD_LENGTH <= |s| && end + PARAMETER_HEAD_LENGTH <= |s| + 1
    ensures IsChain(s, end, [pos] + Walk(s, end, pos))
    decreases if pos < end then end - pos else 0
  {
    var next := pos + PARAMETER_HEAD_LENGTH + LengthAt(s, pos);
    var r := [pos] + Walk(s, end, pos);
    if end > next {
      WalkIsChain(s, end, next);
      var rest := [next] + Walk(s, end, next);
      assert r == [pos] + rest;
      LastOfRest(pos, rest);
      forall k | 0 <= k < |r| - 1
        ensures r[k] + PARAMETER_HEAD_LENGTH <= |s| && r[k + 1] == r[k] + PARAMETER_HEAD_LENGTH + LengthAt(s, r[k])
      {
        if k > 0 {
          assert r[k] == rest[k - 1] && r[k + 1] == rest[k];
        }
      }
    }
  }

  /**
   What a parse that is refused leaves behind: the message stored before, and the
   head of the refused one; the old positions if its body is too long, otherwise
   those of a chain that starts at 5 and does not end on the end of the body.
  */
  lemma RefusedParse(st: MessageState, message: seq<byte>)
    requires |message| >= INPUT_EXTENT && |st.store| == STORE_EXTENT && !Accepted(message)
    ensures var after := Parsed(st, message);
            && after.store == st.store
            && (after.version, after.mtype, after.bodyLength) == (VersionOf(message), TypeOf(message), BodyLengthOf(message))
            && (!BodyFits(BodyLengthOf(message)) ==> after.positions == st.positions)
            && (BodyFits(BodyLengthOf(message)) ==>
                  && IsChain(message, EndOf(message), after.positions)
                  && after.positions[0] == MESSAGE_HEAD_LENGTH && Last(after.positions) != EndOf(message))
  {
    if BodyFits(BodyLengthOf(message)) {
      WalkIsChain(message, EndOf(message), MESSAGE_HEAD_LENGTH);
      LastOfRest(MESSAGE_HEAD_LENGTH, WalkOf(message));
    }
  }

  /** Bytes past the body decide nothing: buffers that agree up to there get one verdict and one walk. */
  lemma StaleBytesDecideNothing(a: seq<byte>, b: seq<byte>)
    requires |a| >= INPUT_EXTENT && |b| >= INPUT_EXTENT
    requires EndOf(a) <= |a| && EndOf(a) <= |b| && a[..EndOf(a)] == b[..EndOf(a)]
    ensures BodyLengthOf(b) == BodyLengthOf(a)
    ensures Accepted(a) <==> Accepted(b)
    ensures Accepted(a) ==> WalkOf(a) == WalkOf(b)
  {
    var end := EndOf(a);
    assert a[3..5] == a[..end][3..5] && b[3..5] == b[..end][3..5];
    assert a[MESSAGE_HEAD_LENGTH..end] == a[..end][MESSAGE_HEAD_LENGTH..];
    assert b[MESSAGE_HEAD_LENGTH..end] == b[..end][MESSAGE_HEAD_LENGTH..];
    AcceptedExactly(a);
    AcceptedExactly(b);
    if Accepted(a) {
      assert ([MESSAGE_HEAD_LENGTH] + WalkOf(a))[1..] == WalkOf(a);
      assert ([MESSAGE_HEAD_LENGTH] + WalkOf(b))[1..] == WalkOf(b);
    }
  }

  // ---- What lookups read in any state ----

  /** Every header that a lookup reads is inside the store: so it is in every state that parsing leads to. */
  ghost predicate InStore(st: MessageState) {
    |st.store| == STORE_EXTENT && forall k | 0 <= k < |st.positions| :: st.positions[k] <= POSITION_LIMIT
  }

  lemma {:induction false} WalkInStore(s: seq<byte>, end: nat, pos: nat)
    requires pos + PARAMETER_HEAD_LENGTH <= |s| && end + PARAMETER_HEAD_LENGTH <= |s| + 1
    requires pos <= MAX_MESSAGE_LENGTH && end <= MAX_MESSAGE_LENGTH
    ensures forall k | 0 <= k < |Walk(s, end, pos)| :: Walk(s, end, pos)[k] <= POSITION_LIMIT
    decreases if pos < end then end - pos else 0
  {
    var next := pos + PARAMETER_HEAD_LENGTH + LengthAt(s, pos);
    if end > next {
      WalkInStore(s, end, next);
    }
  }

  /** Also a parse that is refused leaves positions inside the store. */
  lemma ParsedInStore(st: MessageState, message: seq<byte>)
    requires |message| >= INPUT_EXTENT && InStore(st)
    ensures InStore(Parsed(st, message))
  {
    if BodyFits(BodyLengthOf(message)) {
      WalkInStore(message, EndOf(message), MESSAGE_HEAD_LENGTH);
    }
  }

  /** The store holds parameter p at an offset. */
  ghost predicate HoldsAt(store: seq<byte>, at: nat, p: Param) {
    && at + PARAMETER_HEAD_LENGTH + |p.value| <= |store|
    && TypeAt(store, at) == p.ptype && LengthAt(store, at) == |p.value|
    && store[at + PARAMETER_HEAD_LENGTH..at + PARAMETER_HEAD_LENGTH + |p.value|] == p.value
  }

  /** The store holds the k-th of these parameters at the k-th of these offsets. */
  ghost predicate HoldsAll(store: seq<byte>, positions: seq<nat>, ps: seq<Param>) {
    && |positions| == |ps|
    && forall k {:trigger HoldsAt(store, positions[k], ps[k])} | 0 <= k < |ps| :: HoldsAt(store, positions[k], ps[k])
  }

  /** What the content lookup runs over: whatever the store holds at the recorded positions. */
  ghost function SeenIn(st: MessageState): (ps: seq<Param>)
    requires InStore(st)
    ensures HoldsAll(st.store, st.positions, ps)
  {
    seq(|st.positions|, k requires 0 <= k < |st.positions| => ParamAt(st.store, st.positions[k]))
  }

  /** What the number lookups read: the bytes behind the first header of the type, whatever its length says. */
  function NumberSeen(store: seq<byte>, positions: seq<nat>, t: u16, width: nat): Option<nat>
    requires forall k | 0 <= k < |positions| :: positions[k] + PARAMETER_HEAD_LENGTH + width <= |store|
  {
    if positions == [] then None
    else if TypeAt(store, positions[0]) == t then
      Some(Value(store[positions[0] + PARAMETER_HEAD_LENGTH..positions[0] + PARAMETER_HEAD_LENGTH + width]))
    else NumberSeen(store, positions[1..], t, width)
  }

  lemma {:induction false} NumberSeenBound(store: seq<byte>, positions: seq<nat>, t: u16, width: nat)
    requires forall k | 0 <= k < |positions| :: positions[k] + PARAMETER_HEAD_LENGTH + width <= |store|
    ensures NumberSeen(store, positions, t, width).Some? ==> NumberSeen(store, positions, t, width).value < Pow256(width)
  {
    if positions != [] {
      if TypeAt(store, positions[0]) == t {
        ValueBound(store[positions[0] + PARAMETER_HEAD_LENGTH..positions[0] + PARAMETER_HEAD_LENGTH + width]);
      } else {
        NumberSeenBound(store, positions[1..], t, width);
      }
    }
  }

  // ---- The state after an accepted parse ----

  /** The state of a CommonMessage whose last parse was accepted. */
  ghost predicate Loaded(st: MessageState) {
    && |st.store| == STORE_EXTENT
    && BodyFits(st.bodyLength)
    && DecodeParams(st.store[MESSAGE_HEAD_LENGTH..MESSAGE_HEAD_LENGTH + st.bodyLength]).Some?
    && st.positions == Positions(ParamsIn(st), MESSAGE_HEAD_LENGTH)
  }

  function ParamsIn(st: MessageState): seq<Param>
    requires |st.store| == STORE_EXTENT && BodyFits(st.bodyLength)
    requires DecodeParams(st.store[MESSAGE_HEAD_LENGTH..MESSAGE_HEAD_LENGTH + st.bodyLength]).Some?
  {
    DecodeParams(st.store[MESSAGE_HEAD_LENGTH..MESSAGE_HEAD_LENGTH + st.bodyLength]).value
  }

  /** What the store holds past the body. */
  function TailIn(st: MessageState): (tail: seq<byte>)
    requires |st.store| == STORE_EXTENT && BodyFits(st.bodyLength)
    ensures |tail| >= PHANTOM_EXTENT
  {
    st.store[MESSAGE_HEAD_LENGTH + st.bodyLength..]
  }

  /** An accepted parse loads the message's own parameters and keeps the old bytes past them. */
  lemma ParsedLoads(st: MessageState, message: seq<byte>)
    requires |message| >= INPUT_EXTENT && |st.store| == STORE_EXTENT && Accepted(message)
    ensures var after := Parsed(st, message);
            && Loaded(after) && BodyParams(message) == Some(ParamsIn(after))
            && TailIn(after) == st.store[EndOf(message)..]
  {
    AcceptedExactly(message);
    var after := Parsed(st, message);
    var end := EndOf(message);
    assert after.store[MESSAGE_HEAD_LENGTH..end] == message[MESSAGE_HEAD_LENGTH..end];
    assert after.store[end..] == st.store[end..];
  }

  lemma StoreIsEncoding(st: MessageState)
    requires Loaded(st)
    ensures st.store[MESSAGE_HEAD_LENGTH..] == EncodeParams(ParamsIn(st)) + TailIn(st)
    ensures |EncodeParams(ParamsIn(st))| == st.bodyLength
  {
    EncodeDecode(st.store[MESSAGE_HEAD_LENGTH..MESSAGE_HEAD_LENGTH + st.bodyLength]);
  }

  lemma DropTwice(s: seq<byte>, from: nat, to: nat)
    requires from <= to <= |s|
    ensures s[to..] == s[from..][to - from..]
  {
  }

  lemma StoreFromPosition(st: MessageState, k: nat)
    requires Loaded(st) && k < |st.positions|
    ensures k <= |ParamsIn(st)|
    ensures MESSAGE_HEAD_LENGTH <= st.positions[k] <= MESSAGE_HEAD_LENGTH + st.bodyLength
    ensures st.store[st.positions[k]..] == EncodeParams(ParamsIn(st)[k..]) + TailIn(st)
  {
    var ps, tail := ParamsIn(st), TailIn(st);
    StoreIsEncoding(st);
    BytesFromPosition(ps, tail, MESSAGE_HEAD_LENGTH, k);
    DropTwice(st.store, MESSAGE_HEAD_LENGTH, st.positions[k]);
  }

  /** What the lookup loops run over: the message's parameters, then the phantom. */
  function ScannedIn(st: MessageState): seq<Param>
    requires |st.store| == STORE_EXTENT && BodyFits(st.bodyLength)
    requires DecodeParams(st.store[MESSAGE_HEAD_LENGTH..MESSAGE_HEAD_LENGTH + st.bodyLength]).Some?
  {
    Scanned(ParamsIn(st), TailIn(st))
  }

  lemma SeenAtPositions(st: MessageState)
    requires Loaded(st)
    ensures HoldsAll(st.store, st.positions, ScannedIn(st))
  {
    forall k | 0 <= k < |st.positions|
      ensures HoldsAt(st.store, st.positions[k], ScannedIn(st)[k])
    {
      SeenAtPosition(st, k);
    }
  }

  /** The header and content the loops see at the k-th recorded position. */
  lemma SeenAtPosition(st: MessageState, k: nat)
    requires Loaded(st) && k < |st.positions|
    ensures k < |ScannedIn(st)| && HoldsAt(st.store, st.positions[k], ScannedIn(st)[k])
  {
    var at := st.positions[k];
    StoreFromPosition(st, k);
    ScannedLeads(ParamsIn(st), TailIn(st), k);
    ReadFrom(st.store, at, |Scanned(ParamsIn(st), TailIn(st))[k].value|);
  }

  lemma NumberFromBytes(ps: seq<Param>, tail: seq<byte>, width: nat)
    requires |tail| >= PHANTOM_EXTENT && width <= 4
    ensures NumberAsCoded(ps, tail, TypeAt(EncodeParams(ps) + tail, 0), width)
         == Some(Value((EncodeParams(ps) + tail)[PARAMETER_HEAD_LENGTH..PARAMETER_HEAD_LENGTH + width]))
  {
    var rest := EncodeParams(ps) + tail;
    if ps == [] {
      assert rest == tail;
    } else {
      var after := ps[0].value + EncodeParams(ps[1..]) + tail;
      assert rest == EncodeParam(ps[0]) + (EncodeParams(ps[1..]) + tail);
      HeaderOfEncoded(ps[0], EncodeParams(ps[1..]) + tail);
      assert rest[PARAMETER_HEAD_LENGTH..] == after;
      assert rest[PARAMETER_HEAD_LENGTH..PARAMETER_HEAD_LENGTH + width] == after[..width];
    }
  }

  /** The number the loops read at the k-th recorded position, whatever its declared length. */
  lemma NumberSeenAtPosition(st: MessageState, k: nat, width: nat)
    requires Loaded(st) && k < |st.positions| && width <= 4
    ensures k <= |ParamsIn(st)| && st.positions[k] + PARAMETER_HEAD_LENGTH + width <= STORE_EXTENT
    ensures NumberAsCoded(ParamsIn(st)[k..], TailIn(st), TypeAt(st.store, st.positions[k]), width)
         == Some(Value(st.store[st.positions[k] + PARAMETER_HEAD_LENGTH..st.positions[k] + PARAMETER_HEAD_LENGTH + width]))
  {
    StoreFromPosition(st, k);
    NumberFromBytes(ParamsIn(st)[k..], TailIn(st), width);
    ReadFrom(st.store, st.positions[k], width);
  }

  /** After an accepted parse the lookups run over the message's parameters and the phantom. */
  lemma LoadedSees(st: MessageState)
    requires Loaded(st)
    ensures InStore(st) && SeenIn(st) == ScannedIn(st)
  {
    LoadedInStore(st);
    SeenAtPositions(st);
    forall k | 0 <= k < |st.positions|
      ensures SeenIn(st)[k] == ScannedIn(st)[k]
    {
      assert HoldsAt(st.store, st.positions[k], SeenIn(st)[k]) && HoldsAt(st.store, st.positions[k], ScannedIn(st)[k]);
    }
  }

  lemma LoadedInStore(st: MessageState)
    requires Loaded(st)
    ensures InStore(st)
  {
    forall k | 0 <= k < |st.positions| ensures st.positions[k] <= POSITION_LIMIT {
      StoreFromPosition(st, k);
    }
  }

  lemma {:induction false} NumberSeenFrom(st: MessageState, k: nat, t: u16, width: nat)
    requires Loaded(st) && InStore(st) && k < |st.positions| && width <= 4
    ensures k <= |ParamsIn(st)|
    ensures NumberSeen(st.store, st.positions[k..], t, width) == NumberAsCoded(ParamsIn(st)[k..], TailIn(st), t, width)
    decreases |st.positions| - k
  {
    var ps, tail, from := ParamsIn(st), TailIn(st), st.positions[k..];
    SeenAtPosition(st, k);
    NumberSeenAtPosition(st, k, width);
    assert from[0] == st.positions[k] && from[1..] == st.positions[k + 1..];
    if TypeAt(st.store, st.positions[k]) != t {
      NumberElsewhere(ps, tail, k, t, width);
      if k + 1 < |st.positions| {
        NumberSeenFrom(st, k + 1, t, width);
      }
    }
  }

  /** And the number lookups read what those hold. */
  lemma LoadedNumber(st: MessageState, t: u16, width: nat)
    requires Loaded(st) && width <= 4
    ensures InStore(st)
    ensures NumberSeen(st.store, st.positions, t, width) == NumberAsCoded(ParamsIn(st), TailIn(st), t, width)
  {
    LoadedInStore(st);
    NumberSeenFrom(st, 0, t, width);
    assert st.positions[0..] == st.positions && ParamsIn(st)[0..] == ParamsIn(st);
  }
}
