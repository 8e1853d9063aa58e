/**
 The message format as values: parameters, messages, their bytes, and the
 parser's walk over a buffer.
*/
module Messages {
  import opened Bytes

  const MESSAGE_HEAD_LENGTH := 5
  const PARAMETER_HEAD_LENGTH := 4
  const MAX_MESSAGE_LENGTH := 16 * 1024
  const MAX_PARAMETER_LENGTH := 8 * 1024

  /** A parameter's length field has 16 bits. */
  datatype Parameter = Parameter(ptype: u16, value: seq<byte>)
  type Param = p: Parameter | |p.value| < 0x1_0000 witness Parameter(0, [])

  datatype Message = Message(version: byte, mtype: u16, params: seq<Param>)

  // ---- The bytes of a message ----

  function EncodeParam(p: Param): (s: seq<byte>)
    ensures |s| == PARAMETER_HEAD_LENGTH + |p.value|
  {
    Be16(p.ptype) + Be16(|p.value|) + p.value
  }

  function EncodeParams(ps: seq<Param>): seq<byte> {
    if ps == [] then [] else EncodeParam(ps[0]) + EncodeParams(ps[1..])
  }

  /** The body length fits the head's 16 bits. */
  predicate Encodable(m: Message) {
    |EncodeParams(m.params)| < 0x1_0000
  }

  function Head(m: Message): (s: seq<byte>)
    requires Encodable(m)
    ensures |s| == MESSAGE_HEAD_LENGTH
  {
    [m.version] + Be16(m.mtype) + Be16(|EncodeParams(m.params)|)
  }

  function Encode(m: Message): seq<byte>
    requires Encodable(m)
  {
    Head(m) + EncodeParams(m.params)
  }

  lemma EncodeParamsFirst(ps: seq<Param>, rest: seq<byte>)
    requires ps != []
    ensures EncodeParams(ps) + rest == EncodeParam(ps[0]) + (EncodeParams(ps[1..]) + rest)
  {
  }

  // ---- Reading a header out of a buffer ----

  function TypeAt(s: seq<byte>, i: nat): u16
    requires i + PARAMETER_HEAD_LENGTH <= |s|
  {
    U16(s[i..i + 2])
  }

  function LengthAt(s: seq<byte>, i: nat): u16
    requires i + PARAMETER_HEAD_LENGTH <= |s|
  {
    U16(s[i + 2..i + 4])
  }

  function VersionOf(s: seq<byte>): byte
    requires |s| >= MESSAGE_HEAD_LENGTH
  {
    s[0]
  }

  function TypeOf(s: seq<byte>): u16
    requires |s| >= MESSAGE_HEAD_LENGTH
  {
    U16(s[1..3])
  }

  function BodyLengthOf(s: seq<byte>): u16
    requires |s| >= MESSAGE_HEAD_LENGTH
  {
    U16(s[3..5])
  }

  // ---- The parser's language ----

  /** The parameters that tile s exactly, if some do. */
  function DecodeParams(s: seq<byte>): (r: Option<seq<Param>>)
  {
    if s == [] then Some([])
    else if |s| < PARAMETER_HEAD_LENGTH then None
    else
      var next := PARAMETER_HEAD_LENGTH + LengthAt(s, 0);
      if |s| < next then None
      else
        match DecodeParams(s[next..])
        case None => None
        case Some(rest) => Some([Parameter(TypeAt(s, 0), s[PARAMETER_HEAD_LENGTH..next])] + rest)
  }

  lemma HeaderOfEncoded(p: Param, rest: seq<byte>)
    ensures TypeAt(EncodeParam(p) + rest, 0) == p.ptype
    ensures LengthAt(EncodeParam(p) + rest, 0) == |p.value|
    ensures (EncodeParam(p) + rest)[PARAMETER_HEAD_LENGTH..PARAMETER_HEAD_LENGTH + |p.value|] == p.value
    ensures (EncodeParam(p) + rest)[PARAMETER_HEAD_LENGTH + |p.value|..] == rest
  {
    var s := EncodeParam(p) + rest;
    assert s[0..2] == Be16(p.ptype);
    assert s[2..4] == Be16(|p.value|);
  }

  /** Every parameter list is read back exactly as it was written. */
  lemma {:induction false} DecodeEncode(ps: seq<Param>)
    ensures DecodeParams(EncodeParams(ps)) == Some(ps)
  {
    if ps != [] {
      HeaderOfEncoded(ps[0], EncodeParams(ps[1..]));
      DecodeEncode(ps[1..]);
      assert ps == [ps[0]] + ps[1..];
    }
  }

  lemma EncodedHeader(s: seq<byte>)
    requires |s| >= PARAMETER_HEAD_LENGTH && |s| >= PARAMETER_HEAD_LENGTH + LengthAt(s, 0)
    ensures EncodeParam(Parameter(TypeAt(s, 0), s[PARAMETER_HEAD_LENGTH..PARAMETER_HEAD_LENGTH + LengthAt(s, 0)]))
         == s[..PARAMETER_HEAD_LENGTH + LengthAt(s, 0)]
  {
    assert Be16(TypeAt(s, 0)) == s[0..2];
    assert Be16(LengthAt(s, 0)) == s[2..4];
  }

  /** Whatever is read writes back to the bytes it was read from. */
  lemma {:induction false} EncodeDecode(s: seq<byte>)
    requires DecodeParams(s).Some?
    ensures EncodeParams(DecodeParams(s).value) == s
  {
    if s != [] {
      var next := PARAMETER_HEAD_LENGTH + LengthAt(s, 0);
      var rest := DecodeParams(s[next..]).value;
      var p := Parameter(TypeAt(s, 0), s[PARAMETER_HEAD_LENGTH..next]);
      EncodeDecode(s[next..]);
      EncodedHeader(s);
      assert ([p] + rest)[1..] == rest;
      assert s == s[..next] + s[next..];
    }
  }

  // ---- The walk over a buffer ----

  /** The offsets byte_count takes: one more after each header read, until the end is reached or passed. */
  function Walk(s: seq<byte>, end: nat, pos: nat): (r: seq<nat>)
    requires pos + PARAMETER_HEAD_LENGTH <= |s| && end + PARAMETER_HEAD_LENGTH <= |s| + 1
    ensures |r| > 0
    decreases if pos < end then end - pos else 0
  {
    var next := pos + PARAMETER_HEAD_LENGTH + LengthAt(s, pos);
    if end > next then [next] + Walk(s, end, next) else [next]
  }

  function Last<T>(s: seq<T>): T
    requires s != []
  {
    s[|s| - 1]
  }

  lemma LastOfRest<T>(x: T, s: seq<T>)
    requires s != []
    ensures Last([x] + s) == Last(s)
  {
  }

  /** Where the parameters start, followed by where they end. */
  function Positions(ps: seq<Param>, base: nat): (r: seq<nat>)
    ensures |r| == |ps| + 1 && r[0] == base
  {
    if ps == [] then [base]
    else [base] + Positions(ps[1..], base + PARAMETER_HEAD_LENGTH + |ps[0].value|)
  }

  lemma ReadInside(s: seq<byte>, pos: nat, end: nat)
    requires pos + PARAMETER_HEAD_LENGTH <= end <= |s|
    ensures TypeAt(s[pos..end], 0) == TypeAt(s, pos)
    ensures LengthAt(s[pos..end], 0) == LengthAt(s, pos)
  {
    var t := s[pos..end];
    assert t[0..2] == s[pos..pos + 2];
    assert t[2..4] == [t[2], t[3]] == s[pos + 2..pos + 4];
  }

  lemma ReadFrom(s: seq<byte>, at: nat, n: nat)
    requires at + PARAMETER_HEAD_LENGTH + n <= |s|
    ensures TypeAt(s[at..], 0) == TypeAt(s, at)
    ensures LengthAt(s[at..], 0) == LengthAt(s, at)
    ensures s[at..][PARAMETER_HEAD_LENGTH..PARAMETER_HEAD_LENGTH + n]
         == s[at + PARAMETER_HEAD_LENGTH..at + PARAMETER_HEAD_LENGTH + n]
  {
    assert s[at..] == s[at..|s|];
    ReadInside(s, at, |s|);
  }

  lemma DecodeStep(s: seq<byte>, pos: nat, next: nat, end: nat)
    requires pos + PARAMETER_HEAD_LENGTH <= next <= end <= |s|
    requires next == pos + PARAMETER_HEAD_LENGTH + LengthAt(s, pos)
    ensures DecodeParams(s[pos..end]).Some? <==> DecodeParams(s[next..end]).Some?
    ensures DecodeParams(s[pos..end]).Some? ==>
              var ps := DecodeParams(s[pos..end]).value;
              |ps| > 0 && ps[1..] == DecodeParams(s[next..end]).value && next == pos + 4 + |ps[0].value|
  {
    ReadInside(s, pos, end);
    assert s[pos..end][next - pos..] == s[next..end];
    var rest := DecodeParams(s[next..end]);
    if rest.Some? {
      assert DecodeParams(s[pos..end]).value[1..] == rest.value;
    }
  }

  lemma DecodeOverrun(s: seq<byte>, pos: nat, end: nat)
    requires pos < end <= |s| && pos + PARAMETER_HEAD_LENGTH <= |s|
    requires end < pos + PARAMETER_HEAD_LENGTH + LengthAt(s, pos)
    ensures DecodeParams(s[pos..end]).None?
  {
    if pos + PARAMETER_HEAD_LENGTH <= end {
      ReadInside(s, pos, end);
    }
  }

  /** The walk from pos stops on the end exactly when the bytes decode, and then lists the positions. */
  ghost predicate WalkIsDecoding(s: seq<byte>, end: nat, pos: nat)
    requires pos + PARAMETER_HEAD_LENGTH <= |s| && end + PARAMETER_HEAD_LENGTH <= |s| + 1
    requires pos <= end <= |s|
  {
    var r, decoded := Walk(s, end, pos), DecodeParams(s[pos..end]);
    && (Last(r) == end <==> decoded.Some?)
    && (decoded.Some? ==> [pos] + r == Positions(decoded.value, pos))
  }

  lemma WalkContinues(s: seq<byte>, end: nat, pos: nat, next: nat)
    requires pos + PARAMETER_HEAD_LENGTH <= |s| && end + PARAMETER_HEAD_LENGTH <= |s| + 1
    requires pos < next < end <= |s| && next == pos + PARAMETER_HEAD_LENGTH + LengthAt(s, pos)
    requires WalkIsDecoding(s, end, next)
    ensures WalkIsDecoding(s, end, pos)
  {
    DecodeStep(s, pos, next, end);
    var rest := Walk(s, end, next);
    assert Walk(s, end, pos) == [next] + rest;
    LastOfRest(next, rest);
    if DecodeParams(s[pos..end]).Some? {
      PositionsStep(DecodeParams(s[pos..end]).value, pos, next);
    }
  }

  lemma PositionsStep(ps: seq<Param>, pos: nat, next: nat)
    requires ps != [] && next == pos + PARAMETER_HEAD_LENGTH + |ps[0].value|
    ensures Positions(ps, pos) == [pos] + Positions(ps[1..], next)
  {
  }

  lemma WalkStops(s: seq<byte>, end: nat, pos: nat)
    requires pos + PARAMETER_HEAD_LENGTH <= |s| && end + PARAMETER_HEAD_LENGTH <= |s| + 1
    requires pos < end <= |s| && end == pos + PARAMETER_HEAD_LENGTH + LengthAt(s, pos)
    ensures WalkIsDecoding(s, end, pos)
  {
    DecodeStep(s, pos, end, end);
    assert s[end..end] == [];
    var ps := DecodeParams(s[pos..end]).value;
    assert Positions(ps, pos) == [pos] + Positions(ps[1..], end);
  }

  lemma {:induction false} WalkDecodes(s: seq<byte>, end: nat, pos: nat)
    requires pos + PARAMETER_HEAD_LENGTH <= |s| && end + PARAMETER_HEAD_LENGTH <= |s| + 1
    requires pos < end <= |s|
    ensures WalkIsDecoding(s, end, pos)
    decreases end - pos
  {
    var next := pos + PARAMETER_HEAD_LENGTH + LengthAt(s, pos);
    if next < end {
      WalkDecodes(s, end, next);
      WalkContinues(s, end, pos, next);
    } else if next == end {
      WalkStops(s, end, pos);
    } else {
      DecodeOverrun(s, pos, end);
    }
  }

  /** A walk that starts at or past the end never stops on it. */
  lemma WalkFromEnd(s: seq<byte>, end: nat, pos: nat)
    requires pos + PARAMETER_HEAD_LENGTH <= |s| && end + PARAMETER_HEAD_LENGTH <= |s| + 1
    requires end <= pos
    ensures Last(Walk(s, end, pos)) != end
  {
  }

  lemma {:induction false} PositionsGrow(ps: seq<Param>, base: nat)
    ensures Last(Positions(ps, base)) == base + |EncodeParams(ps)|
    ensures forall k | 0 <= k < |ps| :: Positions(ps, base)[k + 1]
                                      == Positions(ps, base)[k] + PARAMETER_HEAD_LENGTH + |ps[k].value|
    ensures PARAMETER_HEAD_LENGTH * |ps| <= |EncodeParams(ps)|
  {
    if ps != [] {
      var next := base + PARAMETER_HEAD_LENGTH + |ps[0].value|;
      PositionsGrow(ps[1..], next);
      var r := Positions(ps[1..], next);
      assert Positions(ps, base) == [base] + r;
      forall k | 0 <= k < |ps|
        ensures Positions(ps, base)[k + 1] == Positions(ps, base)[k] + PARAMETER_HEAD_LENGTH + |ps[k].value|
      {
        if k > 0 {
          assert r[k] == r[k - 1] + PARAMETER_HEAD_LENGTH + |ps[1..][k - 1].value|;
        }
      }
    }
  }
}
