/**
 Parameter lookups as functions of a parameter list and of the bytes that
 follow it in the message store.

 parse_message records the end of the body among the parameter positions
 (protocol.cpp:211), so the lookup loops read one header too many: whatever
 the store holds past the body. That header and its content are the phantom
 parameter below, and a lookup as coded is the intended lookup over the list
 with the phantom appended.
*/
module Lookups {
  import opened Bytes
  import opened Messages

  /** How much of the store past the body a phantom can span. */
  const PHANTOM_EXTENT := PARAMETER_HEAD_LENGTH + 0xffff

  /** The parameter that the bytes from an offset on read as. */
  function ParamAt(store: seq<byte>, at: nat): Param
    requires at + PHANTOM_EXTENT <= |store|
  {
    Parameter(TypeAt(store, at), store[at + PARAMETER_HEAD_LENGTH..at + PARAMETER_HEAD_LENGTH + LengthAt(store, at)])
  }

  /** The parameter the bytes past the body read as. */
  function Phantom(tail: seq<byte>): Param
    requires |tail| >= PHANTOM_EXTENT
  {
    ParamAt(tail, 0)
  }

  function Scanned(ps: seq<Param>, tail: seq<byte>): seq<Param>
    requires |tail| >= PHANTOM_EXTENT
  {
    ps + [Phantom(tail)]
  }

  predicate Oversized(p: Param) {
    |p.value| > MAX_PARAMETER_LENGTH
  }

  predicate NoneOversized(ps: seq<Param>) {
    forall k | 0 <= k < |ps| :: !Oversized(ps[k])
  }

  function Count(ps: seq<Param>, t: u16): nat {
    if ps == [] then 0 else (if ps[0].ptype == t then 1 else 0) + Count(ps[1..], t)
  }

  // ---- Contents ----

  /** The content of the index-th parameter of type t; an oversized parameter on the way stops the search. */
  function FindContent(ps: seq<Param>, t: u16, index: nat): Option<seq<byte>> {
    if ps == [] then None
    else if Oversized(ps[0]) then None
    else if ps[0].ptype != t then FindContent(ps[1..], t, index)
    else if index == 0 then Some(ps[0].value)
    else FindContent(ps[1..], t, index - 1)
  }

  /** One turn of the search loop. */
  lemma FindContentStep(ps: seq<Param>, k: nat, t: u16, index: nat)
    requires k < |ps|
    ensures FindContent(ps[k..], t, index)
         == if Oversized(ps[k]) then None
            else if ps[k].ptype != t then FindContent(ps[k + 1..], t, index)
            else if index == 0 then Some(ps[k].value)
            else FindContent(ps[k + 1..], t, index - 1)
  {
    assert ps[k..][0] == ps[k] && ps[k..][1..] == ps[k + 1..];
  }

  /** Parameter k is the index-th of type t. */
  ghost predicate IsIndexed(ps: seq<Param>, t: u16, index: nat, k: nat) {
    k < |ps| && ps[k].ptype == t && Count(ps[..k], t) == index
  }

  lemma IndexedStep(ps: seq<Param>, t: u16, index: nat, k: nat)
    requires 0 < k < |ps| && IsIndexed(ps, t, index, k)
    ensures ps[0].ptype == t ==> index > 0 && IsIndexed(ps[1..], t, index - 1, k - 1)
    ensures ps[0].ptype != t ==> IsIndexed(ps[1..], t, index, k - 1)
  {
    assert ps[..k][0] == ps[0] && ps[..k][1..] == ps[1..][..k - 1];
  }

  /** The index-th parameter of a type is found exactly when nothing up to it is oversized. */
  lemma {:induction false} FindContentIndexed(ps: seq<Param>, t: u16, index: nat, k: nat)
    requires IsIndexed(ps, t, index, k)
    ensures FindContent(ps, t, index)
         == if NoneOversized(ps[..k + 1]) then Some(ps[k].value) else None
  {
    var upTo := ps[..k + 1];
    if Oversized(ps[0]) {
      assert Oversized(upTo[0]);
    } else if k == 0 {
      assert ps[..0] == [];
    } else {
      IndexedStep(ps, t, index, k);
      var rest := ps[1..][..k];
      assert upTo == [ps[0]] + rest;
      assert NoneOversized(upTo) <==> NoneOversized(rest) by {
        if NoneOversized(rest) {
          forall j | 0 <= j < |upTo| ensures !Oversized(upTo[j]) {
            assert j > 0 ==> upTo[j] == rest[j - 1];
          }
        }
        if NoneOversized(upTo) {
          forall j | 0 <= j < |rest| ensures !Oversized(rest[j]) {
            assert rest[j] == upTo[j + 1];
          }
        }
      }
      FindContentIndexed(ps[1..], t, if ps[0].ptype == t then index - 1 else index, k - 1);
    }
  }

  /** If the list has too few parameters of the type, nothing is found. */
  lemma {:induction false} FindContentAbsent(ps: seq<Param>, t: u16, index: nat)
    requires Count(ps, t) <= index
    ensures FindContent(ps, t, index) == None
  {
    if ps != [] {
      FindContentAbsent(ps[1..], t, if ps[0].ptype == t && index > 0 then index - 1 else index);
    }
  }

  /** Exactly what one more scanned parameter can change. */
  lemma {:induction false} FindContentAppended(ps: seq<Param>, x: Param, t: u16, index: nat)
    ensures FindContent(ps + [x], t, index)
         == if FindContent(ps, t, index).Some? then FindContent(ps, t, index)
            else if NoneOversized(ps) && Count(ps, t) == index && x.ptype == t && !Oversized(x) then Some(x.value)
            else None
  {
    var all := ps + [x];
    if ps == [] {
      assert all[1..] == [];
    } else {
      assert all[0] == ps[0] && all[1..] == ps[1..] + [x];
      if !Oversized(ps[0]) && !(ps[0].ptype == t && index == 0) {
        assert NoneOversized(ps) <==> NoneOversized(ps[1..]) by {
          if NoneOversized(ps[1..]) {
            forall j | 0 <= j < |ps| ensures !Oversized(ps[j]) {
              assert j > 0 ==> ps[j] == ps[1..][j - 1];
            }
          }
        }
        FindContentAppended(ps[1..], x, t, if ps[0].ptype == t then index - 1 else index);
      }
    }
  }

  /** Lookup of content as coded, and as meant. */
  function ContentAsCoded(ps: seq<Param>, tail: seq<byte>, t: u16, index: nat): Option<seq<byte>>
    requires |tail| >= PHANTOM_EXTENT
  {
    FindContent(Scanned(ps, tail), t, index)
  }

  /** The code's lookup of content departs from the intended one exactly when it reaches a phantom that matches. */
  lemma ContentDeparts(ps: seq<Param>, tail: seq<byte>, t: u16, index: nat)
    requires |tail| >= PHANTOM_EXTENT
    ensures ContentAsCoded(ps, tail, t, index) != FindContent(ps, t, index)
       <==> (NoneOversized(ps) && Count(ps, t) == index
              && TypeAt(tail, 0) == t && LengthAt(tail, 0) <= MAX_PARAMETER_LENGTH)
  {
    FindContentAppended(ps, Phantom(tail), t, index);
    if Count(ps, t) <= index {
      FindContentAbsent(ps, t, index);
    }
  }

  // ---- Numbers ----

  /**
   The number read from the first parameter of type t. The declared length is
   ignored: the bytes after the header are read whether or not they belong to
   the parameter.
  */
  function NumberAsCoded(ps: seq<Param>, tail: seq<byte>, t: u16, width: nat): Option<nat>
    requires |tail| >= PARAMETER_HEAD_LENGTH + width
  {
    if ps == [] then
      if TypeAt(tail, 0) == t then Some(Value(tail[PARAMETER_HEAD_LENGTH..PARAMETER_HEAD_LENGTH + width])) else None
    else if ps[0].ptype == t then Some(Value((ps[0].value + EncodeParams(ps[1..]) + tail)[..width]))
    else NumberAsCoded(ps[1..], tail, t, width)
  }

  /** The number as meant: the first parameter of type t, if it holds one of that width. */
  function FindNumber(ps: seq<Param>, t: u16, width: nat): Option<nat> {
    if ps == [] then None
    else if ps[0].ptype != t then FindNumber(ps[1..], t, width)
    else if |ps[0].value| == width then Some(Value(ps[0].value))
    else None
  }

  /** A parameter of the right width is read as meant, whatever follows it. */
  lemma {:induction false} NumberPresent(ps: seq<Param>, tail: seq<byte>, t: u16, width: nat)
    requires |tail| >= PARAMETER_HEAD_LENGTH + width
    requires FindNumber(ps, t, width).Some?
    ensures NumberAsCoded(ps, tail, t, width) == FindNumber(ps, t, width)
  {
    if ps[0].ptype == t {
      assert (ps[0].value + EncodeParams(ps[1..]) + tail)[..width] == ps[0].value;
    } else {
      NumberPresent(ps[1..], tail, t, width);
    }
  }

  /** An absent type is found exactly when the stale bytes happen to carry it. */
  lemma {:induction false} NumberAbsent(ps: seq<Param>, tail: seq<byte>, t: u16, width: nat)
    requires |tail| >= PARAMETER_HEAD_LENGTH + width
    requires Count(ps, t) == 0
    ensures FindNumber(ps, t, width) == None
    ensures NumberAsCoded(ps, tail, t, width).Some? <==> TypeAt(tail, 0) == t
  {
    if ps != [] {
      NumberAbsent(ps[1..], tail, t, width);
    }
  }

  /** A present type is always found, if need be with bytes that are not its own. */
  lemma {:induction false} NumberFound(ps: seq<Param>, tail: seq<byte>, t: u16, width: nat)
    requires |tail| >= PARAMETER_HEAD_LENGTH + width
    ensures NumberAsCoded(ps, tail, t, width).Some? <==> Count(ps, t) > 0 || TypeAt(tail, 0) == t
  {
    if ps != [] {
      NumberFound(ps[1..], tail, t, width);
    }
  }

  /** The code's lookup of a number departs from the intended one exactly when it finds one where none is meant to be. */
  lemma NumberDeparts(ps: seq<Param>, tail: seq<byte>, t: u16, width: nat)
    requires |tail| >= PARAMETER_HEAD_LENGTH + width
    ensures NumberAsCoded(ps, tail, t, width) != FindNumber(ps, t, width)
       <==> FindNumber(ps, t, width) == None && (Count(ps, t) > 0 || TypeAt(tail, 0) == t)
  {
    NumberFound(ps, tail, t, width);
    if FindNumber(ps, t, width).Some? {
      NumberPresent(ps, tail, t, width);
    }
  }

  // ---- Where the buffer holds what the lists say ----

  lemma DropPrefix(all: seq<byte>, a: seq<byte>, b: seq<byte>, n: nat)
    requires all == a + b && n <= |b|
    ensures all[|a| + n..] == b[n..]
  {
  }

  /** The bytes from the k-th position on are the parameters from the k-th on. */
  lemma {:induction false} BytesFromPosition(ps: seq<Param>, tail: seq<byte>, base: nat, k: nat)
    requires k <= |ps|
    ensures base <= Positions(ps, base)[k] <= base + |EncodeParams(ps)|
    ensures (EncodeParams(ps) + tail)[Positions(ps, base)[k] - base..] == EncodeParams(ps[k..]) + tail
  {
    if k == 0 {
      assert ps[0..] == ps;
    } else {
      var next := base + PARAMETER_HEAD_LENGTH + |ps[0].value|;
      BytesFromPosition(ps[1..], tail, next, k - 1);
      assert ps[1..][k - 1..] == ps[k..];
      PositionsStep(ps, base, next);
      var at := Positions(ps[1..], next)[k - 1];
      assert Positions(ps, base)[k] == at;
      EncodeParamsFirst(ps, tail);
      DropPrefix(EncodeParams(ps) + tail, EncodeParam(ps[0]), EncodeParams(ps[1..]) + tail, at - next);
    }
  }

  /** These bytes start with a parameter. */
  ghost predicate LeadsWith(bytes: seq<byte>, p: Param) {
    && |bytes| >= PARAMETER_HEAD_LENGTH + |p.value|
    && TypeAt(bytes, 0) == p.ptype && LengthAt(bytes, 0) == |p.value|
    && bytes[PARAMETER_HEAD_LENGTH..PARAMETER_HEAD_LENGTH + |p.value|] == p.value
  }

  lemma EncodedLeads(ps: seq<Param>, tail: seq<byte>)
    requires ps != []
    ensures LeadsWith(EncodeParams(ps) + tail, ps[0])
  {
    EncodeParamsFirst(ps, tail);
    HeaderOfEncoded(ps[0], EncodeParams(ps[1..]) + tail);
  }

  /** The bytes from the k-th position on start with the k-th scanned parameter. */
  lemma ScannedLeads(ps: seq<Param>, tail: seq<byte>, k: nat)
    requires |tail| >= PHANTOM_EXTENT && k <= |ps|
    ensures LeadsWith(EncodeParams(ps[k..]) + tail, Scanned(ps, tail)[k])
  {
    if k < |ps| {
      EncodedLeads(ps[k..], tail);
    } else {
      assert EncodeParams(ps[k..]) + tail == tail;
    }
  }

  /** A scanned parameter of another type is passed over. */
  lemma NumberElsewhere(ps: seq<Param>, tail: seq<byte>, k: nat, t: u16, width: nat)
    requires |tail| >= PHANTOM_EXTENT && width <= 4 && k <= |ps|
    requires Scanned(ps, tail)[k].ptype != t
    ensures k < |ps| ==> NumberAsCoded(ps[k..], tail, t, width) == NumberAsCoded(ps[k + 1..], tail, t, width)
    ensures k == |ps| ==> NumberAsCoded(ps[k..], tail, t, width) == None
  {
    if k < |ps| {
      assert ps[k..][1..] == ps[k + 1..];
    }
  }
}
