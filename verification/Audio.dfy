/**
 The shared sample FIFO and timestamp counter, and the loop that cuts the FIFO
 into frames for the encoder.

 The FIFO starts empty and the encoder's frame size is positive; the server
 leaves its FIFO pointer null and relies on the codec for the size. FFmpeg's
 calls are outcomes that the caller of the model chooses freely.
*/
module Audio {
  import opened Bytes
  import opened Folds

  /** One stereo sample: four bytes of interleaved 16-bit PCM. Format conversion maps samples one to one. */
  datatype Sample = Sample(b0: byte, b1: byte, b2: byte, b3: byte)

  datatype Frame = Frame(samples: seq<Sample>, pts: nat)

  /** How one turn of the frame loop ends: before the read, in the read, in the encoder, or well. */
  datatype FrameOutcome = NoFrame | NoRead | NotSent | Encoded

  /** How add_samples_to_fifo turns out: the FIFO cannot grow, or all samples or only some of them are written. */
  datatype Storing = NotGrown | WroteAll | WroteOnly(n: nat)

  /** What a block leaves in the FIFO; a part of a block is left when fewer samples were written than there are. */
  datatype Intake = Nothing | Part(samples: seq<Sample>) | Whole(samples: seq<Sample>)

  function Taken(storing: Storing, samples: seq<Sample>): Intake {
    match storing
    case NotGrown => Nothing
    case WroteAll => Whole(samples)
    case WroteOnly(n) => if n < |samples| then Part(samples[..n]) else Whole(samples)
  }

  /** The FIFO and the counter, with every sample added so far and every frame read out so far. */
  datatype Pipeline = Pipeline(fifo: seq<Sample>, pts: nat, frames: seq<Frame>, added: seq<Sample>)

  const EMPTY_PIPELINE := Pipeline([], 0, [], [])

  /** The first n samples of a block of PCM bytes. */
  function SamplesOf(data: seq<byte>, n: nat): (s: seq<Sample>)
    requires 4 * n <= |data|
    ensures |s| == n
  {
    seq(n, i requires 0 <= i < n => Sample(data[4 * i], data[4 * i + 1], data[4 * i + 2], data[4 * i + 3]))
  }

  function BytesOfSample(s: Sample): seq<byte> {
    [s.b0, s.b1, s.b2, s.b3]
  }

  /** The samples of a block are its bytes, four at a time and in their order. */
  lemma {:induction false} SamplesAreTheBytes(data: seq<byte>, n: nat)
    requires 4 * n <= |data|
    ensures Flatten(BytesOfSample, SamplesOf(data, n)) == data[..4 * n]
    decreases n
  {
    if n > 0 {
      var rest := data[4..];
      SamplesAreTheBytes(rest, n - 1);
      assert SamplesOf(data, n)[1..] == SamplesOf(rest, n - 1);
      assert data[..4 * n] == data[..4] + rest[..4 * (n - 1)];
    }
  }

  function Stored(p: Pipeline, samples: seq<Sample>): Pipeline {
    p.(fifo := p.fifo + samples, added := p.added + samples)
  }

  /** The samples of a block that got into the FIFO. */
  function Kept(intake: Intake): seq<Sample> {
    match intake
    case Nothing => []
    case Part(samples) => samples
    case Whole(samples) => samples
  }

  function Received(p: Pipeline, intake: Intake): Pipeline {
    if intake == Nothing then p else Stored(p, Kept(intake))
  }

  /**
   What got in is always the front of the block: none of it if the FIFO could not
   grow, otherwise as much as was written. The call succeeds if that is all of it.
  */
  lemma TakenIsTheFront(storing: Storing, samples: seq<Sample>)
    ensures Kept(Taken(storing, samples)) <= samples
    ensures |Kept(Taken(storing, samples))|
         == match storing
            case NotGrown => 0
            case WroteAll => |samples|
            case WroteOnly(n) => if n < |samples| then n else |samples|
    ensures Taken(storing, samples).Whole? <==> storing != NotGrown && Kept(Taken(storing, samples)) == samples
  {
  }

  /** One frame read out of the FIFO and stamped. */
  function FrameTaken(p: Pipeline, frameSize: nat): Pipeline
    requires frameSize <= |p.fifo|
  {
    Pipeline(p.fifo[frameSize..], p.pts + frameSize, p.frames + [Frame(p.fifo[..frameSize], p.pts)], p.added)
  }

  /** Outcomes past the end of the list are successes. */
  function NextOutcome(outcomes: seq<FrameOutcome>): FrameOutcome {
    if outcomes == [] then Encoded else outcomes[0]
  }

  function Later(outcomes: seq<FrameOutcome>): seq<FrameOutcome> {
    if outcomes == [] then [] else outcomes[1..]
  }

  /** The frame loop: strictly more than a frame must be there. */
  function Drained(p: Pipeline, frameSize: nat, outcomes: seq<FrameOutcome>): Pipeline
    requires frameSize > 0
    decreases |p.fifo|
  {
    if |p.fifo| <= frameSize then p
    else
      match NextOutcome(outcomes)
      case NoFrame => p
      case NoRead => p
      case NotSent => FrameTaken(p, frameSize)
      case Encoded => Drained(FrameTaken(p, frameSize), frameSize, Later(outcomes))
  }

  // ---- Frames as a function of the samples alone ----

  /** The first k frames of a sample stream. */
  function Cut(all: seq<Sample>, frameSize: nat, k: nat): (r: seq<Frame>)
    requires k * frameSize <= |all|
    ensures |r| == k
    decreases k
  {
    if k == 0 then [] else
      CutBound(frameSize, k);
      Cut(all, frameSize, k - 1) + [Frame(all[(k - 1) * frameSize..k * frameSize], (k - 1) * frameSize)]
  }

  lemma CutBound(frameSize: nat, k: nat)
    requires k > 0
    ensures (k - 1) * frameSize + frameSize == k * frameSize
    ensures 0 <= (k - 1) * frameSize <= k * frameSize
  {
  }

  lemma {:induction false} CutExtends(all: seq<Sample>, more: seq<Sample>, frameSize: nat, k: nat)
    requires k * frameSize <= |all|
    ensures Cut(all + more, frameSize, k) == Cut(all, frameSize, k)
    decreases k
  {
    if k > 0 {
      CutBound(frameSize, k);
      CutExtends(all, more, frameSize, k - 1);
      assert (all + more)[(k - 1) * frameSize..k * frameSize] == all[(k - 1) * frameSize..k * frameSize];
    }
  }

  function SamplesIn(frames: seq<Frame>): seq<Sample>
    decreases frames
  {
    if frames == [] then [] else SamplesIn(frames[..|frames| - 1]) + frames[|frames| - 1].samples
  }

  /**
   Nothing is lost, duplicated or reordered: the frames read out are the added
   stream cut into frames, the FIFO is what remains, and the counter has advanced
   by a frame for each of them. The FIFO is empty only before the first sample.
  */
  ghost predicate Conserved(p: Pipeline, frameSize: nat) {
    && p.pts == |p.frames| * frameSize <= |p.added|
    && p.frames == Cut(p.added, frameSize, |p.frames|)
    && p.fifo == p.added[p.pts..]
    && (p.added != [] ==> p.fifo != [])
  }

  lemma StoredConserves(p: Pipeline, frameSize: nat, samples: seq<Sample>)
    requires Conserved(p, frameSize)
    ensures Conserved(Stored(p, samples), frameSize)
  {
    CutExtends(p.added, samples, frameSize, |p.frames|);
    assert (p.added + samples)[p.pts..] == p.added[p.pts..] + samples;
  }

  lemma FrameTakenConserves(p: Pipeline, frameSize: nat)
    requires Conserved(p, frameSize) && frameSize < |p.fifo|
    ensures Conserved(FrameTaken(p, frameSize), frameSize)
  {
    CutBound(frameSize, |p.frames| + 1);
    assert p.fifo[..frameSize] == p.added[p.pts..p.pts + frameSize];
    assert p.fifo[frameSize..] == p.added[p.pts + frameSize..];
  }

  /** The frame loop conserves, however its calls turn out. */
  lemma {:induction false} DrainedConserves(p: Pipeline, frameSize: nat, outcomes: seq<FrameOutcome>)
    requires frameSize > 0 && Conserved(p, frameSize)
    ensures Conserved(Drained(p, frameSize, outcomes), frameSize)
    ensures Drained(p, frameSize, outcomes).added == p.added
    decreases |p.fifo|
  {
    if |p.fifo| > frameSize {
      FrameTakenConserves(p, frameSize);
      if NextOutcome(outcomes) == Encoded {
        DrainedConserves(FrameTaken(p, frameSize), frameSize, Later(outcomes));
      }
    }
  }

  lemma {:induction false} CutSamples(all: seq<Sample>, frameSize: nat, k: nat)
    requires k * frameSize <= |all|
    ensures SamplesIn(Cut(all, frameSize, k)) == all[..k * frameSize]
    decreases k
  {
    if k > 0 {
      CutBound(frameSize, k);
      CutSamples(all, frameSize, k - 1);
      var r := Cut(all, frameSize, k);
      assert r[..|r| - 1] == Cut(all, frameSize, k - 1);
      assert all[..k * frameSize] == all[..(k - 1) * frameSize] + all[(k - 1) * frameSize..k * frameSize];
    }
  }

  /** The frames' samples followed by the FIFO are the samples added, in order. */
  lemma ConservedSamples(p: Pipeline, frameSize: nat)
    requires Conserved(p, frameSize)
    ensures SamplesIn(p.frames) + p.fifo == p.added
  {
    CutSamples(p.added, frameSize, |p.frames|);
  }

  // ---- Independence from how the stream was cut into blocks ----

  function FrameCount(n: nat, frameSize: nat): nat
    requires frameSize > 0
  {
    if n == 0 then 0 else (n - 1) / frameSize
  }

  lemma FrameCountFits(n: nat, frameSize: nat)
    requires frameSize > 0
    ensures FrameCount(n, frameSize) * frameSize <= n
  {
    if n > 0 {
      DivisionBounds(n - 1, frameSize);
    }
  }

  lemma DivisionBounds(n: nat, d: nat)
    requires d > 0
    ensures n / d * d <= n < n / d * d + d
  {
  }

  lemma QuotientIs(n: nat, d: nat, q: nat)
    requires d > 0 && q * d <= n < q * d + d
    ensures n / d == q
  {
    DivisionBounds(n, d);
    var k := n / d;
    if k < q {
      ProductGap(k, q, d);
    } else if q < k {
      ProductGap(q, k, d);
    }
  }

  lemma ProductGap(a: nat, b: nat, d: nat)
    requires a < b
    ensures a * d + d <= b * d
  {
    assert b * d == (a + 1) * d + (b - a - 1) * d;
  }

  /** The pipeline after n frames of a sample stream. */
  function AfterFrames(all: seq<Sample>, frameSize: nat, n: nat): Pipeline
    requires n * frameSize <= |all|
  {
    Pipeline(all[n * frameSize..], n * frameSize, Cut(all, frameSize, n), all)
  }

  /** The pipeline a sample stream leads to when no call fails: a function of the stream alone. */
  function Canonical(all: seq<Sample>, frameSize: nat): Pipeline
    requires frameSize > 0
  {
    FrameCountFits(|all|, frameSize);
    AfterFrames(all, frameSize, FrameCount(|all|, frameSize))
  }

  /** At most one frame is waiting: the state in which a frame loop without failures ends. */
  predicate Settled(p: Pipeline, frameSize: nat) {
    |p.fifo| <= frameSize
  }

  lemma {:induction false} SuccessSettles(p: Pipeline, frameSize: nat, outcomes: seq<FrameOutcome>)
    requires frameSize > 0 && forall k | 0 <= k < |outcomes| :: outcomes[k] == Encoded
    ensures Settled(Drained(p, frameSize, outcomes), frameSize)
    decreases |p.fifo|
  {
    if |p.fifo| > frameSize {
      SuccessSettles(FrameTaken(p, frameSize), frameSize, Later(outcomes));
    }
  }

  /**
   A settled pipeline is the canonical one of its stream: frames and timestamps
   depend on the samples added and on nothing else, neither on how they came in
   blocks nor on failures that a later loop has caught up with.
  */
  lemma SettledIsCanonical(p: Pipeline, frameSize: nat)
    requires frameSize > 0 && Conserved(p, frameSize) && Settled(p, frameSize)
    ensures p == Canonical(p.added, frameSize)
  {
    if p.added != [] {
      QuotientIs(|p.added| - 1, frameSize, |p.frames|);
    } else {
      assert p.frames == [] by {
        if |p.frames| > 0 {
          CutBound(frameSize, |p.frames|);
        }
      }
    }
  }

  // ---- How far the loop gets ----

  function Min(a: nat, b: nat): nat {
    if a < b then a else b
  }

  /** The first outcome that is no success is the k-th. */
  ghost predicate FirstFailure(outcomes: seq<FrameOutcome>, k: nat) {
    k < |outcomes| && outcomes[k] != Encoded && forall j | 0 <= j < k :: outcomes[j] == Encoded
  }

  /** One frame less is there once one has been taken. */
  lemma FramesLeft(n: nat, frameSize: nat)
    requires 0 < frameSize < n
    ensures FrameCount(n, frameSize) == 1 + FrameCount(n - frameSize, frameSize)
  {
    var q := (n - frameSize - 1) / frameSize;
    DivisionBounds(n - frameSize - 1, frameSize);
    CutBound(frameSize, q + 1);
    QuotientIs(n - 1, frameSize, q + 1);
  }

  lemma NoFramesLeft(n: nat, frameSize: nat)
    requires n <= frameSize && frameSize > 0
    ensures FrameCount(n, frameSize) == 0
  {
    if n > 0 {
      QuotientIs(n - 1, frameSize, 0);
    }
  }

  /**
   The frames a loop reads out, for every way its calls turn out: all that are there
   up to the first failure, and the one more that the encoder refuses. A frame that
   could not be made or read is not taken.
  */
  lemma {:induction false} FramesUpToFailure(p: Pipeline, frameSize: nat, outcomes: seq<FrameOutcome>, k: nat)
    requires frameSize > 0 && FirstFailure(outcomes, k)
    ensures |Drained(p, frameSize, outcomes).frames|
         == |p.frames| + Min(FrameCount(|p.fifo|, frameSize), if outcomes[k] == NotSent then k + 1 else k)
    decreases k
  {
    if |p.fifo| <= frameSize {
      NoFramesLeft(|p.fifo|, frameSize);
    } else {
      FramesLeft(|p.fifo|, frameSize);
      if k > 0 {
        assert outcomes[0] == Encoded;
        FramesUpToFailure(FrameTaken(p, frameSize), frameSize, outcomes[1..], k - 1);
      }
    }
  }

  lemma {:induction false} FramesWithoutFailure(p: Pipeline, frameSize: nat, outcomes: seq<FrameOutcome>)
    requires frameSize > 0 && forall k | 0 <= k < |outcomes| :: outcomes[k] == Encoded
    ensures |Drained(p, frameSize, outcomes).frames| == |p.frames| + FrameCount(|p.fifo|, frameSize)
    decreases |p.fifo|
  {
    if |p.fifo| <= frameSize {
      NoFramesLeft(|p.fifo|, frameSize);
    } else {
      FramesLeft(|p.fifo|, frameSize);
      FramesWithoutFailure(FrameTaken(p, frameSize), frameSize, Later(outcomes));
    }
  }

  /** Every exit of the loop, exactly: the pipeline is the one after that many frames of the samples added. */
  lemma DrainedExactly(p: Pipeline, frameSize: nat, outcomes: seq<FrameOutcome>, k: nat, n: nat)
    requires frameSize > 0 && Conserved(p, frameSize) && FirstFailure(outcomes, k)
    requires n == |p.frames| + Min(FrameCount(|p.fifo|, frameSize), if outcomes[k] == NotSent then k + 1 else k)
    ensures n * frameSize <= |p.added| && Drained(p, frameSize, outcomes) == AfterFrames(p.added, frameSize, n)
  {
    FramesUpToFailure(p, frameSize, outcomes, k);
    DrainedConserves(p, frameSize, outcomes);
  }

  // ---- The object ----

  class SharedPipeline {
    var fifo: seq<Sample>
    var pts: nat
    const frameSize: nat
    ghost var frames: seq<Frame>
    ghost var added: seq<Sample>

    ghost predicate Valid() {
      frameSize > 0
    }

    ghost function View(): Pipeline
      reads this
    {
      Pipeline(fifo, pts, frames, added)
    }

    constructor (frameSize: nat)
      requires frameSize > 0
      ensures Valid() && this.frameSize == frameSize && View() == EMPTY_PIPELINE
    {
      this.frameSize := frameSize;
      fifo, pts := [], 0;
      frames, added := [], [];
    }

    /** add_samples_to_fifo: it fails if the FIFO cannot grow, and if fewer samples are written than there are. */
    method AddSamples(samples: seq<Sample>, storing: Storing) returns (ok: bool)
      modifies this
      ensures View() == Received(old(View()), Taken(storing, samples))
      ensures ok == Taken(storing, samples).Whole?
    {
      if storing == NotGrown {
        return false;
      }
      var written := if storing.WroteOnly? && storing.n < |samples| then storing.n else |samples|;
      assert written == |samples| ==> samples[..written] == samples;
      fifo := fifo + samples[..written];
      added := added + samples[..written];
      return written >= |samples|;
    }

    /** The frame loop of process_pcm_data_send_request. */
    method Drain(outcomes: seq<FrameOutcome>)
      requires Valid()
      modifies this
      ensures View() == Drained(old(View()), frameSize, outcomes)
    {
      ghost var was := View();
      var turn := 0;
      while |fifo| > frameSize
        invariant turn <= |outcomes|
        invariant Drained(was, frameSize, outcomes) == Drained(View(), frameSize, outcomes[turn..])
        decreases |fifo|
      {
        var outcome := if turn < |outcomes| then outcomes[turn] else Encoded;
        if outcome == NoFrame {
          break;
        }
        if outcome == NoRead {
          break;
        }
        var samples := fifo[..frameSize];
        fifo := fifo[frameSize..];
        frames := frames + [Frame(samples, pts)];
        pts := pts + frameSize;
        if outcome == NotSent {
          return;
        }
        turn := if turn < |outcomes| then turn + 1 else turn;
      }
    }
  }
}
