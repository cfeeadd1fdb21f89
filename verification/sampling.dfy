/**
 Uniform frame sampling: the schedule `frames_extraction` follows to pick
 SequenceLength frames spread evenly over a video.

 The video reader is abstracted as a `Video`: the frames it can decode and the
 frame count it reports. A read at position p succeeds exactly when
 p < |frames|; the reported count is what the schedule is computed from.
 */
module Sampling {
  import opened Config

  datatype Video<F> = Video(frames: seq<F>, reportedCount: int)

  /** The reader reports exactly as many frames as it can decode. */
  predicate Honest<F>(v: Video<F>) {
    v.reportedCount == |v.frames|
  }

  /** Python's `int(a / b)` for b > 0: true division truncated toward zero. */
  function TruncDiv(a: int, b: int): (q: int)
    requires b > 0
    ensures a >= 0 ==> 0 <= q && q * b <= a < q * b + b
    ensures a < 0 ==> q <= 0 && q * b - b < a <= q * b
  {
    if a >= 0 then DivBounds(a, b); a / b
    else
      var m := (-a) / b;
      DivBounds(-a, b);
      NegMul(m, b);
      -m
  }

  /** Euclidean division of a natural number brackets it between consecutive multiples. */
  lemma DivBounds(n: nat, b: int)
    requires b > 0
    ensures 0 <= n / b && (n / b) * b <= n < (n / b) * b + b
  {
    var q, r := n / b, n % b;
    assert n == b * q + r && 0 <= r < b;
    assert b * q == q * b;
  }

  lemma NegMul(m: int, b: int)
    ensures (-m) * b == -(m * b)
  {
  }

  /** The sampling interval `max(int(count / SequenceLength), 1)`. */
  function Stride(count: int): (s: nat)
    ensures s >= 1
    ensures count < 2 * SequenceLength ==> s == 1
    ensures count >= SequenceLength ==> s * SequenceLength <= count < s * SequenceLength + SequenceLength
  {
    var q := TruncDiv(count, SequenceLength);
    if q > 1 then q else 1
  }

  /** The positions visited: one per sequence slot, starting at 0, `stride` apart. */
  function Schedule(stride: nat): (ps: seq<nat>)
    ensures |ps| == SequenceLength
    ensures ps[0] == 0
    ensures forall i :: 0 <= i < |ps| - 1 ==> ps[i + 1] == ps[i] + stride
  {
    seq(SequenceLength, i requires 0 <= i => i * stride)
  }

  ghost predicate StrictlyIncreasing(ps: seq<nat>) {
    forall i, j :: 0 <= i < j < |ps| ==> ps[i] < ps[j]
  }

  /** With a positive stride the schedule never visits a position twice. */
  lemma {:induction false} ScheduleIncreasing(stride: nat)
    requires stride >= 1
    ensures StrictlyIncreasing(Schedule(stride))
  {
    var ps := Schedule(stride);
    forall i, j | 0 <= i < j < |ps|
      ensures ps[i] < ps[j]
    {
      StepsIncrease(ps, stride, i, j);
    }
  }

  lemma {:induction false} StepsIncrease(ps: seq<nat>, stride: nat, i: nat, j: nat)
    requires stride >= 1
    requires forall k :: 0 <= k < |ps| - 1 ==> ps[k + 1] == ps[k] + stride
    requires i < j < |ps|
    ensures ps[i] < ps[j]
    decreases j - i
  {
    if i + 1 < j {
      StepsIncrease(ps, stride, i + 1, j);
    }
  }

  /**
   Read the positions `ps` in order, keeping each decoded frame, and stop at
   the first read that fails.
   */
  function ReadUntilFailure<F>(frames: seq<F>, ps: seq<nat>): (r: seq<F>)
    ensures |r| <= |ps|
    ensures forall j :: 0 <= j < |r| ==> ps[j] < |frames| && r[j] == frames[ps[j]]
    ensures |r| < |ps| ==> ps[|r|] >= |frames|
  {
    if |ps| == 0 || ps[0] >= |frames| then []
    else [frames[ps[0]]] + ReadUntilFailure(frames, ps[1..])
  }

  /** `frames_extraction`: the frames read along the schedule of the reported count. */
  function FramesExtraction<F>(v: Video<F>): (r: seq<F>)
    ensures |r| <= SequenceLength
    ensures forall j :: 0 <= j < |r| ==>
      Schedule(Stride(v.reportedCount))[j] < |v.frames| &&
      r[j] == v.frames[Schedule(Stride(v.reportedCount))[j]]
    ensures |r| < SequenceLength ==> Schedule(Stride(v.reportedCount))[|r|] >= |v.frames|
  {
    ReadUntilFailure(v.frames, Schedule(Stride(v.reportedCount)))
  }

  /**
   A slot of the schedule yields a frame exactly when its position can be read:
   since positions increase, the reads that succeed form a prefix.
   */
  lemma {:induction false} ExtractedSlotIff<F>(v: Video<F>, j: nat)
    requires j < SequenceLength
    ensures j < |FramesExtraction(v)| <==> Schedule(Stride(v.reportedCount))[j] < |v.frames|
  {
    var ps := Schedule(Stride(v.reportedCount));
    var r := FramesExtraction(v);
    ScheduleIncreasing(Stride(v.reportedCount));
    if j >= |r| {
      assert ps[|r|] >= |v.frames|;
      if j > |r| {
        assert ps[|r|] < ps[j];
      }
    }
  }

  /** The largest sampled slot, (SequenceLength - 1) * stride, is below any count of at least SequenceLength. */
  lemma {:induction false} LastPositionInRange(n: int)
    requires n >= SequenceLength
    ensures (SequenceLength - 1) * Stride(n) < n
  {
    var s := Stride(n);
    assert s * SequenceLength <= n;
    assert (SequenceLength - 1) * s == s * SequenceLength - s;
  }

  /** A clip of at least SequenceLength frames always yields a full sequence. */
  lemma {:induction false} LongClipYieldsFullSequence<F>(v: Video<F>)
    requires Honest(v)
    requires |v.frames| >= SequenceLength
    ensures forall j :: 0 <= j < SequenceLength ==> Schedule(Stride(v.reportedCount))[j] < |v.frames|
    ensures |FramesExtraction(v)| == SequenceLength
  {
    var ps := Schedule(Stride(v.reportedCount));
    var r := FramesExtraction(v);
    LastPositionInRange(v.reportedCount);
    assert ps[SequenceLength - 1] == (SequenceLength - 1) * Stride(v.reportedCount);
    ExtractedSlotIff(v, SequenceLength - 1);
    forall j | 0 <= j < SequenceLength
      ensures ps[j] < |v.frames|
    {
      ExtractedSlotIff(v, j);
    }
  }

  /** A clip shorter than SequenceLength is read whole, one frame after another. */
  lemma {:induction false} ShortClipYieldsWholeVideo<F>(v: Video<F>)
    requires Honest(v)
    requires |v.frames| < SequenceLength
    ensures Stride(v.reportedCount) == 1
    ensures FramesExtraction(v) == v.frames
  {
    var ps := Schedule(1);
    var r := FramesExtraction(v);
    assert forall j :: 0 <= j < |ps| ==> ps[j] == j;
    if |r| < SequenceLength {
      assert |r| >= |v.frames| by { assert ps[|r|] == |r|; }
    }
    if |r| > 0 {
      assert |r| <= |v.frames| by { assert ps[|r| - 1] == |r| - 1; }
    }
    forall j | 0 <= j < |r|
      ensures r[j] == v.frames[j]
    {
      assert ps[j] == j;
    }
  }

  /** `frames_extraction` as the loop the source runs, breaking at the first failed read. */
  method FramesExtractionLoop<F>(v: Video<F>) returns (framesList: seq<F>)
    ensures |framesList| <= SequenceLength
    ensures forall j :: 0 <= j < |framesList| ==>
      j * Stride(v.reportedCount) < |v.frames| &&
      framesList[j] == v.frames[j * Stride(v.reportedCount)]
    ensures |framesList| < SequenceLength ==> |framesList| * Stride(v.reportedCount) >= |v.frames|
    ensures framesList == FramesExtraction(v)
  {
    var skip := Stride(v.reportedCount);
    framesList := [];
    var frameCounter := 0;
    while frameCounter < SequenceLength
      invariant frameCounter <= SequenceLength
      invariant |framesList| == frameCounter
      invariant forall j :: 0 <= j < frameCounter ==>
        j * skip < |v.frames| && framesList[j] == v.frames[j * skip]
    {
      var position := frameCounter * skip;
      if position >= |v.frames| {
        break;
      }
      framesList := framesList + [v.frames[position]];
      frameCounter := frameCounter + 1;
    }
    ExtractionUnique(v, framesList);
  }

  /** The three facts about a result of FramesExtraction determine it. */
  lemma {:induction false} ExtractionUnique<F>(v: Video<F>, r: seq<F>)
    requires |r| <= SequenceLength
    requires forall j :: 0 <= j < |r| ==>
      j * Stride(v.reportedCount) < |v.frames| && r[j] == v.frames[j * Stride(v.reportedCount)]
    requires |r| < SequenceLength ==> |r| * Stride(v.reportedCount) >= |v.frames|
    ensures r == FramesExtraction(v)
  {
    var ps := Schedule(Stride(v.reportedCount));
    var e := FramesExtraction(v);
    assert forall j :: 0 <= j < SequenceLength ==> ps[j] == j * Stride(v.reportedCount);
    if |r| < |e| {
      ExtractedSlotIff(v, |r|);
    }
    assert |r| == |e|;
  }
}
