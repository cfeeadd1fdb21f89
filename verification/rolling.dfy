/**
 The rolling-window labeller of `predict_on_video`: every decoded frame is
 pushed into a bounded queue; once the queue holds a full window the network
 relabels the video, and every frame is written out with the current label
 drawn on it.
 */
module Rolling {
  import opened Config
  import opened Prediction

  /** A written frame: the original frame with `caption` drawn on it. */
  datatype Annotated<F> = Annotated(frame: F, caption: string)

  /** Loop state: the frame queue, the current label, the frames written so far. */
  datatype Overlay<F> = Overlay(queue: seq<F>, caption: string, written: seq<Annotated<F>>)

  function Min(a: int, b: int): int {
    if a <= b then a else b
  }

  /** `deque(maxlen=maxlen).append(x)`: keeps only the newest `maxlen` entries. */
  function DequeAppend<F>(q: seq<F>, x: F, maxlen: nat): (q': seq<F>)
    requires |q| <= maxlen
    ensures |q'| == Min(|q| + 1, maxlen)
  {
    if maxlen == 0 then []
    else if |q| < maxlen then q + [x]
    else q[1..] + [x]
  }

  /** The deque keeps the newest entries in order: a suffix of the old contents followed by `x`. */
  lemma DequeKeepsNewest<F>(q: seq<F>, x: F, maxlen: nat)
    requires |q| <= maxlen
    ensures DequeAppend(q, x, maxlen) == (q + [x])[|q| + 1 - Min(|q| + 1, maxlen)..]
  {
  }

  /** What the labeller asks of the network: a label for a window of frames. */
  type Classifier<!F> = seq<F> -> string

  /** The network's label for a window, `CLASSES_LIST[argmax(model(window))]`. */
  function WindowLabel<F>(net: Network<F>): Classifier<F> {
    w => PredictClass(net(w))
  }

  /** Every window the network labels gets a class name, never the empty label. */
  lemma WindowLabelNamesClass<F>(net: Network<F>, w: seq<F>)
    ensures WindowLabel(net)(w) in Classes && WindowLabel(net)(w) != ""
  {
    assert WindowLabel(net)(w) == PredictClass(net(w));
  }

  /** A full queue is relabelled; otherwise the previous label stays. */
  function Relabel<F>(queue: seq<F>, caption: string, classify: Classifier<F>, maxlen: nat): (caption': string)
    ensures caption' == caption || caption' == classify(queue)
    ensures |queue| == maxlen ==> caption' == classify(queue)
  {
    if |queue| == maxlen then classify(queue) else caption
  }

  /** One iteration of the read loop: enqueue, relabel if the queue is full, write. */
  function Step<F>(st: Overlay<F>, frame: F, classify: Classifier<F>, maxlen: nat): (st': Overlay<F>)
    requires |st.queue| <= maxlen
    ensures |st'.queue| == Min(|st.queue| + 1, maxlen)
    // the earlier output is untouched and exactly one frame is added, carrying the label left current
    ensures |st'.written| == |st.written| + 1 && st'.written[..|st.written|] == st.written
    ensures st'.written[|st.written|] == Annotated(frame, st'.caption)
  {
    var q := DequeAppend(st.queue, frame, maxlen);
    var caption := Relabel(q, st.caption, classify, maxlen);
    Overlay(q, caption, st.written + [Annotated(frame, caption)])
  }

  lemma StepKeepsWritten<F>(st: Overlay<F>, frame: F, classify: Classifier<F>, maxlen: nat)
    requires |st.queue| <= maxlen
    ensures forall i :: 0 <= i < |st.written| ==> Step(st, frame, classify, maxlen).written[i] == st.written[i]
  {
    var w := Step(st, frame, classify, maxlen).written;
    forall i | 0 <= i < |st.written|
      ensures w[i] == st.written[i]
    {
      assert w[i] == w[..|st.written|][i];
    }
  }

  /** The state after the first `k` frames of `video` have been read, in order. */
  function RunUpTo<F>(video: seq<F>, k: nat, classify: Classifier<F>, maxlen: nat): (st: Overlay<F>)
    requires k <= |video|
    ensures |st.queue| <= maxlen
    ensures |st.written| == k
  {
    if k == 0 then Overlay([], "", [])
    else Step(RunUpTo(video, k - 1, classify, maxlen), video[k - 1], classify, maxlen)
  }

  /**
   Reference label of frame `i`: empty until a full window has been read,
   afterwards the classifier's label for the last `maxlen` frames up to `i`.
   */
  function LabelAt<F>(video: seq<F>, i: nat, classify: Classifier<F>, maxlen: nat): string
    requires i < |video|
  {
    if i + 1 >= maxlen then classify(video[i + 1 - maxlen..i + 1]) else ""
  }

  /** Appending frame `k - 1` to the window of the first `k - 1` frames gives the window of the first `k`. */
  lemma WindowSlides<F>(video: seq<F>, k: nat, maxlen: nat)
    requires 0 < k <= |video|
    ensures DequeAppend(video[k - 1 - Min(k - 1, maxlen)..k - 1], video[k - 1], maxlen) ==
      video[k - Min(k, maxlen)..k]
  {
    var lo := k - 1 - Min(k - 1, maxlen);
    if maxlen == 0 {
    } else if k - 1 < maxlen {
      SliceSnoc(video, lo, k - 1);
    } else {
      SliceDropFirst(video, lo, k - 1);
      SliceSnoc(video, lo + 1, k - 1);
    }
  }

  lemma SliceSnoc<T>(s: seq<T>, i: nat, j: nat)
    requires i <= j < |s|
    ensures s[i..j] + [s[j]] == s[i..j + 1]
  {
  }

  lemma SliceDropFirst<T>(s: seq<T>, i: nat, j: nat)
    requires i < j <= |s|
    ensures s[i..j][1..] == s[i + 1..j]
  {
  }

  /** Relabelling on the window ending at frame `k - 1` yields the reference label of that frame. */
  lemma RelabelStep<F>(video: seq<F>, k: nat, caption: string, classify: Classifier<F>, maxlen: nat)
    requires 0 < k <= |video|
    requires k > 1 ==> caption == LabelAt(video, k - 2, classify, maxlen)
    requires k == 1 ==> caption == ""
    ensures Relabel(video[k - Min(k, maxlen)..k], caption, classify, maxlen) == LabelAt(video, k - 1, classify, maxlen)
  {
  }

  /** After `k` frames the queue holds the last `min(k, maxlen)` of them, in read order. */
  lemma {:induction false} RunQueue<F>(video: seq<F>, k: nat, classify: Classifier<F>, maxlen: nat)
    requires k <= |video|
    ensures RunUpTo(video, k, classify, maxlen).queue == video[k - Min(k, maxlen)..k]
  {
    if k > 0 {
      RunQueue(video, k - 1, classify, maxlen);
      var q := RunUpTo(video, k - 1, classify, maxlen).queue;
      WindowSlides(video, k, maxlen);
      assert RunUpTo(video, k, classify, maxlen).queue == DequeAppend(q, video[k - 1], maxlen);
    }
  }

  /** After `k > 0` frames the current label is the reference label of the newest frame. */
  lemma {:induction false} RunCaption<F>(video: seq<F>, k: nat, classify: Classifier<F>, maxlen: nat)
    requires k <= |video|
    ensures k > 0 ==> RunUpTo(video, k, classify, maxlen).caption == LabelAt(video, k - 1, classify, maxlen)
    ensures k == 0 ==> RunUpTo(video, k, classify, maxlen).caption == ""
  {
    if k > 0 {
      RunCaption(video, k - 1, classify, maxlen);
      RunQueue(video, k, classify, maxlen);
      RelabelStep(video, k, RunUpTo(video, k - 1, classify, maxlen).caption, classify, maxlen);
    }
  }

  /** Each of the first `k` frames is written exactly once, in order, with its reference label. */
  lemma {:induction false} RunWritten<F>(video: seq<F>, k: nat, classify: Classifier<F>, maxlen: nat)
    requires k <= |video|
    ensures forall i :: 0 <= i < k ==>
      RunUpTo(video, k, classify, maxlen).written[i] == Annotated(video[i], LabelAt(video, i, classify, maxlen))
  {
    if k > 0 {
      RunWritten(video, k - 1, classify, maxlen);
      RunCaption(video, k, classify, maxlen);
      var st := RunUpTo(video, k - 1, classify, maxlen);
      var after := RunUpTo(video, k, classify, maxlen);
      assert after == Step(st, video[k - 1], classify, maxlen);
      StepKeepsWritten(st, video[k - 1], classify, maxlen);
      forall i | 0 <= i < k
        ensures after.written[i] == Annotated(video[i], LabelAt(video, i, classify, maxlen))
      {
        if i < k - 1 {
          assert after.written[i] == st.written[i];
        } else {
          assert after.written[i] == Annotated(video[k - 1], after.caption);
        }
      }
    }
  }

  /**
   With the network as classifier, a frame's label is empty exactly while no
   full window has been read, and otherwise names a class.
   */
  lemma NetworkLabelAt<F>(video: seq<F>, i: nat, net: Network<F>, seqLen: nat)
    requires i < |video|
    ensures LabelAt(video, i, WindowLabel(net), seqLen) == "" <==> i + 1 < seqLen
    ensures i + 1 >= seqLen ==> LabelAt(video, i, WindowLabel(net), seqLen) in Classes
  {
    if i + 1 >= seqLen {
      var l := PredictClass(net(video[i + 1 - seqLen..i + 1]));
      assert LabelAt(video, i, WindowLabel(net), seqLen) == l;
    }
  }

  /** `predict_on_video`: the frames written to the output file. */
  function PredictOnVideo<F>(video: seq<F>, net: Network<F>, seqLen: nat): (out: seq<Annotated<F>>)
    ensures |out| == |video|
    ensures forall i :: 0 <= i < |video| ==> out[i].frame == video[i]
    ensures forall i :: 0 <= i < |video| ==> out[i].caption == LabelAt(video, i, WindowLabel(net), seqLen)
  {
    RunWritten(video, |video|, WindowLabel(net), seqLen);
    RunUpTo(video, |video|, WindowLabel(net), seqLen).written
  }

  /** Every written caption is empty before the first full window and a class name from it on. */
  lemma {:induction false} PredictOnVideoCaptions<F>(video: seq<F>, net: Network<F>, seqLen: nat)
    ensures forall i :: 0 <= i < |video| ==>
      (PredictOnVideo(video, net, seqLen)[i].caption == "" <==> i + 1 < seqLen)
    ensures forall i :: 0 <= i < |video| && i + 1 >= seqLen ==>
      PredictOnVideo(video, net, seqLen)[i].caption in Classes
  {
    forall i | 0 <= i < |video| {
      NetworkLabelAt(video, i, net, seqLen);
    }
  }

  /** One pass of the read loop's body: enqueue the frame, relabel on a full queue, write the frame. */
  method ReadOneFrame<F>(framesQueue0: seq<F>, predictedClassName0: string, written0: seq<Annotated<F>>,
                         frame: F, net: Network<F>, seqLen: nat)
    returns (framesQueue: seq<F>, predictedClassName: string, written: seq<Annotated<F>>)
    requires |framesQueue0| <= seqLen
    ensures Overlay(framesQueue, predictedClassName, written) ==
      Step(Overlay(framesQueue0, predictedClassName0, written0), frame, WindowLabel(net), seqLen)
  {
    framesQueue := DequeAppend(framesQueue0, frame, seqLen);
    predictedClassName := predictedClassName0;
    if |framesQueue| == seqLen {
      predictedClassName := PredictClass(net(framesQueue));
    }
    written := written0 + [Annotated(frame, predictedClassName)];
  }

  /** `predict_on_video` as the source's read loop. */
  method PredictOnVideoLoop<F>(video: seq<F>, net: Network<F>, seqLen: nat) returns (written: seq<Annotated<F>>)
    ensures |written| == |video|
    ensures forall i :: 0 <= i < |video| ==>
      written[i] == Annotated(video[i], LabelAt(video, i, WindowLabel(net), seqLen))
  {
    var framesQueue: seq<F> := [];
    var predictedClassName := "";
    written := [];
    var k := 0;
    while k < |video|
      invariant k <= |video|
      invariant Overlay(framesQueue, predictedClassName, written) == RunUpTo(video, k, WindowLabel(net), seqLen)
    {
      framesQueue, predictedClassName, written := ReadOneFrame(framesQueue, predictedClassName, written, video[k], net, seqLen);
      k := k + 1;
    }
    RunWritten(video, |video|, WindowLabel(net), seqLen);
  }
}
