/**
 Turning the network's output into an action name: the class whose score is
 highest, ties going to the lowest index as `np.argmax` breaks them.
 The network itself is an opaque total function from a frame window to a
 score vector with one entry per class.
 */
module Prediction {
  import opened Config
  import opened Sampling

  /** The softmax output: one score per class. */
  type Scores = s: seq<real> | |s| == |Classes| witness [0.0, 0.0, 0.0, 0.0]

  /** The trained network, seen only through its input/output behaviour. */
  type Network<!F> = seq<F> -> Scores

  /** `k` is the first index holding a maximal score. */
  ghost predicate IsFirstMax(s: seq<real>, k: int) {
    && 0 <= k < |s|
    && (forall j :: 0 <= j < |s| ==> s[j] <= s[k])
    && (forall j :: 0 <= j < k ==> s[j] < s[k])
  }

  /** `np.argmax` on a non-empty vector. */
  function Argmax(s: seq<real>): (k: nat)
    requires |s| > 0
    ensures IsFirstMax(s, k)
  {
    if |s| == 1 then 0
    else
      var k := Argmax(s[..|s| - 1]);
      if s[|s| - 1] > s[k] then |s| - 1 else k
  }

  /** `CLASSES_LIST[np.argmax(scores)]`. */
  function PredictClass(scores: Scores): (name: string)
    ensures name in Classes && name != ""
    ensures exists k :: IsFirstMax(scores, k) && name == Classes[k]
  {
    var k := Argmax(scores);
    Config.ClassNamesNonEmpty();
    Classes[k]
  }

  /**
   `predict_single_action`: sample the clip on the uniform schedule, run the
   network once on the sampled frames and name the best-scoring class.
   */
  function PredictSingleAction<F>(v: Video<F>, net: Network<F>): (name: string)
    ensures name in Classes
    ensures exists k :: IsFirstMax(net(FramesExtraction(v)), k) && name == Classes[k]
  {
    PredictClass(net(FramesExtraction(v)))
  }

  /** On a clip of at least SequenceLength frames the network sees a full window. */
  lemma {:induction false} SingleActionSeesFullWindow<F>(v: Video<F>, net: Network<F>)
    requires Honest(v) && |v.frames| >= SequenceLength
    ensures |FramesExtraction(v)| == SequenceLength
    ensures PredictSingleAction(v, net) == PredictClass(net(FramesExtraction(v)))
  {
    LongClipYieldsFullSequence(v);
  }
}
