/** Constants shared by the training script and the HTTP endpoint. */
module Config {

  /** Number of frames fed to the network as one sequence. */
  const SequenceLength: nat := 20

  /** Action classes, in the order that fixes their label index. */
  const Classes: seq<string> := ["WalkingWithDog", "TaiChi", "JumpRope", "HorseRace"]

  /** Root directory of the dataset; one sub-directory per class. */
  const DatasetDir: string := "UCF50"

  /** Each class name is non-empty, so the empty overlay label names no class. */
  lemma {:induction false} ClassNamesNonEmpty()
    ensures |Classes| == 4
    ensures forall k :: 0 <= k < |Classes| ==> |Classes[k]| > 0
    ensures "" !in Classes
  {
  }
}
