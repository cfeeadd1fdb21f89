/**
 Dataset creation: walk the class directories in class order, sample every
 video on the uniform schedule, and keep only clips that yielded a full
 sequence, recording frames, class index and path side by side.

 The filesystem is two opaque functions: `listdir` gives the file names of a
 class directory, and `open` gives the video found at a path.
 */
module Dataset {
  import opened Config
  import opened Sampling

  /** One kept clip: its sampled frames, its class index and its path. */
  datatype Row<F> = Row(frames: seq<F>, classIndex: nat, path: string)

  /** `os.path.join(DATASET_DIR, class_name, file_name)`. */
  function VideoPath(className: string, fileName: string): string {
    DatasetDir + "/" + className + "/" + fileName
  }

  /** Within one class directory, distinct file names give distinct paths. */
  lemma {:induction false} VideoPathInjective(className: string, f1: string, f2: string)
    ensures VideoPath(className, f1) == VideoPath(className, f2) <==> f1 == f2
  {
    if VideoPath(className, f1) == VideoPath(className, f2) {
      var n := |DatasetDir| + |className| + 2;
      assert f1 == VideoPath(className, f1)[n..];
      assert f2 == VideoPath(className, f2)[n..];
    }
  }

  /** The row a file of class `cls` would contribute if it were kept. */
  function Candidate<F>(cls: nat, fileName: string, open: string -> Video<F>): (r: Row<F>)
    requires cls < |Classes|
    ensures r.classIndex == cls && r.path == VideoPath(Classes[cls], fileName)
    ensures |r.frames| <= SequenceLength
  {
    var p := VideoPath(Classes[cls], fileName);
    Row(FramesExtraction(open(p)), cls, p)
  }

  /** The filter: a clip is kept when its extraction gave SequenceLength frames. */
  predicate Full<F>(r: Row<F>) {
    |r.frames| == SequenceLength
  }

  /**
   A file's row passes the filter exactly when the last position of its
   schedule can be decoded, whatever count the reader reports.
   */
  lemma {:induction false} FullIffLastSlotReadable<F>(cls: nat, fileName: string, open: string -> Video<F>)
    requires cls < |Classes|
    ensures var v := open(VideoPath(Classes[cls], fileName));
      Full(Candidate(cls, fileName, open)) <==>
      Schedule(Stride(v.reportedCount))[SequenceLength - 1] < |v.frames|
  {
    var v := open(VideoPath(Classes[cls], fileName));
    ExtractedSlotIff(v, SequenceLength - 1);
  }

  /** Rows kept from `files` of one class directory, in listing order. */
  function ClassRows<F>(cls: nat, files: seq<string>, open: string -> Video<F>): (rows: seq<Row<F>>)
    requires cls < |Classes|
    ensures |rows| <= |files|
    ensures forall i :: 0 <= i < |rows| ==> rows[i].classIndex == cls && Full(rows[i])
  {
    if |files| == 0 then []
    else
      var c := Candidate(cls, files[|files| - 1], open);
      ClassRows(cls, files[..|files| - 1], open) + (if Full(c) then [c] else [])
  }

  lemma ClassRowsSnoc<F>(cls: nat, files: seq<string>, n: nat, open: string -> Video<F>)
    requires cls < |Classes| && n < |files|
    ensures ClassRows(cls, files[..n + 1], open) ==
      ClassRows(cls, files[..n], open) +
      (if Full(Candidate(cls, files[n], open)) then [Candidate(cls, files[n], open)] else [])
  {
    assert files[..n + 1][..n] == files[..n];
  }

  /** Rows kept from the first `k` class directories. */
  function RowsBefore<F>(k: nat, listdir: string -> seq<string>, open: string -> Video<F>): (rows: seq<Row<F>>)
    requires k <= |Classes|
    ensures forall i :: 0 <= i < |rows| ==> rows[i].classIndex < k && Full(rows[i])
  {
    if k == 0 then []
    else RowsBefore(k - 1, listdir, open) + ClassRows(k - 1, listdir(Classes[k - 1]), open)
  }

  /** The whole dataset, as a reference for what `create_dataset` returns. */
  function Rows<F>(listdir: string -> seq<string>, open: string -> Video<F>): (rows: seq<Row<F>>)
    ensures forall i :: 0 <= i < |rows| ==> rows[i].classIndex < |Classes| && Full(rows[i])
    ensures LabelsSorted(rows)
  {
    RowsBeforeSorted(|Classes|, listdir, open);
    RowsBefore(|Classes|, listdir, open)
  }

  predicate NonDecreasing(xs: seq<nat>) {
    forall i, j :: 0 <= i < j < |xs| ==> xs[i] <= xs[j]
  }

  /** The class-index column of a list of rows. */
  function Labels<F>(rows: seq<Row<F>>): (ls: seq<nat>)
    ensures |ls| == |rows|
    ensures forall i :: 0 <= i < |rows| ==> ls[i] == rows[i].classIndex
  {
    seq(|rows|, i requires 0 <= i < |rows| => rows[i].classIndex)
  }

  predicate LabelsSorted<F>(rows: seq<Row<F>>) {
    NonDecreasing(Labels(rows))
  }

  /** Classes are visited in order, so labels never decrease. */
  lemma {:induction false} RowsBeforeSorted<F>(k: nat, listdir: string -> seq<string>, open: string -> Video<F>)
    requires k <= |Classes|
    ensures LabelsSorted(RowsBefore(k, listdir, open))
  {
    if k > 0 {
      RowsBeforeSorted(k - 1, listdir, open);
    }
  }

  /** `r` is the candidate row of one of `files`, in class `cls`. */
  ghost predicate ListedIn<F>(r: Row<F>, cls: nat, files: seq<string>, open: string -> Video<F>)
    requires cls < |Classes|
  {
    exists f :: f in files && r == Candidate(cls, f, open)
  }

  lemma ListedInSnoc<F>(r: Row<F>, cls: nat, files: seq<string>, open: string -> Video<F>)
    requires cls < |Classes| && |files| > 0
    ensures ListedIn(r, cls, files, open) <==>
      ListedIn(r, cls, files[..|files| - 1], open) || r == Candidate(cls, files[|files| - 1], open)
  {
    var init := files[..|files| - 1];
    if ListedIn(r, cls, files, open) {
      var f :| f in files && r == Candidate(cls, f, open);
      if f != files[|files| - 1] {
        assert f in init by {
          var i :| 0 <= i < |files| && files[i] == f;
          assert init[i] == f;
        }
      }
    }
    if ListedIn(r, cls, init, open) {
      var f :| f in init && r == Candidate(cls, f, open);
      assert f in files;
    }
  }

  /** A row comes from a class directory exactly when it is a full candidate of one of its files. */
  lemma {:induction false} ClassRowsMembership<F>(cls: nat, files: seq<string>, open: string -> Video<F>, r: Row<F>)
    requires cls < |Classes|
    ensures r in ClassRows(cls, files, open) <==> Full(r) && ListedIn(r, cls, files, open)
  {
    if |files| > 0 {
      var init := files[..|files| - 1];
      var c := Candidate(cls, files[|files| - 1], open);
      ClassRowsMembership(cls, init, open, r);
      ListedInSnoc(r, cls, files, open);
      assert ClassRows(cls, files, open) == ClassRows(cls, init, open) + (if Full(c) then [c] else []);
    }
  }

  /**
   A row is among the first `k` classes' rows exactly when its class index is
   below `k` and it is the full candidate of a file listed in that class's directory.
   */
  lemma {:induction false} RowsBeforeMembership<F>(k: nat, listdir: string -> seq<string>, open: string -> Video<F>, r: Row<F>)
    requires k <= |Classes|
    ensures r in RowsBefore(k, listdir, open) <==>
      r.classIndex < k && Full(r) && ListedIn(r, r.classIndex, listdir(Classes[r.classIndex]), open)
  {
    if k > 0 {
      var before := RowsBefore(k - 1, listdir, open);
      var last := ClassRows(k - 1, listdir(Classes[k - 1]), open);
      assert RowsBefore(k, listdir, open) == before + last;
      RowsBeforeMembership(k - 1, listdir, open, r);
      ClassRowsMembership(k - 1, listdir(Classes[k - 1]), open, r);
      if ListedIn(r, k - 1, listdir(Classes[k - 1]), open) {
        var f :| f in listdir(Classes[k - 1]) && r == Candidate(k - 1, f, open);
        assert r.classIndex == k - 1;
      }
    }
  }

  /** The dataset as a whole: what is kept, with which class index, in which order. */
  lemma {:induction false} RowsCharacterization<F>(listdir: string -> seq<string>, open: string -> Video<F>)
    ensures LabelsSorted(Rows(listdir, open))
    ensures forall r :: r in Rows(listdir, open) <==>
      r.classIndex < |Classes| && Full(r) && ListedIn(r, r.classIndex, listdir(Classes[r.classIndex]), open)
  {
    RowsBeforeSorted(|Classes|, listdir, open);
    forall r {
      RowsBeforeMembership(|Classes|, listdir, open, r);
    }
  }

  /**
   With an honest reader a file is dropped exactly when its video is shorter
   than SequenceLength frames.
   */
  lemma {:induction false} HonestKeepIff<F>(cls: nat, fileName: string, open: string -> Video<F>)
    requires cls < |Classes|
    requires Honest(open(VideoPath(Classes[cls], fileName)))
    ensures Full(Candidate(cls, fileName, open)) <==>
      |open(VideoPath(Classes[cls], fileName)).frames| >= SequenceLength
  {
    var v := open(VideoPath(Classes[cls], fileName));
    if |v.frames| >= SequenceLength {
      LongClipYieldsFullSequence(v);
    } else {
      ShortClipYieldsWholeVideo(v);
    }
  }

  /** The three parallel lists read as rows. */
  function Zip<F>(features: seq<seq<F>>, labels: seq<nat>, paths: seq<string>): (rows: seq<Row<F>>)
    requires |features| == |labels| == |paths|
    ensures |rows| == |features|
  {
    seq(|features|, i requires 0 <= i < |features| => Row(features[i], labels[i], paths[i]))
  }

  /**
   The inner loop of `create_dataset` over the files of class `cls`: sample
   each video and append frames, class index and path of the full ones.
   */
  method ScanClass<F>(cls: nat, filesList: seq<string>, open: string -> Video<F>,
                      features0: seq<seq<F>>, labels0: seq<nat>, paths0: seq<string>)
    returns (features: seq<seq<F>>, labels: seq<nat>, paths: seq<string>)
    requires cls < |Classes|
    requires |features0| == |labels0| == |paths0|
    ensures |features| == |labels| == |paths|
    ensures Zip(features, labels, paths) == Zip(features0, labels0, paths0) + ClassRows(cls, filesList, open)
  {
    features, labels, paths := features0, labels0, paths0;
    ghost var before := Zip(features0, labels0, paths0);
    var n := 0;
    while n < |filesList|
      invariant n <= |filesList|
      invariant |features| == |labels| == |paths|
      invariant Zip(features, labels, paths) == before + ClassRows(cls, filesList[..n], open)
    {
      var videoFilePath := VideoPath(Classes[cls], filesList[n]);
      var frames := FramesExtractionLoop(open(videoFilePath));
      KeepStep(features, labels, paths, before, cls, filesList, n, open);
      assert Candidate(cls, filesList[n], open) == Row(frames, cls, videoFilePath);
      if |frames| == SequenceLength {
        features := features + [frames];
        labels := labels + [cls];
        paths := paths + [videoFilePath];
      }
      n := n + 1;
    }
    assert filesList[..n] == filesList;
  }

  /** `create_dataset`: every class directory in class order, each scanned file by file. */
  method CreateDataset<F>(listdir: string -> seq<string>, open: string -> Video<F>)
    returns (features: seq<seq<F>>, labels: seq<nat>, paths: seq<string>)
    ensures |features| == |labels| == |paths|
    ensures forall i :: 0 <= i < |features| ==> |features[i]| == SequenceLength && labels[i] < |Classes|
    ensures NonDecreasing(labels)
    ensures Zip(features, labels, paths) == Rows(listdir, open)
  {
    features, labels, paths := [], [], [];
    var classIndex := 0;
    while classIndex < |Classes|
      invariant classIndex <= |Classes|
      invariant |features| == |labels| == |paths|
      invariant Zip(features, labels, paths) == RowsBefore(classIndex, listdir, open)
    {
      var filesList := listdir(Classes[classIndex]);
      features, labels, paths := ScanClass(classIndex, filesList, open, features, labels, paths);
      classIndex := classIndex + 1;
    }
    AlignedListsOfRows(features, labels, paths, listdir, open);
  }

  /** Lists that zip to the dataset rows carry full sequences and sorted, in-range labels. */
  lemma AlignedListsOfRows<F>(features: seq<seq<F>>, labels: seq<nat>, paths: seq<string>,
                              listdir: string -> seq<string>, open: string -> Video<F>)
    requires |features| == |labels| == |paths|
    requires Zip(features, labels, paths) == Rows(listdir, open)
    ensures forall i :: 0 <= i < |features| ==> |features[i]| == SequenceLength && labels[i] < |Classes|
    ensures NonDecreasing(labels)
  {
    RowsBeforeSorted(|Classes|, listdir, open);
    var rows := Zip(features, labels, paths);
    assert forall i :: 0 <= i < |features| ==> rows[i] == Row(features[i], labels[i], paths[i]);
  }

  /** One file of the inner loop: appending its row when it is full extends the zipped lists by its kept rows. */
  lemma KeepStep<F>(features: seq<seq<F>>, labels: seq<nat>, paths: seq<string>, before: seq<Row<F>>,
                    cls: nat, files: seq<string>, n: nat, open: string -> Video<F>)
    requires cls < |Classes| && n < |files|
    requires |features| == |labels| == |paths|
    requires Zip(features, labels, paths) == before + ClassRows(cls, files[..n], open)
    ensures var c := Candidate(cls, files[n], open);
      if Full(c) then
        Zip(features + [c.frames], labels + [cls], paths + [c.path]) == before + ClassRows(cls, files[..n + 1], open)
      else
        Zip(features, labels, paths) == before + ClassRows(cls, files[..n + 1], open)
  {
    ClassRowsSnoc(cls, files, n, open);
    var c := Candidate(cls, files[n], open);
    if Full(c) {
      ZipSnoc(features, labels, paths, c.frames, cls, c.path);
    }
  }

  lemma ZipSnoc<F>(features: seq<seq<F>>, labels: seq<nat>, paths: seq<string>, x: seq<F>, l: nat, p: string)
    requires |features| == |labels| == |paths|
    ensures Zip(features + [x], labels + [l], paths + [p]) == Zip(features, labels, paths) + [Row(x, l, p)]
  {
  }
}
