# Action recognition: frame sampling, dataset filter and rolling-window labeller

This project models the deterministic sequence logic of a video
action-recognition pipeline. An LRCN network classifies short clips into
one of four actions (WalkingWithDog, TaiChi, JumpRope, HorseRace), and a
small HTTP endpoint writes the predicted action onto every frame of an
uploaded video. The network, the video codec and the web framework are
abstracted away. What remains is modelled and proved:

- **Uniform frame sampling** (`frames_extraction`, also inlined in
  `predict_single_action`). The stride is `max(int(count / 20), 1)`, and
  positions `i * stride` are read for `i = 0..19`, stopping at the first
  failed read. Module `Sampling`.
- **Dataset creation** (`create_dataset`). Class directories are walked in
  class order, and a clip is kept only when sampling produced exactly 20
  frames. Frames, class index and path are recorded in three parallel
  lists. Module `Dataset`.
- **Prediction**. The class name is `CLASSES_LIST[argmax(scores)]`. Module
  `Prediction`.
- **Rolling-window labeller** (`predict_on_video` in the HTTP service). A
  `deque(maxlen=20)` of frames feeds the network. The overlay label stays
  empty until the queue is full and is then recomputed on every frame.
  Every frame is written once. Module `Rolling`. The guard of the `/predict`
  route is in module `Api`.

Modelling choices:

- Frames are an opaque type parameter `F`.
- A video is `Video(frames, reportedCount)`. A read at position `p`
  succeeds exactly when `p < |frames|`. `reportedCount` is what
  `CAP_PROP_FRAME_COUNT` says. The sampling functions are defined for any
  reported count, including negative ones. The arithmetic guarantees are
  proved under the named assumption `Honest(v)`, meaning the reported
  count equals the decodable frame count.
- Python's `int(count / 20)` truncates toward zero. `TruncDiv` models this
  explicitly rather than using Dafny's Euclidean `/`.
- The network is an opaque total function (`Network<F>`). It maps a
  window of frames to a vector of `|Classes|` real scores.
- `np.argmax` returns the first index holding a maximal score.
- The filesystem is two parameters. `listdir` gives the file names in a
  class directory, and `open` gives the video stored at a path.
- The `deque`'s `maxlen` is the `SEQUENCE_LENGTH` argument of
  `predict_on_video`; the endpoint always passes 20. The model keeps it as
  a parameter, and `maxlen = 0` behaves like CPython: an append leaves the
  deque empty.
- `predict_on_video` is modelled twice. The first is a left fold
  (`RunUpTo`) with a reference label per frame (`LabelAt`). The second is
  the source's read loop (`PredictOnVideoLoop`), whose state is shown to
  track the fold, so it writes the same frames with the same labels.
- `create_dataset` likewise has a functional reference (`Rows`), and the
  nested loops (`CreateDataset` calling `ScanClass` for the inner loop) are
  proved to build exactly its rows.

In `model.py`, `predict_on_video` is commented out (model.py:540-604). The
live copy is the one in `api.py`, and that is the one modelled. The two
copies differ in their `putText` arguments and in the network they call:
the commented-out copy uses the freshly trained `LRCN_model` (model.py:588),
while the service uses `model`, loaded from an `.h5` file at start-up
(api.py:11). Both are the opaque `Network` here.

## Model

| member | source | states |
|---|---|---|
| Config.ClassNamesNonEmpty | api.py:15-16 | there are four classes, no class name is empty, so the empty overlay label never names a class |
| Sampling.TruncDiv | model.py:123 | `int(a / b)` for `b > 0` truncates toward zero: for `a >= 0` the quotient is the largest `q` with `q*b <= a`; for `a < 0` it is the smallest `q` with `a <= q*b` |
| Sampling.Stride | model.py:120-123 | the stride is at least 1 whatever the reported count, including 0 and negative counts; it is exactly 1 below 40 frames; for counts of at least 20, `20*s <= count < 20*s + 20` |
| Sampling.Schedule | model.py:126-129 | 20 positions, starting at 0, consecutive positions exactly one stride apart |
| Sampling.ScheduleIncreasing | model.py:126-129 | with a stride of at least 1 the sampled positions strictly increase |
| Sampling.ReadUntilFailure | model.py:126-146 | reading positions in order and breaking at the first failed read returns the decoded frames of a prefix of the positions; the position after that prefix cannot be read |
| Sampling.FramesExtraction | model.py:105-152 | `frames_extraction` returns at most 20 frames; frame `j` is the frame at position `j * stride`; if fewer than 20 come back, the next scheduled position is past the end of the video |
| Sampling.ExtractedSlotIff | model.py:129-136 | slot `j` of the schedule yields a frame if and only if its position is below the decodable frame count |
| Sampling.LastPositionInRange | model.py:123-129 | for a count `n >= 20`, `19 * stride < n` |
| Sampling.LongClipYieldsFullSequence | model.py:123-136 | with an honest reader and at least 20 frames, every sampled position is readable and extraction returns exactly 20 frames |
| Sampling.ShortClipYieldsWholeVideo | model.py:123-136 | with an honest reader and fewer than 20 frames, the stride is 1 and extraction returns the whole video, so exactly `count` frames |
| Sampling.FramesExtractionLoop | api.py:18-34 | the loop with `break` in the service's copy of `frames_extraction` follows the same schedule: at most 20 frames, frame `j` read at `j * stride`, stopping at the first unreadable position; its result equals `FramesExtraction` |
| Prediction.Argmax | model.py:673 | `np.argmax` returns an in-range index whose score is maximal and strictly above every earlier score |
| Prediction.PredictClass | model.py:672-676 | the predicted name is a member of `CLASSES_LIST`, namely `CLASSES_LIST[k]` for the first index `k` of a maximal score |
| Prediction.PredictSingleAction | model.py:641-679 | `predict_single_action` names a class (the one it prints): the first best-scoring class of the network's output on the sampled frames |
| Prediction.SingleActionSeesFullWindow | model.py:641-670 | on an honestly reported clip of at least 20 frames, sampling yields exactly 20 frames and the prediction is the network's label for exactly those frames |
| Dataset.VideoPathInjective | model.py:181 | `os.path.join(DATASET_DIR, class_name, file_name)`: within one class directory, two file names give the same path if and only if they are the same name |
| Dataset.Candidate | model.py:181-184 | the row a file would contribute carries the directory's class index, the joined path of the file, and at most 20 sampled frames |
| Dataset.FullIffLastSlotReadable | model.py:184-188 | the filter `len(frames) == SEQUENCE_LENGTH` (`Full`) keeps a file exactly when the last position of its sampling schedule can be decoded, whatever count the reader reports |
| Dataset.ClassRows | model.py:178-193 | scanning one class directory keeps at most one row per file; every kept row has 20 frames and the directory's class index |
| Dataset.RowsBefore | model.py:169-193 | after the first `k` classes every row has 20 frames and a class index below `k` |
| Dataset.Rows | model.py:155-200 | the reference dataset: every row has 20 frames and a class index below 4, and class indices never decrease along it |
| Dataset.RowsBeforeSorted | model.py:169-192 | class directories are visited in order, so class indices never decrease along the dataset |
| Dataset.ClassRowsMembership | model.py:178-193 | a row is kept from a directory if and only if it has 20 frames and is the row of one of the directory's files |
| Dataset.RowsBeforeMembership | model.py:169-193 | a row is in the dataset of the first `k` classes if and only if its class index is below `k`, it has 20 frames, and it comes from a file listed in that class's directory |
| Dataset.RowsCharacterization | model.py:155-200 | the whole dataset: class indices are sorted, and a row is present exactly when it is a full-length row of a listed file of a valid class |
| Dataset.HonestKeepIff | model.py:184-188 | with an honest reader a video is dropped if and only if it has fewer than 20 frames |
| Dataset.ScanClass | model.py:178-193 | the inner loop keeps the three lists the same length and appends exactly the kept rows of the directory, in listing order |
| Dataset.CreateDataset | model.py:155-200 | `features`, `labels` and `video_files_paths` have equal length; each feature has 20 frames; each label lies in `[0, 4)`; labels never decrease; the three lists zip to exactly the reference dataset |
| Rolling.DequeAppend | api.py:43-53 | appending to a `deque(maxlen=m)` gives a deque of length `min(len + 1, m)` |
| Rolling.DequeKeepsNewest | api.py:53 | the deque keeps the newest entries in order: the tail of the old contents followed by the new frame |
| Rolling.WindowLabelNamesClass | api.py:56-58 | the network's label for any window (`WindowLabel`) is a member of `CLASSES_LIST`, never the empty label |
| Rolling.Relabel | api.py:55-58 | the current label is either kept or replaced by the window's label, and it is always replaced once the queue holds `SEQUENCE_LENGTH` frames |
| Rolling.Step | api.py:47-61 | one pass of the read loop grows the queue by one frame up to `maxlen`, leaves everything written before untouched, and writes exactly one more frame carrying the label current after the relabel |
| Rolling.ReadOneFrame | api.py:51-61 | one pass of the loop body (append to the deque, predict on a full queue, write the frame with the current label) leaves exactly the state `Step` describes |
| Rolling.RunUpTo | api.py:46-61 | after `k` frames the queue never holds more than `maxlen` frames and exactly `k` frames have been written |
| Rolling.RunQueue | api.py:43-53 | after `k` frames the queue holds exactly the last `min(k, maxlen)` frames, in read order |
| Rolling.RunCaption | api.py:44-58 | the current label is `''` before any frame, and after `k` frames it is the reference label of frame `k - 1` |
| Rolling.RunWritten | api.py:46-61 | each of the first `k` frames is written exactly once, in order, with its reference label |
| Rolling.NetworkLabelAt | api.py:55-58 | a frame's label is empty if and only if fewer than `seqLen` frames have been read; otherwise it is a member of `CLASSES_LIST` |
| Rolling.PredictOnVideo | api.py:36-64 | the output video has as many frames as the input; frame `i` is input frame `i` carrying the label of the window ending at `i` |
| Rolling.PredictOnVideoCaptions | api.py:44-60 | in the output, the first `seqLen - 1` frames carry `''`; every later frame carries a class name |
| Rolling.PredictOnVideoLoop | api.py:36-64 | the service's read loop writes every input frame exactly once, in order, each with the reference label of its window |
| Api.Predict | api.py:66-78 | status 400 with "Please provide a video file" if and only if there is no `video` part; otherwise status 200 with the annotated upload, one output frame per input frame |
| Api.MissingVideoIgnoresNetwork | api.py:68-69 | a request without a `video` part gets the same response whatever the network, so no prediction is involved |
| Api.ServedVideoCaptions | api.py:71-78 | a served video's first 19 frames are unlabelled and every later frame carries a class name |

## Left out

- OpenCV decoding, `resize`, colour conversion and the division by 255: frames are opaque, so pixel values and floating-point normalisation are not modelled.
- `cv2.putText` and `VideoWriter`: a written frame is modelled as the original frame paired with its caption (`Annotated`). Font, position, colour, fps and frame size are not modelled.
- The accuracy of `CAP_PROP_FRAME_COUNT`: nothing in the model depends on it. The guarantees about full and short clips assume an honest reader (`Honest`), and that assumption is stated on each lemma.
- Sampling.TruncDiv: exact integer truncation. The source divides in floating point first, so counts beyond 2^53 could round differently; such counts are not modelled.
- The neural network itself: its definition, compilation, training, early stopping, evaluation, saving and loading. It is an opaque total function, so Keras's behaviour on a window shorter than 20 frames is not modelled. That case arises in `predict_single_action` on a short clip.
- Softmax probabilities as floating-point numbers, NaN scores, and the printed confidence: scores are Dafny reals.
- `np.asarray` / `np.array` conversion of the dataset lists, `to_categorical`, `train_test_split` and the random seeds: these are library behaviour, and the split is random.
- Filesystem errors: a missing class directory raises an exception in the source; here `listdir` is total.
- The random-sample visualisation, metric plotting, YouTube download and checkpoint file naming: these depend on the filesystem, randomness, the network, the clock and float formatting.
- Flask plumbing: saving the upload to `input_video.mp4`, `send_file` and its MIME type. An upload is the sequence of frames the reader decodes from it.
- Api.Predict: the 200 body is the annotated upload only when one request is handled at a time and the video writer opened its output file. The handler serves whatever is stored at the fixed path `output_video.mp4` (api.py:73-78) and never checks that this request wrote it. For an upload that cannot be decoded, width, height and fps read as 0 (api.py:38-41), so the writer may create no file and a previous request's output, or an error, is served. `app.run(debug=True)` (api.py:81) serves requests on several threads, so two concurrent requests share both fixed paths and one can receive the other's video. The shared files and threads are not modelled.
- The progress `print` in `create_dataset` (model.py:172): console output only.
- Prediction.PredictSingleAction: `predict_single_action` returns nothing; it prints the class name and the confidence (model.py:679). The model returns the printed class name as its result, and the confidence is not modelled. Its `SEQUENCE_LENGTH` argument (model.py:622, used at model.py:645 and model.py:648) is fixed at 20: its one call (model.py:694) passes the global `SEQUENCE_LENGTH`, which is 20.
