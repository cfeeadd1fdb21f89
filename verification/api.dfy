/**
 The `/predict` endpoint: a request must carry a file part named `video`;
 the uploaded video is labelled frame by frame and the annotated copy is
 sent back. Saving and re-reading the upload is abstracted away: an upload
 is the sequence of frames its decoding yields.
 */
module Api {
  import opened Config
  import opened Prediction
  import opened Rolling

  /** An uploaded file, as the frames the video reader decodes from it. */
  datatype Upload<F> = Upload(frames: seq<F>)

  datatype Body<F> = Text(message: string) | Mp4(annotated: seq<Annotated<F>>)

  datatype Response<F> = Response(status: nat, body: Body<F>)

  const MissingVideoMessage: string := "Please provide a video file"

  /** The form field the endpoint reads the upload from. */
  const VideoField: string := "video"

  /** `predict`: reject a request without a `video` part, otherwise label the upload. */
  function Predict<F>(files: map<string, Upload<F>>, net: Network<F>): (resp: Response<F>)
    ensures resp.status == 400 <==> VideoField !in files
    ensures VideoField !in files ==> resp.body == Text(MissingVideoMessage)
    ensures VideoField in files ==> resp.status == 200 && resp.body.Mp4?
    ensures VideoField in files ==> |resp.body.annotated| == |files[VideoField].frames|
    ensures VideoField in files ==> forall i :: 0 <= i < |resp.body.annotated| ==>
      resp.body.annotated[i] ==
        Annotated(files[VideoField].frames[i], LabelAt(files[VideoField].frames, i, WindowLabel(net), SequenceLength))
  {
    if VideoField !in files then Response(400, Text(MissingVideoMessage))
    else Response(200, Mp4(PredictOnVideo(files[VideoField].frames, net, SequenceLength)))
  }

  /** A rejected request never reaches the network: the response is the same whatever the network. */
  lemma MissingVideoIgnoresNetwork<F>(files: map<string, Upload<F>>, net1: Network<F>, net2: Network<F>)
    requires VideoField !in files
    ensures Predict(files, net1) == Predict(files, net2)
  {
  }

  /**
   A served upload has every frame written back once, in order; the first
   SequenceLength - 1 carry no label and every later one carries a class name.
   */
  lemma {:induction false} ServedVideoCaptions<F>(files: map<string, Upload<F>>, net: Network<F>)
    requires VideoField in files
    ensures Predict(files, net).body.Mp4?
    ensures forall i :: 0 <= i < |Predict(files, net).body.annotated| ==>
      (Predict(files, net).body.annotated[i].caption == "" <==> i + 1 < SequenceLength) &&
      (i + 1 >= SequenceLength ==> Predict(files, net).body.annotated[i].caption in Classes)
  {
    PredictOnVideoCaptions(files[VideoField].frames, net, SequenceLength);
  }
}
