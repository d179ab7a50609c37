/** recognition.py: the decision logic of `FaceRecognition` around its neural calls.
    The webcam is a script of captures; each captured frame carries what the detector
    returned for it (or None when inference raised), and each detection carries what
    `face_encodings` and `compare_faces` answer for its face region. Confidences and
    normalised coordinates are exact reals. */
module Recognition {
  import opened Common

  // ---------------------------------------------------------------- constants

  const ConfidenceThreshold: real := 0.5
  const MinBoxSide: int := 20
  const SkipFrames: nat := 2
  /** `ord('q')`. */
  const QuitKey: int := 113

  // ---------------------------------------------------------------- __init__

  /** Why `__init__` logs an error and exits. */
  datatype InitError =
    | CountMismatch | NoEncodings | NoNames | NoModelPath | NoModelBinary
    | WebcamNotOpened | ModelNotLoaded

  /** The checks of `__init__` in their order, then the webcam and the model loader;
      `webcamOpens` and `modelLoads` are what `isOpened()` and OpenVINO's loading give. */
  function InitCheck(encodingCount: nat, names: seq<string>, modelPath: string, modelBin: string,
                     webcamOpens: bool, modelLoads: bool): (r: Option<InitError>)
    ensures r == Some(CountMismatch) <==> encodingCount != |names|
    ensures r == Some(NoEncodings) <==> encodingCount == |names| == 0
    ensures r != Some(NoNames)
    ensures r == Some(NoModelPath) <==> encodingCount == |names| > 0 && modelPath == ""
    ensures r == Some(NoModelBinary) <==> encodingCount == |names| > 0 && modelPath != "" && modelBin == ""
    ensures r == Some(WebcamNotOpened) <==>
              encodingCount == |names| > 0 && modelPath != "" && modelBin != "" && !webcamOpens
    ensures r == Some(ModelNotLoaded) <==>
              encodingCount == |names| > 0 && modelPath != "" && modelBin != "" && webcamOpens && !modelLoads
    ensures r == None <==> encodingCount == |names| > 0 && modelPath != "" && modelBin != ""
                           && webcamOpens && modelLoads
  {
    if encodingCount != |names| then Some(CountMismatch)
    else if encodingCount == 0 then Some(NoEncodings)
    else if |names| == 0 then Some(NoNames)
    else if modelPath == "" then Some(NoModelPath)
    else if modelBin == "" then Some(NoModelBinary)
    else if !webcamOpens then Some(WebcamNotOpened)
    else if !modelLoads then Some(ModelNotLoaded)
    else None
  }

  // ---------------------------------------------------------------- one detection

  /** One row `obj` of the detector output (`obj[2]` to `obj[6]`), with the oracle
      answers for its face region: whether `face_encodings` found a face, and what
      `compare_faces` said against the known encodings. */
  datatype Detection = Detection(confidence: real, xmin: real, ymin: real, xmax: real, ymax: real,
                                 faceFound: bool, matches: seq<bool>)

  datatype Box = Box(xmin: int, ymin: int, xmax: int, ymax: int)

  /** Python's `int()` on a float: truncation toward zero. */
  function Trunc(x: real): (r: int)
    ensures 0.0 <= x ==> r as real <= x < r as real + 1.0
    ensures x < 0.0 ==> r as real - 1.0 < x <= r as real
  {
    if x >= 0.0 then x.Floor else -((-x).Floor)
  }

  /** Normalised coordinates times the original frame's width and height, truncated. */
  function ScaleBox(d: Detection, width: nat, height: nat): (b: Box)
    ensures 0.0 <= d.xmin <= 1.0 ==> 0 <= b.xmin <= width
    ensures 0.0 <= d.xmax <= 1.0 ==> 0 <= b.xmax <= width
    ensures 0.0 <= d.ymin <= 1.0 ==> 0 <= b.ymin <= height
    ensures 0.0 <= d.ymax <= 1.0 ==> 0 <= b.ymax <= height
  {
    ScaleBound(d.xmin, width);
    ScaleBound(d.xmax, width);
    ScaleBound(d.ymin, height);
    ScaleBound(d.ymax, height);
    Box(Trunc(d.xmin * width as real), Trunc(d.ymin * height as real),
        Trunc(d.xmax * width as real), Trunc(d.ymax * height as real))
  }

  lemma ScaleBound(c: real, n: nat)
    ensures 0.0 <= c <= 1.0 ==> 0 <= Trunc(c * n as real) <= n
  {
    if 0.0 <= c <= 1.0 {
      assert 0.0 <= c * n as real <= n as real;
    }
  }

  /** A Python slice bound `i` on a dimension of length `n`. */
  function SliceIndex(i: int, n: nat): (r: nat)
    ensures r <= n
  {
    if i < 0 then (if i + n < 0 then 0 else i + n) else if i > n then n else i
  }

  /** The length of the slice `[lo:hi]` of a dimension of length `n`. */
  function SliceLength(lo: int, hi: int, n: nat): (len: nat)
    ensures 0 <= lo <= hi <= n ==> len == hi - lo
    ensures len <= n
  {
    var a := SliceIndex(lo, n);
    var b := SliceIndex(hi, n);
    if b > a then b - a else 0
  }

  /** `frame[ymin:ymax, xmin:xmax].size == 0`. */
  predicate RoiEmpty(b: Box, width: nat, height: nat)
    ensures 0 <= b.xmin <= width && 0 <= b.xmax <= width && 0 <= b.ymin <= height && 0 <= b.ymax <= height ==>
              (RoiEmpty(b, width, height) <==> b.xmax <= b.xmin || b.ymax <= b.ymin)
  {
    SliceLength(b.ymin, b.ymax, height) == 0 || SliceLength(b.xmin, b.xmax, width) == 0
  }

  /** `matches.index(True)` when `True in matches`. */
  function FirstTrue(matches: seq<bool>): (r: Option<nat>)
    ensures r.None? <==> true !in matches
    ensures r.Some? ==> r.value < |matches| && matches[r.value]
                        && forall j :: 0 <= j < r.value ==> !matches[j]
  {
    if |matches| == 0 then None
    else if matches[0] then Some(0)
    else
      var rest := FirstTrue(matches[1..]);
      assert forall j :: 1 <= j < |matches| ==> matches[j] == matches[1..][j - 1];
      assert true in matches <==> true in matches[1..] by {
        if true in matches {
          var j :| 0 <= j < |matches| && matches[j];
          assert matches[1..][j - 1];
        }
      }
      match rest
      case None => None
      case Some(i) => Some(i + 1)
  }

  /** What the body of `for obj in detections` does with one detection. */
  datatype Verdict =
    | LowConfidence | TooSmall | EmptyRoi | NoFace
    | Labelled(box: Box, name: string)
    | BadIndex   // `known_face_names[first_match_index]` out of range: IndexError

  /** The verdict on one detection; only a gallery with more `compare_faces` answers
      than names can make the lookup fail. */
  function Judge(d: Detection, width: nat, height: nat, names: seq<string>): (v: Verdict)
    ensures v == LowConfidence <==> d.confidence < ConfidenceThreshold
    ensures v == BadIndex ==> |names| < |d.matches|
  {
    if d.confidence < ConfidenceThreshold then LowConfidence
    else
      var b := ScaleBox(d, width, height);
      if b.xmax - b.xmin < MinBoxSide || b.ymax - b.ymin < MinBoxSide then TooSmall
      else if RoiEmpty(b, width, height) then EmptyRoi
      else if !d.faceFound then NoFace
      else match FirstTrue(d.matches)
        case None => Labelled(b, "Unknown")
        case Some(i) => if i < |names| then Labelled(b, names[i]) else BadIndex
  }

  /** A detection is drawn only when it passed every filter: confidence at least 0.5,
      both sides at least 20 pixels, a non-empty region with a face in it; its label is
      the name at the first matching index, or "Unknown" when nothing matched. */
  lemma JudgeLabelled(d: Detection, width: nat, height: nat, names: seq<string>)
    requires Judge(d, width, height, names).Labelled?
    ensures var v := Judge(d, width, height, names);
            d.confidence >= ConfidenceThreshold && d.faceFound
            && v.box == ScaleBox(d, width, height)
            && v.box.xmax - v.box.xmin >= MinBoxSide && v.box.ymax - v.box.ymin >= MinBoxSide
            && !RoiEmpty(v.box, width, height)
            && (true !in d.matches ==> v.name == "Unknown")
            && (true in d.matches ==> exists i :: 0 <= i < |d.matches| && i < |names| && d.matches[i]
                                        && (forall j :: 0 <= j < i ==> !d.matches[j]) && v.name == names[i])
  {
    var f := FirstTrue(d.matches);
    if f.Some? {
      var i := f.value;
      assert d.matches[i] && forall j :: 0 <= j < i ==> !d.matches[j];
    }
  }

  /** A box inside the frame that passes the size filter never has an empty region. */
  lemma InFrameBoxHasRoi(d: Detection, width: nat, height: nat)
    requires 0.0 <= d.xmin <= 1.0 && 0.0 <= d.xmax <= 1.0 && 0.0 <= d.ymin <= 1.0 && 0.0 <= d.ymax <= 1.0
    requires var b := ScaleBox(d, width, height);
             b.xmax - b.xmin >= MinBoxSide && b.ymax - b.ymin >= MinBoxSide
    ensures !RoiEmpty(ScaleBox(d, width, height), width, height)
  {
  }

  /** With one `compare_faces` answer per known name the lookup never fails. */
  lemma NoBadIndexWithMatchingGallery(d: Detection, width: nat, height: nat, names: seq<string>)
    requires |d.matches| == |names|
    ensures Judge(d, width, height, names) != BadIndex
  {
  }

  // ---------------------------------------------------------------- one frame

  datatype Annotation = Annotation(box: Box, name: string)

  /** The rectangles and labels drawn on a frame, or the exception that ended it. */
  datatype FrameOutcome = Annotated(annotations: seq<Annotation>) | Crashed(exception: string)

  /** One more detection handled after `prev`. */
  function Extend(prev: FrameOutcome, v: Verdict): (next: FrameOutcome)
    ensures prev.Crashed? ==> next == prev
  {
    match prev
    case Crashed(e) => Crashed(e)
    case Annotated(anns) =>
      match v
      case Labelled(b, nm) => Annotated(anns + [Annotation(b, nm)])
      case BadIndex => Crashed("IndexError")
      case _ => Annotated(anns)
  }

  /** The `for obj in detections` loop, as a function of the detections seen so far. */
  function Annotate(dets: seq<Detection>, width: nat, height: nat, names: seq<string>): (r: FrameOutcome)
    ensures r.Annotated? ==> |r.annotations| <= |dets|
  {
    if |dets| == 0 then Annotated([])
    else Extend(Annotate(dets[..|dets| - 1], width, height, names), Judge(dets[|dets| - 1], width, height, names))
  }

  lemma AnnotatePrefix(dets: seq<Detection>, k: nat, width: nat, height: nat, names: seq<string>)
    requires k < |dets|
    ensures Annotate(dets[..k + 1], width, height, names)
         == Extend(Annotate(dets[..k], width, height, names), Judge(dets[k], width, height, names))
  {
    assert dets[..k + 1][..k] == dets[..k];
  }

  /** What one verdict draws: its rectangle and label, or nothing. */
  function Drawn(v: Verdict): (anns: seq<Annotation>)
  {
    if v.Labelled? then [Annotation(v.box, v.name)] else []
  }

  /** The annotations of the detections that pass every filter, in detection order. */
  function Labels(dets: seq<Detection>, width: nat, height: nat, names: seq<string>): (anns: seq<Annotation>)
    ensures |anns| <= |dets|
  {
    if |dets| == 0 then []
    else Drawn(Judge(dets[0], width, height, names)) + Labels(dets[1..], width, height, names)
  }

  lemma LabelsSingle(d: Detection, width: nat, height: nat, names: seq<string>)
    ensures Labels([d], width, height, names) == Drawn(Judge(d, width, height, names))
  {
    assert [d][1..] == [];
  }

  /** Labelling keeps detection order: the annotations of a later run of detections all
      come after those of an earlier one. */
  lemma {:induction false} LabelsAppend(a: seq<Detection>, b: seq<Detection>, width: nat, height: nat, names: seq<string>)
    ensures Labels(a + b, width, height, names) == Labels(a, width, height, names) + Labels(b, width, height, names)
  {
    if |a| == 0 {
      assert a + b == b;
    } else {
      LabelsAppend(a[1..], b, width, height, names);
      LabelsAppendStep(a, b, width, height, names);
    }
  }

  lemma LabelsAppendStep(a: seq<Detection>, b: seq<Detection>, width: nat, height: nat, names: seq<string>)
    requires |a| > 0
    requires Labels(a[1..] + b, width, height, names)
          == Labels(a[1..], width, height, names) + Labels(b, width, height, names)
    ensures Labels(a + b, width, height, names) == Labels(a, width, height, names) + Labels(b, width, height, names)
  {
    assert (a + b)[1..] == a[1..] + b;
    assert (a + b)[0] == a[0];
    AppendAssociates(Drawn(Judge(a[0], width, height, names)), Labels(a[1..], width, height, names),
                     Labels(b, width, height, names));
  }

  lemma AppendAssociates(x: seq<Annotation>, y: seq<Annotation>, z: seq<Annotation>)
    ensures x + y + z == x + (y + z)
  {
  }

  /** Every drawn annotation is the verdict of a detection, and every detection that
      passes all filters is drawn. */
  lemma {:induction false} LabelsComplete(dets: seq<Detection>, width: nat, height: nat, names: seq<string>)
    ensures forall a :: a in Labels(dets, width, height, names) ==>
              exists k :: 0 <= k < |dets| && Judge(dets[k], width, height, names) == Labelled(a.box, a.name)
    ensures forall k :: 0 <= k < |dets| && Judge(dets[k], width, height, names).Labelled? ==>
              Annotation(Judge(dets[k], width, height, names).box, Judge(dets[k], width, height, names).name)
                in Labels(dets, width, height, names)
  {
    if |dets| > 0 {
      var tail := dets[1..];
      LabelsComplete(tail, width, height, names);
      assert forall k :: 0 <= k < |tail| ==> tail[k] == dets[k + 1];
      var d := Drawn(Judge(dets[0], width, height, names));
      var lt := Labels(tail, width, height, names);
      forall a: Annotation | a in d + lt
        ensures exists k :: 0 <= k < |dets| && Judge(dets[k], width, height, names) == Labelled(a.box, a.name)
      {
        if a in lt {
          var k :| 0 <= k < |tail| && Judge(tail[k], width, height, names) == Labelled(a.box, a.name);
          assert dets[k + 1] == tail[k];
        } else {
          assert a in d;
          assert Judge(dets[0], width, height, names) == Labelled(a.box, a.name);
        }
      }
      forall k | 0 <= k < |dets| && Judge(dets[k], width, height, names).Labelled?
        ensures Annotation(Judge(dets[k], width, height, names).box, Judge(dets[k], width, height, names).name)
                  in d + lt
      {
        if k > 0 {
          assert dets[k] == tail[k - 1];
        }
      }
    }
  }

  /** A frame crashes exactly when one of its detections hits the bad lookup; otherwise
      its annotations are those of the detections that passed all filters, in order. */
  lemma AnnotateSound(dets: seq<Detection>, width: nat, height: nat, names: seq<string>)
    ensures Annotate(dets, width, height, names).Crashed? <==>
              exists k :: 0 <= k < |dets| && Judge(dets[k], width, height, names) == BadIndex
    ensures Annotate(dets, width, height, names).Crashed? ==> Annotate(dets, width, height, names).exception == "IndexError"
    ensures Annotate(dets, width, height, names).Annotated? ==>
              Annotate(dets, width, height, names).annotations == Labels(dets, width, height, names)
  {
    AnnotateCrash(dets, width, height, names);
    AnnotateLabels(dets, width, height, names);
  }

  lemma {:induction false} AnnotateCrash(dets: seq<Detection>, width: nat, height: nat, names: seq<string>)
    ensures Annotate(dets, width, height, names).Crashed? <==>
              exists k :: 0 <= k < |dets| && Judge(dets[k], width, height, names) == BadIndex
    ensures Annotate(dets, width, height, names).Crashed? ==> Annotate(dets, width, height, names).exception == "IndexError"
  {
    if |dets| > 0 {
      var init := dets[..|dets| - 1];
      AnnotateCrash(init, width, height, names);
      assert forall k :: 0 <= k < |init| ==> init[k] == dets[k];
    }
  }

  lemma {:induction false} AnnotateLabels(dets: seq<Detection>, width: nat, height: nat, names: seq<string>)
    ensures Annotate(dets, width, height, names).Annotated? ==>
              Annotate(dets, width, height, names).annotations == Labels(dets, width, height, names)
  {
    if |dets| > 0 {
      var init := dets[..|dets| - 1];
      AnnotateLabels(init, width, height, names);
      assert dets == init + [dets[|dets| - 1]];
      AnnotateLabelsStep(init, dets[|dets| - 1], width, height, names);
    }
  }

  lemma AnnotateLabelsStep(init: seq<Detection>, d: Detection, width: nat, height: nat, names: seq<string>)
    requires Annotate(init, width, height, names).Annotated? ==>
               Annotate(init, width, height, names).annotations == Labels(init, width, height, names)
    ensures Annotate(init + [d], width, height, names).Annotated? ==>
              Annotate(init + [d], width, height, names).annotations == Labels(init + [d], width, height, names)
  {
    assert (init + [d])[..|init|] == init;
    assert (init + [d])[|init|] == d;
    LabelsAppend(init, [d], width, height, names);
    LabelsSingle(d, width, height, names);
  }

  /** `continue` past a filtered detection, `IndexError` out of the loop. */
  method ProcessDetections(dets: seq<Detection>, width: nat, height: nat, names: seq<string>)
    returns (outcome: FrameOutcome)
    ensures outcome == Annotate(dets, width, height, names)
  {
    var anns: seq<Annotation> := [];
    for k := 0 to |dets|
      invariant Annotate(dets[..k], width, height, names) == Annotated(anns)
    {
      AnnotatePrefix(dets, k, width, height, names);
      var obj := dets[k];
      ghost var v := Judge(obj, width, height, names);
      if obj.confidence < ConfidenceThreshold {
        assert v == LowConfidence;
        continue;
      }
      var box := ScaleBox(obj, width, height);
      if box.xmax - box.xmin < MinBoxSide || box.ymax - box.ymin < MinBoxSide {
        assert v == TooSmall;
        continue;
      }
      if RoiEmpty(box, width, height) {
        assert v == EmptyRoi;
        continue;
      }
      if obj.faceFound {
        var name := "Unknown";
        var first := FirstTrue(obj.matches);
        if first.Some? {
          if first.value >= |names| {
            assert v == BadIndex;
            CrashPersists(dets, k + 1, width, height, names);
            return Crashed("IndexError");
          }
          name := names[first.value];
        }
        assert v == Labelled(box, name);
        anns := anns + [Annotation(box, name)];
      } else {
        assert v == NoFace;
      }
    }
    assert dets[..|dets|] == dets;
    outcome := Annotated(anns);
  }

  /** Once a prefix has crashed, the whole frame has. */
  lemma {:induction false} CrashPersists(dets: seq<Detection>, k: nat, width: nat, height: nat, names: seq<string>)
    requires k <= |dets|
    requires Annotate(dets[..k], width, height, names).Crashed?
    ensures Annotate(dets, width, height, names) == Annotate(dets[..k], width, height, names)
    decreases |dets| - k
  {
    if k < |dets| {
      assert dets[..k + 1][..k] == dets[..k];
      CrashPersists(dets, k + 1, width, height, names);
    } else {
      assert dets[..k] == dets;
    }
  }

  // ---------------------------------------------------------------- the capture loop

  /** One `cap.read()`: a frame with its size, the detector's answer (None: inference
      raised) and the `waitKey(1)` result after showing it; or a failed read. */
  datatype Capture =
    | Frame(width: nat, height: nat, inference: Option<seq<Detection>>, key: int)
    | ReadFailed

  /** A frame that was processed and shown, with its 1-based number. */
  datatype Shown = Shown(frameNumber: nat, annotations: seq<Annotation>)

  datatype Exit = ReadFailure | QuitPressed | Error(exception: string)

  /** What `recognize_faces` did: the frames shown, the final `frame_counter`, why the
      loop ended, and the script position the camera was read up to. */
  datatype Trace = Trace(shown: seq<Shown>, frames: nat, exit: Exit, readTo: nat)

  /** `cv2.waitKey(1) & 0xFF == ord('q')`; Python's `&` on a negative int keeps the low
      byte of its two's complement, which is the non-negative remainder modulo 256. */
  predicate IsQuit(key: int)
    ensures 0 <= key < 256 ==> (IsQuit(key) <==> key == QuitKey)
  {
    key % 256 == QuitKey
  }

  /** The loop from script position `pos` with `frame_counter == counter`. */
  function RunFrom(script: seq<Capture>, pos: nat, counter: nat, names: seq<string>): (t: Trace)
    ensures t.frames >= counter
    ensures pos >= |script| ==> t.readTo == pos
    ensures pos < |script| ==> pos < t.readTo <= |script|
    decreases |script| - pos
  {
    if pos >= |script| then Trace([], counter, ReadFailure, pos)
    else if script[pos].ReadFailed? then Trace([], counter, ReadFailure, pos + 1)
    else
      var c := script[pos];
      var n := counter + 1;
      if n % (SkipFrames + 1) != 0 then RunFrom(script, pos + 1, n, names)
      else if c.inference.None? then Trace([], n, Error("inference"), pos + 1)
      else match Annotate(c.inference.value, c.width, c.height, names)
        case Crashed(e) => Trace([], n, Error(e), pos + 1)
        case Annotated(anns) =>
          if IsQuit(c.key) then Trace([Shown(n, anns)], n, QuitPressed, pos + 1)
          else
            var rest := RunFrom(script, pos + 1, n, names);
            Trace([Shown(n, anns)] + rest.shown, rest.frames, rest.exit, rest.readTo)
  }

  /** The schedule of a trace that started with `frame_counter == counter`: shown frame
      `i` is the `i + 1`-th multiple of three after `counter`, every processed frame is
      shown except one that raised, and a quit or an error happens on a processed frame. */
  predicate Scheduled(t: Trace, counter: nat)
  {
    (forall i :: 0 <= i < |t.shown| ==> t.shown[i].frameNumber == 3 * (counter / 3 + i + 1))
    && |t.shown| == t.frames / 3 - counter / 3 - (if t.exit.Error? then 1 else 0)
    && (t.exit.Error? ==> t.frames % 3 == 0)
    && (t.exit.QuitPressed? ==> t.frames % 3 == 0)
  }

  /** Exactly the frames numbered by a multiple of three are processed, in order; all of
      them are shown except the one an exception interrupted. */
  lemma {:induction false} FrameSchedule(script: seq<Capture>, pos: nat, counter: nat, names: seq<string>)
    ensures Scheduled(RunFrom(script, pos, counter, names), counter)
    decreases |script| - pos
  {
    if pos >= |script| || script[pos].ReadFailed? {
    } else {
      var c := script[pos];
      var n := counter + 1;
      if n % 3 != 0 {
        FrameSchedule(script, pos + 1, n, names);
        assert n / 3 == counter / 3;
      } else if c.inference.None? {
      } else if Annotate(c.inference.value, c.width, c.height, names).Annotated? && !IsQuit(c.key) {
        FrameSchedule(script, pos + 1, n, names);
        var rest := RunFrom(script, pos + 1, n, names);
        ScheduledCons(Shown(n, Annotate(c.inference.value, c.width, c.height, names).annotations), rest, counter);
      }
    }
  }

  /** A processed frame shown in front of a scheduled rest of the loop. */
  lemma ScheduledCons(first: Shown, rest: Trace, counter: nat)
    requires (counter + 1) % 3 == 0 && first.frameNumber == counter + 1
    requires Scheduled(rest, counter + 1)
    ensures Scheduled(Trace([first] + rest.shown, rest.frames, rest.exit, rest.readTo), counter)
  {
    var t := Trace([first] + rest.shown, rest.frames, rest.exit, rest.readTo);
    assert (counter + 1) / 3 == counter / 3 + 1;
    forall i | 0 <= i < |t.shown| ensures t.shown[i].frameNumber == 3 * (counter / 3 + i + 1) {
      if i > 0 {
        assert t.shown[i] == rest.shown[i - 1];
      }
    }
  }

  /** Shown frame `s` of a loop started at script position `pos` with `frame_counter ==
      counter` is the capture `frameNumber - counter - 1` places after `pos` (a read failure
      ends the loop, so every capture read before it is a frame and is counted), and its
      annotations are the labels of that capture's own detections. */
  predicate ShownFrom(script: seq<Capture>, pos: nat, counter: nat, names: seq<string>, s: Shown)
  {
    counter < s.frameNumber
    && pos + s.frameNumber - counter - 1 < |script|
    && script[pos + s.frameNumber - counter - 1].Frame?
    && script[pos + s.frameNumber - counter - 1].inference.Some?
    && s.annotations == Labels(script[pos + s.frameNumber - counter - 1].inference.value,
                               script[pos + s.frameNumber - counter - 1].width,
                               script[pos + s.frameNumber - counter - 1].height, names)
  }

  lemma ShownFromShift(script: seq<Capture>, pos: nat, counter: nat, names: seq<string>, s: Shown)
    requires ShownFrom(script, pos + 1, counter + 1, names, s)
    ensures ShownFrom(script, pos, counter, names, s)
  {
    assert pos + 1 + s.frameNumber - (counter + 1) - 1 == pos + s.frameNumber - counter - 1;
  }

  /** The trace of a loop that had already shown `prefix` before it went on as `t`. */
  function Resume(prefix: seq<Shown>, t: Trace): (r: Trace)
    ensures |r.shown| == |prefix| + |t.shown|
    ensures r.shown[..|prefix|] == prefix && r.shown[|prefix|..] == t.shown
  {
    Trace(prefix + t.shown, t.frames, t.exit, t.readTo)
  }

  lemma ResumeAppend(prefix: seq<Shown>, s: Shown, t: Trace)
    ensures Resume(prefix, Resume([s], t)) == Resume(prefix + [s], t)
  {
    assert prefix + ([s] + t.shown) == prefix + [s] + t.shown;
  }

  /** Every shown frame carries exactly the labels of its own capture's detections: the
      capture read when `frame_counter` reached that frame's number. */
  lemma {:induction false} ShownFramesAreOwnLabels(script: seq<Capture>, pos: nat, counter: nat, names: seq<string>)
    ensures forall i :: 0 <= i < |RunFrom(script, pos, counter, names).shown| ==>
              ShownFrom(script, pos, counter, names, RunFrom(script, pos, counter, names).shown[i])
    decreases |script| - pos
  {
    if pos < |script| && script[pos].Frame? {
      var c := script[pos];
      var n := counter + 1;
      var t := RunFrom(script, pos, counter, names);
      if n % 3 != 0 {
        ShownFramesAreOwnLabels(script, pos + 1, n, names);
        forall i | 0 <= i < |t.shown| ensures ShownFrom(script, pos, counter, names, t.shown[i]) {
          ShownFromShift(script, pos, counter, names, t.shown[i]);
        }
      } else if c.inference.Some? && Annotate(c.inference.value, c.width, c.height, names).Annotated? {
        AnnotateSound(c.inference.value, c.width, c.height, names);
        assert ShownFrom(script, pos, counter, names, t.shown[0]);
        if !IsQuit(c.key) {
          ShownFramesAreOwnLabels(script, pos + 1, n, names);
          var rest := RunFrom(script, pos + 1, n, names);
          forall i | 0 < i < |t.shown| ensures ShownFrom(script, pos, counter, names, t.shown[i]) {
            assert t.shown[i] == rest.shown[i - 1];
            ShownFromShift(script, pos, counter, names, t.shown[i]);
          }
        }
      }
    }
  }

  // ---------------------------------------------------------------- the objects

  /** `cv2.VideoCapture(0)` replaying a script; reading past its end, or after
      `release()`, fails. */
  class Camera {
    const script: seq<Capture>
    var pos: nat
    var released: bool

    constructor (script: seq<Capture>)
      ensures this.script == script && pos == 0 && !released
    {
      this.script := script;
      pos := 0;
      released := false;
    }

    /** `cap.read()`: `ret` is false exactly when a `ReadFailed` is returned; a released
        capture returns false without reading. */
    method Read() returns (c: Capture)
      modifies this
      ensures c == if old(released) || old(pos) >= |script| then ReadFailed else script[old(pos)]
      ensures pos == if old(released) || old(pos) >= |script| then old(pos) else old(pos) + 1
      ensures released == old(released)
    {
      if !released && pos < |script| {
        c := script[pos];
        pos := pos + 1;
      } else {
        c := ReadFailed;
      }
    }

    /** `cap.release()`. */
    method Release()
      modifies this
      ensures released && pos == old(pos)
    {
      released := true;
    }
  }

  class FaceRecognition {
    const knownFaceEncodings: seq<seq<real>>
    const knownFaceNames: seq<string>
    const modelPath: string
    const modelBin: string
    const cap: Camera

    /** The part of `__init__` after its checks passed. */
    constructor (encodings: seq<seq<real>>, names: seq<string>, path: string, bin: string, camera: Camera)
      requires InitCheck(|encodings|, names, path, bin, true, true) == None
      ensures knownFaceEncodings == encodings && knownFaceNames == names
      ensures modelPath == path && modelBin == bin && cap == camera
    {
      knownFaceEncodings := encodings;
      knownFaceNames := names;
      modelPath := path;
      modelBin := bin;
      cap := camera;
    }

    /** `__init__`: exits with the first failing check, otherwise opens the webcam and
        loads the model. */
    static method Create(encodings: seq<seq<real>>, names: seq<string>, path: string, bin: string,
                         script: seq<Capture>, webcamOpens: bool, modelLoads: bool)
      returns (fr: Option<FaceRecognition>, error: Option<InitError>)
      ensures error == InitCheck(|encodings|, names, path, bin, webcamOpens, modelLoads)
      ensures fr.Some? <==> error.None?
      ensures fr.Some? ==> fresh(fr.value) && fresh(fr.value.cap)
                           && fr.value.knownFaceNames == names && fr.value.knownFaceEncodings == encodings
                           && fr.value.cap.script == script && fr.value.cap.pos == 0 && !fr.value.cap.released
    {
      error := InitCheck(|encodings|, names, path, bin, webcamOpens, modelLoads);
      if error.Some? {
        return None, error;
      }
      var camera := new Camera(script);
      var r := new FaceRecognition(encodings, names, path, bin, camera);
      fr := Some(r);
    }

    /** `recognize_faces`: the camera is released on every way out of the loop; on a
        camera released by an earlier call the first read fails and nothing is shown. */
    method RecognizeFaces() returns (trace: Trace)
      modifies cap
      ensures cap.released
      ensures old(cap.released) ==> trace == Trace([], 0, ReadFailure, old(cap.pos))
      ensures !old(cap.released) ==> trace == RunFrom(cap.script, old(cap.pos), 0, knownFaceNames)
      ensures cap.pos == trace.readTo
    {
      var skipFrames := SkipFrames;
      var frameCounter: nat := 0;
      var shown: seq<Shown> := [];
      var exit := ReadFailure;
      ghost var start := cap.pos;
      while true
        invariant cap.released == old(cap.released)
        invariant old(cap.released) ==> shown == [] && frameCounter == 0 && cap.pos == start
        invariant !old(cap.released) ==>
                    RunFrom(cap.script, start, 0, knownFaceNames)
                    == Resume(shown, RunFrom(cap.script, cap.pos, frameCounter, knownFaceNames))
        decreases |cap.script| - cap.pos
      {
        ghost var p := cap.pos;
        ghost var counter := frameCounter;
        var frame := cap.Read();
        if frame.ReadFailed? {
          exit := ReadFailure;
          assert !old(cap.released) ==>
                   RunFrom(cap.script, p, counter, knownFaceNames) == Trace([], counter, ReadFailure, cap.pos);
          break;
        }
        frameCounter := frameCounter + 1;
        if frameCounter % (skipFrames + 1) != 0 {
          assert RunFrom(cap.script, p, counter, knownFaceNames)
              == RunFrom(cap.script, cap.pos, frameCounter, knownFaceNames);
          continue;
        }
        if frame.inference.None? {
          exit := Error("inference");
          assert RunFrom(cap.script, p, counter, knownFaceNames) == Trace([], frameCounter, exit, cap.pos);
          break;
        }
        var outcome := ProcessDetections(frame.inference.value, frame.width, frame.height, knownFaceNames);
        if outcome.Crashed? {
          exit := Error(outcome.exception);
          assert RunFrom(cap.script, p, counter, knownFaceNames) == Trace([], frameCounter, exit, cap.pos);
          break;
        }
        var now := Shown(frameCounter, outcome.annotations);
        ResumeAppend(shown, now, RunFrom(cap.script, cap.pos, frameCounter, knownFaceNames));
        shown := shown + [now];
        if IsQuit(frame.key) {
          exit := QuitPressed;
          assert RunFrom(cap.script, p, counter, knownFaceNames) == Trace([now], frameCounter, exit, cap.pos);
          break;
        }
        assert RunFrom(cap.script, p, counter, knownFaceNames)
            == Resume([now], RunFrom(cap.script, cap.pos, frameCounter, knownFaceNames));
      }
      cap.Release();
      trace := Trace(shown, frameCounter, exit, cap.pos);
    }
  }
}
