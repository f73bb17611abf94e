/**
 * The service object (VideoProcessor) and the upload endpoint (VideoAnalysis.post)
 * of app_Service.py. The detector, the decoder and the wall clock are parameters:
 * the detector as a function from frame to detections, the decoder as a function
 * from the uploaded stream to an opened video (None when it cannot be opened), and
 * the clock as the timestamp text read at each save.
 */
module Service {

  import opened Results
  import opened Settings
  import opened DangerZone
  import opened FrameAnalysis
  import opened Selection
  import opened Packaging
  import opened Upload

  /** The exceptions that end a request: model missing, video unreadable, division by a zero frame rate. */
  datatype Error = ModelNotReady | DecodeOpenError | ZeroFrameRate

  /** str() of each exception. */
  function ErrorText(e: Error): string {
    match e
    case ModelNotReady => "模型未初始化"
    case DecodeOpenError => "无法打开视频流"
    case ZeroFrameRate => "float division by zero"
  }

  /** The wall clock: clock(k) is the timestamp text read when the k-th anomaly (from 0) is saved. */
  type Clock = nat -> string

  /** The record saved for frame number f as the k-th anomaly. */
  function RecordAt(video: Video, detect: Detector, cfg: Config, clock: Clock, k: nat, f: int): AnomalyRecord
    requires 1 <= f <= |video.frames| && video.fps != 0.0
  {
    var frame := video.frames[f - 1];
    SaveAnomalyFrame(frame, f, video.fps, Classify(detect(frame), cfg).pairs, clock(k))
  }

  /** The records saved for the admitted frame numbers `sel`, in order. */
  function Records(video: Video, detect: Detector, cfg: Config, clock: Clock, sel: seq<int>): seq<AnomalyRecord>
    requires InRange(sel, |video.frames|) && video.fps != 0.0
  {
    if sel == [] then []
    else Records(video, detect, cfg, clock, sel[..|sel| - 1]) + [RecordAt(video, detect, cfg, clock, |sel| - 1, sel[|sel| - 1])]
  }

  /** Admitting one more frame appends its record. */
  lemma RecordsAppend(video: Video, detect: Detector, cfg: Config, clock: Clock, sel: seq<int>, f: int)
    requires InRange(sel, |video.frames|) && 1 <= f <= |video.frames| && video.fps != 0.0
    ensures InRange(sel + [f], |video.frames|)
    ensures Records(video, detect, cfg, clock, sel + [f])
            == Records(video, detect, cfg, clock, sel) + [RecordAt(video, detect, cfg, clock, |sel|, f)]
  {
    assert (sel + [f])[..|sel|] == sel;
  }

  /** Record k is the one saved for the k-th admitted frame. */
  lemma {:induction false} RecordsAt(video: Video, detect: Detector, cfg: Config, clock: Clock, sel: seq<int>)
    requires InRange(sel, |video.frames|) && video.fps != 0.0
    ensures |Records(video, detect, cfg, clock, sel)| == |sel|
    ensures forall k :: 0 <= k < |sel| ==>
              Records(video, detect, cfg, clock, sel)[k] == RecordAt(video, detect, cfg, clock, k, sel[k])
  {
    if sel != [] {
      var init, f := sel[..|sel| - 1], sel[|sel| - 1];
      RecordsAt(video, detect, cfg, clock, init);
      assert sel == init + [f];
      RecordsAppend(video, detect, cfg, clock, init, f);
      var recs := Records(video, detect, cfg, clock, sel);
      forall k | 0 <= k < |sel|
        ensures recs[k] == RecordAt(video, detect, cfg, clock, k, sel[k])
      {
        if k < |init| {
          assert sel[k] == init[k];
        }
      }
    }
  }

  /**
   * What the sampling loop of process_video_stream yields for a video: without a
   * model the first sampled frame (frame number frameSkip) raises; a zero frame
   * rate raises at the first admission; otherwise the records of the admitted frames.
   */
  function ScanResult(model: Option<Detector>, v: Video, cfg: Config, clock: Clock): Result<seq<AnomalyRecord>, Error>
    requires cfg.Valid()
  {
    match model
    case None =>
      if |v.frames| >= cfg.frameSkip then Err(ModelNotReady) else Ok([])
    case Some(detect) =>
      var sel := Admitted(Alarms(v.frames, detect, cfg), cfg);
      if sel == [] then Ok([])
      else if v.fps == 0.0 then Err(ZeroFrameRate)
      else Ok(Records(v, detect, cfg, clock, sel))
  }

  /** What process_video_stream returns, or the exception it raises: an unreadable video fails first. */
  function StreamResult(model: Option<Detector>, video: Option<Video>, cfg: Config, clock: Clock,
                        encode: ImageEncoder): Result<Response, Error>
    requires cfg.Valid()
  {
    match video
    case None => Err(DecodeOpenError)
    case Some(v) =>
      match ScanResult(model, v, cfg, clock)
      case Err(e) => Err(e)
      case Ok(records) => Ok(Package(records, encode))
  }

  /**
   * The sampling loop of process_video_stream run from a given state: `n` frames
   * read, `anomalies` saved so far, the last of them at frame number `lastSaved`.
   * It is the loop's step-by-step reading; ScanFromStart proves that from the
   * initial state it yields ScanResult.
   */
  function ScanFrom(model: Option<Detector>, v: Video, cfg: Config, clock: Clock, n: nat,
                    anomalies: seq<AnomalyRecord>, lastSaved: int): Result<seq<AnomalyRecord>, Error>
    requires cfg.Valid() && n <= |v.frames|
    decreases |v.frames| - n
  {
    if n == |v.frames| then Ok(anomalies)
    else
      var f := n + 1;
      if f % cfg.frameSkip != 0 then ScanFrom(model, v, cfg, clock, f, anomalies, lastSaved)
      else if model.None? then Err(ModelNotReady)
      else
        var verdict := Classify(model.value(v.frames[n]), cfg);
        if verdict.isDangerous && (anomalies == [] || f - lastSaved > cfg.minInterval) then
          if v.fps == 0.0 then Err(ZeroFrameRate)
          else
            var saved := anomalies + [SaveAnomalyFrame(v.frames[n], f, v.fps, verdict.pairs, clock(|anomalies|))];
            if |saved| >= cfg.maxAnomalies then Ok(saved) else ScanFrom(model, v, cfg, clock, f, saved, f)
        else ScanFrom(model, v, cfg, clock, f, anomalies, lastSaved)
  }

  /** Without a model the loop runs until the first sampled frame, which raises. */
  lemma {:induction false} ScanFromNoModel(v: Video, cfg: Config, clock: Clock, n: nat, anomalies: seq<AnomalyRecord>, lastSaved: int)
    requires cfg.Valid() && n <= |v.frames| && n < cfg.frameSkip
    ensures ScanFrom(None, v, cfg, clock, n, anomalies, lastSaved)
            == if |v.frames| >= cfg.frameSkip then Err(ModelNotReady) else Ok(anomalies)
    decreases |v.frames| - n
  {
    if n < |v.frames| {
      FirstSampled(n + 1, cfg.frameSkip);
      if n + 1 < cfg.frameSkip {
        ScanFromNoModel(v, cfg, clock, n + 1, anomalies, lastSaved);
      }
    }
  }

  /**
   * What the loop keeps true after reading n frames with detector `detect`: the
   * frames saved so far are those Admitted selects from the first n alarms, the
   * records are theirs, lastSaved is the newest of them, the cap is not reached,
   * and with a zero frame rate nothing has been admitted.
   */
  predicate ScanState(detect: Detector, v: Video, cfg: Config, clock: Clock, n: nat,
                      anomalies: seq<AnomalyRecord>, lastSaved: int)
    requires cfg.Valid() && n <= |v.frames|
  {
    var alarms := Alarms(v.frames, detect, cfg);
    var sel := Admitted(alarms[..n], cfg);
    |sel| < cfg.maxAnomalies && |anomalies| == |sel|
    && (sel != [] ==> lastSaved == sel[|sel| - 1])
    && (v.fps == 0.0 ==> sel == [])
    && (v.fps != 0.0 ==> InRange(sel, |v.frames|) && anomalies == Records(v, detect, cfg, clock, sel))
  }

  /** All frames read: what was saved is the whole scan's result. */
  lemma ScanStateEnd(detect: Detector, v: Video, cfg: Config, clock: Clock, anomalies: seq<AnomalyRecord>, lastSaved: int)
    requires cfg.Valid() && ScanState(detect, v, cfg, clock, |v.frames|, anomalies, lastSaved)
    ensures ScanResult(Some(detect), v, cfg, clock) == Ok(anomalies)
  {
    var alarms := Alarms(v.frames, detect, cfg);
    assert alarms[..|v.frames|] == alarms;
  }

  /** A frame that is not admitted leaves the state as it is. */
  lemma ScanStatePass(detect: Detector, v: Video, cfg: Config, clock: Clock, n: nat, anomalies: seq<AnomalyRecord>, lastSaved: int)
    requires cfg.Valid() && n < |v.frames| && ScanState(detect, v, cfg, clock, n, anomalies, lastSaved)
    requires var alarms := Alarms(v.frames, detect, cfg);
             !(alarms[n] && Admits(Admitted(alarms[..n], cfg), cfg, n + 1))
    ensures ScanState(detect, v, cfg, clock, n + 1, anomalies, lastSaved)
  {
    AdmittedStep(Alarms(v.frames, detect, cfg), cfg, n);
  }

  /** With a zero frame rate the first admitted frame raises, and the scan does admit one. */
  lemma ScanStateZeroRate(detect: Detector, v: Video, cfg: Config, clock: Clock, n: nat)
    requires cfg.Valid() && n < |v.frames| && v.fps == 0.0 && Alarms(v.frames, detect, cfg)[n]
    ensures ScanResult(Some(detect), v, cfg, clock) == Err(ZeroFrameRate)
  {
    var alarms := Alarms(v.frames, detect, cfg);
    assert Alarm(alarms, n + 1);
    AdmittedEmptyIffNoAlarm(alarms, cfg);
  }

  /** An admitted frame below the cap appends its record and becomes the last saved one. */
  lemma ScanStateAdmit(detect: Detector, v: Video, cfg: Config, clock: Clock, n: nat, anomalies: seq<AnomalyRecord>, lastSaved: int)
    requires cfg.Valid() && n < |v.frames| && v.fps != 0.0 && ScanState(detect, v, cfg, clock, n, anomalies, lastSaved)
    requires var alarms := Alarms(v.frames, detect, cfg);
             alarms[n] && Admits(Admitted(alarms[..n], cfg), cfg, n + 1)
    requires |anomalies| + 1 < cfg.maxAnomalies
    ensures ScanState(detect, v, cfg, clock, n + 1, anomalies + [RecordAt(v, detect, cfg, clock, |anomalies|, n + 1)], n + 1)
  {
    var alarms := Alarms(v.frames, detect, cfg);
    var sel := Admitted(alarms[..n], cfg);
    AdmittedStep(alarms, cfg, n);
    InRangeWiden(sel, n, |v.frames|);
    RecordsAppend(v, detect, cfg, clock, sel, n + 1);
  }

  /** The admitted frame that reaches the cap ends the scan with its record appended. */
  lemma ScanStateCapped(detect: Detector, v: Video, cfg: Config, clock: Clock, n: nat, anomalies: seq<AnomalyRecord>, lastSaved: int)
    requires cfg.Valid() && n < |v.frames| && v.fps != 0.0 && ScanState(detect, v, cfg, clock, n, anomalies, lastSaved)
    requires var alarms := Alarms(v.frames, detect, cfg);
             alarms[n] && Admits(Admitted(alarms[..n], cfg), cfg, n + 1)
    requires |anomalies| + 1 >= cfg.maxAnomalies
    ensures ScanResult(Some(detect), v, cfg, clock) == Ok(anomalies + [RecordAt(v, detect, cfg, clock, |anomalies|, n + 1)])
  {
    var alarms := Alarms(v.frames, detect, cfg);
    var sel := Admitted(alarms[..n], cfg);
    AdmittedLast(alarms, cfg, n);
    InRangeWiden(sel, n, |v.frames|);
    RecordsAppend(v, detect, cfg, clock, sel, n + 1);
  }

  /** One step of the loop from a state ScanState describes. */
  lemma {:induction false} ScanFromState(detect: Detector, v: Video, cfg: Config, clock: Clock, n: nat,
                                         anomalies: seq<AnomalyRecord>, lastSaved: int)
    requires cfg.Valid() && n <= |v.frames| && ScanState(detect, v, cfg, clock, n, anomalies, lastSaved)
    ensures ScanFrom(Some(detect), v, cfg, clock, n, anomalies, lastSaved) == ScanResult(Some(detect), v, cfg, clock)
    decreases |v.frames| - n
  {
    if n == |v.frames| {
      ScanStateEnd(detect, v, cfg, clock, anomalies, lastSaved);
    } else {
      var alarms := Alarms(v.frames, detect, cfg);
      var sel := Admitted(alarms[..n], cfg);
      AlarmsAt(v.frames, detect, cfg, n);
      if alarms[n] && Admits(sel, cfg, n + 1) {
        if v.fps == 0.0 {
          ScanStateZeroRate(detect, v, cfg, clock, n);
        } else {
          var saved := anomalies + [RecordAt(v, detect, cfg, clock, |anomalies|, n + 1)];
          if |saved| < cfg.maxAnomalies {
            ScanStateAdmit(detect, v, cfg, clock, n, anomalies, lastSaved);
            ScanFromState(detect, v, cfg, clock, n + 1, saved, n + 1);
          } else {
            ScanStateCapped(detect, v, cfg, clock, n, anomalies, lastSaved);
          }
        }
      } else {
        ScanStatePass(detect, v, cfg, clock, n, anomalies, lastSaved);
        ScanFromState(detect, v, cfg, clock, n + 1, anomalies, lastSaved);
      }
    }
  }

  /** Run from the start, the loop computes ScanResult. */
  lemma ScanFromStart(model: Option<Detector>, v: Video, cfg: Config, clock: Clock)
    requires cfg.Valid()
    ensures ScanFrom(model, v, cfg, clock, 0, [], 0) == ScanResult(model, v, cfg, clock)
  {
    if model.None? {
      ScanFromNoModel(v, cfg, clock, 0, [], 0);
    } else {
      assert Alarms(v.frames, model.value, cfg)[..0] == [];
      ScanFromState(model.value, v, cfg, clock, 0, [], 0);
    }
  }

  /** Some sampled frame of the video is dangerous. */
  predicate AnyDanger(v: Video, detect: Detector, cfg: Config)
    requires cfg.Valid()
  {
    exists i :: 0 <= i < |v.frames| && SampledDanger(i + 1, v.frames[i], detect, cfg)
  }

  /** Nothing is admitted exactly when no sampled frame is dangerous. */
  lemma AdmittedEmptyIffNoDanger(v: Video, detect: Detector, cfg: Config)
    requires cfg.Valid()
    ensures Admitted(Alarms(v.frames, detect, cfg), cfg) == [] <==> !AnyDanger(v, detect, cfg)
  {
    var alarms := Alarms(v.frames, detect, cfg);
    AdmittedEmptyIffNoAlarm(alarms, cfg);
    if AnyDanger(v, detect, cfg) {
      var i :| 0 <= i < |v.frames| && SampledDanger(i + 1, v.frames[i], detect, cfg);
      AlarmsAt(v.frames, detect, cfg, i);
      assert Alarm(alarms, i + 1);
    }
    if f :| Alarm(alarms, f) {
      AlarmsAt(v.frames, detect, cfg, f - 1);
      assert SampledDanger(f - 1 + 1, v.frames[f - 1], detect, cfg);
    }
  }

  /**
   * With a model the scan returns no records exactly when no sampled frame is
   * dangerous; when one is, it returns records, or the division error when the
   * frame rate is zero.
   */
  lemma ScanOutcome(detect: Detector, v: Video, cfg: Config, clock: Clock)
    requires cfg.Valid()
    ensures var r := ScanResult(Some(detect), v, cfg, clock);
      && (!AnyDanger(v, detect, cfg) ==> r == Ok([]))
      && (AnyDanger(v, detect, cfg) && v.fps == 0.0 ==> r == Err(ZeroFrameRate))
      && (AnyDanger(v, detect, cfg) && v.fps != 0.0 ==> r.Ok? && r.value != [])
  {
    var sel := Admitted(Alarms(v.frames, detect, cfg), cfg);
    AdmittedEmptyIffNoDanger(v, detect, cfg);
    if v.fps != 0.0 {
      RecordsAt(v, detect, cfg, clock, sel);
    }
  }

  /**
   * The report process_video_stream gives for an opened video with a model: the
   * safe result when no sampled frame is dangerous; otherwise the anomalous
   * result, or the division error when the frame rate is zero.
   */
  lemma StreamOutcome(detect: Detector, v: Video, cfg: Config, clock: Clock, encode: ImageEncoder)
    requires cfg.Valid()
    ensures var r := StreamResult(Some(detect), Some(v), cfg, clock, encode);
      && (!AnyDanger(v, detect, cfg) ==> r == Ok(FormatSafeResult()))
      && (AnyDanger(v, detect, cfg) && v.fps == 0.0 ==> r == Err(ZeroFrameRate))
      && (AnyDanger(v, detect, cfg) && v.fps != 0.0 ==> r.Ok? && r.value.data.AnomalyPayload?)
  {
    ScanOutcome(detect, v, cfg, clock);
  }

  /**
   * The anomalous report lists the admitted frames in order: entry k carries the
   * k-th admitted frame number, its time in seconds, the file name stamped with
   * the k-th clock reading, and image data that decodes back to the encoder's
   * bytes for that frame's annotated copy.
   */
  lemma StreamReportsAdmitted(detect: Detector, v: Video, cfg: Config, clock: Clock, encode: ImageEncoder)
    requires cfg.Valid() && v.fps != 0.0 && AnyDanger(v, detect, cfg)
    ensures var r := StreamResult(Some(detect), Some(v), cfg, clock, encode);
      var sel := Admitted(Alarms(v.frames, detect, cfg), cfg);
      && r.Ok? && r.value.data.AnomalyPayload? && |r.value.data.images| == |sel|
      && forall k :: 0 <= k < |sel| ==>
           && r.value.data.images[k].frame == sel[k]
           && r.value.data.images[k].time == sel[k] as real / v.fps
           && r.value.data.images[k].filename == AnomalyFileName(clock(k), sel[k])
           && Base64.Decode(r.value.data.images[k].imageData) == Some(encode(RecordAt(v, detect, cfg, clock, k, sel[k]).image))
  {
    var sel := Admitted(Alarms(v.frames, detect, cfg), cfg);
    ScanOutcome(detect, v, cfg, clock);
    RecordsAt(v, detect, cfg, clock, sel);
    var records := Records(v, detect, cfg, clock, sel);
    assert ScanResult(Some(detect), v, cfg, clock) == Ok(records);
    AnomalyResultFaithful(records, encode);
  }

  /** The frame numbers of a list of records. */
  function FrameNumbers(records: seq<AnomalyRecord>): (fs: seq<int>)
    ensures |fs| == |records| && forall k :: 0 <= k < |records| ==> fs[k] == records[k].frameNumber
  {
    seq(|records|, k requires 0 <= k < |records| => records[k].frameNumber)
  }

  /**
   * The frames whose records a scan returns follow the saving policy: there is a
   * point where reading stopped such that they form the one valid selection
   * (ValidSelection), and record k is the frame saved for the k-th of them with
   * the k-th clock reading.
   */
  lemma ScanFollowsPolicy(detect: Detector, v: Video, cfg: Config, clock: Clock) returns (read: int)
    requires cfg.Valid() && v.fps != 0.0
    ensures ScanResult(Some(detect), v, cfg, clock).Ok?
    ensures var records := ScanResult(Some(detect), v, cfg, clock).value;
      && ValidSelection(Alarms(v.frames, detect, cfg), cfg, FrameNumbers(records), read)
      && forall k :: 0 <= k < |records| ==> records[k] == RecordAt(v, detect, cfg, clock, k, records[k].frameNumber)
    ensures AllSampled(FrameNumbers(ScanResult(Some(detect), v, cfg, clock).value), cfg)
  {
    var alarms := Alarms(v.frames, detect, cfg);
    var sel := Admitted(alarms, cfg);
    read := AdmittedValid(alarms, cfg);
    RecordsAt(v, detect, cfg, clock, sel);
    var records := ScanResult(Some(detect), v, cfg, clock).value;
    assert records == Records(v, detect, cfg, clock, sel);
    assert FrameNumbers(records) == sel;
    AdmittedSampled(detect, v, cfg);
  }

  /** Every frame number listed is a sampled one: a positive multiple of frameSkip. */
  predicate AllSampled(frames: seq<int>, cfg: Config)
    requires cfg.Valid()
  {
    forall k :: 0 <= k < |frames| ==> frames[k] > 0 && frames[k] % cfg.frameSkip == 0
  }

  /** Every admitted frame number is a positive multiple of frameSkip. */
  lemma AdmittedSampled(detect: Detector, v: Video, cfg: Config)
    requires cfg.Valid()
    ensures AllSampled(Admitted(Alarms(v.frames, detect, cfg), cfg), cfg)
  {
    var alarms := Alarms(v.frames, detect, cfg);
    var sel := Admitted(alarms, cfg);
    var read := AdmittedValid(alarms, cfg);
    forall k | 0 <= k < |sel|
      ensures sel[k] > 0 && sel[k] % cfg.frameSkip == 0
    {
      assert Alarm(alarms, sel[k]);
      AlarmsAt(v.frames, detect, cfg, sel[k] - 1);
    }
  }

  /**
   * The frames of one scan are saved under different file names, so no saved
   * image overwrites another: the names differ in their frame numbers.
   */
  lemma SavedFileNamesDistinct(detect: Detector, v: Video, cfg: Config, clock: Clock)
    requires cfg.Valid() && v.fps != 0.0
    ensures var r := ScanResult(Some(detect), v, cfg, clock);
      r.Ok? ==> forall j, k :: 0 <= j < k < |r.value| ==> r.value[j].filename != r.value[k].filename
  {
    var alarms := Alarms(v.frames, detect, cfg);
    var sel := Admitted(alarms, cfg);
    var read := AdmittedValid(alarms, cfg);
    RecordsAt(v, detect, cfg, clock, sel);
    var r := ScanResult(Some(detect), v, cfg, clock);
    if r.Ok? && sel != [] {
      assert r.value == Records(v, detect, cfg, clock, sel);
      forall j, k | 0 <= j < k < |sel|
        ensures r.value[j].filename != r.value[k].filename
      {
        assert sel[j] < sel[k];
        AnomalyFileNameInjective(clock(j), sel[j], clock(k), sel[k]);
      }
    }
  }

  /**
   * The scan from a given state depends on the detector only through its verdicts
   * on sampled frames (frame numbers that are multiples of frameSkip).
   */
  lemma {:induction false} ScanFromSampledOnly(d1: Detector, d2: Detector, v: Video, cfg: Config, clock: Clock, n: nat,
                                               anomalies: seq<AnomalyRecord>, lastSaved: int)
    requires cfg.Valid() && n <= |v.frames|
    requires forall i :: 0 <= i < |v.frames| && (i + 1) % cfg.frameSkip == 0 ==> d1(v.frames[i]) == d2(v.frames[i])
    ensures ScanFrom(Some(d1), v, cfg, clock, n, anomalies, lastSaved) == ScanFrom(Some(d2), v, cfg, clock, n, anomalies, lastSaved)
    decreases |v.frames| - n
  {
    if n < |v.frames| {
      var f := n + 1;
      if f % cfg.frameSkip != 0 {
        ScanFromSampledOnly(d1, d2, v, cfg, clock, f, anomalies, lastSaved);
      } else {
        assert d1(v.frames[n]) == d2(v.frames[n]);
        var verdict := Classify(d1(v.frames[n]), cfg);
        if verdict.isDangerous && (anomalies == [] || f - lastSaved > cfg.minInterval) {
          if v.fps != 0.0 {
            var saved := anomalies + [SaveAnomalyFrame(v.frames[n], f, v.fps, verdict.pairs, clock(|anomalies|))];
            if |saved| < cfg.maxAnomalies {
              ScanFromSampledOnly(d1, d2, v, cfg, clock, f, saved, f);
            }
          }
        } else {
          ScanFromSampledOnly(d1, d2, v, cfg, clock, f, anomalies, lastSaved);
        }
      }
    }
  }

  /**
   * Only sampled frames reach the detector: two detectors that agree on every frame
   * whose number is a multiple of frameSkip give the same scan and the same report.
   */
  lemma DetectorSeesOnlySampledFrames(d1: Detector, d2: Detector, v: Video, cfg: Config, clock: Clock, encode: ImageEncoder)
    requires cfg.Valid()
    requires forall i :: 0 <= i < |v.frames| && (i + 1) % cfg.frameSkip == 0 ==> d1(v.frames[i]) == d2(v.frames[i])
    ensures ScanResult(Some(d1), v, cfg, clock) == ScanResult(Some(d2), v, cfg, clock)
    ensures StreamResult(Some(d1), Some(v), cfg, clock, encode) == StreamResult(Some(d2), Some(v), cfg, clock, encode)
  {
    ScanFromStart(Some(d1), v, cfg, clock);
    ScanFromStart(Some(d2), v, cfg, clock);
    ScanFromSampledOnly(d1, d2, v, cfg, clock, 0, [], 0);
  }

  /** Appending frames to a video leaves the alarms of its existing frames as they were. */
  lemma AlarmsExtend(frames: seq<Frame>, extra: seq<Frame>, detect: Detector, cfg: Config)
    requires cfg.Valid()
    ensures Alarms(frames + extra, detect, cfg)[..|frames|] == Alarms(frames, detect, cfg)
  {
    var longer, shorter := Alarms(frames + extra, detect, cfg), Alarms(frames, detect, cfg);
    forall i | 0 <= i < |frames|
      ensures longer[i] == shorter[i]
    {
      AlarmsAt(frames + extra, detect, cfg, i);
      AlarmsAt(frames, detect, cfg, i);
      assert (frames + extra)[i] == frames[i];
    }
  }

  /** The records of frames within a video do not depend on frames appended after them. */
  lemma RecordsExtend(v: Video, extra: seq<Frame>, detect: Detector, cfg: Config, clock: Clock, sel: seq<int>)
    requires InRange(sel, |v.frames|) && v.fps != 0.0
    ensures InRange(sel, |v.frames + extra|)
    ensures Records(Video(v.frames + extra, v.fps), detect, cfg, clock, sel) == Records(v, detect, cfg, clock, sel)
  {
    var w := Video(v.frames + extra, v.fps);
    InRangeWiden(sel, |v.frames|, |w.frames|);
    RecordsAt(v, detect, cfg, clock, sel);
    RecordsAt(w, detect, cfg, clock, sel);
    forall k | 0 <= k < |sel|
      ensures RecordAt(w, detect, cfg, clock, k, sel[k]) == RecordAt(v, detect, cfg, clock, k, sel[k])
    {
      assert w.frames[sel[k] - 1] == v.frames[sel[k] - 1];
    }
  }

  /**
   * Reading stops at the cap: once the frames read so far have admitted
   * maxAnomalies frames, whatever follows in the video is never looked at, so
   * appending frames changes neither the scan nor the report.
   */
  lemma ScanIgnoresFramesAfterCap(detect: Detector, v: Video, extra: seq<Frame>, cfg: Config, clock: Clock,
                                  encode: ImageEncoder)
    requires cfg.Valid() && |Admitted(Alarms(v.frames, detect, cfg), cfg)| >= cfg.maxAnomalies
    ensures ScanResult(Some(detect), Video(v.frames + extra, v.fps), cfg, clock) == ScanResult(Some(detect), v, cfg, clock)
    ensures StreamResult(Some(detect), Some(Video(v.frames + extra, v.fps)), cfg, clock, encode)
            == StreamResult(Some(detect), Some(v), cfg, clock, encode)
  {
    var w := Video(v.frames + extra, v.fps);
    var alarms := Alarms(w.frames, detect, cfg);
    AlarmsExtend(v.frames, extra, detect, cfg);
    AdmittedCapped(alarms, cfg, |v.frames|, |alarms|);
    assert alarms[..|alarms|] == alarms;
    var sel := Admitted(alarms, cfg);
    if sel != [] && v.fps != 0.0 {
      RecordsExtend(v, extra, detect, cfg, clock, sel);
    }
  }

  class VideoProcessor {
    /** The loaded detector; None until init_model succeeds. */
    var model: Option<Detector>

    constructor ()
      ensures model == None
    {
      model := None;
    }

    /** init_model: `weights` is the loader's outcome; a failed load leaves the model as it was. */
    method InitModel(weights: Option<Detector>) returns (ok: bool)
      modifies this
      ensures ok == weights.Some?
      ensures model == if ok then weights else old(model)
    {
      if weights.None? {
        return false;
      }
      model := weights;
      return true;
    }

    /** process_frame: filter the detections into trucks and persons, then test every pair. */
    method ProcessFrame(frame: Frame, cfg: Config) returns (r: Result<Verdict, Error>)
      ensures model.None? ==> r == Err(ModelNotReady)
      ensures model.Some? ==> r == Ok(Classify(model.value(frame), cfg))
    {
      if model.None? {
        return Err(ModelNotReady);
      }
      var dets := model.value(frame);
      var truckBoxes: seq<Box> := [];
      var personBoxes: seq<Box> := [];
      for i := 0 to |dets|
        invariant truckBoxes == TruckBoxes(dets[..i], cfg)
        invariant personBoxes == PersonBoxes(dets[..i], cfg)
      {
        var d := dets[i];
        BoxesStep(dets, TruckClass, cfg.truckThreshold, i);
        BoxesStep(dets, PersonClass, cfg.personThreshold, i);
        if d.cls == TruckClass && d.conf > cfg.truckThreshold {
          truckBoxes := truckBoxes + [d.box];
        } else if d.cls == PersonClass && d.conf > cfg.personThreshold {
          personBoxes := personBoxes + [d.box];
        }
      }
      assert dets[..|dets|] == dets;
      var isDangerous := false;
      var pairs: seq<DangerPair> := [];
      for i := 0 to |personBoxes|
        invariant pairs == DangerPairs(personBoxes[..i], truckBoxes)
        invariant isDangerous == (pairs != [])
      {
        var person := personBoxes[i];
        DangerPairsStep(personBoxes, truckBoxes, i);
        assert truckBoxes[..0] == [];
        for j := 0 to |truckBoxes|
          invariant pairs == DangerPairs(personBoxes[..i], truckBoxes) + PairsWith(person, truckBoxes[..j])
          invariant isDangerous == (pairs != [])
        {
          PairsWithStep(person, truckBoxes, j);
          if InDangerZone(person, truckBoxes[j]) {
            isDangerous := true;
            pairs := pairs + [(person, truckBoxes[j])];
          }
        }
        assert truckBoxes[..|truckBoxes|] == truckBoxes;
      }
      assert personBoxes[..|personBoxes|] == personBoxes;
      return Ok(Verdict(isDangerous, pairs));
    }

    /**
     * The sampling loop of process_video_stream: read the frames one by one, run
     * the detector on every frameSkip-th frame, save a dangerous frame when it is
     * the first or more than minInterval frames after the last saved one, and stop
     * once maxAnomalies are saved.
     */
    method ScanFrames(v: Video, cfg: Config, clock: Clock) returns (r: Result<seq<AnomalyRecord>, Error>)
      requires cfg.Valid()
      ensures r == ScanResult(model, v, cfg, clock)
    {
      var frameCount := 0;
      var anomalies: seq<AnomalyRecord> := [];
      var lastSaved := 0;
      ScanFromStart(model, v, cfg, clock);
      while frameCount < |v.frames|
        invariant 0 <= frameCount <= |v.frames|
        invariant ScanFrom(model, v, cfg, clock, frameCount, anomalies, lastSaved) == ScanResult(model, v, cfg, clock)
      {
        var frame := v.frames[frameCount];
        frameCount := frameCount + 1;
        if frameCount % cfg.frameSkip != 0 {
          continue;
        }
        var verdict := ProcessFrame(frame, cfg);
        if verdict.Err? {
          return Err(verdict.error);
        }
        var res := verdict.value;
        if res.isDangerous {
          if anomalies == [] || frameCount - lastSaved > cfg.minInterval {
            if v.fps == 0.0 {
              return Err(ZeroFrameRate);
            }
            var info := SaveAnomalyFrame(frame, frameCount, v.fps, res.pairs, clock(|anomalies|));
            anomalies := anomalies + [info];
            lastSaved := frameCount;
            if |anomalies| >= cfg.maxAnomalies {
              break;
            }
          }
        }
      }
      return Ok(anomalies);
    }

    /**
     * process_video_stream: fail when the decoder cannot open the upload, run the
     * sampling loop, and package what it saved.
     */
    method ProcessVideoStream(video: Option<Video>, cfg: Config, clock: Clock, encode: ImageEncoder)
        returns (r: Result<Response, Error>)
      requires cfg.Valid()
      ensures r == StreamResult(model, video, cfg, clock, encode)
    {
      if video.None? {
        return Err(DecodeOpenError);
      }
      var scanned := ScanFrames(video.value, cfg, clock);
      if scanned.Err? {
        return Err(scanned.error);
      }
      var anomalies := scanned.value;
      var result: Response;
      if anomalies != [] {
        result := FormatAnomalyResult(anomalies, encode);
      } else {
        result := FormatSafeResult();
      }
      r := Ok(result);
    }
  }

  /** The body of an HTTP reply. */
  datatype Body =
    | ErrorBody(status: string, message: string)  // _create_response(success=False, ...)
    | DataBody(data: Payload)                     // the `data` of a successful result
    | FailureBody(message: string)                // {'safe': False, 'message': ...} after an exception

  datatype Reply = Reply(code: int, body: Body)

  /** What the failure message starts with; the exception's text follows it. */
  const FailurePrefix := "处理失败: "

  /**
   * The reply for the outcome of processing an accepted upload: always 200; the
   * payload itself on success, else the failure prefix followed by the exception's text.
   */
  function Render(outcome: Result<Response, Error>): (reply: Reply)
    ensures reply.code == 200
    ensures outcome.Ok? ==> reply.body == DataBody(outcome.value.data)
    ensures outcome.Err? ==> && reply.body.FailureBody?
                             && |reply.body.message| == |FailurePrefix| + |ErrorText(outcome.error)|
                             && reply.body.message[..|FailurePrefix|] == FailurePrefix
                             && reply.body.message[|FailurePrefix|..] == ErrorText(outcome.error)
  {
    match outcome
    case Ok(resp) => Reply(200, DataBody(resp.data))
    case Err(e) => Reply(200, FailureBody(FailurePrefix + ErrorText(e)))
  }

  /** Different exceptions give different failure messages. */
  lemma RenderDistinguishesErrors(e1: Error, e2: Error)
    ensures Render(Err(e1)) == Render(Err(e2)) ==> e1 == e2
  {
    var m1, m2 := Render(Err(e1)).body.message, Render(Err(e2)).body.message;
    if m1 == m2 {
      assert ErrorText(e1) == m1[|FailurePrefix|..] == ErrorText(e2);
      assert ErrorText(e1)[0] == ErrorText(e2)[0] && |ErrorText(e1)| == |ErrorText(e2)|;
    }
  }

  class VideoAnalysis {
    /** The process-wide VideoProcessor the endpoint delegates to. */
    const processor: VideoProcessor

    constructor (processor: VideoProcessor)
      ensures this.processor == processor
    {
      this.processor := processor;
    }

    /**
     * post: reject a missing, unnamed or unsupported upload with 400; otherwise
     * decode and process it and answer 200 with its data or with the failure text.
     */
    method Post<Stream>(files: map<string, FileField<Stream>>, cfg: Config, decode: Stream -> Option<Video>,
                        clock: Clock, encode: ImageEncoder) returns (reply: Reply)
      requires cfg.Valid()
      ensures var check := CheckUpload(files, cfg.supportedFormats);
        && (check.Err? ==> reply == Reply(400, ErrorBody("error", RejectionMessage(check.error))))
        && (check.Ok? ==> reply == Render(StreamResult(processor.model, decode(check.value.stream), cfg, clock, encode)))
    {
      var check := CheckUpload(files, cfg.supportedFormats);
      if check.Err? {
        return Reply(400, ErrorBody("error", RejectionMessage(check.error)));
      }
      var result := processor.ProcessVideoStream(decode(check.value.stream), cfg, clock, encode);
      reply := Render(result);
    }
  }
}
