/**
 * Anomaly records and the transport structures built from them
 * (_save_anomaly_frame, _format_anomaly_result, _format_safe_result).
 */
module Packaging {

  import opened Results
  import opened Text
  import Base64
  import opened FrameAnalysis

  /**
   * An annotated copy of a frame: the raw frame, the pairs whose two rectangles
   * were drawn on it (person and truck), and the caption written at the top.
   * The drawing itself is done by the image library and is not modelled.
   */
  datatype Annotated = Annotated(base: Frame, drawn: seq<DangerPair>, caption: string)

  /** What _save_anomaly_frame returns for one admitted frame. */
  datatype AnomalyRecord = AnomalyRecord(image: Annotated, frameNumber: nat, time: real, filename: string)

  /** The image encoder (JPEG compression of an annotated frame), supplied from outside. */
  type ImageEncoder = Annotated -> seq<Base64.Byte>

  /** One element of `anomaly_images`. */
  datatype ImageEntry = ImageEntry(imageData: string, filename: string, frame: nat, time: real)

  /** The `data` dictionary: `safe` is true exactly for SafePayload. */
  datatype Payload =
    | SafePayload(message: string)
    | AnomalyPayload(message: string, images: seq<ImageEntry>)

  /** The dictionary the formatters return: a status and the payload. */
  datatype Response = Response(status: string, data: Payload)

  /** Python's int() of a float: truncation toward zero. */
  function Trunc(x: real): (r: int)
    ensures x >= 0.0 ==> r as real <= x < r as real + 1.0
    ensures x < 0.0 ==> r as real - 1.0 < x <= r as real
  {
    if x >= 0.0 then x.Floor else -((-x).Floor)
  }

  /** The warning text written on a saved frame: its number and its whole seconds. */
  function Caption(frameNumber: nat, time: real): string {
    "Danger! Frame: " + Decimal(frameNumber) + ", Time: " + IntText(Trunc(time)) + "s"
  }

  /** A caption names exactly one frame number and one whole-second time. */
  lemma CaptionDetermines(f1: nat, t1: real, f2: nat, t2: real)
    ensures Caption(f1, t1) == Caption(f2, t2) <==> f1 == f2 && Trunc(t1) == Trunc(t2)
  {
    if Caption(f1, t1) == Caption(f2, t2) {
      CaptionText(f1, Trunc(t1), f2, Trunc(t2));
    }
  }

  /** The caption text read back: one frame number and one count of seconds. */
  lemma CaptionText(f1: nat, s1: int, f2: nat, s2: int)
    requires "Danger! Frame: " + Decimal(f1) + ", Time: " + IntText(s1) + "s"
          == "Danger! Frame: " + Decimal(f2) + ", Time: " + IntText(s2) + "s"
    ensures f1 == f2 && s1 == s2
  {
    var i1, i2 := IntText(s1), IntText(s2);
    Regroup5("Danger! Frame: ", Decimal(f1), ", Time: ", i1, "s");
    Regroup5("Danger! Frame: ", Decimal(f2), ", Time: ", i2, "s");
    StripPrefix("Danger! Frame: ", Decimal(f1) + (", Time: " + (i1 + "s")), Decimal(f2) + (", Time: " + (i2 + "s")));
    LeadingNumber(f1, ", Time: ", i1 + "s", f2, i2 + "s");
    StripSuffix(i1, i2, "s");
    IntTextInjective(s1, s2);
  }

  /** The saved file's name; `stamp` is the wall-clock reading, supplied from outside. */
  function AnomalyFileName(stamp: string, frameNumber: nat): string {
    "anomaly_" + stamp + "_frame_" + Decimal(frameNumber) + ".jpg"
  }

  /** Two saves share a file name exactly when they have the same stamp and frame number. */
  lemma AnomalyFileNameInjective(s1: string, f1: nat, s2: string, f2: nat)
    ensures AnomalyFileName(s1, f1) == AnomalyFileName(s2, f2) <==> s1 == s2 && f1 == f2
  {
    if AnomalyFileName(s1, f1) == AnomalyFileName(s2, f2) {
      var x1, x2 := "anomaly_" + s1 + "_frame_", "anomaly_" + s2 + "_frame_";
      StripSuffix(x1 + Decimal(f1), x2 + Decimal(f2), ".jpg");
      NonDigitThenDigits(x1, Decimal(f1), x2, Decimal(f2));
      DecimalInjective(f1, f2);
      StripSuffix("anomaly_" + s1, "anomaly_" + s2, "_frame_");
      StripPrefix("anomaly_", s1, s2);
    }
  }

  /** The time in seconds of frame `frameNumber` at `fps` frames per second. */
  function Seconds(frameNumber: nat, fps: real): real
    requires fps != 0.0
  {
    frameNumber as real / fps
  }

  /** The time of a frame times the frame rate is the frame number. */
  lemma SecondsTimesRate(frameNumber: nat, fps: real)
    requires fps != 0.0
    ensures Seconds(frameNumber, fps) * fps == frameNumber as real
  {
  }

  /**
   * _save_anomaly_frame, less the file write: the record of frame `frameNumber`,
   * whose time in seconds is the frame number over the frame rate, annotated with
   * the dangerous pairs and the caption, and named after the clock reading.
   */
  function SaveAnomalyFrame(frame: Frame, frameNumber: nat, fps: real, pairs: seq<DangerPair>, stamp: string): (r: AnomalyRecord)
    requires fps != 0.0
    ensures r.frameNumber == frameNumber && r.time == Seconds(frameNumber, fps)
    ensures r.image.base == frame && r.image.drawn == pairs
    ensures r.image.caption == Caption(frameNumber, r.time)
    ensures r.filename == AnomalyFileName(stamp, frameNumber)
  {
    var time := Seconds(frameNumber, fps);
    AnomalyRecord(Annotated(frame, pairs, Caption(frameNumber, time)), frameNumber, time, AnomalyFileName(stamp, frameNumber))
  }

  const SafeMessage := "未检测到异常行为"

  /** _format_safe_result */
  function FormatSafeResult(): (r: Response)
    ensures r.status == "success" && r.data.SafePayload?
  {
    Response("success", SafePayload(SafeMessage))
  }

  /** One transport entry: the record's image, encoded and then base64-encoded, with its metadata. */
  function Entry(rec: AnomalyRecord, encode: ImageEncoder): ImageEntry {
    ImageEntry(Base64.Encode(encode(rec.image)), rec.filename, rec.frameNumber, rec.time)
  }

  /** The entries of a list of records, in order. */
  function Entries(records: seq<AnomalyRecord>, encode: ImageEncoder): seq<ImageEntry> {
    if records == [] then []
    else Entries(records[..|records| - 1], encode) + [Entry(records[|records| - 1], encode)]
  }

  /** The detail line of the k-th anomaly (numbered from 1). */
  function Detail(k: nat, rec: AnomalyRecord): string {
    "异常" + Decimal(k) + ": 帧" + Decimal(rec.frameNumber) + ", 时间" + IntText(Trunc(rec.time)) + "秒"
  }

  /** A detail line names exactly its position, the frame number and the whole seconds. */
  lemma DetailDetermines(k1: nat, r1: AnomalyRecord, k2: nat, r2: AnomalyRecord)
    ensures Detail(k1, r1) == Detail(k2, r2) <==>
              k1 == k2 && r1.frameNumber == r2.frameNumber && Trunc(r1.time) == Trunc(r2.time)
  {
    if Detail(k1, r1) == Detail(k2, r2) {
      DetailText(k1, r1.frameNumber, Trunc(r1.time), k2, r2.frameNumber, Trunc(r2.time));
    }
  }

  /** The detail text read back: one position, one frame number and one count of seconds. */
  lemma DetailText(k1: nat, f1: nat, s1: int, k2: nat, f2: nat, s2: int)
    requires "异常" + Decimal(k1) + ": 帧" + Decimal(f1) + ", 时间" + IntText(s1) + "秒"
          == "异常" + Decimal(k2) + ": 帧" + Decimal(f2) + ", 时间" + IntText(s2) + "秒"
    ensures k1 == k2 && f1 == f2 && s1 == s2
  {
    var i1, i2 := IntText(s1), IntText(s2);
    Regroup7("异常", Decimal(k1), ": 帧", Decimal(f1), ", 时间", i1, "秒");
    Regroup7("异常", Decimal(k2), ": 帧", Decimal(f2), ", 时间", i2, "秒");
    var t1, t2 := Decimal(f1) + (", 时间" + (i1 + "秒")), Decimal(f2) + (", 时间" + (i2 + "秒"));
    StripPrefix("异常", Decimal(k1) + (": 帧" + t1), Decimal(k2) + (": 帧" + t2));
    LeadingNumber(k1, ": 帧", t1, k2, t2);
    LeadingNumber(f1, ", 时间", i1 + "秒", f2, i2 + "秒");
    StripSuffix(i1, i2, "秒");
    IntTextInjective(s1, s2);
  }

  /** The detail lines of a list of records, each numbered by its position. */
  function Details(records: seq<AnomalyRecord>): seq<string> {
    if records == [] then []
    else Details(records[..|records| - 1]) + [Detail(|records|, records[|records| - 1])]
  }

  /** The message: the count, then the detail lines joined by "; ". */
  function SummaryText(count: nat, details: seq<string>): string {
    "检测到" + Decimal(count) + "处异常行为: " + Join(details, "; ")
  }

  /** The message names exactly one count and one joined list of details. */
  lemma SummaryTextDetermines(c1: nat, d1: seq<string>, c2: nat, d2: seq<string>)
    ensures SummaryText(c1, d1) == SummaryText(c2, d2) <==> c1 == c2 && Join(d1, "; ") == Join(d2, "; ")
  {
    var j1, j2 := Join(d1, "; "), Join(d2, "; ");
    if SummaryText(c1, d1) == SummaryText(c2, d2) {
      Assoc("检测到" + Decimal(c1), "处异常行为: ", j1);
      Assoc("检测到", Decimal(c1), "处异常行为: " + j1);
      Assoc("检测到" + Decimal(c2), "处异常行为: ", j2);
      Assoc("检测到", Decimal(c2), "处异常行为: " + j2);
      StripPrefix("检测到", Decimal(c1) + ("处异常行为: " + j1), Decimal(c2) + ("处异常行为: " + j2));
      LeadingNumber(c1, "处异常行为: ", j1, c2, j2);
    }
  }

  /** The structure _format_anomaly_result builds; FormatAnomalyResult is proved to build it. */
  function AnomalyResult(records: seq<AnomalyRecord>, encode: ImageEncoder): Response {
    Response("success", AnomalyPayload(SummaryText(|records|, Details(records)), Entries(records, encode)))
  }

  /** The result process_video_stream hands back for a list of admitted anomalies. */
  function Package(records: seq<AnomalyRecord>, encode: ImageEncoder): (r: Response)
    ensures r.status == "success"
    ensures r.data.SafePayload? <==> records == []
  {
    if records == [] then FormatSafeResult() else AnomalyResult(records, encode)
  }

  /** _format_anomaly_result: one loop appending an image entry and a detail line per record. */
  method FormatAnomalyResult(records: seq<AnomalyRecord>, encode: ImageEncoder) returns (r: Response)
    ensures r == AnomalyResult(records, encode)
  {
    var images: seq<ImageEntry> := [];
    var details: seq<string> := [];
    for i := 0 to |records|
      invariant images == Entries(records[..i], encode)
      invariant details == Details(records[..i]) && |details| == i
    {
      var info := records[i];
      var imgBase64 := Base64.Encode(encode(info.image));
      images := images + [ImageEntry(imgBase64, info.filename, info.frameNumber, info.time)];
      details := details + [Detail(|details| + 1, info)];
      assert records[..i + 1][..i] == records[..i];
    }
    assert records[..|records|] == records;
    r := Response("success", AnomalyPayload(SummaryText(|records|, details), images));
  }

  /** Entry k of the list is the entry of record k. */
  lemma {:induction false} EntriesAt(records: seq<AnomalyRecord>, encode: ImageEncoder)
    ensures |Entries(records, encode)| == |records|
    ensures forall k :: 0 <= k < |records| ==> Entries(records, encode)[k] == Entry(records[k], encode)
  {
    if records != [] {
      var init := records[..|records| - 1];
      EntriesAt(init, encode);
      var entries := Entries(records, encode);
      assert entries == Entries(init, encode) + [Entry(records[|init|], encode)];
      forall k | 0 <= k < |records|
        ensures entries[k] == Entry(records[k], encode)
      {
        if k < |init| {
          assert init[k] == records[k];
        }
      }
    }
  }

  /** Detail line k is numbered k + 1 and describes record k. */
  lemma {:induction false} DetailsAt(records: seq<AnomalyRecord>, k: nat)
    requires k < |records|
    ensures |Details(records)| == |records|
    ensures Details(records)[k] == Detail(k + 1, records[k])
  {
    DetailsLast(records);
    if k < |records| - 1 {
      var init := records[..|records| - 1];
      DetailsAt(init, k);
      assert init[k] == records[k];
      assert Details(records)[k] == Details(init)[k];
    }
  }

  /** The last detail line describes the last record. */
  lemma DetailsLast(records: seq<AnomalyRecord>)
    requires records != []
    ensures |Details(records)| == |records|
    ensures Details(records) == Details(records[..|records| - 1]) + [Detail(|records|, records[|records| - 1])]
  {
    DetailsLength(records);
  }

  /** There is one detail line per record. */
  lemma {:induction false} DetailsLength(records: seq<AnomalyRecord>)
    ensures |Details(records)| == |records|
  {
    if records != [] {
      DetailsLength(records[..|records| - 1]);
    }
  }

  /**
   * The anomalous structure has one entry per record, in order, carrying that record's
   * frame number, time and file name, and image data the client decodes back to
   * exactly the encoder's bytes for that record's annotated frame.
   */
  lemma AnomalyResultFaithful(records: seq<AnomalyRecord>, encode: ImageEncoder)
    ensures var p := AnomalyResult(records, encode).data;
      && p.AnomalyPayload?
      && |p.images| == |records|
      && forall k :: 0 <= k < |records| ==>
           && p.images[k].frame == records[k].frameNumber
           && p.images[k].time == records[k].time
           && p.images[k].filename == records[k].filename
           && Base64.Decode(p.images[k].imageData) == Some(encode(records[k].image))
  {
    EntriesAt(records, encode);
    forall k | 0 <= k < |records|
      ensures Base64.Decode(Base64.Encode(encode(records[k].image))) == Some(encode(records[k].image))
    {
      Base64.DecodeEncode(encode(records[k].image));
    }
  }
}
