/**
 * What one detector invocation means for one frame: the confident person and
 * truck boxes, and every (person, truck) combination in the danger zone.
 * These functions are the reference that VideoProcessor.ProcessFrame is proved against.
 */
module FrameAnalysis {

  import opened DangerZone
  import opened Settings

  /** A decoded raster frame; its pixels are opaque to the model. */
  datatype Frame = Frame(pixels: seq<int>)

  /** An opened video: its frames in file order and the frame rate the decoder reports. */
  datatype Video = Video(frames: seq<Frame>, fps: real)

  /** One detector output row: class id, confidence and box. */
  datatype Detection = Detection(cls: int, conf: real, box: Box)

  /** The detection model, as a function from a frame to its detections. */
  type Detector = Frame -> seq<Detection>

  /** A hazardous (person box, truck box) combination found in one frame. */
  type DangerPair = (Box, Box)

  /** What process_frame returns: whether any pair was found, and the pairs. */
  datatype Verdict = Verdict(isDangerous: bool, pairs: seq<DangerPair>)

  const PersonClass := 0
  const TruckClass := 1

  predicate IsTruck(d: Detection, cfg: Config) {
    d.cls == TruckClass && d.conf > cfg.truckThreshold
  }

  predicate IsPerson(d: Detection, cfg: Config) {
    d.cls == PersonClass && d.conf > cfg.personThreshold
  }

  /** The boxes of the detections of class `cls` whose confidence exceeds `threshold`, in detector order. */
  function Boxes(dets: seq<Detection>, cls: int, threshold: real): seq<Box>
  {
    if dets == [] then []
    else
      var d := dets[|dets| - 1];
      Boxes(dets[..|dets| - 1], cls, threshold) + (if d.cls == cls && d.conf > threshold then [d.box] else [])
  }

  function TruckBoxes(dets: seq<Detection>, cfg: Config): seq<Box> {
    Boxes(dets, TruckClass, cfg.truckThreshold)
  }

  function PersonBoxes(dets: seq<Detection>, cfg: Config): seq<Box> {
    Boxes(dets, PersonClass, cfg.personThreshold)
  }

  /** The pairs of one person with each truck, in truck order, that are in the danger zone. */
  function PairsWith(person: Box, trucks: seq<Box>): seq<DangerPair>
  {
    if trucks == [] then []
    else
      var t := trucks[|trucks| - 1];
      PairsWith(person, trucks[..|trucks| - 1]) + (if InDangerZone(person, t) then [(person, t)] else [])
  }

  /** All dangerous pairs, person-major and truck-minor, as the nested loops visit them. */
  function DangerPairs(persons: seq<Box>, trucks: seq<Box>): seq<DangerPair>
  {
    if persons == [] then []
    else DangerPairs(persons[..|persons| - 1], trucks) + PairsWith(persons[|persons| - 1], trucks)
  }

  /** Reading one more detection appends its box when it is of the class and confident enough. */
  lemma BoxesStep(dets: seq<Detection>, cls: int, threshold: real, i: nat)
    requires i < |dets|
    ensures Boxes(dets[..i + 1], cls, threshold)
            == Boxes(dets[..i], cls, threshold) + (if dets[i].cls == cls && dets[i].conf > threshold then [dets[i].box] else [])
  {
    assert dets[..i + 1][..i] == dets[..i];
  }

  /** Testing one more truck appends the pair when it is in the danger zone. */
  lemma PairsWithStep(person: Box, trucks: seq<Box>, j: nat)
    requires j < |trucks|
    ensures PairsWith(person, trucks[..j + 1])
            == PairsWith(person, trucks[..j]) + (if InDangerZone(person, trucks[j]) then [(person, trucks[j])] else [])
  {
    assert trucks[..j + 1][..j] == trucks[..j];
  }

  /** Taking one more person appends that person's pairs. */
  lemma DangerPairsStep(persons: seq<Box>, trucks: seq<Box>, i: nat)
    requires i < |persons|
    ensures DangerPairs(persons[..i + 1], trucks) == DangerPairs(persons[..i], trucks) + PairsWith(persons[i], trucks)
  {
    assert persons[..i + 1][..i] == persons[..i];
  }

  /** The verdict process_frame computes from the detector's output. */
  function Classify(dets: seq<Detection>, cfg: Config): Verdict {
    var pairs := DangerPairs(PersonBoxes(dets, cfg), TruckBoxes(dets, cfg));
    Verdict(pairs != [], pairs)
  }

  /** A box is kept exactly when some detection of the class is confident enough and has it. */
  lemma {:induction false} BoxesMembership(dets: seq<Detection>, cls: int, threshold: real, b: Box)
    ensures b in Boxes(dets, cls, threshold) <==>
            exists i :: 0 <= i < |dets| && dets[i].cls == cls && dets[i].conf > threshold && dets[i].box == b
  {
    if dets != [] {
      var init := dets[..|dets| - 1];
      BoxesMembership(init, cls, threshold, b);
      assert forall i :: 0 <= i < |init| ==> init[i] == dets[i];
    }
  }

  lemma {:induction false} PairsWithMembership(person: Box, trucks: seq<Box>, q: DangerPair)
    ensures q in PairsWith(person, trucks) <==> q.0 == person && q.1 in trucks && InDangerZone(person, q.1)
  {
    if trucks != [] {
      var init := trucks[..|trucks| - 1];
      PairsWithMembership(person, init, q);
      assert trucks == init + [trucks[|trucks| - 1]];
    }
  }

  /** The pairs are exactly the dangerous person x truck combinations. */
  lemma {:induction false} DangerPairsMembership(persons: seq<Box>, trucks: seq<Box>, q: DangerPair)
    ensures q in DangerPairs(persons, trucks) <==> q.0 in persons && q.1 in trucks && InDangerZone(q.0, q.1)
  {
    if persons != [] {
      var init := persons[..|persons| - 1];
      DangerPairsMembership(init, trucks, q);
      PairsWithMembership(persons[|persons| - 1], trucks, q);
      assert persons == init + [persons[|persons| - 1]];
    }
  }

  /**
   * A frame is dangerous exactly when some confident person detection and some
   * confident truck detection form a danger-zone pair; every reported pair is such a one.
   */
  lemma ClassifyCorrect(dets: seq<Detection>, cfg: Config)
    ensures Classify(dets, cfg).isDangerous <==>
            exists i, j :: 0 <= i < |dets| && 0 <= j < |dets| && IsPerson(dets[i], cfg) && IsTruck(dets[j], cfg)
                           && InDangerZone(dets[i].box, dets[j].box)
    ensures forall q :: q in Classify(dets, cfg).pairs ==> InDangerZone(q.0, q.1)
  {
    var persons, trucks := PersonBoxes(dets, cfg), TruckBoxes(dets, cfg);
    var pairs := Classify(dets, cfg).pairs;
    forall q | q in pairs ensures InDangerZone(q.0, q.1) {
      DangerPairsMembership(persons, trucks, q);
    }
    if pairs != [] {
      var q := pairs[0];
      DangerPairsMembership(persons, trucks, q);
      BoxesMembership(dets, PersonClass, cfg.personThreshold, q.0);
      BoxesMembership(dets, TruckClass, cfg.truckThreshold, q.1);
    }
    forall i, j | 0 <= i < |dets| && 0 <= j < |dets| && IsPerson(dets[i], cfg) && IsTruck(dets[j], cfg)
                  && InDangerZone(dets[i].box, dets[j].box)
      ensures pairs != []
    {
      BoxesMembership(dets, PersonClass, cfg.personThreshold, dets[i].box);
      BoxesMembership(dets, TruckClass, cfg.truckThreshold, dets[j].box);
      DangerPairsMembership(persons, trucks, (dets[i].box, dets[j].box));
    }
  }
}
