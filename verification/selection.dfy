/**
 * The anomaly-selection policy of process_video_stream, stated declaratively over
 * frame numbers. Frames are numbered from 1, as frame_count counts them.
 * `alarms[f - 1]` says whether frame f was both sampled and found dangerous (see
 * Alarms). A selection `sel` (the admitted frame numbers, in admission order)
 * together with `read` (how many frames were pulled from the decoder) is valid
 * when the sampling loop may end in that state; ValidSelectionUnique shows that
 * at most one state qualifies. Admitted computes the selection frame by frame, as
 * the loop of VideoProcessor.ProcessVideoStream does, and AdmittedValid shows it is
 * that one.
 */
module Selection {

  import opened FrameAnalysis
  import opened Settings

  /** Frame number f is sampled (a multiple of the skip) and the detector finds it dangerous. */
  predicate SampledDanger(f: int, frame: Frame, detect: Detector, cfg: Config)
    requires cfg.Valid()
  {
    f % cfg.frameSkip == 0 && Classify(detect(frame), cfg).isDangerous
  }

  /** SampledDanger of every frame of the video, in order. */
  function Alarms(frames: seq<Frame>, detect: Detector, cfg: Config): (alarms: seq<bool>)
    requires cfg.Valid()
    ensures |alarms| == |frames|
  {
    if frames == [] then []
    else Alarms(frames[..|frames| - 1], detect, cfg) + [SampledDanger(|frames|, frames[|frames| - 1], detect, cfg)]
  }

  /** Entry i of the alarms is the verdict on frame number i + 1. */
  lemma {:induction false} AlarmsAt(frames: seq<Frame>, detect: Detector, cfg: Config, i: int)
    requires cfg.Valid() && 0 <= i < |frames|
    ensures Alarms(frames, detect, cfg)[i] == SampledDanger(i + 1, frames[i], detect, cfg)
  {
    var init := frames[..|frames| - 1];
    if i < |init| {
      AlarmsAt(init, detect, cfg, i);
      assert init[i] == frames[i];
    }
  }

  /** Up to the skip, the only sampled frame number is the skip itself. */
  lemma FirstSampled(f: int, skip: int)
    requires 1 <= f <= skip
    ensures f % skip == 0 <==> f == skip
  {
  }

  predicate Alarm(alarms: seq<bool>, f: int) {
    1 <= f <= |alarms| && alarms[f - 1]
  }

  predicate Increasing(sel: seq<int>) {
    forall i, j :: 0 <= i < j < |sel| ==> sel[i] < sel[j]
  }

  /** Each admitted frame after the first is more than `interval` frames after its predecessor. */
  predicate Spaced(sel: seq<int>, interval: int) {
    forall k :: 0 < k < |sel| ==> sel[k] - sel[k - 1] > interval
  }

  /** An alarm at f is suppressed by an earlier admission at most `interval` frames before it. */
  predicate Suppressed(sel: seq<int>, interval: int, f: int) {
    exists k :: 0 <= k < |sel| && sel[k] < f <= sel[k] + interval
  }

  /**
   * The facts that hold after `read` frames: at most the cap admitted, every admitted
   * frame an alarm already read, admissions increasing and spaced, and every alarm
   * read but not admitted suppressed by an admission shortly before it.
   */
  predicate SelectedSoFar(alarms: seq<bool>, cfg: Config, sel: seq<int>, read: int) {
    && 0 <= read <= |alarms|
    && |sel| <= cfg.maxAnomalies
    && (forall k :: 0 <= k < |sel| ==> sel[k] <= read && Alarm(alarms, sel[k]))
    && Increasing(sel)
    && Spaced(sel, cfg.minInterval)
    && (forall f :: 1 <= f <= read && Alarm(alarms, f) && f !in sel ==> Suppressed(sel, cfg.minInterval, f))
  }

  /** Reading ends when the frames run out, or on the very frame that reaches the cap. */
  predicate Stopped(alarms: seq<bool>, cfg: Config, sel: seq<int>, read: int) {
    && (read < |alarms| ==> |sel| == cfg.maxAnomalies)
    && (|sel| == cfg.maxAnomalies ==> 0 < |sel| && read == sel[|sel| - 1])
  }

  predicate ValidSelection(alarms: seq<bool>, cfg: Config, sel: seq<int>, read: int) {
    SelectedSoFar(alarms, cfg, sel, read) && Stopped(alarms, cfg, sel, read)
  }

  /** In an increasing, spaced selection every position is more than `interval` after every earlier one. */
  lemma SpacedFromAllEarlier(sel: seq<int>, interval: int)
    requires Increasing(sel) && Spaced(sel, interval)
    ensures forall k, i :: 0 <= k < i < |sel| ==> sel[i] - sel[k] > interval
  {
    forall k, i | 0 <= k < i < |sel| ensures sel[i] - sel[k] > interval {
      assert sel[k] <= sel[i - 1];
    }
  }

  /**
   * Two increasing selections that agree before position i, where the first is
   * smaller at i: the first one's frame at i is not in the second, and (when the
   * first is also spaced) no admission of the second suppresses it.
   */
  lemma OvertakenFrame(a: seq<int>, b: seq<int>, interval: int, i: nat)
    ensures Increasing(a) && Spaced(a, interval) && Increasing(b) && i < |a| && i < |b|
            && (forall j :: 0 <= j < i ==> a[j] == b[j]) && a[i] < b[i]
            ==> a[i] !in b && !Suppressed(b, interval, a[i])
  {
    if Increasing(a) && Spaced(a, interval) && Increasing(b) && i < |a| && i < |b|
       && (forall j :: 0 <= j < i ==> a[j] == b[j]) && a[i] < b[i]
    {
      SpacedFromAllEarlier(a, interval);
      forall k | 0 <= k < |b| ensures b[k] != a[i] && !(b[k] < a[i] <= b[k] + interval) {
        if k < i {
          assert b[k] == a[k];
        } else if k > i {
          assert b[i] < b[k];
        }
      }
    }
  }

  /** If two valid selections agree before position i, the first is not smaller at i. */
  lemma NotEarlier(alarms: seq<bool>, cfg: Config, a: seq<int>, ra: int, b: seq<int>, rb: int, i: nat)
    requires cfg.Valid()
    requires ValidSelection(alarms, cfg, a, ra) && ValidSelection(alarms, cfg, b, rb)
    requires i < |a| && i < |b|
    requires forall j :: 0 <= j < i ==> a[j] == b[j]
    ensures b[i] <= a[i]
  {
    OvertakenFrame(a, b, cfg.minInterval, i);
    if a[i] < b[i] {
      // a[i] is an alarm that b read (b[i] came later) yet neither admitted nor suppressed
      assert false;
    }
  }

  /** The frame a valid selection would admit after a proper prefix of it. */
  lemma NextAdmission(a: seq<int>, b: seq<int>, interval: int)
    ensures Increasing(b) && Spaced(b, interval) && |a| < |b| && a == b[..|a|]
            ==> b[|a|] !in a && !Suppressed(a, interval, b[|a|])
  {
    if Increasing(b) && Spaced(b, interval) && |a| < |b| && a == b[..|a|] {
      SpacedFromAllEarlier(b, interval);
      forall k | 0 <= k < |a| ensures a[k] == b[k] && b[k] < b[|a|] {
      }
    }
  }

  /** A valid selection is never a proper prefix of another valid one. */
  lemma NotPrefix(alarms: seq<bool>, cfg: Config, a: seq<int>, ra: int, b: seq<int>, rb: int)
    requires cfg.Valid()
    requires ValidSelection(alarms, cfg, a, ra) && ValidSelection(alarms, cfg, b, rb)
    requires |a| <= |b| && a == b[..|a|]
    ensures |a| == |b|
  {
    NextAdmission(a, b, cfg.minInterval);
    if |a| < |b| {
      // b's next admission is an alarm; a either read it without admitting or
      // suppressing it, or stopped early, which needs a full cap that b exceeds
      assert false;
    }
  }

  /** Two valid selections agree on their first i positions. */
  lemma {:induction false} AgreeBefore(alarms: seq<bool>, cfg: Config, a: seq<int>, ra: int, b: seq<int>, rb: int, i: nat)
    requires cfg.Valid()
    requires ValidSelection(alarms, cfg, a, ra) && ValidSelection(alarms, cfg, b, rb)
    requires i <= |a| && i <= |b|
    ensures forall j :: 0 <= j < i ==> a[j] == b[j]
  {
    if i > 0 {
      AgreeBefore(alarms, cfg, a, ra, b, rb, i - 1);
      NotEarlier(alarms, cfg, a, ra, b, rb, i - 1);
      NotEarlier(alarms, cfg, b, rb, a, ra, i - 1);
    }
  }

  /** The policy determines its outcome: there is at most one valid selection. */
  lemma ValidSelectionUnique(alarms: seq<bool>, cfg: Config, a: seq<int>, ra: int, b: seq<int>, rb: int)
    requires cfg.Valid()
    requires ValidSelection(alarms, cfg, a, ra) && ValidSelection(alarms, cfg, b, rb)
    ensures a == b && ra == rb
  {
    if |a| <= |b| {
      AgreeBefore(alarms, cfg, a, ra, b, rb, |a|);
      assert a == b[..|a|];
      NotPrefix(alarms, cfg, a, ra, b, rb);
    } else {
      AgreeBefore(alarms, cfg, a, ra, b, rb, |b|);
      assert b == a[..|b|];
      NotPrefix(alarms, cfg, b, rb, a, ra);
    }
    assert a == b;
  }

  /** Nothing is admitted exactly when no sampled frame of the whole video is dangerous. */
  lemma NothingSelectedIffNoAlarm(alarms: seq<bool>, cfg: Config, sel: seq<int>, read: int)
    requires cfg.Valid() && ValidSelection(alarms, cfg, sel, read)
    ensures sel == [] <==> forall f :: !Alarm(alarms, f)
  {
    if sel != [] {
      assert Alarm(alarms, sel[0]);
    }
  }

  /** Reading a frame that is not an alarm (unsampled, or sampled and safe) keeps the facts. */
  lemma ReadQuietFrame(alarms: seq<bool>, cfg: Config, sel: seq<int>, read: int)
    requires SelectedSoFar(alarms, cfg, sel, read) && read < |alarms| && !alarms[read]
    ensures SelectedSoFar(alarms, cfg, sel, read + 1)
  {
  }

  /** An alarm within the interval after the last admission is passed over: it is suppressed. */
  lemma PassOverFrame(alarms: seq<bool>, cfg: Config, sel: seq<int>, read: int)
    requires SelectedSoFar(alarms, cfg, sel, read) && read < |alarms| && alarms[read]
    requires sel != [] && read + 1 - sel[|sel| - 1] <= cfg.minInterval
    ensures SelectedSoFar(alarms, cfg, sel, read + 1)
  {
    var last := |sel| - 1;
    assert sel[last] < read + 1 <= sel[last] + cfg.minInterval;
    assert Suppressed(sel, cfg.minInterval, read + 1);
  }

  /** Appending a frame later than every admission and far enough after the last keeps the order and spacing. */
  lemma AppendKeepsOrder(sel: seq<int>, interval: int, f: int)
    requires Increasing(sel) && Spaced(sel, interval)
    requires forall k :: 0 <= k < |sel| ==> sel[k] < f
    requires sel == [] || f - sel[|sel| - 1] > interval
    ensures Increasing(sel + [f]) && Spaced(sel + [f], interval)
  {
    var next := sel + [f];
    forall i, j | 0 <= i < j < |next|
      ensures next[i] < next[j]
    {
      assert next[i] == sel[i];
      if j < |sel| {
        assert next[j] == sel[j];
      }
    }
    forall k | 0 < k < |next|
      ensures next[k] - next[k - 1] > interval
    {
      assert next[k - 1] == sel[k - 1];
      if k < |sel| {
        assert next[k] == sel[k];
      }
    }
  }

  /** Appending an admission keeps every earlier suppressed alarm suppressed. */
  lemma AppendKeepsSuppressed(alarms: seq<bool>, sel: seq<int>, interval: int, read: int)
    requires forall f :: 1 <= f <= read && Alarm(alarms, f) && f !in sel ==> Suppressed(sel, interval, f)
    ensures forall f :: 1 <= f <= read + 1 && Alarm(alarms, f) && f !in sel + [read + 1]
              ==> Suppressed(sel + [read + 1], interval, f)
  {
    var next := sel + [read + 1];
    forall f | 1 <= f <= read + 1 && Alarm(alarms, f) && f !in next
      ensures Suppressed(next, interval, f)
    {
      assert f != read + 1 && f !in sel;
      var k :| 0 <= k < |sel| && sel[k] < f <= sel[k] + interval;
      assert next[k] == sel[k];
    }
  }

  /** The first alarm, or one more than the interval after the last admission, below the cap is admitted. */
  lemma AdmitFrame(alarms: seq<bool>, cfg: Config, sel: seq<int>, read: int)
    requires SelectedSoFar(alarms, cfg, sel, read) && read < |alarms| && alarms[read]
    requires |sel| < cfg.maxAnomalies
    requires sel == [] || read + 1 - sel[|sel| - 1] > cfg.minInterval
    ensures SelectedSoFar(alarms, cfg, sel + [read + 1], read + 1)
  {
    var next := sel + [read + 1];
    forall k | 0 <= k < |next|
      ensures next[k] <= read + 1 && Alarm(alarms, next[k])
    {
      if k < |sel| {
        assert next[k] == sel[k];
      }
    }
    AppendKeepsOrder(sel, cfg.minInterval, read + 1);
    AppendKeepsSuppressed(alarms, sel, cfg.minInterval, read);
  }

  /** Every admitted frame number lies in 1..n. */
  predicate InRange(sel: seq<int>, n: int) {
    forall k :: 0 <= k < |sel| ==> 1 <= sel[k] <= n
  }

  lemma InRangeWiden(sel: seq<int>, m: int, n: int)
    requires InRange(sel, m) && m <= n
    ensures InRange(sel, n)
  {
  }

  /** An alarm at frame f is admitted after `sel`: the cap is not reached, and f is the first or far enough from the last. */
  predicate Admits(sel: seq<int>, cfg: Config, f: int) {
    |sel| < cfg.maxAnomalies && (sel == [] || f - sel[|sel| - 1] > cfg.minInterval)
  }

  /** The frames admitted after reading the frames of `alarms` one at a time, as the sampling loop does. */
  function Admitted(alarms: seq<bool>, cfg: Config): (sel: seq<int>)
    ensures InRange(sel, |alarms|)
  {
    if alarms == [] then []
    else
      var f := |alarms|;
      var sel := Admitted(alarms[..f - 1], cfg);
      if alarms[f - 1] && Admits(sel, cfg, f) then sel + [f] else sel
  }

  /** Reading frame n + 1 admits it exactly when it is an alarm that Admits accepts. */
  lemma AdmittedStep(alarms: seq<bool>, cfg: Config, n: nat)
    requires n < |alarms|
    ensures Admitted(alarms[..n + 1], cfg) ==
              var sel := Admitted(alarms[..n], cfg);
              if alarms[n] && Admits(sel, cfg, n + 1) then sel + [n + 1] else sel
  {
    assert alarms[..n + 1][..n] == alarms[..n];
  }

  /** Once the cap is reached, reading further frames admits nothing more. */
  lemma {:induction false} AdmittedCapped(alarms: seq<bool>, cfg: Config, m: nat, n: nat)
    requires m <= n <= |alarms| && |Admitted(alarms[..m], cfg)| >= cfg.maxAnomalies
    ensures Admitted(alarms[..n], cfg) == Admitted(alarms[..m], cfg)
  {
    if m < n {
      AdmittedCapped(alarms, cfg, m, n - 1);
      AdmittedStep(alarms, cfg, n - 1);
    }
  }

  /** An admission that reaches the cap is the last: the whole selection ends with it. */
  lemma AdmittedLast(alarms: seq<bool>, cfg: Config, n: nat)
    requires n < |alarms| && alarms[n] && Admits(Admitted(alarms[..n], cfg), cfg, n + 1)
    requires |Admitted(alarms[..n], cfg)| + 1 >= cfg.maxAnomalies
    ensures Admitted(alarms, cfg) == Admitted(alarms[..n], cfg) + [n + 1]
  {
    AdmittedStep(alarms, cfg, n);
    AdmittedCapped(alarms, cfg, n + 1, |alarms|);
    assert alarms[..|alarms|] == alarms;
  }

  /** Below the cap, reading one more frame keeps the frame-by-frame selection within the policy. */
  lemma AdmittedSoFarStep(alarms: seq<bool>, cfg: Config, read: nat)
    requires read < |alarms| && |Admitted(alarms[..read], cfg)| < cfg.maxAnomalies
    requires SelectedSoFar(alarms, cfg, Admitted(alarms[..read], cfg), read)
    ensures SelectedSoFar(alarms, cfg, Admitted(alarms[..read + 1], cfg), read + 1)
  {
    var sel := Admitted(alarms[..read], cfg);
    AdmittedStep(alarms, cfg, read);
    if !alarms[read] {
      ReadQuietFrame(alarms, cfg, sel, read);
    } else if Admits(sel, cfg, read + 1) {
      AdmitFrame(alarms, cfg, sel, read);
    } else {
      PassOverFrame(alarms, cfg, sel, read);
    }
  }

  /** Where reading stops: the cap reached at `read` means the last admission was frame `read`, and nothing follows it. */
  lemma AdmittedStop(alarms: seq<bool>, cfg: Config, read: nat)
    requires cfg.Valid() && read <= |alarms|
    requires read == 0 || |Admitted(alarms[..read - 1], cfg)| < cfg.maxAnomalies
    requires |Admitted(alarms[..read], cfg)| >= cfg.maxAnomalies
    ensures 0 < read && Admitted(alarms, cfg) == Admitted(alarms[..read], cfg)
    ensures var sel := Admitted(alarms, cfg); |sel| == cfg.maxAnomalies && sel[|sel| - 1] == read
  {
    AdmittedStep(alarms, cfg, read - 1);
    AdmittedCapped(alarms, cfg, read, |alarms|);
    assert alarms[..|alarms|] == alarms;
  }

  /**
   * The frame-by-frame selection is the one the policy describes: reading stops at
   * some frame count `read` for which it is a valid selection (and by
   * ValidSelectionUnique the only one).
   */
  lemma AdmittedValid(alarms: seq<bool>, cfg: Config) returns (read: nat)
    requires cfg.Valid()
    ensures ValidSelection(alarms, cfg, Admitted(alarms, cfg), read)
  {
    read := 0;
    assert alarms[..0] == [];
    while read < |alarms| && |Admitted(alarms[..read], cfg)| < cfg.maxAnomalies
      invariant read <= |alarms|
      invariant SelectedSoFar(alarms, cfg, Admitted(alarms[..read], cfg), read)
      invariant read == 0 || |Admitted(alarms[..read - 1], cfg)| < cfg.maxAnomalies
      decreases |alarms| - read
    {
      AdmittedSoFarStep(alarms, cfg, read);
      read := read + 1;
    }
    if |Admitted(alarms[..read], cfg)| >= cfg.maxAnomalies {
      AdmittedStop(alarms, cfg, read);
    } else {
      assert alarms[..read] == alarms;
    }
  }

  /** Nothing is admitted exactly when no frame raises an alarm. */
  lemma AdmittedEmptyIffNoAlarm(alarms: seq<bool>, cfg: Config)
    requires cfg.Valid()
    ensures Admitted(alarms, cfg) == [] <==> forall f :: !Alarm(alarms, f)
  {
    var read := AdmittedValid(alarms, cfg);
    NothingSelectedIffNoAlarm(alarms, cfg, Admitted(alarms, cfg), read);
  }
}
