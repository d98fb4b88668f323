/** The calibration state of a gate: rolling window, histograms and scoring regime.

    A score may only be compared with scores measured the same way.  Every retained
    score carries, as a ghost, the regime and the model generation it was measured
    under; the invariant says that these are the current ones. */
module Calibration {
  import opened Arithmetic
  import opened ScoreWindow
  import opened ScoreHistogram

  const DEFAULT_MIN_SAMPLES := 128

  datatype Error = Success | Invalid | NoMemory | BadParse

  datatype Mode = WeightedMode | BayesianMode

  datatype Regime = Bayesian | Weighted(raw: real, typed: real)

  datatype Tag = Tag(regime: Regime, generation: nat)

  function Smaller(a: nat, b: nat): nat {
    if a < b then a else b
  }

  // ---- The window, as values ----

  ghost predicate WindowOk(buf: seq<real>, size: nat, count: nat, idx: nat, armed: bool, history: seq<real>) {
    if buf == [] then count == 0 && idx == 0 && !armed && history == []
    else
      && |buf| == size && Holds(buf, history)
      && count == Smaller(|history|, size) && idx == Mod(|history|, size)
      && (armed <==> count == size)
  }

  // The threshold in force: of the last full window, or the fixed one.
  ghost predicate ThresholdOk(threshold: real, fixed: real, size: nat, armed: bool, history: seq<real>, k: real, root: real -> real) {
    if armed then 0 < size <= |history| && threshold == ThresholdOf(history[|history| - size..], k, root)
    else threshold == fixed
  }

  lemma EmptyWindow(buf: seq<real>, size: nat, fixed: real, k: real, root: real -> real)
    requires buf == [] || |buf| == size
    ensures WindowOk(buf, size, 0, 0, false, [])
    ensures ThresholdOk(fixed, fixed, size, false, [], k, root)
  {
    if buf != [] {
      Unique(0, size, 0, 0);
      HoldsNothing(buf);
    }
  }

  lemma WindowMore(buf: seq<real>, size: nat, count: nat, idx: nat, armed: bool, history: seq<real>, score: real)
    requires WindowOk(buf, size, count, idx, armed, history) && buf != []
    ensures idx < size && count <= size
    ensures var count2 := if count < size then count + 1 else count;
      WindowOk(buf[idx := score], size, count2, (idx + 1) % size, armed || count2 >= size, history + [score])
  {
    Divides(|history|, size);
    NextIndex(|history|, size);
    HoldsMore(buf, history, score);
  }

  lemma FullWindow(buf: seq<real>, size: nat, count: nat, idx: nat, history: seq<real>, k: real, root: real -> real)
    requires WindowOk(buf, size, count, idx, true, history)
    ensures |buf| == size > 0 && |history| >= size
    ensures ThresholdOf(buf, k, root) == ThresholdOf(history[|history| - size..], k, root)
  {
    ThresholdOfLast(buf, history, k, root);
  }

  // ---- The combined score, as a function of values ----

  datatype Weights = Weights(raw: real, typed: real)

  function WeightedScore(w: Weights, raw: Score, typed: Score): Score {
    if w.raw > 0.0 && raw.Infinite? then Infinite
    else if w.typed > 0.0 && typed.Infinite? then Infinite
    else
      Finite((if w.raw > 0.0 then Times(raw.value, w.raw) else 0.0)
             + (if w.typed > 0.0 then Times(typed.value, w.typed) else 0.0))
  }

  lemma WeightedOrdered(w: Weights, a: real, b: real, c: real, d: real)
    requires a <= b && c <= d
    ensures WeightedScore(w, Finite(a), Finite(c)).value <= WeightedScore(w, Finite(b), Finite(d)).value
  {
    hide Times;
    if w.raw > 0.0 {
      TimesOrdered(a, b, w.raw);
    }
    if w.typed > 0.0 {
      TimesOrdered(c, d, w.typed);
    }
  }

  /** What a finished evaluation measured. */
  datatype Measured = Measured(raw: Score, typed: Score, combined: Score, detected: bool)

  /** How the two models took the sample. */
  datatype Learning = Learned | OutOfRoom | OutOfMemory | Malformed

  datatype Update = NotAttempted | SkippedDetected | SkippedVerdict | Applied | RejectedLimit | FailedMemory | FailedFormat

  // ---- The state of a gate, as values ----

  /** The settings of detection. */
  datatype Detection = Detection(
    enabled: bool, updateOnlyOnAllow: bool, skipOnDetected: bool, weightRaw: real, weightType: real, mode: Mode)

  /** Two histograms, allocated together or absent together. */
  datatype Cdf = Cdf(rawHist: seq<nat>, typeHist: seq<nat>, rawCount: nat, typeCount: nat) {
    ghost predicate Ok() {
      |rawHist| == |typeHist| && Counts(rawHist, rawCount) && Counts(typeHist, typeCount)
    }
  }

  /** The rolling window and the thresholds; an absent buffer is empty. */
  datatype Adaptive = Adaptive(
    on: bool, size: nat, k: real, buf: seq<real>, count: nat, idx: nat, armed: bool, threshold: real, fixed: real)
  {
    predicate Sized() {
      (buf != [] ==> on && |buf| == size) && (on ==> size > 0) && k >= 0.0
    }

    ghost predicate Ok(past: Past, root: real -> real) {
      && Sized()
      && WindowOk(buf, size, count, idx, armed, past.history)
      && ThresholdOk(threshold, fixed, size, armed, past.history, k, root)
    }

    // The window started over, with the fixed threshold.
    function Restarted(): Adaptive {
      this.(count := 0, idx := 0, armed := false, threshold := fixed)
    }
  }

  /** Scores recorded since the last reset, how each was measured, and the models in force. */
  datatype Past = Past(history: seq<real>, tags: seq<Tag>, generation: nat) {
    function Forgotten(): Past {
      Past([], [], generation)
    }

    // Every retained score was measured this way.
    predicate AllTagged(regime: Regime) {
      |tags| == |history| && forall i :: 0 <= i < |tags| ==> tags[i] == Tag(regime, generation)
    }

    // The window survived exactly if scores are still measured the same way.
    predicate KeptSince(before: Past, sameRegime: bool) {
      history == (if sameRegime then before.history else []) && generation == before.generation
    }
  }

  predicate UsesBayesian(d: Detection, c: Cdf, w: Adaptive) {
    var minSamples := if w.on then w.size else DEFAULT_MIN_SAMPLES;
    d.mode == BayesianMode && c.rawCount >= minSamples && c.typeCount >= minSamples
  }

  /** How scores are measured at present. */
  function RegimeOf(d: Detection, c: Cdf, w: Adaptive): Regime {
    if UsesBayesian(d, c, w) then Bayesian else Weighted(d.weightRaw, d.weightType)
  }

  // Enabled detection has the storage its settings need.
  predicate StorageOk(d: Detection, c: Cdf, w: Adaptive) {
    && (w.on && d.enabled ==> w.buf != []) && (d.enabled && d.mode == BayesianMode ==> c.rawHist != [])
    && d.weightRaw >= 0.0 && d.weightType >= 0.0
  }

  lemma RestartedOk(w: Adaptive, past: Past, root: real -> real)
    requires w.Sized()
    ensures w.Restarted().Ok(past.Forgotten(), root)
  {
    hide WindowOk;
    hide ThresholdOk;
    EmptyWindow(w.buf, w.size, w.fixed, w.k, root);
  }

  lemma NewKFactor(w: Adaptive, past: Past, k: real, threshold: real, root: real -> real)
    requires w.Ok(past, root) && k >= 0.0
    requires if w.armed then ThresholdOk(threshold, w.fixed, w.size, true, past.history, k, root) else threshold == w.threshold
    ensures w.(k := k, threshold := threshold).Ok(past, root)
  {
    hide WindowOk;
    hide ThresholdOf;
  }

  /** One component score of a stage sequence, combined with the other under the regime in force. */
  function CombinedScore(d: Detection, c: Cdf, w: Adaptive, raw: Score, typed: Score, logit: real -> real): Score
    requires |c.rawHist| == |c.typeHist| && (c.rawHist == [] || |c.rawHist| == BUCKETS)
  {
    if UsesBayesian(d, c, w)
    then Finite(LogOddsOf(c.rawHist, c.rawCount, raw, logit) + LogOddsOf(c.typeHist, c.typeCount, typed, logit))
    else WeightedScore(Weights(d.weightRaw, d.weightType), raw, typed)
  }

  /** A more surprising sequence never gets a smaller combined score, in either regime. */
  lemma CombinedOrdered(d: Detection, c: Cdf, w: Adaptive, logit: real -> real, a: real, b: real, x: real, y: real)
    requires c.Ok() && Increasing(logit) && 0.0 <= a <= b && 0.0 <= x <= y
    ensures var less := CombinedScore(d, c, w, Finite(a), Finite(x), logit);
      var more := CombinedScore(d, c, w, Finite(b), Finite(y), logit);
      less.Finite? && more.Finite? && less.value <= more.value
  {
    hide Share;
    hide ScoreHistogram.Sum;
    hide LogOddsOf;
    LogOddsOrdered(c.rawHist, c.rawCount, a, b, logit);
    LogOddsOrdered(c.typeHist, c.typeCount, x, y, logit);
    WeightedOrdered(Weights(d.weightRaw, d.weightType), a, b, x, y);
  }

  // What a retained sample does to the histograms.
  ghost predicate Sampled(c: Cdf, r: Cdf, m: Measured) {
    && RecordedIn(c.rawHist, c.rawCount, r.rawHist, r.rawCount, m.raw)
    && RecordedIn(c.typeHist, c.typeCount, r.typeHist, r.typeCount, m.typed)
  }

  class Gate {
    // Numeric functions that are not exact on reals.
    const root: real -> real
    const logit: real -> real

    var detection: Detection
    var cdf: Cdf
    var window: Adaptive
    ghost var past: Past

    ghost predicate Valid()
      reads this
    {
      && cdf.Ok() && window.Ok(past, root) && StorageOk(detection, cdf, window)
      && past.AllTagged(RegimeOf(detection, cdf, window))
    }

    ghost function Regime(): Regime
      reads this
    {
      RegimeOf(detection, cdf, window)
    }

    twostate predicate Same()
      reads this
    {
      detection == old(detection) && cdf == old(cdf) && window == old(window) && past == old(past)
    }

    constructor (root: real -> real, logit: real -> real)
      ensures Valid() && !detection.enabled && !window.on && past == Past([], [], 0)
      ensures this.root == root && this.logit == logit
    {
      this.root, this.logit := root, logit;
      detection := Detection(false, false, true, 0.5, 0.5, WeightedMode);
      cdf := Cdf([], [], 0, 0);
      window := Adaptive(false, 0, 3.0, [], 0, 0, false, 0.0, 0.0);
      past := Past([], [], 0);
      new;
      EmptyCounts();
      RestartedOk(window, past, root);
    }

    // ---- Resets ----

    /** Start the window over, with the fixed threshold. */
    method AdaptiveReset()
      modifies `window, `past
      ensures window == old(window).Restarted() && past == old(past).Forgotten()
    {
      window := window.(count := 0, idx := 0, armed := false);
      window := window.(threshold := window.fixed);
      past := past.Forgotten();
    }

    method CdfReset()
      requires cdf.Ok()
      modifies `cdf
      ensures cdf.Ok() && cdf.rawCount == 0 && cdf.typeCount == 0 && (cdf.rawHist == [] <==> old(cdf).rawHist == [])
    {
      EmptyCounts();
      if cdf.rawHist != [] {
        cdf := Cdf(Empty(), Empty(), 0, 0);
      } else {
        cdf := Cdf([], [], 0, 0);
      }
    }

    method CdfFree()
      modifies `cdf
      ensures cdf.Ok() && cdf == Cdf([], [], 0, 0)
    {
      EmptyCounts();
      cdf := Cdf([], [], 0, 0);
    }

    // ---- Setters ----

    /** Install new models and a fixed threshold; observations start over. */
    method Enable(newThreshold: Score, alphaValid: bool, noMemory: bool) returns (e: Error)
      requires Valid()
      modifies this
      ensures Valid()
      ensures e == Invalid <==> newThreshold.Infinite? || !alphaValid
      ensures e == NoMemory ==> noMemory
      ensures e == Success || e == Invalid || e == NoMemory
      ensures e == Success ==> detection == Detection(true, false, true, 0.5, 0.5, WeightedMode)
      ensures e == Success ==> past == Past([], [], old(past).generation + 1) && cdf == Cdf([], [], 0, 0)
      ensures e == Success ==> !window.armed && window.threshold == newThreshold.value == window.fixed
      ensures window.on == old(window).on && window.size == old(window).size && window.k == old(window).k
      ensures e != Success ==> Same()
    {
      hide Cdf.Ok;
      hide Adaptive.Ok;
      Sized();
      if newThreshold.Infinite? || !alphaValid {
        return Invalid;
      }
      if noMemory {
        return NoMemory;
      }
      if window.on && window.buf == [] {
        window := window.(buf := seq(window.size, _ => 0.0));
      }
      past := past.(generation := past.generation + 1);
      detection := Detection(true, false, true, 0.5, 0.5, WeightedMode);
      window := window.(fixed := newThreshold.value);
      RestartedOk(window, past, root);
      AdaptiveReset();
      CdfFree();
      e := Success;
    }

    lemma Sized()
      requires Valid()
      ensures window.Sized()
    {
    }

    /** Drop the models; the adaptive configuration stays. */
    method Disable()
      requires Valid()
      modifies this
      ensures Valid() && detection == old(detection).(enabled := false) && cdf == Cdf([], [], 0, 0)
      ensures past == Past([], [], old(past).generation + 1)
      ensures window == old(window).(buf := []).Restarted()
    {
      hide Cdf.Ok;
      hide Adaptive.Ok;
      Sized();
      past := past.(generation := past.generation + 1);
      detection := detection.(enabled := false);
      window := window.(buf := []);
      RestartedOk(window, past, root);
      AdaptiveReset();
      CdfFree();
    }

    /** Learn from allowed evaluations only, or from all. */
    method SetUpdateMode(onlyOnAllow: bool)
      requires Valid()
      modifies `detection
      ensures Valid() && Regime() == old(Regime())
      ensures detection == old(detection).(updateOnlyOnAllow := onlyOnAllow)
    {
      hide Adaptive.Ok;
      hide Cdf.Ok;
      detection := detection.(updateOnlyOnAllow := onlyOnAllow);
    }

    /** Whether detected samples are kept out of the models. */
    method SetSkipOnDetected(skip: bool)
      requires Valid()
      modifies `detection
      ensures Valid() && Regime() == old(Regime())
      ensures detection == old(detection).(skipOnDetected := skip)
    {
      hide Adaptive.Ok;
      hide Cdf.Ok;
      detection := detection.(skipOnDetected := skip);
    }

    method SetWeights(raw: Score, typed: Score) returns (e: Error)
      requires Valid()
      modifies `detection, `window, `past
      ensures Valid() && past.KeptSince(old(past), Regime() == old(Regime()))
      ensures e == Success <==> (raw.Finite? && typed.Finite? && raw.value >= 0.0 && typed.value >= 0.0
        && 0.99 <= raw.value + typed.value <= 1.01)
      ensures e == Success ==> detection == old(detection).(weightRaw := raw.value, weightType := typed.value)
      ensures e == Success ==> window == old(window) || window == old(window).Restarted()
      ensures e != Success ==> e == Invalid && Same()
    {
      hide Cdf.Ok;
      hide Adaptive.Ok;
      Sized();
      if raw.Infinite? || typed.Infinite? || raw.value < 0.0 || typed.value < 0.0 {
        return Invalid;
      }
      var sum := raw.value + typed.value;
      if sum < 0.99 || sum > 1.01 {
        return Invalid;
      }
      var changed := detection.weightRaw != raw.value || detection.weightType != typed.value;
      detection := detection.(weightRaw := raw.value, weightType := typed.value);
      if changed && !UsesBayesian(detection, cdf, window) {
        RestartedOk(window, past, root);
        AdaptiveReset();
      }
      e := Success;
    }

    /** Switch the rolling window on or off; either way it starts over. */
    method SetAdaptive(on: bool, size: nat, noMemory: bool) returns (e: Error)
      requires Valid()
      modifies `window, `past
      ensures Valid()
      ensures e == Invalid <==> on && size == 0
      ensures e == NoMemory ==> on && noMemory
      ensures e == Success || e == Invalid || e == NoMemory
      ensures e == Success ==> window.on == on && past == old(past).Forgotten()
      ensures e == Success ==> window.size == (if on then size else old(window).size) && |window.buf| == if on then size else 0
      ensures e == Success ==> window.k == old(window).k && window.threshold == window.fixed == old(window).fixed
      ensures e != Success ==> Same()
    {
      hide Cdf.Ok;
      hide Adaptive.Ok;
      Sized();
      if on && size == 0 {
        return Invalid;
      }
      if !on {
        window := window.(on := false, buf := []);
        RestartedOk(window, past, root);
        AdaptiveReset();
        return Success;
      }
      if noMemory {
        return NoMemory;
      }
      window := window.(buf := seq(size, _ => 0.0), size := size, on := true);
      RestartedOk(window, past, root);
      AdaptiveReset();
      e := Success;
    }

    method RecomputeThreshold()
      requires window.armed && WindowOk(window.buf, window.size, window.count, window.idx, true, past.history)
      modifies `window
      ensures window == old(window).(threshold := window.threshold)
      ensures ThresholdOk(window.threshold, window.fixed, window.size, true, past.history, window.k, root)
    {
      hide Holds;
      hide ThresholdOf;
      FullWindow(window.buf, window.size, window.count, window.idx, past.history, window.k, root);
      var threshold := Threshold(window.buf, window.k, root);
      window := window.(threshold := threshold);
    }

    method SetKFactor(k: Score) returns (e: Error)
      requires Valid()
      modifies `window
      ensures Valid()
      ensures e == Success <==> k.Finite? && k.value >= 0.0
      ensures if e == Success then window.k == k.value else e == Invalid && Same()
      ensures window.(k := old(window).k, threshold := old(window).threshold) == old(window)
    {
      hide Cdf.Ok;
      hide WindowOk;
      hide ThresholdOk;
      if k.Infinite? || k.value < 0.0 {
        return Invalid;
      }
      ghost var before := window;
      window := window.(k := k.value);
      if window.armed {
        RecomputeThreshold();
      }
      NewKFactor(before, past, k.value, window.threshold, root);
      e := Success;
    }

    /** Choose how component scores are combined. */
    method SetCombineMode(newMode: Mode, noMemory: bool) returns (e: Error)
      requires Valid()
      modifies `detection, `cdf, `window, `past
      ensures Valid()
      ensures e == Success ==> past.KeptSince(old(past), Regime() == old(Regime()))
      ensures e == Success ==> detection == old(detection).(mode := newMode)
      ensures e == Success ==> window == old(window) || window == old(window).Restarted()
      ensures cdf == old(cdf) || (old(cdf).rawHist == [] && cdf == Cdf(Empty(), Empty(), 0, 0))
      ensures e != Success ==> e == NoMemory && noMemory && Same()
    {
      hide Adaptive.Ok;
      hide Counts;
      Sized();
      EmptyCounts();
      NoHistogram(cdf);
      if newMode == BayesianMode && cdf.rawHist == [] {
        if noMemory {
          return NoMemory;
        }
        cdf := cdf.(rawHist := Empty(), typeHist := Empty());
      }
      var was := UsesBayesian(detection, cdf, window);
      detection := detection.(mode := newMode);
      if was != UsesBayesian(detection, cdf, window) {
        RestartedOk(window, past, root);
        AdaptiveReset();
      }
      e := Success;
    }

    /** Replace the models by loaded ones. */
    method Load(readable: bool) returns (e: Error)
      requires Valid()
      modifies `cdf, `window, `past
      ensures Valid()
      ensures e == (if !detection.enabled then Invalid else if !readable then BadParse else Success)
      ensures e == Success ==> past == Past([], [], old(past).generation + 1) && cdf.rawCount == 0 && cdf.typeCount == 0
      ensures e == Success ==> window == old(window).Restarted()
      ensures e != Success ==> Same()
    {
      hide Cdf.Ok;
      hide Adaptive.Ok;
      Sized();
      if !detection.enabled {
        return Invalid;
      }
      if !readable {
        return BadParse;
      }
      past := past.(generation := past.generation + 1);
      RestartedOk(window, past, root);
      AdaptiveReset();
      CdfReset();
      e := Success;
    }

    // ---- Evaluation ----

    // The score was measured under the regime in force.
    ghost predicate MeasuredNow(m: Measured)
      requires cdf.Ok()
      reads `detection, `cdf, `window
    {
      m.combined == CombinedScore(detection, cdf, window, m.raw, m.typed, logit)
    }

    /** Combine the component scores of a sequence and compare with the threshold in force. */
    method ScoreSequence(raw: Score, typed: Score, stages: nat) returns (m: Measured)
      requires Valid()
      ensures stages < 3 ==> m == Measured(Finite(0.0), Finite(0.0), Finite(0.0), false)
      ensures stages >= 3 ==> m.raw == raw && m.typed == typed && MeasuredNow(m)
      ensures stages >= 3 ==> m.detected == (m.combined.Finite? && m.combined.value > window.threshold)
    {
      hide ScoreHistogram.Sum;
      hide ThresholdOf;
      hide WindowOk;
      hide LogOddsOf;
      if stages < 3 {
        return Measured(Finite(0.0), Finite(0.0), Finite(0.0), false);
      }
      var combined;
      if UsesBayesian(detection, cdf, window) {
        var rawOdds := LogOdds(cdf.rawHist, cdf.rawCount, raw, logit);
        var typeOdds := LogOdds(cdf.typeHist, cdf.typeCount, typed, logit);
        combined := Finite(rawOdds + typeOdds);
      } else {
        combined := WeightedScore(Weights(detection.weightRaw, detection.weightType), raw, typed);
      }
      var threshold := if window.on && !window.armed then window.fixed else window.threshold;
      m := Measured(raw, typed, combined, combined.Finite? && combined.value > threshold);
    }

    /** Put a normal score in the window; a full window sets the threshold. */
    method RecordScore(score: real, ghost measured: Tag)
      requires window.Ok(past, root) && window.buf != []
      modifies `window, `past
      ensures window.Ok(past, root)
      ensures past == Past(old(past).history + [score], old(past).tags + [measured], old(past).generation)
      ensures window.on == old(window).on && window.size == old(window).size && window.fixed == old(window).fixed
      ensures window.k == old(window).k && |window.buf| == |old(window).buf|
    {
      hide Holds;
      hide ThresholdOf;
      hide Mod;
      WindowMore(window.buf, window.size, window.count, window.idx, window.armed, past.history, score);
      var count := if window.count < window.size then window.count + 1 else window.count;
      window := window.(buf := window.buf[window.idx := score], idx := (window.idx + 1) % window.size, count := count);
      past := Past(past.history + [score], past.tags + [measured], past.generation);
      if !window.armed && window.count >= window.size {
        window := window.(armed := true);
      }
      if window.armed {
        RecomputeThreshold();
      }
    }

    method RecordSample(m: Measured)
      requires cdf.Ok()
      modifies `cdf
      ensures cdf.Ok() && Sampled(old(cdf), cdf, m)
    {
      hide Counts;
      hide Bucket;
      SameAllocation(cdf);
      var rawHist, rawCount := Record(cdf.rawHist, cdf.rawCount, m.raw);
      var typeHist, typeCount := Record(cdf.typeHist, cdf.typeCount, m.typed);
      cdf := Cdf(rawHist, typeHist, rawCount, typeCount);
    }

    /** After a complete verdict: learn, and calibrate with a sample that was not refused. */
    method FinishEvaluation(m: Measured, stages: nat, unresolved: bool, allow: bool, learning: Learning)
      returns (update: Update, e: Error)
      requires Valid() && detection.enabled && (stages >= 3 ==> MeasuredNow(m))
      modifies `cdf, `window, `past
      ensures Valid()
      // The sample is kept if it is normal, long enough and was not refused by the models.
      ensures stages < 3 || unresolved || m.detected || (learning != Learned && (!detection.updateOnlyOnAllow || allow)) ==> Same()
      ensures (stages >= 3 && !unresolved && !m.detected && (learning == Learned || (detection.updateOnlyOnAllow && !allow))) ==>
        && (if detection.mode == BayesianMode then Sampled(old(cdf), cdf, m) else cdf == old(cdf))
        && past.history == (if Regime() != old(Regime()) then []
                            else if window.on && m.combined.Finite? then old(past).history + [m.combined.value]
                            else old(past).history)
      ensures Regime() != old(Regime()) ==> Regime() == Bayesian
      ensures past.generation == old(past).generation && window.fixed == old(window).fixed
      ensures update == Applied <==> (stages > 0 && !unresolved && (!detection.updateOnlyOnAllow || allow)
        && (!m.detected || !detection.skipOnDetected) && learning == Learned)
      ensures update == NotAttempted <==> (stages == 0 || unresolved)
      ensures update == SkippedDetected ==> m.detected && detection.skipOnDetected
      ensures update == SkippedVerdict ==> detection.updateOnlyOnAllow && !allow
      ensures update == FailedFormat <==> (stages > 0 && !unresolved && (!detection.updateOnlyOnAllow || allow)
        && (!m.detected || !detection.skipOnDetected) && learning == Malformed)
      ensures e == BadParse <==> update == FailedFormat
      ensures e == Success || e == BadParse
    {
      hide Cdf.Ok;
      hide Adaptive.Ok;
      hide Sampled;
      update, e := NotAttempted, Success;
      if stages == 0 || unresolved {
        return;
      }
      var shouldUpdate := false;
      if !detection.updateOnlyOnAllow {
        shouldUpdate := !m.detected || !detection.skipOnDetected;
        if !shouldUpdate {
          update := SkippedDetected;
        }
      } else if allow {
        shouldUpdate := !m.detected || !detection.skipOnDetected;
        if !shouldUpdate {
          update := SkippedDetected;
        }
      } else {
        update := SkippedVerdict;
      }
      var recordHistory := true;
      if shouldUpdate {
        if learning == Malformed {
          return FailedFormat, BadParse;
        }
        recordHistory := learning == Learned;
        update := if learning == Learned then Applied else if learning == OutOfRoom then RejectedLimit else FailedMemory;
      }
      if recordHistory && !m.detected && stages >= 3 {
        Calibrate(m);
      }
    }

    /** Count a normal sample; if that changes the regime, the window starts over without it. */
    method Calibrate(m: Measured)
      requires Valid() && detection.enabled && MeasuredNow(m)
      modifies `cdf, `window, `past
      ensures Valid()
      ensures if detection.mode == BayesianMode then Sampled(old(cdf), cdf, m) else cdf == old(cdf)
      ensures past.history == if Regime() != old(Regime()) then []
                              else if window.on && m.combined.Finite? then old(past).history + [m.combined.value]
                              else old(past).history
      ensures Regime() != old(Regime()) ==> Regime() == Bayesian
      ensures past.generation == old(past).generation && window.fixed == old(window).fixed
    {
      hide Cdf.Ok;
      hide Adaptive.Ok;
      Sized();
      ghost var measured := Tag(Regime(), past.generation);
      var was := UsesBayesian(detection, cdf, window);
      if detection.mode == BayesianMode {
        RecordSample(m);
      }
      if was != UsesBayesian(detection, cdf, window) {
        RestartedOk(window, past, root);
        AdaptiveReset();
      } else if window.on && m.combined.Finite? {
        RecordScore(m.combined.value, measured);
      }
    }
  }

  lemma SameAllocation(c: Cdf)
    requires c.Ok()
    ensures c.rawHist == [] <==> c.typeHist == []
  {
  }

  // Histograms that are absent count nothing.
  lemma NoHistogram(c: Cdf)
    requires c.Ok()
    ensures c.rawHist == [] ==> c.rawCount == 0 && c.typeCount == 0
  {
  }

  // ---- The combined score, written out ----

  /** In weighted mode, and until both histograms hold as many samples as the window (128 without a window),
      the combined score weighs each component with its own weight; infinite components count unless their
      weight is zero. */
  lemma WeightedMeans(gate: Gate, m: Measured)
    requires gate.Valid() && gate.MeasuredNow(m)
    requires gate.detection.mode == WeightedMode
      || gate.cdf.rawCount < (if gate.window.on then gate.window.size else 128)
      || gate.cdf.typeCount < (if gate.window.on then gate.window.size else 128)
    ensures m.raw.Finite? && m.typed.Finite? ==>
      m.combined == Finite(m.raw.value * gate.detection.weightRaw + m.typed.value * gate.detection.weightType)
    ensures (m.raw.Infinite? && gate.detection.weightRaw > 0.0) || (m.typed.Infinite? && gate.detection.weightType > 0.0) ==>
      m.combined == Infinite
    ensures m.raw.Infinite? && m.typed.Finite? && gate.detection.weightRaw == 0.0 ==>
      m.combined == Finite(m.typed.value * gate.detection.weightType)
    ensures m.typed.Infinite? && m.raw.Finite? && gate.detection.weightType == 0.0 ==>
      m.combined == Finite(m.raw.value * gate.detection.weightRaw)
    ensures gate.Regime() == Weighted(gate.detection.weightRaw, gate.detection.weightType)
  {
    hide Adaptive.Ok;
    hide Counts;
    hide LogOddsOf;
    hide Times;
    if m.raw.Finite? {
      Product(m.raw.value, gate.detection.weightRaw);
    }
    if m.typed.Finite? {
      Product(m.typed.value, gate.detection.weightType);
    }
  }

  lemma Product(x: real, w: real)
    ensures Times(x, w) == x * w && (w == 0.0 ==> x * w == 0.0)
  {
  }

  /** In Bayesian mode, once both histograms hold that many samples, the combined score is the sum of the log odds. */
  lemma BayesianMeans(gate: Gate, m: Measured)
    requires gate.Valid() && gate.MeasuredNow(m) && gate.detection.mode == BayesianMode
    requires gate.cdf.rawCount >= (if gate.window.on then gate.window.size else 128)
    requires gate.cdf.typeCount >= (if gate.window.on then gate.window.size else 128)
    ensures m.combined == Finite(LogOddsOf(gate.cdf.rawHist, gate.cdf.rawCount, m.raw, gate.logit)
                                 + LogOddsOf(gate.cdf.typeHist, gate.cdf.typeCount, m.typed, gate.logit))
    ensures gate.Regime() == Bayesian
  {
    hide Adaptive.Ok;
    hide Counts;
    hide LogOddsOf;
  }

  /** The threshold in force, written out: that of the last scores as soon as there are enough of them. */
  lemma ThresholdMeans(gate: Gate)
    requires gate.Valid()
    ensures gate.window.armed <==> gate.window.on && |gate.window.buf| > 0 && |gate.past.history| >= gate.window.size
    ensures !gate.window.armed ==> gate.window.threshold == gate.window.fixed
    ensures gate.window.armed ==> var last := gate.past.history[|gate.past.history| - gate.window.size..];
      |last| == gate.window.size && gate.window.threshold == ThresholdOf(last, gate.window.k, gate.root)
  {
    hide Holds;
    hide ThresholdOf;
    hide Counts;
    hide Mod;
  }
}
