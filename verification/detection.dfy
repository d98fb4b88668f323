/** Anomaly detection as a whole: the calibration state of a gate over two n-gram models. */
module AnomalyDetection {
  import opened Bytes
  import opened Netstring
  import C = Calibration
  import H = ScoreHistogram
  import K = KneserNey
  import P = Persistence
  import U = ModelUpdate

  // Oracles for allocation: the journals of an update, and its steps.
  datatype Memory = Memory(journals: (bool, bool), failsRaw: nat -> bool, failsType: nat -> bool)

  function ScoreIn(s: K.Score): H.Score {
    if s.Average? then H.Finite(s.bits) else H.Infinite
  }

  // What the scores of both models are for a pair of stage sequences.
  ghost predicate ScoredBy(raw: K.Estimates, typed: K.Estimates, rawNetseq: Bytes, typeNetseq: Bytes, bits: real -> real,
                           stages: nat, m: C.Measured)
    requires raw.Sound() && typed.Sound()
  {
    K.DenominatorPositive(raw);
    K.DenominatorPositive(typed);
    exists s: seq<Bytes>, t: seq<Bytes> ::
      && rawNetseq == EncodeAll(s) && typeNetseq == EncodeAll(t) && |s| == |t| == stages
      && (stages >= 3 ==> m.raw == ScoreIn(K.ScoreOf(raw, s, bits)) && m.typed == ScoreIn(K.ScoreOf(typed, t, bits)))
  }

  function LearningOf(status: U.Status): C.Learning {
    match status
    case Ok => C.Learned
    case Limit => C.OutOfRoom
    case OutOfMemory => C.OutOfMemory
    case _ => C.Malformed
  }

  class Detector {
    const gate: C.Gate
    var raw: U.Model?
    var typed: U.Model?

    ghost predicate Valid()
      reads this, gate, raw, typed
    {
      && gate.Valid()
      && (gate.detection.enabled <==> raw != null) && (raw != null <==> typed != null)
      && (raw != null ==> raw != typed && Usable(raw) && Usable(typed))
    }

    ghost predicate Usable(model: U.Model)
      reads model
    {
      model.Valid() && model.alpha > 0.0 && 0.0 < model.discount <= 1.0
    }

    constructor (root: real -> real, logit: real -> real)
      ensures Valid() && fresh(gate) && raw == null && typed == null && gate.root == root && gate.logit == logit
    {
      gate := new C.Gate(root, logit);
      raw, typed := null, null;
    }

    /** Install two empty models. */
    method Enable(threshold: H.Score, alpha: H.Score, noMemory: bool) returns (e: C.Error)
      requires Valid()
      modifies this, gate
      ensures Valid()
      ensures e == C.Invalid <==> threshold.Infinite? || alpha.Infinite? || alpha.value <= 0.0
      ensures e == C.NoMemory ==> noMemory
      ensures e != C.BadParse
      ensures e == C.Success ==> raw != null && typed != null && fresh(raw) && fresh(typed)
      ensures e == C.Success ==> raw.alpha == typed.alpha == alpha.value && raw.ngrams == typed.ngrams == [map[], map[], map[], map[]]
      ensures e == C.Success ==> gate.past.history == [] && gate.Regime() == C.Weighted(0.5, 0.5)
      ensures e != C.Success ==> raw == old(raw) && typed == old(typed) && gate.Same()
    {
      hide C.Gate.Valid;
      var alphaValid := alpha.Finite? && alpha.value > 0.0;
      e := gate.Enable(threshold, alphaValid, noMemory);
      if e != C.Success {
        return;
      }
      raw := new U.Model(alpha.value);
      typed := new U.Model(alpha.value);
    }

    method Disable()
      requires Valid()
      modifies this, gate
      ensures Valid() && raw == null && typed == null && gate.past.history == []
    {
      hide C.Gate.Valid;
      gate.Disable();
      raw, typed := null, null;
    }

    /** Score both sequences and combine the scores under the regime in force. */
    method Score(rawNetseq: Bytes, typeNetseq: Bytes, bits: real -> real) returns (e: C.Error, m: C.Measured, stages: nat)
      requires Valid()
      ensures e == C.Invalid <==> !gate.detection.enabled
      ensures e == C.BadParse <==> gate.detection.enabled && !U.SameLength(rawNetseq, typeNetseq)
      ensures e == C.Success || e == C.Invalid || e == C.BadParse
      ensures e == C.Success ==>
        && raw != null && typed != null && K.Of(raw).Sound() && K.Of(typed).Sound()
        && ScoredBy(K.Of(raw), K.Of(typed), rawNetseq, typeNetseq, bits, stages, m)
      ensures e == C.Success && stages >= 3 ==>
        && gate.MeasuredNow(m)
        && m.detected == (m.combined.Finite? && m.combined.value > gate.window.threshold)
      ensures e == C.Success && stages < 3 ==> m == C.Measured(H.Finite(0.0), H.Finite(0.0), H.Finite(0.0), false)
    {
      hide C.Gate.Valid;
      hide K.ScoreOf;
      hide K.Estimates.Sound;
      hide EncodeAll;
      hide U.SameLength;
      m, stages := C.Measured(H.Infinite, H.Infinite, H.Infinite, false), 0;
      if !gate.detection.enabled {
        return C.Invalid, m, 0;
      }
      UsableIsSound(raw);
      UsableIsSound(typed);
      var rawStatus, rawCount, rawScore := K.ScoreNetseq(raw, rawNetseq, bits);
      var typeStatus, typeCount, typeScore := K.ScoreNetseq(typed, typeNetseq, bits);
      if rawStatus != U.Ok || typeStatus != U.Ok {
        NotSame(rawNetseq, typeNetseq);
        return C.BadParse, m, 0;
      }
      ghost var s :| rawNetseq == EncodeAll(s) && rawCount == |s| && rawScore == K.ScoreOf(K.Of(raw), s, bits);
      ghost var t :| typeNetseq == EncodeAll(t) && typeCount == |t| && typeScore == K.ScoreOf(K.Of(typed), t, bits);
      U.CountsAgree(rawNetseq, s, typeNetseq, t);
      if rawCount != typeCount {
        return C.BadParse, m, 0;
      }
      m := gate.ScoreSequence(ScoreIn(rawScore), ScoreIn(typeScore), rawCount);
      e, stages := C.Success, rawCount;
    }

    lemma UsableIsSound(model: U.Model)
      requires Usable(model)
      ensures K.Of(model).Sound()
    {
    }

    /** Learn a scored sequence as the settings say, and calibrate with it. */
    method Finish(rawNetseq: Bytes, typeNetseq: Bytes, m: C.Measured, stages: nat, unresolved: bool, allow: bool, memory: Memory)
      returns (update: C.Update, e: C.Error)
      requires Valid() && gate.detection.enabled && U.SameLength(rawNetseq, typeNetseq)
      requires stages >= 3 ==> gate.MeasuredNow(m)
      modifies gate`cdf, gate`window, gate`past, raw, typed
      ensures Valid() && raw == old(raw) && typed == old(typed) && e == C.Success
      ensures raw != null && typed != null
      ensures update == C.Applied ==> U.Updated(old(raw.View()), old(raw.unkCount), raw.View(), raw.unkCount, rawNetseq)
      ensures update == C.Applied ==> U.Updated(old(typed.View()), old(typed.unkCount), typed.View(), typed.unkCount, typeNetseq)
      ensures update != C.Applied ==> U.Untouched(raw) && U.Untouched(typed)
      ensures update == C.Applied ==> stages > 0 && !unresolved && (!gate.detection.updateOnlyOnAllow || allow)
      ensures update == C.Applied ==> !m.detected || !gate.detection.skipOnDetected
      ensures (stages > 0 && !unresolved && (!gate.detection.updateOnlyOnAllow || allow)
        && (!m.detected || !gate.detection.skipOnDetected) && update != C.Applied) ==> gate.Same()
    {
      hide C.Gate.Valid;
      hide EncodeAll;
      hide U.SameLength;
      hide U.Updated;
      hide U.TooMuch;
      hide U.MayFail;
      hide U.Model.Valid;
      hide C.CombinedScore;
      hide C.Sampled;
      var learning := C.Malformed;
      if stages > 0 && !unresolved && (!gate.detection.updateOnlyOnAllow || allow) && (!m.detected || !gate.detection.skipOnDetected) {
        var status := U.UpdatePair(raw, rawNetseq, typed, typeNetseq, memory.journals, memory.failsRaw, memory.failsType);
        U.BothFramed(rawNetseq, typeNetseq);
        learning := LearningOf(status);
      }
      update, e := gate.FinishEvaluation(m, stages, unresolved, allow, learning);
    }

    /** Replace both models by saved ones, or change nothing. */
    method Load(rawSaved: P.Saved, typeSaved: P.Saved, rawMemory: P.LoadMemory, typeMemory: P.LoadMemory) returns (e: C.Error)
      requires Valid()
      modifies this, gate
      ensures Valid()
      ensures e == C.Invalid <==> !old(gate.detection.enabled)
      ensures e == C.Success ==> raw != null && typed != null && fresh(raw) && fresh(typed)
      ensures e == C.Success ==> P.LoadedAs(rawSaved, raw.View(), raw.unkCount) && P.LoadedAs(typeSaved, typed.View(), typed.unkCount)
      ensures e == C.Success ==> gate.past.history == [] && gate.cdf.rawCount == 0 && gate.cdf.typeCount == 0
      ensures e == C.BadParse ==> !P.Acceptable(rawSaved) || !P.Acceptable(typeSaved)
      ensures e == C.NoMemory ==> rawMemory.MayFail() || typeMemory.MayFail()
      ensures e != C.Success ==> raw == old(raw) && typed == old(typed) && gate.Same()
    {
      hide P.LoadedAs;
      hide P.WellFormed;
      hide P.Acceptable;
      hide P.Overflows;
      hide P.LoadMemory.MayFail;
      hide C.Gate.Valid;
      hide U.Model.Valid;
      if !gate.detection.enabled {
        return C.Invalid;
      }
      var status, loadedRaw, loadedTyped;
      status, loadedRaw := P.Load(rawSaved, rawMemory);
      if loadedRaw == null {
        return if status == U.OutOfMemory then C.NoMemory else C.BadParse;
      }
      status, loadedTyped := P.Load(typeSaved, typeMemory);
      if loadedTyped == null {
        return if status == U.OutOfMemory then C.NoMemory else C.BadParse;
      }
      LoadedIsSound(rawSaved, loadedRaw);
      LoadedIsSound(typeSaved, loadedTyped);
      e := gate.Load(true);
      raw, typed := loadedRaw, loadedTyped;
    }

    lemma LoadedIsSound(s: P.Saved, model: U.Model)
      requires P.LoadedAs(s, model.View(), model.unkCount) && model.Valid() && model.alpha == s.alpha && model.discount == s.discount
      ensures Usable(model)
    {
    }
  }

  lemma NotSame(a: Bytes, b: Bytes)
    requires !U.Framed(a) || !U.Framed(b)
    ensures !U.SameLength(a, b)
  {
  }
}
