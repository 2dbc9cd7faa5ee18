/**
 * The post-processing of the validation node (backend/app/langgraph/nodes/validation.py,
 * from the model's reply on): the first-`{`-to-last-`}` span, the WARN and FAIL counts,
 * the confidence clamp, and the degraded result when anything raises.
 */
module Validation {

  import opened Wrappers
  import opened Json
  import opened Spans
  import opened State

  /** The reasoning text of the degraded result. */
  const DegradedReasoning: string := "Validation could not be completed"

  /** `v.get("status") == status` on one validation entry. */
  predicate HasStatus(e: Object, status: string)
  {
    Get(e, "status", Null) == Str(status)
  }

  /** `sum(1 for v in validation if v.get("status") == status)`, counted from the back. */
  function CountStatus(entries: seq<Object>, status: string): nat
    decreases |entries|
  {
    if |entries| == 0 then 0
    else CountStatus(entries[..|entries| - 1], status) + (if HasStatus(entries[|entries| - 1], status) then 1 else 0)
  }

  /** The positions of the entries with that status. */
  function StatusIndices(entries: seq<Object>, status: string): set<nat>
  {
    set i: nat | i < |entries| && HasStatus(entries[i], status)
  }

  /** The count is the number of positions whose entry has exactly that status. */
  lemma {:induction false} CountStatusCounts(entries: seq<Object>, status: string)
    ensures CountStatus(entries, status) == |StatusIndices(entries, status)|
    decreases |entries|
  {
    if |entries| > 0 {
      var n := |entries| - 1;
      var pre := entries[..n];
      CountStatusCounts(pre, status);
      if HasStatus(entries[n], status) {
        assert StatusIndices(entries, status) == StatusIndices(pre, status) + {n};
      } else {
        assert StatusIndices(entries, status) == StatusIndices(pre, status);
      }
    }
  }

  /** No entry has the status exactly when the count is zero. */
  lemma {:induction false} CountStatusZero(entries: seq<Object>, status: string)
    ensures CountStatus(entries, status) == 0 <==> forall i :: 0 <= i < |entries| ==> !HasStatus(entries[i], status)
    decreases |entries|
  {
    if |entries| > 0 {
      var n := |entries| - 1;
      CountStatusZero(entries[..n], status);
      assert forall i :: 0 <= i < n ==> entries[..n][i] == entries[i];
    }
  }

  /** An entry cannot count as both WARN and FAIL: the two counts add up to at most the entries. */
  lemma {:induction false} CountsDisjoint(entries: seq<Object>)
    ensures CountStatus(entries, "WARN") + CountStatus(entries, "FAIL") <= |entries|
    decreases |entries|
  {
    if |entries| > 0 {
      CountsDisjoint(entries[..|entries| - 1]);
    }
  }

  function Max(a: real, b: real): real
  {
    if a >= b then a else b
  }

  /** `max_confidence = 1.0 - warn*0.10 - missing*0.15 - fail*0.05`. */
  function Cap(warns: nat, fails: nat, missing: nat): real
  {
    1.0 - (warns as real) * 0.10 - (missing as real) * 0.15 - (fails as real) * 0.05
  }

  /** Whether the clamp is considered at all: some WARN, some FAIL or some missing field. */
  predicate Recalibrates(warns: nat, fails: nat, missing: nat)
  {
    warns > 0 || fails > 0 || missing > 0
  }

  /** The confidence after the clamp. */
  function Recalibrated(conf: real, warns: nat, fails: nat, missing: nat): (r: real)
    ensures !Recalibrates(warns, fails, missing) || conf <= Cap(warns, fails, missing) ==> r == conf
    ensures Recalibrates(warns, fails, missing) ==> r <= Max(0.3, Cap(warns, fails, missing))
    ensures r <= Max(0.3, conf)
  {
    if Recalibrates(warns, fails, missing) && conf > Cap(warns, fails, missing)
    then Max(0.3, Cap(warns, fails, missing))
    else conf
  }

  /**
   * When the clamp is considered the result is at most `max(0.3, cap)`, and it only ever
   * moves a confidence above the cap.
   */
  lemma RecalibratedBound(conf: real, warns: nat, fails: nat, missing: nat)
    requires Recalibrates(warns, fails, missing)
    ensures Recalibrated(conf, warns, fails, missing) <= Max(0.3, Cap(warns, fails, missing))
    ensures conf <= Cap(warns, fails, missing) ==> Recalibrated(conf, warns, fails, missing) == conf
    ensures Recalibrated(conf, warns, fails, missing) <= Max(0.3, conf)
  {
  }

  /** With nothing to penalise the confidence is returned as the model gave it. */
  lemma RecalibratedClean(conf: real)
    ensures Recalibrated(conf, 0, 0, 0) == conf
  {
  }

  /** More penalties never raise the cap. */
  lemma CapMonotone(w1: nat, f1: nat, m1: nat, w2: nat, f2: nat, m2: nat)
    requires w1 <= w2 && f1 <= f2 && m1 <= m2
    ensures Cap(w2, f2, m2) <= Cap(w1, f1, m1)
  {
  }

  /**
   * The clamp is not only downwards: a confidence between the cap and 0.3 is raised to 0.3
   * (seven missing fields with seven WARNs give a cap of -0.75).
   */
  lemma RecalibrationCanRaise()
    ensures Cap(7, 0, 7) == -0.75
    ensures Recalibrated(0.1, 7, 0, 7) == 0.3
  {
  }

  /** The three writes of the `except` branch; `initial_validation_done` is left as it is. */
  function Degraded(s: ValidationState): (r: ValidationState)
    ensures r == s.(validation := r.validation, reasoning := r.reasoning, confidence := r.confidence)
    ensures EntriesOf(r.validation) == Some([]) && AsNumber(r.confidence) == Some(0.0)
  {
    s.(validation := Arr([]), reasoning := Str(DegradedReasoning), confidence := Num(0.0))
  }

  /** The dict the model's reply parses to, when its first-`{`-to-last-`}` span exists and parses. */
  function ParsedReply(s: ValidationState, oracle: Oracle): Option<Object>
  {
    match ObjectText(oracle.validationReply(s.attributes, s.missing, !s.initialValidationDone))
    case None => None
    case Some(text) => oracle.parseJson(text)
  }

  /**
   * The confidence to write: `None` when the clamp is considered and Python cannot compare
   * the value with the cap (it raises); a value above the cap is replaced by `max(0.3, cap)`.
   */
  function ClampedConfidence(confidence: Json, warns: nat, fails: nat, missing: nat): (r: Option<Json>)
    ensures r.None? <==> Recalibrates(warns, fails, missing) && AsNumber(confidence).None?
    ensures r.Some? && AsNumber(confidence).Some? ==>
      AsNumber(r.value) == Some(Recalibrated(AsNumber(confidence).value, warns, fails, missing))
    ensures r.Some? && AsNumber(confidence).None? ==> r.value == confidence
  {
    if !Recalibrates(warns, fails, missing) then Some(confidence)
    else
      match AsNumber(confidence)
      case None => None
      case Some(c) => Some(if c > Cap(warns, fails, missing) then Num(Max(0.3, Cap(warns, fails, missing))) else confidence)
  }

  /**
   * The writes once the reply has parsed to `result`. Every failure to count or compare gives
   * the degraded result. A confidence that is not a number and escapes the clamp is written
   * first and then makes the completion message raise, so that path is degraded with
   * `initial_validation_done` already set.
   */
  function Completion(s: ValidationState, result: Object): (r: ValidationState)
    ensures r == s.(validation := r.validation, reasoning := r.reasoning, confidence := r.confidence,
                    initialValidationDone := r.initialValidationDone)
    ensures s.initialValidationDone ==> r.initialValidationDone
    ensures EntriesOf(r.validation).Some?
    ensures AsNumber(r.confidence).Some?
  {
    var validation := Get(result, "validation", Arr([]));
    var reasoning := Get(result, "reasoning", Str(""));
    var confidence := Get(result, "confidence", Num(0.0));
    match EntriesOf(validation)
    case None => Degraded(s)
    case Some(entries) =>
      match ClampedConfidence(confidence, CountStatus(entries, "WARN"), CountStatus(entries, "FAIL"), |s.missing|)
      case None => Degraded(s)
      case Some(written) =>
        var done := s.(validation := validation, reasoning := reasoning, confidence := written,
                       initialValidationDone := true);
        if AsNumber(written).None? then Degraded(done) else done
  }

  /**
   * `validation_agent` from the model's reply on. Only the three result keys and the flag are
   * written, the flag is never cleared, and the result is always a list of dicts with a
   * numeric confidence.
   */
  function ValidationNode(s: ValidationState, oracle: Oracle): (r: ValidationState)
    ensures r == s.(validation := r.validation, reasoning := r.reasoning, confidence := r.confidence,
                    initialValidationDone := r.initialValidationDone)
    ensures s.initialValidationDone ==> r.initialValidationDone
    ensures EntriesOf(r.validation).Some?
    ensures AsNumber(r.confidence).Some?
  {
    match ParsedReply(s, oracle)
    case None => Degraded(s)
    case Some(result) => Completion(s, result)
  }

  /** A reply with no span, or whose span does not parse, gives the degraded result with the flag kept. */
  lemma UnparsedReplyDegrades(s: ValidationState, oracle: Oracle)
    requires ParsedReply(s, oracle).None?
    ensures ValidationNode(s, oracle) == Degraded(s)
  {
  }

  /** The counts of a `validation` value that is a list of dicts. */
  function Counts(result: Object): (nat, nat)
    requires EntriesOf(Get(result, "validation", Arr([]))).Some?
  {
    var entries := EntriesOf(Get(result, "validation", Arr([]))).value;
    (CountStatus(entries, "WARN"), CountStatus(entries, "FAIL"))
  }

  /**
   * A `validation` that is a list of dicts and a numeric `confidence` complete: the list and
   * the reasoning are written as given and `initial_validation_done` is set.
   */
  lemma CompletedValidation(s: ValidationState, result: Object)
    requires EntriesOf(Get(result, "validation", Arr([]))).Some?
    requires AsNumber(Get(result, "confidence", Num(0.0))).Some?
    ensures Completion(s, result).validation == Get(result, "validation", Arr([]))
    ensures Completion(s, result).reasoning == Get(result, "reasoning", Str(""))
    ensures Completion(s, result).initialValidationDone
  {
  }

  /** ... and the confidence written is the clamped one. */
  lemma CompletedConfidence(s: ValidationState, result: Object)
    requires EntriesOf(Get(result, "validation", Arr([]))).Some?
    requires AsNumber(Get(result, "confidence", Num(0.0))).Some?
    ensures AsNumber(Completion(s, result).confidence)
            == Some(Recalibrated(AsNumber(Get(result, "confidence", Num(0.0))).value, Counts(result).0, Counts(result).1, |s.missing|))
  {
    var validation := Get(result, "validation", Arr([]));
    var confidence := Get(result, "confidence", Num(0.0));
    var entries := EntriesOf(validation).value;
    var written := ClampedConfidence(confidence, CountStatus(entries, "WARN"), CountStatus(entries, "FAIL"), |s.missing|);
    assert AsNumber(written.value).Some?;
    assert Completion(s, result).confidence == written.value;
  }

  /**
   * With no WARN, no FAIL and no missing field, a numeric confidence is written exactly as the
   * model gave it.
   */
  lemma CleanConfidenceUnchanged(s: ValidationState, result: Object)
    requires EntriesOf(Get(result, "validation", Arr([]))).Some?
    requires AsNumber(Get(result, "confidence", Num(0.0))).Some?
    requires |s.missing| == 0
    requires var entries := EntriesOf(Get(result, "validation", Arr([]))).value;
      forall i :: 0 <= i < |entries| ==> !HasStatus(entries[i], "WARN") && !HasStatus(entries[i], "FAIL")
    ensures Completion(s, result).confidence == Get(result, "confidence", Num(0.0))
  {
    var entries := EntriesOf(Get(result, "validation", Arr([]))).value;
    CountStatusZero(entries, "WARN");
    CountStatusZero(entries, "FAIL");
  }

  /**
   * Whenever something is penalised, a completed validation's confidence is at most
   * `max(0.3, cap)`.
   */
  lemma PenalisedConfidenceBound(s: ValidationState, result: Object)
    requires EntriesOf(Get(result, "validation", Arr([]))).Some?
    requires AsNumber(Get(result, "confidence", Num(0.0))).Some?
    requires Recalibrates(Counts(result).0, Counts(result).1, |s.missing|)
    ensures AsNumber(Completion(s, result).confidence).value <= Max(0.3, Cap(Counts(result).0, Counts(result).1, |s.missing|))
  {
    CompletedConfidence(s, result);
    RecalibratedBound(AsNumber(Get(result, "confidence", Num(0.0))).value, Counts(result).0, Counts(result).1, |s.missing|);
  }

  /**
   * A confidence that is not a number gives the degraded result either way; it keeps the flag
   * when the clamp is considered and sets it when it is not.
   */
  lemma NonNumericConfidenceDegrades(s: ValidationState, result: Object)
    requires EntriesOf(Get(result, "validation", Arr([]))).Some?
    requires AsNumber(Get(result, "confidence", Num(0.0))).None?
    ensures var penalised := Recalibrates(Counts(result).0, Counts(result).1, |s.missing|);
      Completion(s, result) == Degraded(s.(initialValidationDone := s.initialValidationDone || !penalised))
  {
  }

  /** A `validation` value that is not a list of dicts (the counts raise) gives the degraded result. */
  lemma UncountableValidationDegrades(s: ValidationState, result: Object)
    requires EntriesOf(Get(result, "validation", Arr([]))).None?
    ensures Completion(s, result) == Degraded(s)
  {
  }
}
