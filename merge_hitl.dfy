/**
 * The response-merge node (backend/app/langgraph/nodes/merge_hitl.py): every pre-supplied
 * answer is parsed, and each one that yields a value sets its attribute and is logged.
 * The node is defined in the source but not wired into the workflow graph.
 */
module MergeHitl {

  import opened Wrappers
  import opened Json
  import opened Lists
  import opened State
  import opened Hitl

  /** The answers whose parse yields a value, in order. */
  function ParsedAnswers(rs: seq<Answer>, oracle: Oracle): (r: seq<Answer>)
    ensures forall a :: a in r <==> a in rs && ParseSingleAttribute(a.field, a.text, oracle).Some?
    ensures |r| <= |rs|
    decreases |rs|
  {
    if |rs| == 0 then []
    else
      var pre := rs[..|rs| - 1];
      var last := rs[|rs| - 1];
      assert forall a :: a in pre ==> a in rs;
      assert forall a :: a in rs ==> a in pre || a == last;
      ParsedAnswers(pre, oracle) + (if ParseSingleAttribute(last.field, last.text, oracle).Some? then [last] else [])
  }

  /**
   * `merge_hitl_responses`: no answers leave the state as it is; otherwise the attributes
   * and the log are the only keys written.
   */
  function MergeHitlNode(s: ValidationState, oracle: Oracle): (r: ValidationState)
    ensures |s.responses| == 0 ==> r == s
    ensures r == s.(attributes := r.attributes, history := r.history)
  {
    if |s.responses| == 0 then s
    else s.(attributes := Merged(s.attributes, s.responses, oracle),
            history := s.history + Log(ParsedAnswers(s.responses, oracle)))
  }

  /** The log of a list with one more entry. */
  lemma LogSnoc(rs: seq<Answer>, a: Answer)
    ensures Log(rs + [a]) == Log(rs) + [LogEntry(a.field, a.text)]
  {
  }

  /** The parsed answers of a list with one more answer. */
  lemma ParsedAnswersSnoc(rs: seq<Answer>, a: Answer, oracle: Oracle)
    ensures ParsedAnswers(rs + [a], oracle)
            == ParsedAnswers(rs, oracle) + (if ParseSingleAttribute(a.field, a.text, oracle).Some? then [a] else [])
  {
    assert (rs + [a])[..|rs|] == rs;
  }

  /** One more answer: its parsed value, if any, is set and logged. */
  lemma MergeStep(start: Object, log: seq<string>, rs: seq<Answer>, i: nat, oracle: Oracle,
                  attributes: Object, history: seq<string>)
    requires i < |rs|
    requires attributes == Merged(start, rs[..i], oracle)
    requires history == log + Log(ParsedAnswers(rs[..i], oracle))
    ensures match ParseSingleAttribute(rs[i].field, rs[i].text, oracle)
      case Some(v) =>
        && attributes[rs[i].field := v] == Merged(start, rs[..i + 1], oracle)
        && history + [LogEntry(rs[i].field, rs[i].text)] == log + Log(ParsedAnswers(rs[..i + 1], oracle))
      case None =>
        && attributes == Merged(start, rs[..i + 1], oracle)
        && history == log + Log(ParsedAnswers(rs[..i + 1], oracle))
  {
    var a := rs[i];
    assert rs[..i + 1] == rs[..i] + [a];
    MergedSnoc(start, rs[..i], a, oracle);
    ParsedAnswersSnoc(rs[..i], a, oracle);
    LogSnoc(ParsedAnswers(rs[..i], oracle), a);
  }

  /** The loop of the node, updating the attribute map and the log answer by answer. */
  method MergeAndLog(start: Object, log: seq<string>, rs: seq<Answer>, oracle: Oracle)
    returns (attributes: Object, history: seq<string>)
    ensures attributes == Merged(start, rs, oracle)
    ensures history == log + Log(ParsedAnswers(rs, oracle))
  {
    attributes := start;
    history := log;
    var i := 0;
    while i < |rs|
      invariant 0 <= i <= |rs|
      invariant attributes == Merged(start, rs[..i], oracle)
      invariant history == log + Log(ParsedAnswers(rs[..i], oracle))
    {
      MergeStep(start, log, rs, i, oracle, attributes, history);
      match ParseSingleAttribute(rs[i].field, rs[i].text, oracle) {
        case Some(v) =>
          attributes := attributes[rs[i].field := v];
          history := history + [LogEntry(rs[i].field, rs[i].text)];
        case None =>
      }
      i := i + 1;
    }
    assert rs[..i] == rs;
  }

  /** `merge_hitl_responses` as the source runs it. */
  method MergeHitlResponses(s: ValidationState, oracle: Oracle) returns (r: ValidationState)
    ensures r == MergeHitlNode(s, oracle)
  {
    if |s.responses| == 0 {
      return s;
    }
    var attributes, history := MergeAndLog(s.attributes, s.history, s.responses, oracle);
    r := s.(attributes := attributes, history := history);
  }

  /** The missing list is never written, and the old log is kept in order at the front. */
  lemma MergeKeepsMissingAndLog(s: ValidationState, oracle: Oracle)
    ensures MergeHitlNode(s, oracle).missing == s.missing
    ensures var h := MergeHitlNode(s, oracle).history;
      |s.history| <= |h| && h[..|s.history|] == s.history
  {
  }

  /**
   * Every answer is processed, missing or not: one whose parse yields a value sets its
   * attribute and has its entry in the log.
   */
  lemma MergeSetsAndLogs(s: ValidationState, oracle: Oracle, i: nat)
    requires i < |s.responses|
    requires ParseSingleAttribute(s.responses[i].field, s.responses[i].text, oracle).Some?
    ensures var r := MergeHitlNode(s, oracle);
      var a := s.responses[i];
      && a.field in r.attributes
      && r.attributes[a.field] == ParseSingleAttribute(a.field, a.text, oracle).value
      && LogEntry(a.field, a.text) in r.history
  {
    var a := s.responses[i];
    MergedAt(s.attributes, s.responses, oracle, a.field);
    var ps := ParsedAnswers(s.responses, oracle);
    assert a in ps;
    var j :| 0 <= j < |ps| && ps[j] == a;
    var h := s.history + Log(ps);
    assert h[|s.history| + j] == LogEntry(a.field, a.text);
    assert MergeHitlNode(s, oracle).history == h;
  }

  /**
   * An answer whose parse yields nothing changes neither its attribute nor the log: the log
   * grows by exactly the parsed answers.
   */
  lemma MergeSkipsUnparsed(s: ValidationState, oracle: Oracle, k: string)
    requires forall i :: 0 <= i < |s.responses| && s.responses[i].field == k ==>
               ParseSingleAttribute(k, s.responses[i].text, oracle).None?
    ensures var r := MergeHitlNode(s, oracle);
      && (k in r.attributes <==> k in s.attributes)
      && (k in s.attributes ==> r.attributes[k] == s.attributes[k])
      && forall a :: a in s.responses && a.field == k ==> a !in ParsedAnswers(s.responses, oracle)
  {
    MergedAt(s.attributes, s.responses, oracle, k);
    forall a | a in s.responses && a.field == k ensures a !in ParsedAnswers(s.responses, oracle) {
      var i :| 0 <= i < |s.responses| && s.responses[i] == a;
    }
  }
}
