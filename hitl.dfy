/**
 * The human-in-the-loop nodes (backend/app/langgraph/nodes/hitl.py): the single-value
 * parser, the prompt node and the collection node with its bulk-resume and
 * interactive branches.
 */
module Hitl {

  import opened Wrappers
  import opened Json
  import opened Lists
  import opened Spans
  import opened State

  /**
   * `parse_single_attribute_with_llm`: the `value` of the leftmost `{...}` candidate of the
   * reply, or `None` when there is no candidate, it does not parse, or `value` is absent
   * or null.
   */
  function ParseSingleAttribute(field: string, userResponse: string, oracle: Oracle): (r: Option<Json>)
    ensures r.Some? ==> r.value != Null
    ensures r.Some? <==>
      BraceSpan(oracle.valueReply(field, userResponse)).Some?
      && oracle.parseJson(BraceSpan(oracle.valueReply(field, userResponse)).value).Some?
      && Get(oracle.parseJson(BraceSpan(oracle.valueReply(field, userResponse)).value).value, "value", Null) != Null
    ensures r.Some? ==>
      r.value == Get(oracle.parseJson(BraceSpan(oracle.valueReply(field, userResponse)).value).value, "value", Null)
  {
    match BraceSpan(oracle.valueReply(field, userResponse))
    case None => None
    case Some(text) =>
      match oracle.parseJson(text)
      case None => None
      case Some(obj) => if Get(obj, "value", Null) == Null then None else Some(obj["value"])
  }

  /** The conversation-log entry `f"Q: {attr} | A: {user_response}"`. */
  function LogEntry(field: string, userResponse: string): string
  {
    "Q: " + field + " | A: " + userResponse
  }

  /** The log entries of a list of answers, in order. */
  function Log(rs: seq<Answer>): (r: seq<string>)
    ensures |r| == |rs|
    ensures forall i :: 0 <= i < |rs| ==> r[i] == LogEntry(rs[i].field, rs[i].text)
  {
    seq(|rs|, i requires 0 <= i < |rs| => LogEntry(rs[i].field, rs[i].text))
  }

  /** The set of attribute names the answers mention. */
  function FieldSet(rs: seq<Answer>): set<string>
  {
    set a | a in rs :: a.field
  }

  /**
   * The attribute map after the answers are applied in turn: each answer whose parse is
   * not `None` overwrites its attribute, whatever value it had.
   */
  function Merged(attrs: Object, rs: seq<Answer>, oracle: Oracle): Object
    decreases |rs|
  {
    if |rs| == 0 then attrs
    else
      var prev := Merged(attrs, rs[..|rs| - 1], oracle);
      var a := rs[|rs| - 1];
      match ParseSingleAttribute(a.field, a.text, oracle)
      case None => prev
      case Some(v) => prev[a.field := v]
  }

  /** Applying one more answer. */
  lemma MergedSnoc(attrs: Object, rs: seq<Answer>, a: Answer, oracle: Oracle)
    ensures Merged(attrs, rs + [a], oracle) ==
      match ParseSingleAttribute(a.field, a.text, oracle)
      case None => Merged(attrs, rs, oracle)
      case Some(v) => Merged(attrs, rs, oracle)[a.field := v]
  {
    assert (rs + [a])[..|rs|] == rs;
  }

  /**
   * Key by key, with distinct fields: a key that an answer parses for takes that value, and
   * every other key keeps its old value (or stays absent).
   */
  lemma {:induction false} MergedAt(attrs: Object, rs: seq<Answer>, oracle: Oracle, k: string)
    requires DistinctFields(rs)
    ensures forall i :: 0 <= i < |rs| && rs[i].field == k && ParseSingleAttribute(k, rs[i].text, oracle).Some? ==>
      k in Merged(attrs, rs, oracle) && Merged(attrs, rs, oracle)[k] == ParseSingleAttribute(k, rs[i].text, oracle).value
    ensures (forall i :: 0 <= i < |rs| && rs[i].field == k ==> ParseSingleAttribute(k, rs[i].text, oracle).None?) ==>
      (k in Merged(attrs, rs, oracle) <==> k in attrs)
      && (k in attrs ==> Merged(attrs, rs, oracle)[k] == attrs[k])
    decreases |rs|
  {
    if |rs| > 0 {
      var pre := rs[..|rs| - 1];
      assert DistinctFields(pre);
      MergedAt(attrs, pre, oracle, k);
      forall i | 0 <= i < |pre| ensures pre[i] == rs[i] { }
    }
  }

  /** The keys of the merged map are the old keys plus the fields of answers that parse. */
  lemma {:induction false} MergedKeys(attrs: Object, rs: seq<Answer>, oracle: Oracle)
    ensures forall k :: k in Merged(attrs, rs, oracle) ==> k in attrs || k in FieldSet(rs)
    decreases |rs|
  {
    if |rs| > 0 {
      var pre := rs[..|rs| - 1];
      MergedKeys(attrs, pre, oracle);
      assert forall a :: a in pre ==> a in rs;
      assert rs[|rs| - 1] in rs;
    }
  }

  // ----- hitl_prompt_node -----

  /**
   * `next((v for v in validation if v['field'] == field), None)`: `None` when a `v['field']`
   * raises before a match, otherwise the match if there is one.
   */
  function FirstWithField(items: seq<Json>, field: string): (r: Option<Option<Object>>)
    ensures r == Some(None) ==> forall i :: 0 <= i < |items| ==> items[i].Obj? && "field" in items[i].fields && items[i].fields["field"] != Str(field)
    ensures r.Some? && r.value.Some? ==> "field" in r.value.value && r.value.value["field"] == Str(field)
  {
    if |items| == 0 then Some(None)
    else if !items[0].Obj? || "field" !in items[0].fields then None
    else if items[0].fields["field"] == Str(field) then Some(Some(items[0].fields))
    else FirstWithField(items[1..], field)
  }

  /** Printing a found entry reads `status`, and for a WARN also `expected` and a sliceable `comment`. */
  predicate ListingFits(e: Object)
  {
    "status" in e
    && (e["status"] == Str("WARN") ==>
          "expected" in e && "comment" in e && (e["comment"].Str? || e["comment"].Arr?))
  }

  /** The debug listing of the missing fields runs without raising. */
  predicate ListingOk(missing: seq<string>, validation: Json)
  {
    |missing| == 0
    || (Iterate(validation).Rows?
        && forall i :: 0 <= i < |missing| ==>
             var found := FirstWithField(Iterate(validation).items, missing[i]);
             found.Some? && (found.value.Some? ==> ListingFits(found.value.value)))
  }

  /**
   * `hitl_prompt_node`: `skip_hitl_collection` becomes true exactly when there are no
   * preloaded answers; nothing else is written. `None` is the debug listing raising.
   */
  function HitlPromptNode(s: ValidationState): (r: Option<ValidationState>)
    ensures r.Some? <==> ListingOk(s.missing, s.validation)
    ensures r.Some? ==> r.value == s.(skipHitlCollection := r.value.skipHitlCollection)
    ensures r.Some? ==> (r.value.skipHitlCollection <==> |s.responses| == 0)
  {
    if ListingOk(s.missing, s.validation) then Some(s.(skipHitlCollection := |s.responses| == 0))
    else None
  }

  // ----- ask_missing_attribute -----

  /** What the bulk branch updates: the attribute map, the log and the missing list. */
  datatype Collected = Collected(attributes: Object, history: seq<string>, missing: seq<string>)

  /** One answer of the bulk branch, against the missing list as it stands at that point. */
  function CollectOne(c: Collected, a: Answer, oracle: Oracle): Collected
  {
    if a.field in c.missing then
      Collected(
        match ParseSingleAttribute(a.field, a.text, oracle)
        case None => c.attributes
        case Some(v) => c.attributes[a.field := v],
        c.history + [LogEntry(a.field, a.text)],
        RemoveFirst(c.missing, a.field))
    else c
  }

  /** The bulk branch's loop over the answers, in order: the missing list only shrinks and the log only grows. */
  function CollectAll(c: Collected, rs: seq<Answer>, oracle: Oracle): (r: Collected)
    ensures forall f :: f in r.missing ==> f in c.missing
    ensures |r.missing| <= |c.missing|
    ensures |c.history| <= |r.history| && r.history[..|c.history|] == c.history
    decreases |rs|
  {
    if |rs| == 0 then c else CollectOne(CollectAll(c, rs[..|rs| - 1], oracle), rs[|rs| - 1], oracle)
  }

  /** The answers whose field is in `missing`, in order. */
  function Answered(rs: seq<Answer>, missing: seq<string>): (r: seq<Answer>)
    ensures forall a :: a in r <==> a in rs && a.field in missing
    ensures DistinctFields(rs) ==> DistinctFields(r)
    decreases |rs|
  {
    if |rs| == 0 then []
    else
      var pre := rs[..|rs| - 1];
      var last := rs[|rs| - 1];
      assert forall a :: a in pre ==> a in rs;
      assert forall a :: a in rs ==> a in pre || a == last;
      assert DistinctFields(rs) ==> DistinctFields(pre);
      Answered(pre, missing) + (if last.field in missing then [last] else [])
  }

  /** The fields of a list with one more answer. */
  lemma FieldSetSnoc(rs: seq<Answer>)
    requires |rs| > 0
    ensures FieldSet(rs) == FieldSet(rs[..|rs| - 1]) + {rs[|rs| - 1].field}
  {
    assert forall b :: b in rs <==> b in rs[..|rs| - 1] || b == rs[|rs| - 1];
  }

  /** With distinct answers, the last answer's field is not among the earlier ones. */
  lemma LastFieldFresh(rs: seq<Answer>)
    requires |rs| > 0 && DistinctFields(rs)
    ensures rs[|rs| - 1].field !in FieldSet(rs[..|rs| - 1])
  {
    var pre := rs[..|rs| - 1];
    forall b | b in pre ensures b.field != rs[|rs| - 1].field {
      var j :| 0 <= j < |pre| && pre[j] == b;
      assert rs[j] == b;
    }
  }

  /** The bulk loop removes exactly the answered names from a list without duplicates. */
  lemma {:induction false} CollectAllMissing(c: Collected, rs: seq<Answer>, oracle: Oracle)
    requires DistinctFields(rs) && NoDup(c.missing)
    ensures CollectAll(c, rs, oracle).missing == Without(c.missing, FieldSet(rs))
    decreases |rs|
  {
    if |rs| == 0 {
      assert FieldSet(rs) == {};
      WithoutAbsent(c.missing, {});
    } else {
      var pre := rs[..|rs| - 1];
      var a := rs[|rs| - 1];
      assert DistinctFields(pre);
      CollectAllMissing(c, pre, oracle);
      var p := CollectAll(c, pre, oracle);
      FieldSetSnoc(rs);
      WithoutWithout(c.missing, FieldSet(pre), {a.field});
      if a.field in p.missing {
        RemoveFirstNoDup(p.missing, a.field);
      } else {
        WithoutAbsent(p.missing, {a.field});
      }
    }
  }

  /** An answer is tested against the shrinking list, but with distinct answers that is the original list. */
  lemma StillMissing(c: Collected, rs: seq<Answer>, oracle: Oracle)
    requires |rs| > 0 && DistinctFields(rs) && NoDup(c.missing)
    ensures rs[|rs| - 1].field in CollectAll(c, rs[..|rs| - 1], oracle).missing <==> rs[|rs| - 1].field in c.missing
  {
    assert DistinctFields(rs[..|rs| - 1]);
    CollectAllMissing(c, rs[..|rs| - 1], oracle);
    LastFieldFresh(rs);
  }

  /** The bulk loop logs exactly the answers to missing names, in answer order. */
  lemma {:induction false} CollectAllHistory(c: Collected, rs: seq<Answer>, oracle: Oracle)
    requires DistinctFields(rs) && NoDup(c.missing)
    ensures CollectAll(c, rs, oracle).history == c.history + Log(Answered(rs, c.missing))
    decreases |rs|
  {
    if |rs| == 0 {
      assert Log([]) == [];
    } else {
      var pre := rs[..|rs| - 1];
      var a := rs[|rs| - 1];
      assert DistinctFields(pre);
      CollectAllHistory(c, pre, oracle);
      StillMissing(c, rs, oracle);
      var ans := Answered(pre, c.missing);
      if a.field in c.missing {
        assert Log(ans + [a]) == Log(ans) + [LogEntry(a.field, a.text)];
      }
    }
  }

  /** The bulk loop merges exactly the answers to missing names. */
  lemma {:induction false} CollectAllAttributes(c: Collected, rs: seq<Answer>, oracle: Oracle)
    requires DistinctFields(rs) && NoDup(c.missing)
    ensures CollectAll(c, rs, oracle).attributes == Merged(c.attributes, Answered(rs, c.missing), oracle)
    decreases |rs|
  {
    if |rs| > 0 {
      var pre := rs[..|rs| - 1];
      var a := rs[|rs| - 1];
      assert DistinctFields(pre);
      CollectAllAttributes(c, pre, oracle);
      StillMissing(c, rs, oracle);
      var ans := Answered(pre, c.missing);
      if a.field in c.missing {
        assert Answered(rs, c.missing) == ans + [a];
        MergedSnoc(c.attributes, ans, a, oracle);
      } else {
        assert Answered(rs, c.missing) == ans;
      }
    }
  }

  /** The state the bulk branch leaves. */
  function BulkCollect(s: ValidationState, oracle: Oracle): (r: ValidationState)
    ensures r == s.(attributes := r.attributes, history := r.history, missing := r.missing, responsesProcessed := true)
    ensures forall f :: f in r.missing ==> f in s.missing
    ensures |s.history| <= |r.history| && r.history[..|s.history|] == s.history
  {
    var c := CollectAll(Collected(s.attributes, s.history, s.missing), s.responses, oracle);
    s.(attributes := c.attributes, history := c.history, missing := c.missing, responsesProcessed := true)
  }

  /** Whether a call takes the bulk-resume branch. */
  predicate TakesBulkBranch(s: ValidationState)
  {
    |s.missing| > 0 && |s.responses| > 0 && !s.responsesProcessed
  }

  /** `hitl_retry_count.get(attr, 0)`. */
  function RetryCount(s: ValidationState, field: string): int
  {
    if field in s.retryCount then s.retryCount[field] else 0
  }

  /** One failed attempt at `field`: its count goes up, and it is dropped once the count reaches the maximum. */
  function FailedAttempt(s: ValidationState, field: string): (r: ValidationState)
    ensures r == s.(retryCount := r.retryCount, missing := r.missing)
    ensures r.retryCount == s.retryCount[field := RetryCount(s, field) + 1]
    ensures forall f :: f in r.missing ==> f in s.missing
    ensures |r.missing| <= |s.missing|
  {
    var next := RetryCount(s, field) + 1;
    var counted := s.(retryCount := s.retryCount[field := next]);
    if next >= s.maxRetries then counted.(missing := RemoveFirst(s.missing, field)) else counted
  }

  /**
   * `ask_missing_attribute(state, user_response, attr)`. Inside the workflow both optional
   * arguments are `None`; the API-driven interactive form passes an answer and possibly a field.
   */
  function AskMissing(s: ValidationState, oracle: Oracle, userResponse: Option<string>, attr: Option<string>): (r: ValidationState)
    ensures |s.missing| == 0 ==> r == s
    ensures TakesBulkBranch(s) ==> r.responsesProcessed
    ensures |s.missing| > 0 && !TakesBulkBranch(s) && userResponse.None? ==> r.history == s.history
    ensures |s.missing| > 0 && !TakesBulkBranch(s) && userResponse.Some? ==>
      r.history == s.history + [LogEntry(TargetField(s, attr), userResponse.value)]
  {
    if |s.missing| == 0 then s
    else if TakesBulkBranch(s) then BulkCollect(s, oracle)
    else
      var field := TargetField(s, attr);
      match userResponse
      case None => FailedAttempt(s, field)
      case Some(text) =>
        var logged := s.(history := s.history + [LogEntry(field, text)]);
        match ParseSingleAttribute(field, text, oracle)
        case Some(v) =>
          logged.(attributes := s.attributes[field := v], missing := RemoveFirst(s.missing, field),
                  retryCount := s.retryCount[field := 0])
        case None => FailedAttempt(logged, field)
  }

  /** Only the attribute map, the log, the missing list, the retry counts and the processed flag differ. */
  predicate CollectionFrame(s: ValidationState, r: ValidationState)
  {
    r == s.(attributes := r.attributes, history := r.history, missing := r.missing,
            retryCount := r.retryCount, responsesProcessed := r.responsesProcessed)
  }

  /** The missing list only shrinks and the log only grows. */
  predicate ShrinksAndLogs(s: ValidationState, r: ValidationState)
  {
    && (forall f :: f in r.missing ==> f in s.missing)
    && |r.missing| <= |s.missing|
    && |s.history| <= |r.history| && r.history[..|s.history|] == s.history
  }

  lemma BulkFacts(s: ValidationState, oracle: Oracle)
    ensures CollectionFrame(s, BulkCollect(s, oracle)) && ShrinksAndLogs(s, BulkCollect(s, oracle))
    ensures BulkCollect(s, oracle).responsesProcessed
  {
  }

  lemma FailedAttemptFacts(s: ValidationState, field: string)
    ensures CollectionFrame(s, FailedAttempt(s, field)) && ShrinksAndLogs(s, FailedAttempt(s, field))
    ensures FailedAttempt(s, field).responsesProcessed == s.responsesProcessed
  {
  }

  /** An answer that parses sets the attribute, removes the field and resets its count. */
  lemma ParsedAnswerFacts(s: ValidationState, oracle: Oracle, text: string, attr: Option<string>)
    requires |s.missing| > 0 && !TakesBulkBranch(s)
    requires ParseSingleAttribute(TargetField(s, attr), text, oracle).Some?
    ensures CollectionFrame(s, AskMissing(s, oracle, Some(text), attr))
    ensures ShrinksAndLogs(s, AskMissing(s, oracle, Some(text), attr))
    ensures AskMissing(s, oracle, Some(text), attr).responsesProcessed == s.responsesProcessed
  {
    var f := TargetField(s, attr);
    var v := ParseSingleAttribute(f, text, oracle).value;
    var r := s.(history := s.history + [LogEntry(f, text)], attributes := s.attributes[f := v],
                missing := RemoveFirst(s.missing, f), retryCount := s.retryCount[f := 0]);
    assert AskMissing(s, oracle, Some(text), attr) == r;
    assert r.history[..|s.history|] == s.history;
  }

  /** An answer that does not parse is logged and counted as a failed attempt. */
  lemma UnparsedAnswerFacts(s: ValidationState, oracle: Oracle, text: string, attr: Option<string>)
    requires |s.missing| > 0 && !TakesBulkBranch(s)
    requires ParseSingleAttribute(TargetField(s, attr), text, oracle).None?
    ensures CollectionFrame(s, AskMissing(s, oracle, Some(text), attr))
    ensures ShrinksAndLogs(s, AskMissing(s, oracle, Some(text), attr))
    ensures AskMissing(s, oracle, Some(text), attr).responsesProcessed == s.responsesProcessed
  {
    var f := TargetField(s, attr);
    var logged := s.(history := s.history + [LogEntry(f, text)]);
    assert AskMissing(s, oracle, Some(text), attr) == FailedAttempt(logged, f);
    assert logged.history[..|s.history|] == s.history;
    FailedAttemptFacts(logged, f);
  }

  /**
   * Whatever the branch: only the attribute map, the log, the missing list, the retry
   * counts and the processed flag change; the missing list only shrinks; the log only
   * grows; and the bulk branch, once taken, is not taken again.
   */
  lemma AskMissingFacts(s: ValidationState, oracle: Oracle, userResponse: Option<string>, attr: Option<string>)
    ensures var r := AskMissing(s, oracle, userResponse, attr);
      && (|s.missing| == 0 ==> r == s)
      && CollectionFrame(s, r) && ShrinksAndLogs(s, r)
      && (TakesBulkBranch(s) ==> r.responsesProcessed && !TakesBulkBranch(r))
      && (!TakesBulkBranch(s) ==> r.responsesProcessed == s.responsesProcessed)
  {
    if |s.missing| == 0 {
      assert s.history[..|s.history|] == s.history;
    } else if TakesBulkBranch(s) {
      BulkFacts(s, oracle);
    } else if userResponse.None? {
      FailedAttemptFacts(s, TargetField(s, attr));
    } else if ParseSingleAttribute(TargetField(s, attr), userResponse.value, oracle).Some? {
      ParsedAnswerFacts(s, oracle, userResponse.value, attr);
    } else {
      UnparsedAnswerFacts(s, oracle, userResponse.value, attr);
    }
  }

  /** The bulk branch's loop, testing each answer against the missing list as it shrinks. */
  method CollectResponses(start: Collected, rs: seq<Answer>, oracle: Oracle) returns (c: Collected)
    ensures c == CollectAll(start, rs, oracle)
  {
    var attributes := start.attributes;
    var history := start.history;
    var missing := start.missing;
    var i := 0;
    while i < |rs|
      invariant 0 <= i <= |rs|
      invariant Collected(attributes, history, missing) == CollectAll(start, rs[..i], oracle)
    {
      var a := rs[i];
      assert rs[..i + 1][..i] == rs[..i];
      if a.field in missing {
        history := history + [LogEntry(a.field, a.text)];
        var value := ParseSingleAttribute(a.field, a.text, oracle);
        if value.Some? {
          attributes := attributes[a.field := value.value];
        }
        missing := RemoveFirst(missing, a.field);
      }
      i := i + 1;
    }
    assert rs[..i] == rs;
    c := Collected(attributes, history, missing);
  }

  /** `ask_missing_attribute` as the source runs it. */
  method AskMissingAttribute(s: ValidationState, oracle: Oracle, userResponse: Option<string>, attr: Option<string>)
    returns (r: ValidationState)
    ensures r == AskMissing(s, oracle, userResponse, attr)
  {
    if |s.missing| == 0 {
      return s;
    }
    if TakesBulkBranch(s) {
      var c := CollectResponses(Collected(s.attributes, s.history, s.missing), s.responses, oracle);
      return s.(attributes := c.attributes, history := c.history, missing := c.missing, responsesProcessed := true);
    }
    var field := if attr.Some? then attr.value else s.missing[0];
    if userResponse.None? {
      r := FailedAttempt(s, field);
      return r;
    }
    var logged := s.(history := s.history + [LogEntry(field, userResponse.value)]);
    var value := ParseSingleAttribute(field, userResponse.value, oracle);
    if value.Some? {
      r := logged.(attributes := s.attributes[field := value.value], missing := RemoveFirst(s.missing, field),
                   retryCount := s.retryCount[field := 0]);
    } else {
      r := FailedAttempt(logged, field);
    }
  }

  /**
   * The bulk branch: every answered missing name leaves the list whether or not its parse
   * succeeds, exactly those answers are logged in order, only their parsed values are
   * merged, and answers for names not missing are ignored.
   */
  lemma BulkBranchEffect(s: ValidationState, oracle: Oracle, userResponse: Option<string>, attr: Option<string>)
    requires TakesBulkBranch(s) && NoDup(s.missing)
    ensures var r := AskMissing(s, oracle, userResponse, attr);
      && r.missing == Without(s.missing, FieldSet(s.responses))
      && r.history == s.history + Log(Answered(s.responses, s.missing))
      && r.attributes == Merged(s.attributes, Answered(s.responses, s.missing), oracle)
      && r.retryCount == s.retryCount
  {
    var c := Collected(s.attributes, s.history, s.missing);
    CollectAllMissing(c, s.responses, oracle);
    CollectAllHistory(c, s.responses, oracle);
    CollectAllAttributes(c, s.responses, oracle);
  }

  /**
   * The interactive branch without an answer: the first missing field's count goes up by
   * one, and the field is dropped exactly when the new count reaches the maximum.
   */
  lemma NoAnswerAttempt(s: ValidationState, oracle: Oracle)
    requires |s.missing| > 0 && !TakesBulkBranch(s) && NoDup(s.missing)
    ensures var r := AskMissing(s, oracle, None, None);
      var f := s.missing[0];
      && r.retryCount == s.retryCount[f := RetryCount(s, f) + 1]
      && (f in r.missing <==> RetryCount(s, f) + 1 < s.maxRetries)
      && r.missing == (if RetryCount(s, f) + 1 < s.maxRetries then s.missing else s.missing[1..])
      && r.attributes == s.attributes && r.history == s.history
  {
    assert s.missing[0] !in s.missing[1..] by {
      forall j | 1 <= j < |s.missing| ensures s.missing[j] != s.missing[0] { }
    }
  }

  /** The field an interactive call works on: the given one, or the first missing one. */
  function TargetField(s: ValidationState, attr: Option<string>): string
    requires |s.missing| > 0
  {
    if attr.Some? then attr.value else s.missing[0]
  }

  /** The interactive branch with an answer that parses: logged, set, dropped from the list, count reset. */
  lemma AnswerParsed(s: ValidationState, oracle: Oracle, text: string, attr: Option<string>)
    requires |s.missing| > 0 && !TakesBulkBranch(s) && NoDup(s.missing)
    requires ParseSingleAttribute(TargetField(s, attr), text, oracle).Some?
    ensures var r := AskMissing(s, oracle, Some(text), attr);
      var f := TargetField(s, attr);
      && r.history == s.history + [LogEntry(f, text)]
      && f !in r.missing
      && f in r.attributes && r.attributes[f] == ParseSingleAttribute(f, text, oracle).value
      && r.retryCount[f] == 0
  {
    RemoveFirstNoDup(s.missing, TargetField(s, attr));
  }

  /**
   * The interactive branch with an answer that does not parse: logged, attributes kept,
   * count up by one, and dropped exactly on reaching the maximum.
   */
  lemma AnswerUnparsed(s: ValidationState, oracle: Oracle, text: string, attr: Option<string>)
    requires |s.missing| > 0 && !TakesBulkBranch(s) && NoDup(s.missing)
    requires attr.None? || attr.value in s.missing
    requires ParseSingleAttribute(TargetField(s, attr), text, oracle).None?
    ensures var r := AskMissing(s, oracle, Some(text), attr);
      var f := TargetField(s, attr);
      && r.history == s.history + [LogEntry(f, text)]
      && r.attributes == s.attributes
      && r.retryCount[f] == RetryCount(s, f) + 1
      && (f !in r.missing <==> RetryCount(s, f) + 1 >= s.maxRetries)
  {
    var f := TargetField(s, attr);
    RemoveFirstNoDup(s.missing, f);
    var logged := s.(history := s.history + [LogEntry(f, text)]);
    assert AskMissing(s, oracle, Some(text), attr) == FailedAttempt(logged, f);
    assert RetryCount(logged, f) == RetryCount(s, f);
  }

  /** `n` applications of `visit`. */
  function Repeat(visit: ValidationState -> ValidationState, s: ValidationState, n: nat): ValidationState
    decreases n
  {
    if n == 0 then s else visit(Repeat(visit, s, n - 1))
  }

  /** A visit of the workflow's collection node (no answer, no field given). */
  function Visit(oracle: Oracle): ValidationState -> ValidationState
  {
    u => AskMissing(u, oracle, None, None)
  }

  /** `n` visits of the workflow's collection node. */
  function AskRepeatedly(s: ValidationState, oracle: Oracle, n: nat): ValidationState
  {
    Repeat(Visit(oracle), s, n)
  }

  /** One more visit. */
  lemma AskRepeatedlyNext(s: ValidationState, oracle: Oracle, n: nat)
    ensures AskRepeatedly(s, oracle, n + 1) == AskMissing(AskRepeatedly(s, oracle, n), oracle, None, None)
  {
  }

  /** The number of visits after which an unanswered field is given up: the maximum, and at least one. */
  function Attempts(s: ValidationState): nat
  {
    if s.maxRetries < 1 then 1 else s.maxRetries
  }

  /** A visit that is not the last attempt at the first missing field only counts the attempt. */
  ghost predicate CountsEarlyAttempt(visit: ValidationState -> ValidationState)
  {
    forall p: ValidationState {:trigger visit(p)} :: |p.missing| > 0 && !TakesBulkBranch(p) && RetryCount(p, p.missing[0]) + 1 < p.maxRetries ==>
      visit(p) == p.(retryCount := p.retryCount[p.missing[0] := RetryCount(p, p.missing[0]) + 1])
  }

  lemma OneEarlyAttempt(p: ValidationState, oracle: Oracle)
    requires |p.missing| > 0 && !TakesBulkBranch(p)
    requires RetryCount(p, p.missing[0]) + 1 < p.maxRetries
    ensures AskMissing(p, oracle, None, None)
            == p.(retryCount := p.retryCount[p.missing[0] := RetryCount(p, p.missing[0]) + 1])
  {
  }

  /** The collection node's visit counts early attempts. */
  lemma VisitCountsEarlyAttempt(oracle: Oracle)
    ensures CountsEarlyAttempt(Visit(oracle))
  {
    forall p: ValidationState | |p.missing| > 0 && !TakesBulkBranch(p) && RetryCount(p, p.missing[0]) + 1 < p.maxRetries
      ensures Visit(oracle)(p) == p.(retryCount := p.retryCount[p.missing[0] := RetryCount(p, p.missing[0]) + 1])
    {
      OneEarlyAttempt(p, oracle);
    }
  }

  /** One visit of such a node, at a state whose first missing field is not yet at its last attempt. */
  lemma EarlyStep(visit: ValidationState -> ValidationState, p: ValidationState)
    requires CountsEarlyAttempt(visit)
    requires |p.missing| > 0 && !TakesBulkBranch(p) && RetryCount(p, p.missing[0]) + 1 < p.maxRetries
    ensures visit(p) == p.(retryCount := p.retryCount[p.missing[0] := RetryCount(p, p.missing[0]) + 1])
  {
  }

  /** A second write to the same key replaces the first. */
  lemma UpdateTwice(m: map<string, int>, f: string, a: int, b: int)
    ensures m[f := a][f := b] == m[f := b]
  {
  }

  /** For a visit that counts early attempts, the first `n` visits only count attempts at the first missing field. */
  lemma {:induction false} EarlyRepeats(visit: ValidationState -> ValidationState, s: ValidationState, n: nat)
    requires CountsEarlyAttempt(visit)
    requires |s.missing| > 0 && !TakesBulkBranch(s)
    requires RetryCount(s, s.missing[0]) == 0 && n < Attempts(s)
    ensures Repeat(visit, s, n) == if n == 0 then s else s.(retryCount := s.retryCount[s.missing[0] := n])
  {
    var f := s.missing[0];
    if n == 1 {
      assert Repeat(visit, s, 1) == visit(s);
      EarlyStep(visit, s);
    } else if n > 1 {
      EarlyRepeats(visit, s, n - 1);
      var p := s.(retryCount := s.retryCount[f := n - 1]);
      assert Repeat(visit, s, n) == visit(p);
      EarlyStep(visit, p);
      UpdateTwice(s.retryCount, f, n - 1, n);
      assert visit(p) == s.(retryCount := s.retryCount[f := n]);
    }
  }

  /** Before the last attempt, a visit only counts the attempt at the first missing field. */
  lemma EarlyAttempts(s: ValidationState, oracle: Oracle, n: nat)
    requires |s.missing| > 0 && !TakesBulkBranch(s)
    requires RetryCount(s, s.missing[0]) == 0 && n < Attempts(s)
    ensures AskRepeatedly(s, oracle, n) == if n == 0 then s else s.(retryCount := s.retryCount[s.missing[0] := n])
  {
    VisitCountsEarlyAttempt(oracle);
    EarlyRepeats(Visit(oracle), s, n);
  }

  /** Before its last attempt, the field at the head of the missing list stays missing. */
  lemma KeptBeforeMaxRetries(s: ValidationState, oracle: Oracle)
    requires |s.missing| > 0 && !TakesBulkBranch(s)
    requires RetryCount(s, s.missing[0]) == 0
    ensures forall n :: 0 <= n < Attempts(s) ==> s.missing[0] in AskRepeatedly(s, oracle, n).missing
  {
    forall n | 0 <= n < Attempts(s) ensures s.missing[0] in AskRepeatedly(s, oracle, n).missing {
      EarlyAttempts(s, oracle, n);
    }
  }

  /** A visit at the last attempt drops the head of the missing list. */
  lemma LastAttempt(p: ValidationState, oracle: Oracle)
    requires |p.missing| > 0 && !TakesBulkBranch(p) && NoDup(p.missing)
    requires RetryCount(p, p.missing[0]) + 1 >= p.maxRetries
    ensures AskMissing(p, oracle, None, None).missing == p.missing[1..]
  {
    NoAnswerAttempt(p, oracle);
  }

  /** The last attempt drops the field, and only that field. */
  lemma DroppedAtMaxRetries(s: ValidationState, oracle: Oracle)
    requires |s.missing| > 0 && !TakesBulkBranch(s) && NoDup(s.missing)
    requires RetryCount(s, s.missing[0]) == 0
    ensures AskRepeatedly(s, oracle, Attempts(s)).missing == s.missing[1..]
  {
    var m := Attempts(s);
    AskRepeatedlyNext(s, oracle, m - 1);
    if m == 1 {
      LastAttempt(s, oracle);
    } else {
      EarlyAttempts(s, oracle, m - 1);
      var p := s.(retryCount := s.retryCount[s.missing[0] := m - 1]);
      LastAttempt(p, oracle);
    }
  }

  /**
   * A field at the head of the missing list whose count starts at 0 stays for
   * `hitl_max_retries - 1` visits and is dropped at the next one.
   */
  lemma DroppedAfterMaxRetries(s: ValidationState, oracle: Oracle)
    requires |s.missing| > 0 && !TakesBulkBranch(s) && NoDup(s.missing)
    requires RetryCount(s, s.missing[0]) == 0
    ensures forall n :: 0 <= n < Attempts(s) ==> s.missing[0] in AskRepeatedly(s, oracle, n).missing
    ensures AskRepeatedly(s, oracle, Attempts(s)).missing == s.missing[1..]
  {
    KeptBeforeMaxRetries(s, oracle);
    DroppedAtMaxRetries(s, oracle);
  }
}
