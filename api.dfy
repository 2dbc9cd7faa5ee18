/**
 * The two validation endpoints (backend/app/api/routes/validation.py): each runs the
 * workflow from its entry point's initial state and turns the final state into a
 * response: the validation entries as items, the conversation log parsed back into
 * interaction items, and the `hitl_required` flag. `None` stands for an exception
 * escaping the handler body (which the handler turns into an HTTP 500).
 */
module ValidationApi {

  import opened Wrappers
  import opened Json
  import opened PyStr
  import opened State
  import opened ValidationService
  import opened Workflow
  import Graph
  import SV = Supervisor
  import H = Hitl
  import MH = MergeHitl

  /** `HITLInteractionItem(field, user_response)`; the timestamp is always `None`. */
  datatype Interaction = Interaction(field: string, userResponse: string)

  /** The fields of `ValidationResponse`. */
  datatype Response = Response(
    userInput: string,
    route: Json,
    designId: Option<string>,
    attributes: Object,
    missing: seq<string>,
    validation: seq<Object>,
    reasoning: Json,
    confidence: Json,
    hitlMode: bool,
    hitlRequired: bool,
    interactions: seq<Interaction>)

  const Separator: string := " | "

  // ----- the conversation log -----

  /**
   * One log entry: split on `" | "`; exactly two parts give an item whose field is the
   * first part with every `"Q: "` removed and stripped, and whose answer is the second
   * part with every `"A: "` removed and stripped.
   */
  function ParseInteraction(entry: string): (r: Option<Interaction>)
    ensures r.Some? <==> |Split(entry, Separator)| == 2
    ensures r.Some? ==> Trimmed(r.value.field) && Trimmed(r.value.userResponse)
  {
    var parts := Split(entry, Separator);
    if |parts| == 2 then
      Some(Interaction(Strip(RemoveAll(parts[0], "Q: ")), Strip(RemoveAll(parts[1], "A: "))))
    else None
  }

  /** The items one entry contributes: its item, or none. */
  function EntryItems(entry: string): (r: seq<Interaction>)
    ensures |r| <= 1
    ensures |r| == 1 <==> ParseInteraction(entry).Some?
    ensures |r| == 1 ==> r[0] == ParseInteraction(entry).value
  {
    var p := ParseInteraction(entry);
    if p.Some? then [p.value] else []
  }

  /** The items of a log, in its order, with the entries that do not split in two dropped. */
  function InteractionsOf(history: seq<string>): (r: seq<Interaction>)
    ensures |r| <= |history|
    decreases |history|
  {
    if |history| == 0 then []
    else InteractionsOf(history[..|history| - 1]) + EntryItems(history[|history| - 1])
  }

  /** The items of a log with one more entry. */
  lemma InteractionsSnoc(history: seq<string>, entry: string)
    ensures InteractionsOf(history + [entry]) == InteractionsOf(history) + EntryItems(entry)
  {
    assert (history + [entry])[..|history|] == history;
  }

  /** The items of one more entry of the log. */
  lemma InteractionsPrefix(history: seq<string>, i: nat)
    requires i < |history|
    ensures InteractionsOf(history[..i + 1]) == InteractionsOf(history[..i]) + EntryItems(history[i])
  {
    assert history[..i + 1] == history[..i] + [history[i]];
    InteractionsSnoc(history[..i], history[i]);
  }

  /** Keeping or dropping one more entry of the log. */
  lemma CollectStep(history: seq<string>, i: nat, items: seq<Interaction>)
    requires i < |history| && items == InteractionsOf(history[..i])
    ensures var p := ParseInteraction(history[i]);
      InteractionsOf(history[..i + 1]) == if p.Some? then items + [p.value] else items
  {
    InteractionsPrefix(history, i);
  }

  /** The handlers' loop over `conversation_history`, appending one item per kept entry. */
  method CollectInteractions(history: seq<string>) returns (items: seq<Interaction>)
    ensures items == InteractionsOf(history)
  {
    items := [];
    var i := 0;
    while i < |history|
      invariant 0 <= i <= |history|
      invariant items == InteractionsOf(history[..i])
    {
      CollectStep(history, i, items);
      var parsed := ParseInteraction(history[i]);
      if parsed.Some? {
        items := items + [parsed.value];
      }
      i := i + 1;
    }
    assert history[..i] == history;
  }

  /** The parse works entry by entry: the items of two logs are the items of each, in order. */
  lemma {:induction false} InteractionsAppend(h1: seq<string>, h2: seq<string>)
    ensures InteractionsOf(h1 + h2) == InteractionsOf(h1) + InteractionsOf(h2)
    decreases |h2|
  {
    if |h2| > 0 {
      var pre := h2[..|h2| - 1];
      var last := h2[|h2| - 1];
      assert h2 == pre + [last];
      assert h1 + h2 == (h1 + pre) + [last];
      InteractionsSnoc(h1 + pre, last);
      InteractionsSnoc(pre, last);
      InteractionsAppend(h1, pre);
    } else {
      assert h1 + h2 == h1;
    }
  }

  /** An entry that yields an item contributes exactly that item; one that does not is dropped. */
  lemma InteractionsOfOne(entry: string)
    ensures InteractionsOf([entry]) == EntryItems(entry)
  {
    InteractionsSnoc([], entry);
  }

  /** The separator's `|` is not next to a `|` of its own in the field or the answer. */
  predicate ClearOfSeparator(a: string, r: string)
  {
    && !(|a| > 0 && a[0] == '|')
    && !(|a| >= 2 && a[|a| - 2] == ' ' && a[|a| - 1] == '|')
    && !(|r| > 0 && r[0] == '|')
  }

  /** A field and an answer that the log entry carries back intact. */
  predicate RoundTrips(a: string, r: string)
  {
    && !Contains(a, Separator) && !Contains(r, Separator)
    && !Contains(a, "Q: ") && !Contains(r, "A: ")
    && Trimmed(a) && Trimmed(r)
    && ClearOfSeparator(a, r)
  }

  /** Before the written separator, `"Q: " + a + " | A: " + r` has no other occurrence of it. */
  lemma FirstSeparator(a: string, r: string)
    requires !Contains(a, Separator) && ClearOfSeparator(a, r)
    ensures var e := H.LogEntry(a, r);
      OccursAt(e, Separator, 3 + |a|) && forall j :: 0 <= j < 3 + |a| ==> !OccursAt(e, Separator, j)
  {
    var e := H.LogEntry(a, r);
    assert e[3 + |a|..3 + |a| + 3] == Separator;
    forall j | 0 <= j < 3 + |a| ensures !OccursAt(e, Separator, j) {
      if j + 1 < 3 {
        assert e[j + 1] == "Q: "[j + 1];
        assert e[j..j + 3][1] != '|';
      } else if j + 1 == 3 + |a| {
        assert e[j..j + 3][1] == ' ';
      } else if j == 2 {
        assert e[j..j + 3][1] == a[0];
      } else if j + 2 < 3 + |a| {
        assert e[j..j + 3] == a[j - 3..j];
        assert !OccursAt(a, Separator, j - 3);
      } else {
        assert e[j] == a[j - 3] && e[j + 1] == a[j - 2] && j - 3 == |a| - 2;
        assert e[j..j + 3][0] == e[j] && e[j..j + 3][1] == e[j + 1];
      }
    }
  }

  /** After the written separator the rest, `"A: " + r`, holds no further occurrence of it. */
  lemma RestClear(r: string)
    requires !Contains(r, Separator) && !(|r| > 0 && r[0] == '|')
    ensures !Contains("A: " + r, Separator)
  {
    var t := "A: " + r;
    forall j | 0 <= j <= |t| ensures !OccursAt(t, Separator, j) {
      if j + 3 <= |t| {
        if j + 1 < 3 {
          assert t[j..j + 3][1] == "A: "[j + 1];
        } else if j + 1 == 3 {
          assert t[j..j + 3][1] == r[0];
        } else {
          assert t[j..j + 3] == r[j - 3..j];
          assert !OccursAt(r, Separator, j - 3);
        }
      }
    }
  }

  /** The search from `k` stops at the first occurrence at or after `k`. */
  lemma {:induction false} FindFromFirst(s: string, p: string, k: nat, i: nat)
    requires k <= i && OccursAt(s, p, i)
    requires forall j :: k <= j < i ==> !OccursAt(s, p, j)
    ensures FindFrom(s, p, k) == Some(i)
    decreases i - k
  {
    if k < i {
      assert !OccursAt(s, p, k);
      FindFromFirst(s, p, k + 1, i);
    }
  }

  /** A string whose first separator sits at `i`, with none after it, splits into the two sides. */
  lemma SplitAtOnly(s: string, i: nat)
    requires OccursAt(s, Separator, i) && forall j :: 0 <= j < i ==> !OccursAt(s, Separator, j)
    requires !Contains(s[i + 3..], Separator)
    ensures Split(s, Separator) == [s[..i], s[i + 3..]]
  {
    FindFromFirst(s, Separator, 0, i);
    assert Find(s[i + 3..], Separator).None?;
  }

  /** The log entry splits into the question side and the answer side. */
  lemma SplitEntry(a: string, r: string)
    requires !Contains(a, Separator) && !Contains(r, Separator) && ClearOfSeparator(a, r)
    ensures Split(H.LogEntry(a, r), Separator) == ["Q: " + a, "A: " + r]
  {
    var e := H.LogEntry(a, r);
    var i := 3 + |a|;
    FirstSeparator(a, r);
    assert e[i + 3..] == "A: " + r;
    assert e[..i] == "Q: " + a;
    RestClear(r);
    SplitAtOnly(e, i);
  }

  /** Removing a prefix the text does not otherwise contain, then stripping, gives back trimmed text. */
  lemma UnwrapSide(pat: string, t: string)
    requires |pat| > 0 && !Contains(t, pat) && Trimmed(t)
    ensures Strip(RemoveAll(pat + t, pat)) == t
  {
    RemoveAllLeading(pat, t);
    RemoveAllAbsent(t, pat);
    StripTrimmed(t);
  }

  /**
   * The log entry `f"Q: {a} | A: {r}"` written by the collection node parses back to `(a, r)`
   * when neither part contains the separator or its own prefix, neither has surrounding
   * whitespace, and no `|` of theirs sits against the separator.
   */
  lemma InteractionRoundTrip(a: string, r: string)
    requires RoundTrips(a, r)
    ensures ParseInteraction(H.LogEntry(a, r)) == Some(Interaction(a, r))
  {
    SplitEntry(a, r);
    UnwrapSide("Q: ", a);
    UnwrapSide("A: ", r);
  }

  /** The items of a log of answers that all round-trip are exactly those answers, in order. */
  lemma {:induction false} LogRoundTrip(rs: seq<Answer>)
    requires forall i :: 0 <= i < |rs| ==> RoundTrips(rs[i].field, rs[i].text)
    ensures var items := InteractionsOf(H.Log(rs));
      |items| == |rs| && forall i :: 0 <= i < |rs| ==> items[i] == Interaction(rs[i].field, rs[i].text)
    decreases |rs|
  {
    if |rs| > 0 {
      var pre := rs[..|rs| - 1];
      var last := rs[|rs| - 1];
      assert rs == pre + [last];
      LogRoundTrip(pre);
      MH.LogSnoc(pre, last);
      var entry := H.LogEntry(last.field, last.text);
      InteractionsSnoc(H.Log(pre), entry);
      InteractionRoundTrip(last.field, last.text);
      assert EntryItems(entry) == [Interaction(last.field, last.text)];
      var before := InteractionsOf(H.Log(pre));
      assert InteractionsOf(H.Log(rs)) == before + [Interaction(last.field, last.text)];
    }
  }

  /** The log entry of the misread example. */
  lemma MisreadEntry()
    ensures H.LogEntry("x |", "y") == "Q: x | | A: y"
  {
    var e := "Q: x | | A: y";
    var l := H.LogEntry("x |", "y");
    assert |l| == |e|;
    forall k | 0 <= k < |e| ensures l[k] == e[k] { }
  }

  /** In the misread entry the first separator starts at index 4, inside the field's own `" |"`. */
  lemma MisreadFirstSeparator()
    ensures OccursAt("Q: x | | A: y", Separator, 4)
    ensures forall j :: 0 <= j < 4 ==> !OccursAt("Q: x | | A: y", Separator, j)
  {
    var e := "Q: x | | A: y";
    assert e[4..7] == Separator;
    forall j | 0 <= j < 4 ensures !OccursAt(e, Separator, j) {
      assert e[j..j + 3][1] == e[j + 1];
    }
  }

  /** What follows that separator holds no other. */
  lemma MisreadRestClear()
    ensures !Contains("| A: y", Separator)
  {
    var rest := "| A: y";
    forall j | 0 <= j <= |rest| ensures !OccursAt(rest, Separator, j) {
      if j + 3 <= |rest| {
        assert rest[j..j + 3][1] == rest[j + 1];
      }
    }
  }

  /** The misread entry splits one character early. */
  lemma MisreadSplit()
    ensures Split(H.LogEntry("x |", "y"), Separator) == ["Q: x", "| A: y"]
  {
    var e := "Q: x | | A: y";
    MisreadEntry();
    MisreadFirstSeparator();
    assert e[7..] == "| A: y";
    MisreadRestClear();
    SplitAtOnly(e, 4);
    assert e[..4] == "Q: x";
  }

  /** A character where the pattern does not start is kept. */
  lemma RemoveAllKeeps(s: string, pat: string)
    requires |pat| > 0 && |s| > 0 && !OccursAt(s, pat, 0)
    ensures RemoveAll(s, pat) == [s[0]] + RemoveAll(s[1..], pat)
  {
  }

  /** The answer side keeps the stray `|`. */
  lemma MisreadAnswer()
    ensures Strip(RemoveAll("| A: y", "A: ")) == "| y"
  {
    var s := "| A: y";
    assert !OccursAt(s, "A: ", 0) by { assert s[0..3][0] == '|'; }
    RemoveAllKeeps(s, "A: ");
    assert s[1..] == " A: y";
    var s1 := " A: y";
    assert !OccursAt(s1, "A: ", 0) by { assert s1[0..3][0] == ' '; }
    RemoveAllKeeps(s1, "A: ");
    assert s1[1..] == "A: " + "y";
    RemoveAllLeading("A: ", "y");
    assert RemoveAll("y", "A: ") == "y";
    assert RemoveAll(s, "A: ") == "| y";
    StripTrimmed("| y");
  }

  /** A field ending in `" |"` is misread: the separator is found one character early. */
  lemma FieldEndingInBarMisread()
    ensures ParseInteraction(H.LogEntry("x |", "y")) == Some(Interaction("x", "| y"))
  {
    MisreadSplit();
    MisreadAnswer();
    assert "Q: x" == "Q: " + "x";
    UnwrapSide("Q: ", "x");
  }

  // ----- the response -----

  /** `hitl_required` on `/validate`: HITL mode requested, fields missing, nothing logged yet. */
  function HitlRequired(hitlMode: bool, final: ValidationState): (r: bool)
    ensures r ==> hitlMode && |final.missing| > 0
    ensures hitlMode && |final.missing| > 0 && |final.history| == 0 ==> r
  {
    hitlMode && |final.missing| > 0 && |final.history| == 0
  }

  /** The verdicts do not enter `hitl_required`. */
  lemma HitlRequiredIgnoresValidation(hitlMode: bool, final: ValidationState, v: Json)
    ensures HitlRequired(hitlMode, final.(validation := v)) == HitlRequired(hitlMode, final)
  {
  }

  /** The response built from a final state, its validation items and the flag. */
  function Respond(final: ValidationState, items: seq<Object>, hitlRequired: bool): (r: Response)
    ensures r.validation == items && r.hitlRequired == hitlRequired
    ensures r.interactions == InteractionsOf(final.history)
    ensures r.missing == final.missing && r.attributes == final.attributes
  {
    Response(final.userInput, final.route, final.designId, final.attributes, final.missing,
             items, final.reasoning, final.confidence, final.hitlMode, hitlRequired,
             InteractionsOf(final.history))
  }

  /**
   * `[ValidationResultItem(**item) for item in result.get("validation", [])]` as written:
   * the key is always present, so a `None` validation is iterated and raises.
   */
  function ValidationItemsAsWritten(validation: Json): (r: Option<seq<Object>>)
    ensures validation == Null ==> r.None?
  {
    EntriesOf(validation)
  }

  /** The evidently intended reading: a validation never produced gives no items. */
  function ValidationItems(validation: Json): (r: Option<seq<Object>>)
    ensures validation == Null ==> r == Some([])
    ensures validation != Null ==> r == ValidationItemsAsWritten(validation)
    ensures r.Some? && validation != Null ==>
      |r.value| == |Iterate(validation).items|
      && forall i :: 0 <= i < |r.value| ==> Iterate(validation).items[i] == Obj(r.value[i])
  {
    if validation == Null then Some([]) else EntriesOf(validation)
  }

  /** `validate_design` as written. */
  function ValidateEndpointAsWritten(userInput: string, hitlMode: bool, oracle: Oracle): (r: Option<Response>)
    ensures r.Some? ==> r == ValidateEndpoint(userInput, hitlMode, oracle)
  {
    match Invoke(RunValidationState(userInput, hitlMode), oracle)
    case Finished(final, _) =>
      (match ValidationItemsAsWritten(final.validation)
       case None => None
       case Some(items) => Some(Respond(final, items, HitlRequired(hitlMode, final))))
    case _ => None
  }

  /** `validate_design` with the validation items read as intended. */
  function ValidateEndpoint(userInput: string, hitlMode: bool, oracle: Oracle): (r: Option<Response>)
    ensures r.Some? && r.value.hitlRequired ==> hitlMode && |r.value.missing| > 0
    ensures r.Some? ==> Invoke(RunValidationState(userInput, hitlMode), oracle).Finished?
  {
    match Invoke(RunValidationState(userInput, hitlMode), oracle)
    case Finished(final, _) =>
      (match ValidationItems(final.validation)
       case None => None
       case Some(items) => Some(Respond(final, items, HitlRequired(hitlMode, final))))
    case _ => None
  }

  /** `validate_with_hitl_responses`, with the validation items read as intended; the flag is always false. */
  function ResumeEndpoint(userInput: string, responses: Responses, oracle: Oracle): (r: Option<Response>)
    ensures r.Some? ==> !r.value.hitlRequired
  {
    match Invoke(RunWithResponsesState(userInput, responses), oracle)
    case Finished(final, _) =>
      (match ValidationItems(final.validation)
       case None => None
       case Some(items) => Some(Respond(final, items, false)))
    case _ => None
  }

  /** With the intended reading the endpoints fail only when the run itself raises. */
  lemma EndpointsFailOnlyWithTheRun(userInput: string, hitlMode: bool, responses: Responses, oracle: Oracle)
    ensures ValidateEndpoint(userInput, hitlMode, oracle).Some? <==> Invoke(RunValidationState(userInput, hitlMode), oracle).Finished?
    ensures ResumeEndpoint(userInput, responses, oracle).Some? <==> Invoke(RunWithResponsesState(userInput, responses), oracle).Finished?
  {
    var s1 := RunValidationState(userInput, hitlMode);
    var s2 := RunWithResponsesState(userInput, responses);
    if Invoke(s1, oracle).Finished? {
      FinishedValidationShape(Graph.Entry, s1, oracle, RecursionLimit);
    }
    if Invoke(s2, oracle).Finished? {
      FinishedValidationShape(Graph.Entry, s2, oracle, RecursionLimit);
    }
  }

  /**
   * A request the model routes to IGNORE: the run ends after the supervisor with
   * `validation` still `None`, so the handler as written raises, while the intended reading
   * answers with no items.
   */
  lemma IgnoredRequestFailsAsWritten(userInput: string, hitlMode: bool, oracle: Oracle)
    requires SV.SupervisorRoute(userInput, oracle) == SV.IgnoreRoute
    ensures ValidateEndpointAsWritten(userInput, hitlMode, oracle).None?
    ensures ValidateEndpoint(userInput, hitlMode, oracle).Some?
    ensures ValidateEndpoint(userInput, hitlMode, oracle).value.route == SV.IgnoreRoute
    ensures ValidateEndpoint(userInput, hitlMode, oracle).value.validation == []
    ensures !ValidateEndpoint(userInput, hitlMode, oracle).value.hitlRequired
  {
    var s := RunValidationState(userInput, hitlMode);
    var u := SV.SupervisorNode(s, oracle);
    assert Step(Graph.Supervisor, s, oracle) == Some((Graph.End, u));
    assert Invoke(s, oracle) == Finished(u, 1);
  }

  /**
   * On `/validate` nothing is preloaded, so the log stays empty: there are no interaction
   * items, and `hitl_required` is HITL mode with fields still missing.
   */
  lemma FirstCallResponse(userInput: string, hitlMode: bool, oracle: Oracle)
    requires ValidateEndpoint(userInput, hitlMode, oracle).Some?
    ensures var r := ValidateEndpoint(userInput, hitlMode, oracle).value;
      r.interactions == [] && (r.hitlRequired <==> hitlMode && |r.missing| > 0)
  {
    var s := RunValidationState(userInput, hitlMode);
    NoAnswersKeepLog(Graph.Entry, s, oracle, RecursionLimit);
  }

  /** The validation items keep the order of the stored list, one item per entry. */
  lemma ValidationItemsInOrder(final: ValidationState)
    requires final.validation.Arr?
    requires ValidationItems(final.validation).Some?
    ensures var items := ValidationItems(final.validation).value;
      |items| == |final.validation.items|
      && forall i :: 0 <= i < |items| ==> final.validation.items[i] == Obj(items[i])
  {
  }
}
