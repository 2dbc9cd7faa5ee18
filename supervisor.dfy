/** Reply handling of the routing supervisor (backend/app/langgraph/nodes/supervisor.py). */
module Supervisor {

  import opened Wrappers
  import opened Json
  import opened PyStr
  import opened Spans
  import opened State

  const FetchDesignRoute: Json := Str("FETCH_DESIGN")
  const ExtractRoute: Json := Str("EXTRACT_FROM_TEXT")
  const IgnoreRoute: Json := Str("IGNORE")

  /** The three routes the prompt asks for. */
  predicate LegalRoute(v: Json)
  {
    v == FetchDesignRoute || v == ExtractRoute || v == IgnoreRoute
  }

  /** The substrings that mark cable specifications in the fallback heuristic. */
  const Keywords: seq<string> := ["iec", "kv", "copper", "cu", "cable", "insulation"]

  /** The fallback used when the reply's JSON does not parse: `design-` first, then the keywords. */
  function FallbackRoute(userInput: string): (r: Json)
    ensures LegalRoute(r)
    ensures r == FetchDesignRoute <==> Contains(Lower(userInput), "design-")
    ensures r == ExtractRoute <==>
      !Contains(Lower(userInput), "design-") && exists k :: k in Keywords && Contains(Lower(userInput), k)
  {
    var lower := Lower(userInput);
    if Contains(lower, "design-") then FetchDesignRoute
    else if exists k :: k in Keywords && Contains(lower, k) then ExtractRoute
    else IgnoreRoute
  }

  /**
   * The route chosen for a reply: IGNORE when there is no `{...}` candidate, the
   * fallback when the candidate does not parse, and otherwise the candidate's `route`
   * value, IGNORE when that key is absent; the value itself is not checked.
   */
  function SupervisorRoute(userInput: string, oracle: Oracle): (r: Json)
    ensures BraceSpan(oracle.routeReply(userInput)).None? ==> r == IgnoreRoute
    ensures r == IgnoreRoute || r == FallbackRoute(userInput)
            || exists obj :: obj in ParsedCandidates(userInput, oracle) && "route" in obj && r == obj["route"]
    ensures var span := BraceSpan(oracle.routeReply(userInput));
      span.Some? && oracle.parseJson(span.value).None? ==> r == FallbackRoute(userInput)
    ensures var span := BraceSpan(oracle.routeReply(userInput));
      span.Some? && oracle.parseJson(span.value).Some? ==>
        r == Get(oracle.parseJson(span.value).value, "route", IgnoreRoute)
  {
    match BraceSpan(oracle.routeReply(userInput))
    case None => IgnoreRoute
    case Some(text) =>
      match oracle.parseJson(text)
      case None => FallbackRoute(userInput)
      case Some(obj) => Get(obj, "route", IgnoreRoute)
  }

  /** The object the leftmost candidate parses to, if it does. */
  function ParsedCandidates(userInput: string, oracle: Oracle): set<Object>
  {
    match BraceSpan(oracle.routeReply(userInput))
    case None => {}
    case Some(text) =>
      match oracle.parseJson(text)
      case None => {}
      case Some(obj) => {obj}
  }

  /** `supervisor_agent`: only `route` is written. */
  function SupervisorNode(s: ValidationState, oracle: Oracle): (r: ValidationState)
    ensures r == s.(route := r.route)
    ensures r.route == SupervisorRoute(s.userInput, oracle)
  {
    s.(route := SupervisorRoute(s.userInput, oracle))
  }

  /** Whenever the model names one of the three routes, or its reply does not parse, the route is legal. */
  lemma RouteLegalWhenReplyLegal(userInput: string, oracle: Oracle)
    requires forall obj :: obj in ParsedCandidates(userInput, oracle) && "route" in obj ==> LegalRoute(obj["route"])
    ensures LegalRoute(SupervisorRoute(userInput, oracle))
  {
  }

  /** `design-` wins over the keywords: a design id with specification words still fetches. */
  lemma DesignTakesPrecedence(userInput: string, k: string)
    requires Contains(Lower(userInput), "design-") && k in Keywords && Contains(Lower(userInput), k)
    ensures FallbackRoute(userInput) == FetchDesignRoute
  {
  }

  /** A design id in the text routes to the fetch step. */
  lemma FallbackExampleFetch()
    ensures FallbackRoute("Validate DESIGN-007") == FetchDesignRoute
  {
    assert OccursAt(Lower("Validate DESIGN-007"), "design-", 9);
  }

  /** The lower-cased specification example. */
  lemma LowerExtractExample()
    ensures Lower("IEC 60502-1, 10mm² copper") == "iec 60502-1, 10mm² copper"
  {
    var s := "IEC 60502-1, 10mm² copper";
    var e := "iec 60502-1, 10mm² copper";
    forall i | 0 <= i < |s| ensures Lower(s)[i] == e[i] { }
  }

  /** A cable specification routes to text extraction. */
  lemma FallbackExampleExtract()
    ensures FallbackRoute("IEC 60502-1, 10mm² copper") == ExtractRoute
  {
    var spec := "iec 60502-1, 10mm² copper";
    LowerExtractExample();
    assert OccursAt(spec, "iec", 0);
    assert Keywords[0] == "iec" && Contains(spec, Keywords[0]);
    AbsentCharNotContained(spec, "design-", 0);
  }

  /** Unrelated text has nothing to lower-case. */
  lemma LowerIgnoreExample()
    ensures Lower("what's the weather") == "what's the weather"
  {
    var s := "what's the weather";
    forall i | 0 <= i < |s| ensures Lower(s)[i] == s[i] { }
  }

  /** Unrelated text is ignored. */
  lemma FallbackExampleIgnore()
    ensures FallbackRoute("what's the weather") == IgnoreRoute
  {
    var w := "what's the weather";
    LowerIgnoreExample();
    AbsentCharNotContained(w, "design-", 6);
    AbsentCharNotContained(w, "iec", 0);
    AbsentCharNotContained(w, "kv", 0);
    AbsentCharNotContained(w, "copper", 0);
    AbsentCharNotContained(w, "cu", 0);
    AbsentCharNotContained(w, "cable", 0);
    AbsentCharNotContained(w, "insulation", 0);
  }
}
