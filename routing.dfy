/**
 * The routing functions of the conditional edges (backend/app/langgraph/routing.py).
 * A router that can raise returns an `Option`, with `None` for the exception.
 */
module Routing {

  import opened Wrappers
  import opened Json
  import opened State
  import opened Graph

  /**
   * `route_after_supervisor`: the three known route names map to their nodes and every
   * other hashable value to END; an unhashable one makes the dict lookup raise.
   */
  function RouteAfterSupervisor(s: ValidationState): (r: Option<Node>)
    ensures r.None? <==> !Hashable(s.route)
    ensures r == Some(FetchDesign) <==> s.route == Str("FETCH_DESIGN")
    ensures r == Some(ExtractFromText) <==> s.route == Str("EXTRACT_FROM_TEXT")
    ensures r.Some? ==> r.value in Targets(Supervisor)
  {
    if !Hashable(s.route) then None
    else if s.route == Str("FETCH_DESIGN") then Some(FetchDesign)
    else if s.route == Str("EXTRACT_FROM_TEXT") then Some(ExtractFromText)
    else Some(End)
  }

  /** IGNORE, a missing route and any unknown name all end the run. */
  lemma UnknownRouteEnds(s: ValidationState)
    requires Hashable(s.route) && s.route != Str("FETCH_DESIGN") && s.route != Str("EXTRACT_FROM_TEXT")
    ensures RouteAfterSupervisor(s) == Some(End)
  {
  }

  /** The generator test reads `v['status']`, and for a WARN also `v['field']`, without a KeyError. */
  predicate Scans(e: Json)
  {
    e.Obj? && "status" in e.fields && (e.fields["status"] == Str("WARN") ==> "field" in e.fields)
  }

  /** `v['status'] == 'WARN' and v['field'] in missing`. */
  predicate MissingWarn(e: Json, missing: seq<string>)
  {
    && e.Obj? && "status" in e.fields && e.fields["status"] == Str("WARN")
    && "field" in e.fields && e.fields["field"].Str? && e.fields["field"].s in missing
  }

  /** `any(...)` over the items: it stops at the first hit, and raises on an item it cannot read first. */
  function AnyMissingWarn(items: seq<Json>, missing: seq<string>): Option<bool>
    decreases |items|
  {
    if |items| == 0 then Some(false)
    else if !Scans(items[0]) then None
    else if MissingWarn(items[0], missing) then Some(true)
    else AnyMissingWarn(items[1..], missing)
  }

  /** The scan's three outcomes, stated on the items. */
  lemma {:induction false} AnyMissingWarnSpec(items: seq<Json>, missing: seq<string>)
    ensures AnyMissingWarn(items, missing) == Some(true) <==>
      exists i :: 0 <= i < |items| && MissingWarn(items[i], missing) && forall j :: 0 <= j < i ==> Scans(items[j])
    ensures AnyMissingWarn(items, missing) == Some(false) <==>
      forall i :: 0 <= i < |items| ==> Scans(items[i]) && !MissingWarn(items[i], missing)
    decreases |items|
  {
    if |items| > 0 {
      var rest := items[1..];
      AnyMissingWarnSpec(rest, missing);
      forall i | 0 <= i < |rest| ensures rest[i] == items[i + 1] { }
      if Scans(items[0]) && !MissingWarn(items[0], missing) {
        if AnyMissingWarn(rest, missing) == Some(true) {
          var i :| 0 <= i < |rest| && MissingWarn(rest[i], missing) && forall j :: 0 <= j < i ==> Scans(rest[j]);
          assert MissingWarn(items[i + 1], missing);
          assert forall j :: 0 <= j < i + 1 ==> Scans(items[j]) by {
            forall j | 0 <= j < i + 1 ensures Scans(items[j]) {
              if j > 0 { assert Scans(rest[j - 1]); }
            }
          }
        }
        if exists i :: 0 <= i < |items| && MissingWarn(items[i], missing) && forall j :: 0 <= j < i ==> Scans(items[j]) {
          var i :| 0 <= i < |items| && MissingWarn(items[i], missing) && forall j :: 0 <= j < i ==> Scans(items[j]);
          assert i > 0;
          assert MissingWarn(rest[i - 1], missing);
          assert forall j :: 0 <= j < i - 1 ==> Scans(rest[j]) by {
            forall j | 0 <= j < i - 1 ensures Scans(rest[j]) {
              assert Scans(items[j + 1]);
            }
          }
        }
      } else if Scans(items[0]) {
        assert MissingWarn(items[0], missing);
      }
    }
  }

  /** The `any(...)` over the stored validation: `None` when iterating it or reading an item raises. */
  function HasMissingWarns(validation: Json, missing: seq<string>): Option<bool>
  {
    match Iterate(validation)
    case Rows(items) => AnyMissingWarn(items, missing)
    case _ => None
  }

  /**
   * `route_after_validation`: the prompt node exactly when HITL mode is on, fields are
   * missing, the first validation is done and some WARN entry names a missing field, with
   * `hitl_required` set on that branch only; END otherwise, with nothing written.
   */
  function RouteAfterValidation(s: ValidationState): (r: Option<(Node, ValidationState)>)
    ensures r.Some? ==> r.value.0 in Targets(Validate)
    ensures r.Some? && r.value.0 == HitlPrompt <==>
      s.hitlMode && |s.missing| > 0 && s.initialValidationDone && HasMissingWarns(s.validation, s.missing) == Some(true)
    ensures r.Some? && r.value.0 == HitlPrompt ==> r.value.1 == s.(hitlRequired := true)
    ensures r.Some? && r.value.0 == End ==> r.value.1 == s
    ensures r.None? ==> s.hitlMode && |s.missing| > 0 && s.initialValidationDone
  {
    if s.hitlMode && |s.missing| > 0 && s.initialValidationDone then
      match HasMissingWarns(s.validation, s.missing)
      case None => None
      case Some(hit) => if hit then Some((HitlPrompt, s.(hitlRequired := true))) else Some((End, s))
    else Some((End, s))
  }

  /** With HITL mode off the run always ends after the first validation. */
  lemma NoHitlModeEnds(s: ValidationState)
    requires !s.hitlMode
    ensures RouteAfterValidation(s) == Some((End, s))
  {
  }

  /**
   * On a validation list whose entries are all dicts with `status` and `field`, the router
   * never raises, and it chooses the prompt node exactly when the four conditions hold.
   */
  lemma RouteAfterValidationOnEntries(s: ValidationState)
    requires s.validation.Arr?
    requires forall i :: 0 <= i < |s.validation.items| ==>
      s.validation.items[i].Obj? && "status" in s.validation.items[i].fields && "field" in s.validation.items[i].fields
    ensures RouteAfterValidation(s).Some?
    ensures RouteAfterValidation(s).value.0 == HitlPrompt <==>
      && s.hitlMode && |s.missing| > 0 && s.initialValidationDone
      && exists i :: 0 <= i < |s.validation.items| && MissingWarn(s.validation.items[i], s.missing)
  {
    var items := s.validation.items;
    AnyMissingWarnSpec(items, s.missing);
    assert forall i :: 0 <= i < |items| ==> Scans(items[i]);
  }

  /** `route_after_hitl_prompt`: END when collection is skipped, otherwise collect or revalidate. */
  function RouteAfterHitlPrompt(s: ValidationState): (r: Node)
    ensures r in Targets(HitlPrompt)
    ensures s.skipHitlCollection ==> r == End
    ensures !s.skipHitlCollection ==> (r == AskMissing <==> |s.missing| > 0)
    ensures r == Revalidate <==> !s.skipHitlCollection && |s.missing| == 0
  {
    if s.skipHitlCollection then End
    else if |s.missing| > 0 then AskMissing
    else Revalidate
  }

  /** `route_after_ask`: never END; collect again while fields are missing, then revalidate. */
  function RouteAfterAsk(s: ValidationState): (r: Node)
    ensures r in Targets(AskMissing)
    ensures r != End
    ensures r == AskMissing <==> |s.missing| > 0
  {
    if |s.missing| > 0 then AskMissing else Revalidate
  }
}
