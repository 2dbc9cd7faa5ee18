/**
 * The shared state record of the workflow (`CableValidationState`) and the language-model
 * oracle the nodes consult.
 *
 * Keys that a reader always takes with a default are stored as that default: an absent
 * `hitl_responses` is the empty answer list, and the absent flags are `false`.
 */
module State {

  import opened Wrappers
  import opened Json

  /** One entry of `hitl_responses`: an attribute name and the user's free-text answer. */
  datatype Answer = Answer(field: string, text: string)

  /** No two answers name the same attribute (they are the items of a dict). */
  predicate DistinctFields(rs: seq<Answer>)
  {
    forall i, j :: 0 <= i < j < |rs| ==> rs[i].field != rs[j].field
  }

  /** `hitl_responses` in its insertion order. */
  type Responses = rs: seq<Answer> | DistinctFields(rs) witness []

  /** The fields the answers name, in order. */
  function Fields(rs: seq<Answer>): (r: seq<string>)
    ensures |r| == |rs|
    ensures forall i :: 0 <= i < |rs| ==> r[i] == rs[i].field
  {
    seq(|rs|, i requires 0 <= i < |rs| => rs[i].field)
  }

  /** The answer given for attribute `f`, if any. */
  function AnswerFor(rs: Responses, f: string): (r: Option<Answer>)
    ensures r.Some? <==> f in Fields(rs)
    ensures r.Some? ==> r.value in rs && r.value.field == f
  {
    if |rs| == 0 then None
    else if rs[0].field == f then Some(rs[0])
    else AnswerFor(rs[1..], f)
  }

  datatype ValidationState = ValidationState(
    userInput: string,
    route: Json,
    designId: Option<string>,
    attributes: Object,
    missing: seq<string>,
    validation: Json,
    reasoning: Json,
    confidence: Json,
    history: seq<string>,
    skipMissingPrompts: bool,
    initialValidationDone: bool,
    hitlMode: bool,
    retryCount: map<string, int>,
    maxRetries: int,
    responses: Responses,
    skipHitlCollection: bool,
    responsesProcessed: bool,
    hitlRequired: bool)

  /**
   * What the language model answers, as a function of what each prompt is built from,
   * with any Markdown code fences already removed, and `json.loads` applied to a
   * text that starts with `{` (a dict, or a parse failure).
   */
  datatype Oracle = Oracle(
    routeReply: string -> string,
    designIdReply: string -> string,
    extractReply: string -> string,
    validationReply: (Object, seq<string>, bool) -> string,
    valueReply: (string, string) -> string,
    parseJson: string -> Option<Object>)
}
