/**
 * The two entry points of the validation service
 * (backend/app/services/validation_service.py): the initial state each builds and the
 * recursion limit each runs the graph with.
 */
module ValidationService {

  import opened Wrappers
  import opened Json
  import opened State

  /** `RunnableConfig(recursion_limit=50)`. */
  const RecursionLimit: nat := 50

  /** `hitl_max_retries`. */
  const MaxRetries: int := 3

  /**
   * What both entry points start from: no route, id or results yet, nothing extracted,
   * missing or logged, the first validation still to come, no retries counted, and the
   * collection and requirement flags clear.
   */
  predicate FreshRun(s: ValidationState)
  {
    && s.route == Null && s.designId.None?
    && s.attributes == map[] && s.missing == [] && s.history == []
    && s.validation == Null && s.reasoning == Null && s.confidence == Null
    && !s.initialValidationDone
    && s.retryCount == map[] && s.maxRetries == MaxRetries
    && !s.skipHitlCollection && !s.responsesProcessed && !s.hitlRequired
  }

  /** The initial state of `run_validation`; it carries no answers. */
  function RunValidationState(userInput: string, hitlMode: bool): (r: ValidationState)
    ensures FreshRun(r)
    ensures r.userInput == userInput && r.responses == []
    ensures r.hitlMode == hitlMode && r.skipMissingPrompts == !hitlMode
  {
    ValidationState(
      userInput := userInput, route := Null, designId := None, attributes := map[], missing := [],
      validation := Null, reasoning := Null, confidence := Null, history := [],
      skipMissingPrompts := !hitlMode, initialValidationDone := false, hitlMode := hitlMode,
      retryCount := map[], maxRetries := MaxRetries, responses := [],
      skipHitlCollection := false, responsesProcessed := false, hitlRequired := false)
  }

  /** The initial state of `run_validation_with_responses`: HITL mode forced on, prompts not skipped, answers preloaded. */
  function RunWithResponsesState(userInput: string, responses: Responses): (r: ValidationState)
    ensures FreshRun(r)
    ensures r.userInput == userInput && r.responses == responses
    ensures r.hitlMode && !r.skipMissingPrompts
  {
    ValidationState(
      userInput := userInput, route := Null, designId := None, attributes := map[], missing := [],
      validation := Null, reasoning := Null, confidence := Null, history := [],
      skipMissingPrompts := false, initialValidationDone := false, hitlMode := true,
      retryCount := map[], maxRetries := MaxRetries, responses := responses,
      skipHitlCollection := false, responsesProcessed := false, hitlRequired := false)
  }

  /** The resume entry point is the HITL-mode first call with the answers added. */
  lemma EntryPointsAgree(userInput: string, responses: Responses)
    ensures RunWithResponsesState(userInput, responses) == RunValidationState(userInput, true).(responses := responses)
  {
  }
}
