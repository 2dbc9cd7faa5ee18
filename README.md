# Cable-design validation workflow, modelled in Dafny

The backend of the cable-design validator takes a free-text request, either a design id
such as `DESIGN-002` or a technical description such as "IEC 60502-1, 0.6/1 kV, Cu". It
runs the request through a fixed graph of nodes that share one state record:

- a supervisor picks a route;
- the design is fetched from the design table, or its attributes are extracted from the
  text;
- the missing fields among the seven required attributes are listed;
- a validator grades each field PASS, WARN or FAIL and sets a confidence;
- in human-in-the-loop (HITL) mode, the answers the user gave for the missing fields are
  collected and the design is validated a second time.

The supervisor, the text extraction and the validator each make one language-model
call. The fetch node makes one to find a design id when the id pattern does not match,
and one per pre-supplied answer it merges. The collection node makes one per answer it
processes. The missing-field check and the prompt node make none. Around those calls,
deterministic code:

- picks a JSON candidate out of the reply;
- falls back when the reply is unusable;
- counts statuses and clamps the confidence;
- updates the attribute map, the list of missing fields, the conversation log and the
  per-field retry counters.

Two HTTP endpoints build the initial state, run the graph and turn the final state into a
response. The conversation log is parsed back into interaction items along the way.

## How the model is built

The language model is the parameter `State.Oracle`. It is a record of total functions
giving the reply text for each kind of prompt, plus `parseJson` for `json.loads` on an
extracted span. Everything after the reply follows the code:

- the regular-expression spans;
- the `find`/`rfind` spans;
- the keyword fallback;
- the counts, the clamp and the degraded result.

The design table is the map `Constants.DesignDatabase`. Inside the graph,
`fetch_design_node` gets no database session, so it always uses that table.

The state record `CableValidationState` (`backend/app/langgraph/state.py`) is the datatype
`State.ValidationState`. Keys that are always read with a default are stored as that
default. Python values are `Json.Json`, with `None` as `Null`. `hitl_responses` is a
sequence of answers with distinct fields, kept in insertion order.

Each node is a function from state to state. It returns `Option` when the code can raise,
and `None` is the exception. The graph is `Graph.Targets` together with `Workflow.Step`. A
run is `Workflow.Execute`, which spends one unit of the recursion limit (50) per node
visit.

The loops of the source are methods with loop invariants, each proved equal to a
declarative function that the lemmas reason about:

- the merge of answers in `fetch_design_node`;
- the bulk branch of `ask_missing_attribute`;
- `merge_hitl_responses`;
- the interaction parse in the routes.

### Behaviour worth noting

Each point below is a property of the code that a reader might expect to be otherwise.

- **Answers overwrite any value.** A pre-supplied answer that parses replaces the stored
  value of its key whether that value is null or not (`fetch_design.py:67-71`,
  `FetchDesign.AnswerOverwrites`). Nothing restricts the merge to null keys.
- **The model's design id is not checked.** The `design_id` from the language model is
  used as it comes: it is not upper-cased and not matched against the id pattern. A
  lower-case `design-001` therefore misses the table (`FetchDesign.OracleIdUsedAsIs`).
- **Answers are merged on a lookup miss too.** After a miss the answers are merged over
  `{}`, as after a hit (`FetchDesign.FetchMiss`).
- **The clamp can raise the confidence.** Recalibration gives `max(0.3, cap)` for a
  confidence above the cap. A confidence between the cap and 0.3 is therefore raised,
  not lowered (`Validation.RecalibrationCanRaise`). The clamp runs only when there is a
  WARN, a FAIL or a missing field.
- **A non-numeric confidence can leave the flag set on a degraded result.** When
  there is no WARN, no FAIL and no missing field, the clamp is skipped. The code then
  sets `initial_validation_done = True` (line 233) before the formatted print at line 236,
  and that print raises. The result is degraded, but the flag stays `True`. When there is
  something to penalise, the comparison `confidence > max_confidence` at line 226 raises
  first, and the flag keeps the value it had (`Validation.NonNumericConfidenceDegrades`).
- **The log round trip has a sufficient condition, not an exact one.**
  `ValidationApi.RoundTrips` asks that neither side contain `" | "`, that the field not
  contain `"Q: "` and the answer not contain `"A: "`, that both sides be free of
  surrounding blanks, and that no `|` of either side stand next to the separator's `|`.
  Under these conditions the entry parses back to the pair (`ValidationApi.InteractionRoundTrip`).
  The last condition is stronger than needed: a field starting with `|` can still come
  back intact. A field ending in `" |"` does not: the field `"x |"` with the answer `"y"`
  comes back as `("x", "| y")` (`ValidationApi.FieldEndingInBarMisread`).

## Model

| member | source | states |
|---|---|---|
| Constants.RequiredSet | backend/app/utils/constants.py:7-15 | a name is in the set exactly when it is in the required list |
| Constants.RequiredAttributesDistinct | backend/app/utils/constants.py:7-15 | the required list has seven entries and no duplicate |
| Constants.RequiredSetNames | backend/app/utils/constants.py:7-15 | the required names are exactly standard, voltage, conductor_material, conductor_class, csa, insulation_material, insulation_thickness |
| Constants.DesignRecordsComplete | backend/app/utils/constants.py:18-37 | every record of the mock table has exactly the seven required keys |
| DesignModel.ToDict | backend/app/models/design.py:25-35 | the projection of a design row has exactly the seven required keys, so id and timestamps are left out |
| DesignModel.ToDictValues | backend/app/models/design.py:27-35 | each key holds its column verbatim: text columns as strings, `csa` and `insulation_thickness` as numbers, an empty column as null |
| DesignModel.ToDictRoundTrip | backend/app/models/design.py:14-35 | reading the projection back with the row's id and timestamps gives the row again, so no column value is lost |
| DesignModel.SeededRowsProjectBack | backend/app/utils/constants.py:18-37 | every table record is the projection of a row that fits the column types |
| CheckMissing.MissingFromSpec | backend/app/langgraph/nodes/check_missing.py:12-13 | a field is reported exactly when it is listed and its value is absent, null or `""`; the result is a subsequence of the field list, no longer, and duplicate-free when the list is |
| CheckMissing.MissingAttributes | backend/app/langgraph/nodes/check_missing.py:12-13 | a field is missing exactly when it is required and absent, null or `""`; the result follows the required order, has no duplicate and at most seven entries |
| CheckMissing.CheckMissingNode | backend/app/langgraph/nodes/check_missing.py:9-26 | only `missing_attributes` is written, and it holds exactly the missing required fields in required order |
| CheckMissing.MissingFromAgrees | backend/app/langgraph/nodes/check_missing.py:12-13 | two attribute maps that agree on which listed fields are missing give the same list |
| CheckMissing.OtherKeysIrrelevant | backend/app/langgraph/nodes/check_missing.py:12-13 | keys outside the required list never change the result |
| CheckMissing.FalsyIsNotMissing | backend/app/langgraph/nodes/check_missing.py:13 | a present `0`, `False`, `[]` or `{}` is not missing |
| CheckMissing.CheckMissingIdempotent | backend/app/langgraph/nodes/check_missing.py:11-15 | running the node twice gives the same state as running it once |
| CheckMissing.NoneMissing | backend/app/langgraph/nodes/check_missing.py:12-13 | when no listed field is missing the result is empty |
| CheckMissing.MissingFromAppend | backend/app/langgraph/nodes/check_missing.py:12-13 | the filter distributes over concatenation of the field list |
| CheckMissing.Design001Complete | backend/app/utils/constants.py:19-27 | DESIGN-001 has no missing field |
| CheckMissing.Design002Missing | backend/app/utils/constants.py:28-36 | DESIGN-002 misses exactly `conductor_class` and `insulation_thickness`, in that order |
| Routing.RouteAfterSupervisor | backend/app/langgraph/routing.py:8-11 | FETCH_DESIGN goes to fetch_design and EXTRACT_FROM_TEXT to extract_from_text; every other hashable route (IGNORE, absent, unknown) ends; an unhashable route raises |
| Routing.UnknownRouteEnds | backend/app/langgraph/routing.py:11 | any hashable route other than the two named ones ends the run |
| Routing.AnyMissingWarnSpec | backend/app/langgraph/routing.py:24-27 | the `any(...)` scan is true exactly when some entry is a WARN for a missing field and every entry before it can be read; it is false exactly when every entry can be read and none qualifies; otherwise it raises |
| Routing.RouteAfterValidation | backend/app/langgraph/routing.py:14-33 | the route is `hitl_prompt` exactly when HITL mode is on, fields are missing, the initial validation is done and some missing field has a WARN; only that branch writes `hitl_required = True`; `end` leaves the state as it is; raising needs the first three conditions |
| Routing.NoHitlModeEnds | backend/app/langgraph/routing.py:21-33 | without HITL mode validation always ends, with the state unchanged |
| Routing.RouteAfterValidationOnEntries | backend/app/langgraph/routing.py:21-31 | on well-formed entries the route never raises and is `hitl_prompt` exactly when the four conditions hold |
| Routing.RouteAfterHitlPrompt | backend/app/langgraph/routing.py:36-45 | with `skip_hitl_collection` set the run ends; otherwise it goes to ask_missing exactly when fields are missing, else to revalidate |
| Routing.RouteAfterAsk | backend/app/langgraph/routing.py:48-51 | never ends: ask_missing exactly when fields are missing, else revalidate |
| Graph.CollectionLeadsToValidation | backend/app/langgraph/workflow.py:42-46 | fetch_design and extract_from_text lead only to check_missing, which only they reach and which leads only to validate |
| Graph.PromptOnlyAfterValidate | backend/app/langgraph/workflow.py:49-50 | hitl_prompt is reached from validate and from no other node, revalidate included |
| Graph.CollectionEndsWithRevalidation | backend/app/langgraph/workflow.py:53-60 | ask_missing leads only to itself or revalidate, is entered only from hitl_prompt or itself, and revalidate leads only to the end |
| Graph.EndPredecessors | backend/app/langgraph/workflow.py:38-60 | the end is entered exactly from supervisor, validate, hitl_prompt and revalidate |
| Supervisor.FallbackRoute | backend/app/langgraph/nodes/supervisor.py:46-53 | the fallback route is always legal; it is FETCH_DESIGN exactly when the lower-cased input contains `design-`, and EXTRACT_FROM_TEXT exactly when it does not but contains one of the six keywords |
| Supervisor.SupervisorRoute | backend/app/langgraph/nodes/supervisor.py:37-53 | no `{...}` candidate in the reply gives IGNORE; a candidate that does not parse gives the keyword fallback; a candidate that parses gives its `route` value, unchecked, or IGNORE when the key is absent |
| Supervisor.SupervisorNode | backend/app/langgraph/nodes/supervisor.py:35-57 | only `route` is written, with the route the reply determines |
| Supervisor.RouteLegalWhenReplyLegal | backend/app/langgraph/nodes/supervisor.py:41-53 | if every parsed `route` value is legal, the route is one of the three legal routes |
| Supervisor.DesignTakesPrecedence | backend/app/langgraph/nodes/supervisor.py:48-51 | an input containing `design-` and a keyword falls back to FETCH_DESIGN |
| Supervisor.FallbackExampleFetch | backend/app/langgraph/nodes/supervisor.py:47-49 | "Validate DESIGN-007" falls back to FETCH_DESIGN |
| Supervisor.FallbackExampleExtract | backend/app/langgraph/nodes/supervisor.py:50-51 | "IEC 60502-1, 10mm² copper" falls back to EXTRACT_FROM_TEXT |
| Supervisor.FallbackExampleIgnore | backend/app/langgraph/nodes/supervisor.py:52-53 | "what's the weather" falls back to IGNORE |
| FetchDesign.FirstMatchFrom | backend/app/langgraph/nodes/fetch_design.py:17-18 | the search returns the leftmost position at or after `k` where the pattern matches, or reports that there is none |
| FetchDesign.DesignIdSpan | backend/app/langgraph/nodes/fetch_design.py:17-18 | the match is absent exactly when `design-` plus a digit occurs nowhere (in any case); otherwise it starts at the leftmost occurrence and takes the greedy run of digits |
| FetchDesign.RegexDesignId | backend/app/langgraph/nodes/fetch_design.py:17-21 | there is no id exactly when the pattern never matches; a found id is upper-case `DESIGN-` plus digits |
| FetchDesign.CanonicalIdFound | backend/app/langgraph/nodes/fetch_design.py:17-21 | an id in canonical form is extracted from itself unchanged |
| FetchDesign.RegexDesignIdIdempotent | backend/app/langgraph/nodes/fetch_design.py:17-21 | extracting again from an extracted id gives the same id |
| FetchDesign.TableKeysCanonical | backend/app/utils/constants.py:19-28 | both table keys are canonical, so an upper-cased match can hit them |
| FetchDesign.LowerCaseMentionFound | backend/app/langgraph/nodes/fetch_design.py:18-21 | "design-002" is matched case-insensitively and upper-cased to DESIGN-002 |
| FetchDesign.OracleDesignId | backend/app/langgraph/nodes/fetch_design.py:23-32 | no `{...}` candidate, or one that does not parse, gives no id; a parsed candidate gives its `design_id` value, or no id when the key is absent |
| FetchDesign.ResolvedId | backend/app/langgraph/nodes/fetch_design.py:17-32 | the regex match wins when there is one; otherwise the model's answer is used |
| FetchDesign.Lookup | backend/app/langgraph/nodes/fetch_design.py:52-59 | membership raises exactly for an unhashable id; it hits exactly for a string key of the table, and a hit yields that record |
| FetchDesign.FetchWithId | backend/app/langgraph/nodes/fetch_design.py:34-80 | the node raises exactly when the id is truthy and unhashable; it writes only `design_id` and `attributes` |
| FetchDesign.FetchDesignNode | backend/app/langgraph/nodes/fetch_design.py:13-82 | the same, for the id resolved from the input: no key other than `design_id` and `attributes` is written, so the log is untouched |
| FetchDesign.FetchHit | backend/app/langgraph/nodes/fetch_design.py:52-76 | on a hit `design_id` is set and the attributes are the record with the answers merged over it |
| FetchDesign.HitWithId | backend/app/langgraph/nodes/fetch_design.py:52-76 | the same, for a given id |
| FetchDesign.FetchMiss | backend/app/langgraph/nodes/fetch_design.py:57-76 | on a miss `design_id` is not written and the attributes are the answers merged over `{}` |
| FetchDesign.FetchNoId | backend/app/langgraph/nodes/fetch_design.py:78-80 | with no truthy id, the attributes become `{}` and nothing else changes |
| FetchDesign.RegexBypassesOracle | backend/app/langgraph/nodes/fetch_design.py:20-25 | when the regex matches, the model's answer plays no part |
| FetchDesign.OracleIdUsedAsIs | backend/app/langgraph/nodes/fetch_design.py:23-34 | a lower-case id from the model is not upper-cased, so it misses the table |
| FetchDesign.ResolvedMerge | backend/app/langgraph/nodes/fetch_design.py:61-76 | with a truthy id, the attributes are the looked-up map with the answers merged over it |
| FetchDesign.AnswerOverwrites | backend/app/langgraph/nodes/fetch_design.py:67-72 | an answer that parses sets its attribute, whatever the record held |
| FetchDesign.UnparsedKeepsLookup | backend/app/langgraph/nodes/fetch_design.py:67-74 | a key whose answers do not parse keeps its looked-up value, or stays absent |
| FetchDesign.MergeResponses | backend/app/langgraph/nodes/fetch_design.py:66-76 | the loop over the answers computes the declarative merge |
| FetchDesign.FetchDesign | backend/app/langgraph/nodes/fetch_design.py:13-82 | the node with its loop computes `FetchDesignNode` |
| ExtractText.ExtractedAttributes | backend/app/langgraph/nodes/extract_text.py:43-58 | the result is `{}` or exactly the parsed span; a parsed span is taken as it is; no span gives `{}` |
| ExtractText.ExtractTextNode | backend/app/langgraph/nodes/extract_text.py:11-60 | only `attributes` is written, and it becomes the parsed reply span, or `{}` when there is none or it does not parse |
| ExtractText.ExtractReplacesWholesale | backend/app/langgraph/nodes/extract_text.py:49-53 | the new attributes depend on the input alone; earlier attributes are never merged |
| ExtractText.ExtractWithoutBraces | backend/app/langgraph/nodes/extract_text.py:46-58 | a reply with no `}` after a `{` leaves `attributes = {}` |
| Graph.Targets | backend/app/langgraph/workflow.py:38-60 | only END has no successor; no edge leads back to the supervisor; the collection node is the only node with an edge to itself |
| Workflow.RunNode | backend/app/langgraph/workflow.py:25-32 | with language-model calls that return, only the fetch node and the prompt node can raise; END leaves the state as it is; the revalidation runs the same node as the validation |
| Workflow.Invoke | backend/app/services/validation_service.py:52-55 | a finished run made at most `recursion_limit = 50` node runs |
| Spans.BraceMatch | backend/app/langgraph/nodes/supervisor.py:40 | a candidate's `{` comes before its `}`, and both lie inside the reply |
| Spans.ObjectSpan | backend/app/langgraph/nodes/extract_text.py:46-48 | a span runs from a position before its end, which is at most the length of the reply |
| Validation.Recalibrated | backend/app/langgraph/nodes/validation.py:224-228 | with nothing to penalise, or a confidence within the cap, the confidence is kept; otherwise the result is at most `max(0.3, cap)`, and never above `max(0.3, confidence)` |
| CheckMissing.IsMissing | backend/app/langgraph/nodes/check_missing.py:12-13 | a missing value is falsy, but the converse fails: `false`, `0`, `[]` and `{}` count as present |
| Hitl.BulkCollect | backend/app/langgraph/nodes/hitl.py:83-123 | only the attributes, the log, the missing list and the processed flag change, and the flag is set; the missing list only loses names; the log only grows at its end |
| Hitl.AskMissing | backend/app/langgraph/nodes/hitl.py:57-198 | nothing missing leaves the state as it is; the bulk branch sets the processed flag; outside it, no answer logs nothing and an answer is logged once, as one log entry for the field asked |
| ValidationApi.ValidateEndpoint | backend/app/api/routes/validation.py:14-86 | a response exists only for a finished run, and `hitl_required` in it implies HITL mode with fields still missing |
| ValidationApi.ValidateEndpointAsWritten | backend/app/api/routes/validation.py:14-86 | whenever the handler as written answers, it answers as the intended reading does |
| Spans.ObjectSpanExact | backend/app/langgraph/nodes/extract_text.py:46-48 | a span exists exactly when some `}` follows some `{`; it runs from the first `{` to the last `}` |
| Spans.BraceMatchSpec | backend/app/langgraph/nodes/supervisor.py:40 | the candidate is the leftmost match of `\{[^}]+\}`, and there is none exactly when the pattern matches nowhere |
| Spans.BraceSpanShape | backend/app/langgraph/nodes/hitl.py:231 | a candidate starts with `{`, ends with `}`, has at least one character between, and no `}` inside |
| Spans.FindCharFirst | backend/app/langgraph/nodes/extract_text.py:46 | `find` gives the first occurrence, or -1 when there is none |
| Spans.RFindCharLast | backend/app/langgraph/nodes/extract_text.py:47 | `rfind` gives the last occurrence, or -1 when there is none |
| Validation.CountStatusCounts | backend/app/langgraph/nodes/validation.py:220-221 | the count is the number of entries whose status is exactly the given one |
| Validation.CountStatusZero | backend/app/langgraph/nodes/validation.py:220-221 | the count is zero exactly when no entry has that status |
| Validation.CountsDisjoint | backend/app/langgraph/nodes/validation.py:220-221 | WARNs and FAILs together never outnumber the entries |
| Validation.RecalibratedBound | backend/app/langgraph/nodes/validation.py:224-228 | when recalibration applies, the result is at most `max(0.3, cap)` and at most `max(0.3, conf)`, and a confidence within the cap is kept |
| Validation.RecalibratedClean | backend/app/langgraph/nodes/validation.py:224 | with no WARN, FAIL or missing field the confidence is unchanged |
| Validation.CapMonotone | backend/app/langgraph/nodes/validation.py:225 | more WARNs, FAILs or missing fields never raise the cap |
| Validation.RecalibrationCanRaise | backend/app/langgraph/nodes/validation.py:226-228 | seven WARNs and seven missing fields give a cap of -0.75, and a reported 0.1 is raised to 0.3 |
| Validation.Degraded | backend/app/langgraph/nodes/validation.py:241-245 | the failure path writes only an empty validation, the fixed reasoning and confidence 0.0 |
| Validation.ClampedConfidence | backend/app/langgraph/nodes/validation.py:217-228 | the clamp raises exactly when recalibration applies and the confidence is not a number; a number is recalibrated; a non-number is otherwise passed through |
| Validation.Completion | backend/app/langgraph/nodes/validation.py:213-245 | after a parsed reply only `validation`, `reasoning`, `confidence` and the done flag are written; the flag never goes back to false; the validation is a list of objects and the confidence a number |
| Validation.ValidationNode | backend/app/langgraph/nodes/validation.py:206-247 | the node writes only those four keys, keeps the flag once set, and always leaves a readable validation and a numeric confidence |
| Validation.UnparsedReplyDegrades | backend/app/langgraph/nodes/validation.py:209-245 | no span, or a span that does not parse, gives the degraded result with the flag untouched |
| Validation.CompletedValidation | backend/app/langgraph/nodes/validation.py:215-233 | a readable reply writes its validation and reasoning (default `""`) and sets the done flag |
| Validation.CompletedConfidence | backend/app/langgraph/nodes/validation.py:217-232 | the written confidence is the reported one recalibrated with the WARN, FAIL and missing counts |
| Validation.CleanConfidenceUnchanged | backend/app/langgraph/nodes/validation.py:224-232 | with no WARN, no FAIL and nothing missing, the reported confidence is written unchanged |
| Validation.PenalisedConfidenceBound | backend/app/langgraph/nodes/validation.py:225-232 | when recalibration applies, the written confidence is at most `max(0.3, cap)` |
| Validation.NonNumericConfidenceDegrades | backend/app/langgraph/nodes/validation.py:226-245 | a non-numeric confidence degrades the result; the done flag is set unless the clamp raised first |
| Validation.UncountableValidationDegrades | backend/app/langgraph/nodes/validation.py:220-245 | a validation value that cannot be iterated as a list of objects degrades the result |
| Hitl.ParseSingleAttribute | backend/app/langgraph/nodes/hitl.py:226-238 | a value is returned exactly when the reply has a `{...}` candidate that parses with a non-null `value`, and the value returned is that `value` |
| Hitl.Log | backend/app/langgraph/nodes/hitl.py:97 | one entry per answer, in order: `Q: `, the field, the separator (blank, bar, blank), `A: ` and the answer |
| Hitl.MergedAt | backend/app/langgraph/nodes/fetch_design.py:67-72 | an answer that parses sets its key to the parsed value; a key whose answers do not parse keeps its old value or stays absent |
| Hitl.MergedKeys | backend/app/langgraph/nodes/fetch_design.py:67-72 | the merge adds no key other than the answered fields |
| Hitl.FirstWithField | backend/app/langgraph/nodes/hitl.py:33 | `next(...)` finds the first entry naming the field, and reports none only when every entry names another field |
| Hitl.HitlPromptNode | backend/app/langgraph/nodes/hitl.py:18-54 | the node raises exactly when the debug listing of the missing fields would; otherwise it writes only `skip_hitl_collection`, true exactly when there are no answers |
| Hitl.CollectAll | backend/app/langgraph/nodes/hitl.py:92-111 | the bulk loop only shrinks the missing list and only appends to the log |
| Hitl.Answered | backend/app/langgraph/nodes/hitl.py:92-93 | the answers processed are exactly those whose field is missing |
| Hitl.CollectAllMissing | backend/app/langgraph/nodes/hitl.py:92-111 | every answered missing field leaves the list, parsed or not |
| Hitl.CollectAllHistory | backend/app/langgraph/nodes/hitl.py:93-97 | the log gains one entry per answer for a missing field, in order; other answers are ignored |
| Hitl.CollectAllAttributes | backend/app/langgraph/nodes/hitl.py:99-103 | an attribute is set only from an answer for a missing field whose parse yields a value |
| Hitl.FailedAttempt | backend/app/langgraph/nodes/hitl.py:147-161 | a failed attempt adds one to the field's count, and only shrinks the missing list |
| Hitl.BulkFacts | backend/app/langgraph/nodes/hitl.py:83-123 | the bulk branch writes only attributes, log, missing list and the processed flag, shrinks the list, extends the log and sets the flag |
| Hitl.FailedAttemptFacts | backend/app/langgraph/nodes/hitl.py:147-161 | a failed attempt keeps the frame, shrinks the list and does not touch the processed flag |
| Hitl.ParsedAnswerFacts | backend/app/langgraph/nodes/hitl.py:165-198 | an interactive answer that parses keeps the frame and the processed flag, shrinks the list and extends the log |
| Hitl.UnparsedAnswerFacts | backend/app/langgraph/nodes/hitl.py:185-198 | the same for an answer that does not parse |
| Hitl.AskMissingFacts | backend/app/langgraph/nodes/hitl.py:57-198 | the node leaves a state with nothing missing unchanged; it writes nothing outside its frame; the list only shrinks and the log only grows; the bulk branch runs at most once, because it sets the processed flag |
| Hitl.CollectResponses | backend/app/langgraph/nodes/hitl.py:92-111 | the loop computes the declarative bulk collection |
| Hitl.AskMissingAttribute | backend/app/langgraph/nodes/hitl.py:57-198 | the node with its loop computes `AskMissing` |
| Hitl.BulkBranchEffect | backend/app/langgraph/nodes/hitl.py:83-123 | the bulk branch removes every answered field, logs the answers for missing fields, merges the ones that parse and leaves the counts alone |
| Hitl.NoAnswerAttempt | backend/app/langgraph/nodes/hitl.py:127-161 | with no answer, the first missing field's count goes up by one, it is dropped exactly when the new count reaches the maximum, and attributes and log are unchanged |
| Hitl.AnswerParsed | backend/app/langgraph/nodes/hitl.py:165-184 | an answer that parses is logged, sets the attribute, removes the field and resets its count to 0 |
| Hitl.AnswerUnparsed | backend/app/langgraph/nodes/hitl.py:185-196 | an answer that does not parse is logged, leaves the attributes, adds one to the count, and drops the field exactly when the count reaches the maximum |
| Hitl.OneEarlyAttempt | backend/app/langgraph/nodes/hitl.py:147-159 | an attempt below the maximum only raises the first field's count |
| Hitl.EarlyAttempts | backend/app/langgraph/nodes/hitl.py:147-159 | up to the maximum, `n` visits set the first field's count to `n` and change nothing else |
| Hitl.KeptBeforeMaxRetries | backend/app/langgraph/nodes/hitl.py:152-159 | the first field stays missing for fewer visits than the maximum |
| Hitl.LastAttempt | backend/app/langgraph/nodes/hitl.py:152-157 | the attempt that reaches the maximum drops the first field |
| Hitl.DroppedAtMaxRetries | backend/app/langgraph/nodes/hitl.py:147-157 | after as many visits as the maximum, the first field is gone and the rest of the list is kept |
| Hitl.DroppedAfterMaxRetries | backend/app/langgraph/nodes/hitl.py:147-161 | an unanswered field starting at count 0 is kept for fewer visits than the maximum and dropped at exactly the maximum |
| MergeHitl.ParsedAnswers | backend/app/langgraph/nodes/merge_hitl.py:32-39 | the logged answers are exactly those whose parse yields a value |
| MergeHitl.MergeHitlNode | backend/app/langgraph/nodes/merge_hitl.py:10-49 | no answers leave the state unchanged; otherwise only attributes and the log are written |
| MergeHitl.MergeAndLog | backend/app/langgraph/nodes/merge_hitl.py:25-44 | the loop computes the merge of all answers and appends the parsed ones to the log |
| MergeHitl.MergeHitlResponses | backend/app/langgraph/nodes/merge_hitl.py:10-49 | the node with its loop computes `MergeHitlNode` |
| MergeHitl.MergeKeepsMissingAndLog | backend/app/langgraph/nodes/merge_hitl.py:25-44 | the missing list is never written, and the old log is a prefix of the new one |
| MergeHitl.MergeSetsAndLogs | backend/app/langgraph/nodes/merge_hitl.py:28-39 | every answer that parses, whether its field is missing or not, sets its attribute and has its entry in the log |
| MergeHitl.MergeSkipsUnparsed | backend/app/langgraph/nodes/merge_hitl.py:32-41 | an answer that does not parse changes neither its attribute nor the log |
| ValidationService.RunValidationState | backend/app/services/validation_service.py:34-49 | a fresh state: empty attributes, missing list and log; null route, id, validation, reasoning and confidence; flag false; counts `{}` and maximum 3; HITL mode as requested; `skip_missing_prompts` its negation |
| ValidationService.RunWithResponsesState | backend/app/services/validation_service.py:75-91 | the same fresh state with HITL mode forced on, `skip_missing_prompts` false and the answers preloaded |
| ValidationService.EntryPointsAgree | backend/app/services/validation_service.py:34-91 | the resume state is the HITL-mode first state with the answers added |
| Workflow.Route | backend/app/langgraph/workflow.py:38-60 | every route leads to a successor in the graph; only supervisor and validate can raise; only validate's route writes the state |
| Workflow.Step | backend/app/langgraph/workflow.py:25-60 | a step from a node reaches one of its successors, and nothing steps from the end |
| Workflow.Drive | backend/app/services/validation_service.py:52-55 | a run from the end finishes at once, and a finished run never takes more visits than the limit |
| Workflow.CollectionStepDecreases | backend/app/langgraph/nodes/hitl.py:147-161 | each collection visit strictly lowers the pending answers plus the sum of the remaining attempts over missing fields |
| Workflow.StepDecreases | backend/app/langgraph/workflow.py:25-60 | every step lowers the run's potential and keeps the invariant |
| Workflow.BudgetFresh | backend/app/services/validation_service.py:47-48 | with `{}` counts and maximum 3, each missing field has three attempts |
| Workflow.RunWithinPotential | backend/app/langgraph/workflow.py:25-60 | a run with fuel at least its potential never exhausts the limit, and takes at most that many visits |
| Workflow.FreshPotential | backend/app/services/validation_service.py:34-49 | from a fresh state the potential is at most 28 |
| Workflow.InvokeWithinLimit | backend/app/services/validation_service.py:52-55 | from a fresh state the run never reaches the recursion limit of 50 and takes at most 28 visits |
| Workflow.NoAnswersKeepLog | backend/app/langgraph/nodes/hitl.py:83-97 | without preloaded answers, a run leaves the conversation log as it started |
| Workflow.FinishedValidationShape | backend/app/langgraph/nodes/validation.py:230-245 | a finished run's validation is null or a list of objects |
| Workflow.CollectionEndsComplete | backend/app/langgraph/workflow.py:56-57 | a finished run that enters the collection loop ends with no missing field |
| Workflow.Design002FirstCall | backend/app/utils/constants.py:28-36 | a first call naming DESIGN-002 fetches the record, sets the id and finds `conductor_class` and `insulation_thickness` missing |
| Workflow.Design002Resumed | backend/app/langgraph/nodes/fetch_design.py:61-76 | resuming with answers that parse for both missing fields leaves nothing missing after the fetch |
| ValidationApi.ParseInteraction | backend/app/api/routes/validation.py:49-52 | an entry gives an item exactly when splitting on the separator (blank, bar, blank) gives two parts; field and answer come out stripped |
| ValidationApi.EntryItems | backend/app/api/routes/validation.py:49-59 | each entry gives at most one item, and that item is the parsed entry |
| ValidationApi.InteractionsOf | backend/app/api/routes/validation.py:47-59 | there are never more items than log entries |
| ValidationApi.CollectInteractions | backend/app/api/routes/validation.py:47-59 | the loop computes the declarative parse of the log |
| ValidationApi.InteractionsAppend | backend/app/api/routes/validation.py:47-59 | the items of two logs are the items of each, in order |
| ValidationApi.SplitEntry | backend/app/api/routes/validation.py:49 | an entry whose sides are clear of the separator splits into its question and answer parts |
| ValidationApi.InteractionRoundTrip | backend/app/api/routes/validation.py:49-52 | under the round-trip conditions, the parse of the logged entry for field `a` and answer `r` is `(a, r)` |
| ValidationApi.LogRoundTrip | backend/app/api/routes/validation.py:47-59 | a log written from answers that meet the conditions parses back to those answers, one for one and in order |
| ValidationApi.MisreadSplit | backend/app/api/routes/validation.py:49 | the entry for the field `x`, blank, bar, and the answer `y` splits after `Q: x`, leaving the bar at the head of the second part |
| ValidationApi.MisreadAnswer | backend/app/api/routes/validation.py:52 | that second part is read as the answer bar, blank, `y` |
| ValidationApi.FieldEndingInBarMisread | backend/app/api/routes/validation.py:49-52 | the field `x`, blank, bar, with the answer `y`, comes back as the field `x` and the answer bar, blank, `y` |
| ValidationApi.HitlRequired | backend/app/api/routes/validation.py:62-66 | the flag needs HITL mode and missing fields, and holds whenever there are also no log entries |
| ValidationApi.HitlRequiredIgnoresValidation | backend/app/api/routes/validation.py:62-66 | the validation entries play no part in the flag |
| ValidationApi.Respond | backend/app/api/routes/validation.py:68-80 | the response carries the items, the flag, the parsed log, the missing list and the attributes of the final state |
| ValidationApi.ValidationItemsAsWritten | backend/app/api/routes/validation.py:42-45 | a null validation, as an ignored request leaves it, raises |
| ValidationApi.ValidationItems | backend/app/api/routes/validation.py:42-45 | a null validation gives no items; any other value is read as written, one item per entry and in order |
| ValidationApi.ResumeEndpoint | backend/app/api/routes/validation.py:146-158 | the resume endpoint never reports `hitl_required` |
| ValidationApi.EndpointsFailOnlyWithTheRun | backend/app/api/routes/validation.py:31-86 | with the intended reading, each endpoint answers exactly when its run finishes |
| ValidationApi.IgnoredRequestFailsAsWritten | backend/app/api/routes/validation.py:42-45 | an IGNORE request fails in the handler as written, and with the intended reading answers with route IGNORE, no items and no HITL |
| ValidationApi.FirstCallResponse | backend/app/api/routes/validation.py:62-66 | the first call's response has no interactions, and asks for HITL exactly in HITL mode with fields missing |
| ValidationApi.ValidationItemsInOrder | backend/app/api/routes/validation.py:42-45 | the items are the validation entries one for one, in order |
| PyStr.Find | backend/app/langgraph/nodes/supervisor.py:48 | a substring test finds the first occurrence exactly when there is one |
| PyStr.SplitJoin | backend/app/api/routes/validation.py:49 | joining the parts of `split(sep)` with `sep` gives the string back |
| PyStr.SplitPieces | backend/app/api/routes/validation.py:49 | no part of `split(sep)` contains `sep` |
| PyStr.SplitTwo | backend/app/api/routes/validation.py:49-50 | there are two parts exactly when the separator occurs once; they are the text before and after it |
| PyStr.RemoveAllAbsent | backend/app/api/routes/validation.py:51-52 | `replace(pat, "")` leaves a string without `pat` unchanged |
| PyStr.RemoveAllLeading | backend/app/api/routes/validation.py:51-52 | removing a leading `pat` is the same as removing it from the rest |
| PyStr.Strip | backend/app/api/routes/validation.py:51-52 | `strip()` gives a trimmed slice with only blanks cut on either side |
| PyStr.StripTrimmed | backend/app/api/routes/validation.py:51-52 | `strip()` leaves a trimmed string unchanged |
| Lists.Without | backend/app/langgraph/nodes/hitl.py:107-111 | removing a set of names keeps exactly the other names, in order, with no duplicate added |
| Lists.RemoveFirst | backend/app/langgraph/nodes/hitl.py:155-156 | `if x in xs: xs.remove(x)` removes one entry when present and leaves the list alone otherwise |
| Lists.RemoveFirstNoDup | backend/app/langgraph/nodes/hitl.py:107 | on a duplicate-free list, `remove` takes out every occurrence |
| Json.EntriesOf | backend/app/api/routes/validation.py:42-45 | a value can be iterated as a list of objects exactly when it iterates and every element is an object; the objects are its elements in order |

## Left out

- The language-model calls and their prompts. They are `State.Oracle`, and nothing is
  assumed about what a reply contains.
- State.Oracle: its replies are functions of the prompt's inputs, so the model is
  deterministic: the same prompt always gets the same reply. The code can send one
  parse prompt twice, for a field still missing on a resumed run (`fetch_design.py:69`,
  then `hitl.py:100`). The model cannot show the second call succeeding where the first
  failed.
- State.Oracle: its replies are total, so a call never fails. In the code every
  `llm.invoke` sits outside its `try` (`supervisor.py:35`, `fetch_design.py:25`,
  `extract_text.py:41`, `validation.py:204`, `hitl.py:226`). A failing call raises
  through the graph, and the handler answers HTTP 500. `Workflow.RunNode`'s statement
  that only the fetch node and the prompt node can raise holds for calls that return.
- The tolerance bands and IEC tables. They exist only in the validator's prompt text, and
  no code computes them.
- `json.loads`. Its behaviour is `Oracle.parseJson`, a partial function over the
  extracted span.
- The code-fence removal `re.sub(...)`. It is folded into the reply, which is already an
  arbitrary string.
- PyStr.Lower, PyStr.Upper: they map the ASCII letters only. Unicode case mapping is not
  modelled; the supervisor's `lower()` and the id's `upper()` only meet ASCII in what is
  proved.
- The confidence is exact `real`, not a binary float. Rounding and the `:.2f` formatting
  are not modelled; only whether formatting raises is.
- The SQLAlchemy query path (`fetch_design.py:39-48`) and the database. The workflow
  never passes a session, so the mock table is the lookup.
- `Design` columns' length limits and the `created_at`/`updated_at` defaults. Time is a
  parameter of `DesignModel.FromDict`.
- The key order of the dict returned by `to_dict`. The projection is a map, so only its
  keys and values are modelled.
- The LangGraph runtime. Only the topology, the step function and the one-visit-per-step
  count against `recursion_limit = 50` are modelled. Running out of steps is a distinct
  outcome, proved unreachable.
- Pydantic validation of the response and the HTTP 500 wrapping. An exception in a
  handler is `None`. Which values pydantic rejects is not modelled: a validation item of
  the wrong shape, a `route` or `reasoning` that is neither a string nor null, or a `confidence` that pydantic
  cannot read as a number would each give a 500 in the code, while the model keeps the values as
  given and answers.
- FetchDesign.DesignIdSpan, FetchDesign.RegexDesignId: the case-insensitive `design-` and
  the `\d` of the pattern are matched over ASCII only. Python's `re` is Unicode-aware
  here: `deſign-001` (long s) and `DESIGN-٣` (an Arabic-Indic digit) match in the code
  but not in the model. On ASCII input the two agree, and the model's found id is always
  `DESIGN-` followed by ASCII digits.
- Workflow.Route: after the validation node it carries the `hitl_required = True` that
  `route_after_validation` writes into the state handed to the prompt node, and on into
  the final state. LangGraph may not keep a write made by a conditional-edge function, so
  the code's final state may still hold `False`. Nothing downstream reads the flag from
  the state: both API responses compute `hitl_required` themselves
  (`ValidationApi.HitlRequired`, `ValidationApi.ResumeEndpoint`).
- The debug `print` output, except where a `print` can raise:
  - the listing in `hitl_prompt_node`;
  - the formatted confidence in `validation_agent`.
- `ask_missing_attribute`'s initialisation of `hitl_retry_count` and `hitl_max_retries`
  when absent (`hitl.py:73-77`). Both entry points always set them, so the state always
  holds them.
- The `attr_display` prompt text (`hitl.py:134-144`). It is only printed.
- ValidationApi.HitlRequired: its ensures gives the rule as two implications, and the
  forward one leaves out the empty-log condition. `ValidationApi.FirstCallResponse` states
  the full if-and-only-if for the first call, where the log is always empty.
- `merge_hitl_responses` is modelled on its own (`MergeHitl`). The workflow graph does not
  use it.
- The interactive branch of `ask_missing_attribute` with an answer or an explicit field.
  It is modelled and proved, but the graph always calls the node with neither, so no
  workflow run takes it.
- The frontend, the design CRUD routes, seeding, configuration and the test scripts.
  They are outside the validation core.

## Findings

| source | as written | input that shows it | evidently intended | confidence | as-written member | corrected member |
|---|---|---|---|---|---|---|
| backend/app/api/routes/validation.py:42-45 | `result.get("validation", [])` returns `None` when the supervisor routes to IGNORE. The initial state sets `validation` to `None` and no node writes it on that route. Iterating `None` raises, and the handler answers HTTP 500 | a `/validate` request whose supervisor reply is `{"route": "IGNORE"}`, for example "What's the weather?" | an ignored request is answered normally, with route IGNORE and no validation items | medium (it relies on the final state keeping the `None` value of an untouched key); not executed | ValidationApi.ValidationItemsAsWritten, ValidationApi.IgnoredRequestFailsAsWritten | ValidationApi.ValidationItems, ValidationApi.EndpointsFailOnlyWithTheRun |
