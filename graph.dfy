/**
 * The topology `create_validation_graph` builds (backend/app/langgraph/workflow.py): the
 * nodes, the entry point, and for every node the targets its plain edge or the target map
 * of its conditional edge names.
 */
module Graph {

  datatype Node =
    | Supervisor
    | FetchDesign
    | ExtractFromText
    | CheckMissing
    | Validate
    | HitlPrompt
    | AskMissing
    | Revalidate
    | End

  /** `set_entry_point("supervisor")`. */
  const Entry: Node := Supervisor

  /** The declared successors of each node. */
  function Targets(n: Node): (r: set<Node>)
    ensures r == {} <==> n == End
    ensures Supervisor !in r
    ensures n in r ==> n == AskMissing
  {
    match n
    case Supervisor => {End, FetchDesign, ExtractFromText}
    case FetchDesign => {CheckMissing}
    case ExtractFromText => {CheckMissing}
    case CheckMissing => {Validate}
    case Validate => {End, HitlPrompt}
    case HitlPrompt => {AskMissing, Revalidate, End}
    case AskMissing => {AskMissing, Revalidate}
    case Revalidate => {End}
    case End => {}
  }

  /** Both data-collection nodes lead to the missing-field check, which always leads to validation. */
  lemma CollectionLeadsToValidation()
    ensures Targets(FetchDesign) == Targets(ExtractFromText) == {CheckMissing}
    ensures Targets(CheckMissing) == {Validate}
    ensures forall n :: CheckMissing in Targets(n) <==> n == FetchDesign || n == ExtractFromText
  {
  }

  /** The prompt node is entered only from the first validation, never from the revalidation. */
  lemma PromptOnlyAfterValidate()
    ensures forall n :: HitlPrompt in Targets(n) <==> n == Validate
  {
  }

  /** The collection node leads only to itself or to the revalidation, which always ends. */
  lemma CollectionEndsWithRevalidation()
    ensures Targets(AskMissing) == {AskMissing, Revalidate}
    ensures Targets(Revalidate) == {End}
    ensures forall n :: AskMissing in Targets(n) <==> n == HitlPrompt || n == AskMissing
  {
  }

  /** END is entered only from the supervisor, the validation, the prompt node and the revalidation. */
  lemma EndPredecessors()
    ensures forall n :: End in Targets(n) <==> n in {Supervisor, Validate, HitlPrompt, Revalidate}
  {
  }
}
