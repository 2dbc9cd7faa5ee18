/**
 * The free-text extraction node (backend/app/langgraph/nodes/extract_text.py): the
 * candidate object of the model's reply runs from its first `{` to its last `}`; when it
 * parses it becomes the attribute map, and every failure leaves `{}`.
 */
module ExtractText {

  import opened Wrappers
  import opened Json
  import opened Spans
  import opened State

  /** The attribute map the node settles on for a given user text. */
  function ExtractedAttributes(userInput: string, oracle: Oracle): (r: Object)
    ensures var text := ObjectText(oracle.extractReply(userInput));
      r == map[] || (text.Some? && oracle.parseJson(text.value) == Some(r))
    ensures var text := ObjectText(oracle.extractReply(userInput));
      text.Some? && oracle.parseJson(text.value).Some? ==> r == oracle.parseJson(text.value).value
    ensures ObjectText(oracle.extractReply(userInput)).None? ==> r == map[]
  {
    match ObjectText(oracle.extractReply(userInput))
    case None => map[]
    case Some(text) =>
      match oracle.parseJson(text)
      case None => map[]
      case Some(obj) => obj
  }

  /** `extract_from_text_node`: one write, of `attributes`. */
  function ExtractTextNode(s: ValidationState, oracle: Oracle): (r: ValidationState)
    ensures r == s.(attributes := r.attributes)
    ensures r.attributes == ExtractedAttributes(s.userInput, oracle)
  {
    s.(attributes := ExtractedAttributes(s.userInput, oracle))
  }

  /**
   * The new map never depends on the old one: two states with the same user text get the
   * same attributes (they are replaced wholesale, not merged).
   */
  lemma ExtractReplacesWholesale(s1: ValidationState, s2: ValidationState, oracle: Oracle)
    requires s1.userInput == s2.userInput
    ensures ExtractTextNode(s1, oracle).attributes == ExtractTextNode(s2, oracle).attributes
  {
  }

  /**
   * Without a `{` followed somewhere by a `}` in the reply there is no candidate, and the
   * node writes `{}`.
   */
  lemma ExtractWithoutBraces(s: ValidationState, oracle: Oracle)
    requires forall a, b :: 0 <= a < b < |oracle.extractReply(s.userInput)| ==>
      !(oracle.extractReply(s.userInput)[a] == '{' && oracle.extractReply(s.userInput)[b] == '}')
    ensures ExtractTextNode(s, oracle).attributes == map[]
  {
    ObjectSpanExact(oracle.extractReply(s.userInput));
  }
}
