/**
 * The design-fetch node (backend/app/langgraph/nodes/fetch_design.py) on its mock-table
 * path: the design id is read off the user's text with `re.search(r'DESIGN-\d+', ..,
 * re.IGNORECASE)` and upper-cased, or asked of the language model; it is looked up in
 * `DESIGN_DATABASE`; and pre-supplied answers are merged into the attributes.
 */
module FetchDesign {

  import opened Wrappers
  import opened Json
  import opened PyStr
  import opened Spans
  import opened Constants
  import opened State
  import opened Hitl

  /** The literal part of the pattern, in lower case. */
  const Prefix: string := "design-"

  /** The literal `DESIGN-` matches at `i`, letters compared without regard to case. */
  predicate PrefixAt(s: string, i: int)
  {
    0 <= i && i + 7 <= |s| && forall k :: 0 <= k < 7 ==> LowerChar(s[i + k]) == Prefix[k]
  }

  /** `DESIGN-\d+` matches at `i`: the literal and at least one digit after it. */
  predicate MatchAt(s: string, i: int)
  {
    PrefixAt(s, i) && i + 7 < |s| && IsDigit(s[i + 7])
  }

  /** The end of the run of digits that starts at `k` (the greedy `\d+`). */
  function DigitsEnd(s: string, k: nat): (r: nat)
    requires k <= |s|
    ensures k <= r <= |s|
    ensures forall j :: k <= j < r ==> IsDigit(s[j])
    ensures r == |s| || !IsDigit(s[r])
    decreases |s| - k
  {
    if k < |s| && IsDigit(s[k]) then DigitsEnd(s, k + 1) else k
  }

  /** The first position at or after `k` where the pattern matches. */
  function FirstMatchFrom(s: string, k: nat): (r: Option<nat>)
    ensures r.Some? ==> k <= r.value && MatchAt(s, r.value)
    ensures r.Some? ==> forall j :: k <= j < r.value ==> !MatchAt(s, j)
    ensures r.None? ==> forall j :: k <= j ==> !MatchAt(s, j)
    decreases |s| - k
  {
    if k + 7 >= |s| then None
    else if MatchAt(s, k) then Some(k)
    else FirstMatchFrom(s, k + 1)
  }

  /**
   * The span `[i, j)` of `re.search(r'DESIGN-\d+', s, re.IGNORECASE)`: the leftmost
   * position where the pattern matches, and the whole run of digits after the literal.
   */
  function DesignIdSpan(s: string): (r: Option<(nat, nat)>)
    ensures r.None? <==> forall i :: !MatchAt(s, i)
    ensures r.Some? ==>
      && MatchAt(s, r.value.0)
      && (forall i :: 0 <= i < r.value.0 ==> !MatchAt(s, i))
      && r.value.0 + 8 <= r.value.1 <= |s|
      && (forall k :: r.value.0 + 7 <= k < r.value.1 ==> IsDigit(s[k]))
      && (r.value.1 == |s| || !IsDigit(s[r.value.1]))
  {
    match FirstMatchFrom(s, 0)
    case None => None
    case Some(i) => Some((i, DigitsEnd(s, i + 7)))
  }

  /** An id in the table's own form: `DESIGN-` and one or more digits. */
  predicate CanonicalId(t: string)
  {
    |t| >= 8 && t[..7] == "DESIGN-" && forall k :: 7 <= k < |t| ==> IsDigit(t[k])
  }

  /** The upper-cased match (`match.group().upper()`), or `None` when the pattern does not occur. */
  function RegexDesignId(s: string): (r: Option<string>)
    ensures r.None? <==> forall i :: !MatchAt(s, i)
    ensures r.Some? ==> CanonicalId(r.value)
  {
    match DesignIdSpan(s)
    case None => None
    case Some((i, j)) =>
      var t := Upper(s[i..j]);
      assert forall k :: 0 <= k < 7 ==> t[k] == "DESIGN-"[k] by {
        forall k | 0 <= k < 7 ensures t[k] == "DESIGN-"[k] {
          assert LowerChar(s[i + k]) == Prefix[k];
        }
      }
      assert forall k :: 7 <= k < |t| ==> IsDigit(t[k]) by {
        forall k | 7 <= k < |t| ensures IsDigit(t[k]) {
          assert IsDigit(s[i + k]);
        }
      }
      Some(t)
  }

  /** An id in canonical form is found in itself, unchanged. */
  lemma CanonicalIdFound(t: string)
    requires CanonicalId(t)
    ensures RegexDesignId(t) == Some(t)
  {
    assert t[..7][6] == '-';
    assert MatchAt(t, 0) by {
      forall k | 0 <= k < 7 ensures LowerChar(t[k]) == Prefix[k] {
        assert t[k] == t[..7][k];
      }
    }
    assert DigitsEnd(t, 7) == |t|;
    assert Upper(t[0..|t|]) == t by {
      forall k | 0 <= k < |t| ensures UpperChar(t[k]) == t[k] {
        if k < 7 { assert t[k] == t[..7][k]; }
      }
    }
  }

  /** Upper-casing the match is idempotent: the id extracted from an extracted id is itself. */
  lemma RegexDesignIdIdempotent(s: string)
    requires RegexDesignId(s).Some?
    ensures RegexDesignId(RegexDesignId(s).value) == RegexDesignId(s)
  {
    CanonicalIdFound(RegexDesignId(s).value);
  }

  /** Both keys of the table are in canonical form, so an upper-cased match can hit them. */
  lemma TableKeysCanonical()
    ensures forall k :: k in DesignDatabase ==> CanonicalId(k) && RegexDesignId(k) == Some(k)
  {
    forall k | k in DesignDatabase ensures CanonicalId(k) && RegexDesignId(k) == Some(k) {
      assert k == "DESIGN-001" || k == "DESIGN-002";
      assert k[..7] == "DESIGN-";
      CanonicalIdFound(k);
    }
  }

  /** A lower-case mention finds the table's upper-case key. */
  lemma LowerCaseMentionFound()
    ensures RegexDesignId("design-002") == Some("DESIGN-002")
  {
    var s := "design-002";
    assert MatchAt(s, 0);
    assert DigitsEnd(s, 7) == 10 by {
      assert DigitsEnd(s, 10) == 10;
    }
    assert Upper(s[0..10]) == "DESIGN-002";
  }

  /**
   * The id the language model supplies when the pattern does not occur: the `design_id`
   * of the leftmost `{...}` candidate of its reply, and `None` when there is no candidate,
   * it does not parse, or the key is absent.
   */
  function OracleDesignId(userInput: string, oracle: Oracle): (r: Json)
    ensures r != Null ==>
      var span := BraceSpan(oracle.designIdReply(userInput));
      && span.Some? && oracle.parseJson(span.value).Some?
      && "design_id" in oracle.parseJson(span.value).value
      && oracle.parseJson(span.value).value["design_id"] == r
    ensures var span := BraceSpan(oracle.designIdReply(userInput));
      span.None? || oracle.parseJson(span.value).None? ==> r == Null
    ensures var span := BraceSpan(oracle.designIdReply(userInput));
      span.Some? && oracle.parseJson(span.value).Some? ==>
        r == Get(oracle.parseJson(span.value).value, "design_id", Null)
  {
    match BraceSpan(oracle.designIdReply(userInput))
    case None => Null
    case Some(text) =>
      match oracle.parseJson(text)
      case None => Null
      case Some(obj) => Get(obj, "design_id", Null)
  }

  /** The id the node works with: the regex match if there is one, and the model's answer otherwise. */
  function ResolvedId(userInput: string, oracle: Oracle): (r: Json)
    ensures RegexDesignId(userInput).Some? ==> r == Str(RegexDesignId(userInput).value)
    ensures RegexDesignId(userInput).None? ==> r == OracleDesignId(userInput, oracle)
  {
    match RegexDesignId(userInput)
    case Some(t) => Str(t)
    case None => OracleDesignId(userInput, oracle)
  }

  /**
   * `design_id in DESIGN_DATABASE`: `None` when Python cannot hash the id (the membership
   * test raises), `Some(None)` for a miss, `Some(Some(record))` for a hit.
   */
  function Lookup(id: Json): (r: Option<Option<Object>>)
    ensures r.None? <==> !Hashable(id)
    ensures r.Some? && r.value.Some? <==> id.Str? && id.s in DesignDatabase
    ensures r.Some? && r.value.Some? ==> r.value.value == DesignDatabase[id.s]
  {
    if !Hashable(id) then None
    else if id.Str? && id.s in DesignDatabase then Some(Some(DesignDatabase[id.s]))
    else Some(None)
  }

  /**
   * `fetch_design_node` with no database session, once the id is resolved. `None` when the
   * lookup raises. A truthy id replaces the attributes by the record (or by `{}` on a miss)
   * and then merges the pre-supplied answers; a falsy id leaves `attributes = {}`.
   */
  function FetchWithId(s: ValidationState, id: Json, oracle: Oracle): (r: Option<ValidationState>)
    ensures r.None? <==> Truthy(id) && !Hashable(id)
    ensures r.Some? ==> r.value == s.(designId := r.value.designId, attributes := r.value.attributes)
  {
    if !Truthy(id) then Some(s.(attributes := map[]))
    else
      match Lookup(id)
      case None => None
      case Some(found) =>
        var looked := match found
          case Some(record) => s.(designId := Some(id.s), attributes := record)
          case None => s.(attributes := map[]);
        if |s.responses| > 0 then Some(looked.(attributes := Merged(looked.attributes, s.responses, oracle)))
        else Some(looked)
  }

  /** `fetch_design_node`: the id is the regex match, or else the model's answer. */
  function FetchDesignNode(s: ValidationState, oracle: Oracle): (r: Option<ValidationState>)
    ensures r.None? <==> Truthy(ResolvedId(s.userInput, oracle)) && !Hashable(ResolvedId(s.userInput, oracle))
    ensures r.Some? ==> r.value == s.(designId := r.value.designId, attributes := r.value.attributes)
  {
    FetchWithId(s, ResolvedId(s.userInput, oracle), oracle)
  }

  /** No answers at all leave the attributes as the lookup set them. */
  lemma MergedNothing(attrs: Object, oracle: Oracle)
    ensures Merged(attrs, [], oracle) == attrs
  {
  }

  /** A hit sets the id and gives the record with the answers merged over it. */
  lemma FetchHit(s: ValidationState, oracle: Oracle)
    requires ResolvedId(s.userInput, oracle).Str?
    requires ResolvedId(s.userInput, oracle).s in DesignDatabase
    ensures var k := ResolvedId(s.userInput, oracle).s;
      && FetchDesignNode(s, oracle).Some?
      && FetchDesignNode(s, oracle).value.designId == Some(k)
      && FetchDesignNode(s, oracle).value.attributes == Merged(DesignDatabase[k], s.responses, oracle)
  {
    HitWithId(s, ResolvedId(s.userInput, oracle), oracle);
  }

  /** A table key sets the id and the record, with the answers merged over it. */
  lemma HitWithId(s: ValidationState, id: Json, oracle: Oracle)
    requires id.Str? && id.s in DesignDatabase
    ensures FetchWithId(s, id, oracle).Some?
    ensures FetchWithId(s, id, oracle).value.designId == Some(id.s)
    ensures FetchWithId(s, id, oracle).value.attributes == Merged(DesignDatabase[id.s], s.responses, oracle)
  {
    assert "" !in DesignDatabase;
    var record := DesignDatabase[id.s];
    assert Lookup(id) == Some(Some(record));
    var looked := s.(designId := Some(id.s), attributes := record);
    if |s.responses| > 0 {
      assert FetchWithId(s, id, oracle) == Some(looked.(attributes := Merged(record, s.responses, oracle)));
    } else {
      assert FetchWithId(s, id, oracle) == Some(looked);
      MergedNothing(record, oracle);
    }
  }

  /** A miss keeps the old id and gives only the answers, merged over `{}`. */
  lemma FetchMiss(s: ValidationState, oracle: Oracle)
    requires Truthy(ResolvedId(s.userInput, oracle)) && Hashable(ResolvedId(s.userInput, oracle))
    requires !(ResolvedId(s.userInput, oracle).Str? && ResolvedId(s.userInput, oracle).s in DesignDatabase)
    ensures FetchDesignNode(s, oracle).Some?
    ensures FetchDesignNode(s, oracle).value.designId == s.designId
    ensures FetchDesignNode(s, oracle).value.attributes == Merged(map[], s.responses, oracle)
  {
    MergedNothing(map[], oracle);
  }

  /** An id that does not resolve empties the attributes and merges nothing, whatever the answers. */
  lemma FetchNoId(s: ValidationState, oracle: Oracle)
    requires !Truthy(ResolvedId(s.userInput, oracle))
    ensures FetchDesignNode(s, oracle) == Some(s.(attributes := map[]))
  {
  }

  /** When the pattern occurs the model is not consulted: any two oracles resolve the same id. */
  lemma RegexBypassesOracle(userInput: string, o1: Oracle, o2: Oracle)
    requires RegexDesignId(userInput).Some?
    ensures ResolvedId(userInput, o1) == ResolvedId(userInput, o2)
  {
  }

  /**
   * The model's id is used as it is, neither upper-cased nor checked against the pattern:
   * a lower-case answer misses the table.
   */
  lemma OracleIdUsedAsIs(s: ValidationState, oracle: Oracle)
    requires RegexDesignId(s.userInput).None?
    requires OracleDesignId(s.userInput, oracle) == Str("design-001")
    requires |s.responses| == 0
    ensures FetchDesignNode(s, oracle) == Some(s.(attributes := map[]))
  {
    assert "design-001" !in DesignDatabase by {
      assert "design-001" != "DESIGN-001";
      assert "design-001" != "DESIGN-002";
    }
  }

  /** The attributes a resolved id starts the merge from: the table record, or `{}` on a miss. */
  function LookedUp(id: Json): Object
  {
    if id.Str? && id.s in DesignDatabase then DesignDatabase[id.s] else map[]
  }

  /** With a resolved id the node merges the answers over what the lookup gave. */
  lemma ResolvedMerge(s: ValidationState, oracle: Oracle)
    requires Truthy(ResolvedId(s.userInput, oracle)) && Hashable(ResolvedId(s.userInput, oracle))
    ensures FetchDesignNode(s, oracle).Some?
    ensures FetchDesignNode(s, oracle).value.attributes == Merged(LookedUp(ResolvedId(s.userInput, oracle)), s.responses, oracle)
  {
    MergedNothing(LookedUp(ResolvedId(s.userInput, oracle)), oracle);
  }

  /** With a resolved id, an answer that parses overwrites its attribute, whatever it held. */
  lemma AnswerOverwrites(s: ValidationState, oracle: Oracle, i: nat)
    requires Truthy(ResolvedId(s.userInput, oracle)) && Hashable(ResolvedId(s.userInput, oracle))
    requires i < |s.responses|
    requires ParseSingleAttribute(s.responses[i].field, s.responses[i].text, oracle).Some?
    ensures FetchDesignNode(s, oracle).Some?
    ensures var a := s.responses[i];
      && a.field in FetchDesignNode(s, oracle).value.attributes
      && FetchDesignNode(s, oracle).value.attributes[a.field] == ParseSingleAttribute(a.field, a.text, oracle).value
  {
    ResolvedMerge(s, oracle);
    MergedAt(LookedUp(ResolvedId(s.userInput, oracle)), s.responses, oracle, s.responses[i].field);
  }

  /** With a resolved id, an attribute no answer parses for keeps what the lookup gave it. */
  lemma UnparsedKeepsLookup(s: ValidationState, oracle: Oracle, k: string)
    requires Truthy(ResolvedId(s.userInput, oracle)) && Hashable(ResolvedId(s.userInput, oracle))
    requires forall i :: 0 <= i < |s.responses| && s.responses[i].field == k ==>
               ParseSingleAttribute(k, s.responses[i].text, oracle).None?
    ensures FetchDesignNode(s, oracle).Some?
    ensures var base := LookedUp(ResolvedId(s.userInput, oracle));
      && (k in FetchDesignNode(s, oracle).value.attributes <==> k in base)
      && (k in base ==> FetchDesignNode(s, oracle).value.attributes[k] == base[k])
  {
    ResolvedMerge(s, oracle);
    MergedAt(LookedUp(ResolvedId(s.userInput, oracle)), s.responses, oracle, k);
  }

  /** The merge loop of the node: each answer that parses overwrites its attribute in place. */
  method MergeResponses(attrs: Object, rs: seq<Answer>, oracle: Oracle) returns (merged: Object)
    ensures merged == Merged(attrs, rs, oracle)
  {
    merged := attrs;
    var i := 0;
    while i < |rs|
      invariant 0 <= i <= |rs|
      invariant merged == Merged(attrs, rs[..i], oracle)
    {
      var a := rs[i];
      var value := ParseSingleAttribute(a.field, a.text, oracle);
      if value.Some? {
        merged := merged[a.field := value.value];
      }
      assert rs[..i + 1][..i] == rs[..i];
      i := i + 1;
    }
    assert rs[..i] == rs;
  }

  /** The node as the source runs it, step by step on the state. */
  method FetchDesign(s: ValidationState, oracle: Oracle) returns (r: Option<ValidationState>)
    ensures r == FetchDesignNode(s, oracle)
  {
    var id := ResolvedId(s.userInput, oracle);
    if !Truthy(id) {
      return Some(s.(attributes := map[]));
    }
    if !Hashable(id) {
      return None;
    }
    var st := s;
    if id.Str? && id.s in DesignDatabase {
      st := st.(designId := Some(id.s), attributes := DesignDatabase[id.s]);
    } else {
      st := st.(attributes := map[]);
    }
    if |s.responses| > 0 {
      var merged := MergeResponses(st.attributes, s.responses, oracle);
      st := st.(attributes := merged);
    }
    return Some(st);
  }
}
