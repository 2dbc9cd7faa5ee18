/**
 * The two ways the nodes cut a JSON candidate out of an oracle reply:
 * the leftmost match of the regular expression `\{[^}]+\}` (supervisor, design-id
 * question, single-attribute parser) and the span from the first `{` to the last `}`
 * found with `find` / `rfind` (text extraction, validation).
 */
module Spans {

  import opened Wrappers

  /** `\{[^}]+\}` matches `s[i..j+1]`: a `{`, at least one non-`}` character, then a `}`. */
  predicate BraceMatchAt(s: string, i: int, j: int)
  {
    0 <= i && i + 1 < j < |s| && s[i] == '{' && s[j] == '}' && forall k :: i < k < j ==> s[k] != '}'
  }

  /** The first `}` at or after index `k`. */
  function NextClose(s: string, k: nat): (r: Option<nat>)
    ensures r.Some? ==> k <= r.value < |s| && s[r.value] == '}'
    decreases |s| - k
  {
    if k >= |s| then None
    else if s[k] == '}' then Some(k)
    else NextClose(s, k + 1)
  }

  /** No `}` lies between `k` and the one found, and none at all after `k` when none is found. */
  lemma {:induction false} NextCloseFirst(s: string, k: nat)
    ensures NextClose(s, k).Some? ==> forall m :: k <= m < NextClose(s, k).value ==> s[m] != '}'
    ensures NextClose(s, k).None? ==> forall m :: k <= m < |s| ==> s[m] != '}'
    decreases |s| - k
  {
    if k < |s| && s[k] != '}' {
      NextCloseFirst(s, k + 1);
    }
  }

  /** The leftmost match of `\{[^}]+\}` that starts at or after `i`, as its first and last index. */
  function BraceMatchFrom(s: string, i: nat): (r: Option<(nat, nat)>)
    ensures r.Some? ==> i <= r.value.0 < r.value.1 < |s|
    decreases |s| - i
  {
    if i >= |s| then None
    else if s[i] == '{' && i + 1 < |s| && s[i + 1] != '}' && NextClose(s, i + 1).Some? then
      Some((i, NextClose(s, i + 1).value))
    else
      BraceMatchFrom(s, i + 1)
  }

  /** No match starts at `i` unless the scan finds it there. */
  lemma NoMatchAt(s: string, i: nat, j: int)
    requires i < |s|
    requires !(s[i] == '{' && i + 1 < |s| && s[i + 1] != '}' && NextClose(s, i + 1).Some?)
    ensures !BraceMatchAt(s, i, j)
  {
    NextCloseFirst(s, i + 1);
  }

  /** The scan finds a match, and it is the leftmost one starting at or after `i`; otherwise there is none. */
  lemma {:induction false} BraceMatchFromSpec(s: string, i: nat)
    ensures var r := BraceMatchFrom(s, i);
      && (r.Some? ==> BraceMatchAt(s, r.value.0, r.value.1))
      && (r.Some? ==> forall i2, j2 :: i <= i2 < r.value.0 ==> !BraceMatchAt(s, i2, j2))
      && (r.None? ==> forall i2, j2 :: i <= i2 ==> !BraceMatchAt(s, i2, j2))
    decreases |s| - i
  {
    if i < |s| {
      if s[i] == '{' && i + 1 < |s| && s[i + 1] != '}' && NextClose(s, i + 1).Some? {
        NextCloseFirst(s, i + 1);
      } else {
        BraceMatchFromSpec(s, i + 1);
        forall j2 ensures !BraceMatchAt(s, i, j2) {
          NoMatchAt(s, i, j2);
        }
      }
    }
  }

  /** `re.search(r'\{[^}]+\}', s)`: the leftmost match, as the indices of its braces. */
  function BraceMatch(s: string): (r: Option<(nat, nat)>)
    ensures r.Some? ==> r.value.0 < r.value.1 < |s|
  {
    BraceMatchFrom(s, 0)
  }

  /** The search finds the leftmost match, and none exactly when there is no match at all. */
  lemma BraceMatchSpec(s: string)
    ensures var r := BraceMatch(s);
      && (r.Some? ==> BraceMatchAt(s, r.value.0, r.value.1))
      && (r.Some? ==> forall i2, j2 :: 0 <= i2 < r.value.0 ==> !BraceMatchAt(s, i2, j2))
      && (r.None? <==> forall i2, j2 :: !BraceMatchAt(s, i2, j2))
  {
    BraceMatchFromSpec(s, 0);
  }

  /** A match is determined by its opening brace: it ends at the next `}`. */
  lemma BraceMatchEnd(s: string, i: int, j: int, j2: int)
    requires BraceMatchAt(s, i, j) && BraceMatchAt(s, i, j2)
    ensures j == j2
  {
  }

  /** The text of the leftmost match (`match.group()`). */
  function BraceSpan(s: string): Option<string>
  {
    match BraceMatch(s)
    case None => None
    case Some((i, j)) => Some(s[i..j + 1])
  }

  /** The matched text is a `{`, at least one character other than `}`, and a `}`. */
  lemma BraceSpanShape(s: string)
    ensures var r := BraceSpan(s);
      && (r.Some? ==> |r.value| >= 3 && r.value[0] == '{' && r.value[|r.value| - 1] == '}')
      && (r.Some? ==> forall k :: 0 < k < |r.value| - 1 ==> r.value[k] != '}')
  {
    BraceMatchSpec(s);
    if BraceSpan(s).Some? {
      var (i, j) := BraceMatch(s).value;
      var r := s[i..j + 1];
      forall k | 0 < k < |r| - 1 ensures r[k] != '}' {
        assert r[k] == s[i + k];
      }
    }
  }

  /** `s.find(c)`: the first index of `c`, or -1. */
  function FindChar(s: string, c: char): (r: int)
    ensures -1 <= r < |s|
    ensures r >= 0 ==> s[r] == c
  {
    if |s| == 0 then -1
    else if s[0] == c then 0
    else
      var r := FindChar(s[1..], c);
      if r == -1 then -1 else r + 1
  }

  /** No `c` comes before the index found, and there is none when -1 is returned. */
  lemma {:induction false} FindCharFirst(s: string, c: char)
    ensures FindChar(s, c) >= 0 ==> forall k :: 0 <= k < FindChar(s, c) ==> s[k] != c
    ensures FindChar(s, c) == -1 ==> forall k :: 0 <= k < |s| ==> s[k] != c
  {
    if |s| > 0 && s[0] != c {
      FindCharFirst(s[1..], c);
      forall k | 1 <= k < |s| ensures s[k] == s[1..][k - 1] { }
    }
  }

  /** `s.rfind(c)`: the last index of `c`, or -1. */
  function RFindChar(s: string, c: char): (r: int)
    ensures -1 <= r < |s|
    ensures r >= 0 ==> s[r] == c
  {
    if |s| == 0 then -1
    else if s[|s| - 1] == c then |s| - 1
    else RFindChar(s[..|s| - 1], c)
  }

  /** No `c` comes after the index found, and there is none when -1 is returned. */
  lemma {:induction false} RFindCharLast(s: string, c: char)
    ensures RFindChar(s, c) >= 0 ==> forall k :: RFindChar(s, c) < k < |s| ==> s[k] != c
    ensures RFindChar(s, c) == -1 ==> forall k :: 0 <= k < |s| ==> s[k] != c
  {
    if |s| > 0 && s[|s| - 1] != c {
      RFindCharLast(s[..|s| - 1], c);
      forall k | 0 <= k < |s| - 1 ensures s[k] == s[..|s| - 1][k] { }
    }
  }

  /**
   * `start = s.find('{')`, `end = s.rfind('}') + 1`, kept when `start != -1 and end > start`:
   * the candidate object as a half-open index range.
   */
  function ObjectSpan(s: string): (r: Option<(nat, nat)>)
    ensures r.Some? ==> r.value.0 < r.value.1 <= |s|
  {
    var start := FindChar(s, '{');
    var end := RFindChar(s, '}') + 1;
    if start != -1 && end > start then Some((start, end)) else None
  }

  /** The text of that span (`content[start:end]`). */
  function ObjectText(s: string): Option<string>
  {
    match ObjectSpan(s)
    case None => None
    case Some((a, b)) => Some(s[a..b])
  }

  /**
   * The span exists iff some `}` comes after some `{`; it then runs from the first `{`
   * to the last `}`, both included.
   */
  lemma ObjectSpanExact(s: string)
    ensures ObjectSpan(s).Some? <==> exists a, b :: 0 <= a < b < |s| && s[a] == '{' && s[b] == '}'
    ensures ObjectSpan(s).Some? ==>
      var (a, e) := ObjectSpan(s).value;
      && s[a] == '{' && s[e - 1] == '}'
      && (forall k :: 0 <= k < a ==> s[k] != '{')
      && (forall k :: e <= k < |s| ==> s[k] != '}')
  {
    var start := FindChar(s, '{');
    var last := RFindChar(s, '}');
    FindCharFirst(s, '{');
    RFindCharLast(s, '}');
    if exists a, b :: 0 <= a < b < |s| && s[a] == '{' && s[b] == '}' {
      var a, b :| 0 <= a < b < |s| && s[a] == '{' && s[b] == '}';
      assert start != -1 && start <= a;
      assert last >= b;
    }
  }
}
