/** List operations the nodes perform on `missing_attributes` and the answer dictionary. */
module Lists {

  /** No element occurs twice. */
  predicate NoDup<T(==)>(xs: seq<T>)
  {
    forall i, j :: 0 <= i < j < |xs| ==> xs[i] != xs[j]
  }

  /** `xs` is obtained from `ys` by dropping elements and keeping the order of the rest. */
  predicate SubsequenceOf<T(==)>(xs: seq<T>, ys: seq<T>)
    decreases |ys|
  {
    if |xs| == 0 then true
    else if |ys| == 0 then false
    else if xs[0] == ys[0] then SubsequenceOf(xs[1..], ys[1..])
    else SubsequenceOf(xs, ys[1..])
  }

  /** The elements of `xs` that are not in `ex`, in their order. */
  function Without<T(==,!new)>(xs: seq<T>, ex: set<T>): (r: seq<T>)
    ensures forall y :: y in r <==> y in xs && y !in ex
    ensures |r| <= |xs|
    ensures SubsequenceOf(r, xs)
    ensures NoDup(xs) ==> NoDup(r)
  {
    if |xs| == 0 then []
    else if xs[0] in ex then Without(xs[1..], ex)
    else
      var rest := Without(xs[1..], ex);
      assert ([xs[0]] + rest)[1..] == rest;
      [xs[0]] + rest
  }

  /** Python's `xs.remove(x)` for an `x` that is present: its first occurrence goes. */
  function RemoveFirst<T(==,!new)>(xs: seq<T>, x: T): (r: seq<T>)
    ensures x in xs ==> |r| == |xs| - 1
    ensures x !in xs ==> r == xs
    ensures forall y :: y in r ==> y in xs
    ensures SubsequenceOf(r, xs)
  {
    if |xs| == 0 then []
    else if xs[0] == x then
      SubsequenceOfTail(xs);
      xs[1..]
    else
      var rest := RemoveFirst(xs[1..], x);
      assert ([xs[0]] + rest)[1..] == rest;
      [xs[0]] + rest
  }

  /** Dropping the head leaves a subsequence. */
  lemma {:induction false} SubsequenceOfTail<T>(xs: seq<T>)
    requires |xs| > 0
    ensures SubsequenceOf(xs[1..], xs)
  {
    SubsequenceOfSelfPlus(xs[1..], [xs[0]]);
    assert [xs[0]] + xs[1..] == xs;
  }

  /** A sequence is a subsequence of itself with a prefix added. */
  lemma {:induction false} SubsequenceOfSelfPlus<T>(xs: seq<T>, pre: seq<T>)
    ensures SubsequenceOf(xs, pre + xs)
    decreases |pre| + |xs|
  {
    if |xs| == 0 {
    } else if |pre| == 0 {
      assert pre + xs == xs;
      SubsequenceOfSelfPlus(xs[1..], []);
      assert [] + xs[1..] == xs[1..];
    } else {
      if xs[0] == pre[0] {
        SubsequenceOfSelfPlus(xs[1..], pre[1..] + [xs[0]]);
        assert (pre + xs)[1..] == pre[1..] + xs;
        assert pre[1..] + [xs[0]] + xs[1..] == pre[1..] + xs;
      } else {
        SubsequenceOfSelfPlus(xs, pre[1..]);
        assert (pre + xs)[1..] == pre[1..] + xs;
      }
    }
  }

  /** In a list without duplicates, removing the first occurrence removes every occurrence. */
  lemma {:induction false} RemoveFirstNoDup<T(!new)>(xs: seq<T>, x: T)
    requires NoDup(xs)
    ensures RemoveFirst(xs, x) == Without(xs, {x})
  {
    if |xs| == 0 {
    } else if xs[0] == x {
      assert x !in xs[1..];
      WithoutAbsent(xs[1..], {x});
    } else {
      assert NoDup(xs[1..]);
      RemoveFirstNoDup(xs[1..], x);
    }
  }

  /** Dropping elements none of which occur changes nothing. */
  lemma {:induction false} WithoutAbsent<T(!new)>(xs: seq<T>, ex: set<T>)
    requires forall y :: y in ex ==> y !in xs
    ensures Without(xs, ex) == xs
  {
    if |xs| > 0 {
      assert xs[0] !in ex;
      WithoutAbsent(xs[1..], ex);
    }
  }

  /** Dropping two sets in turn is dropping their union. */
  lemma {:induction false} WithoutWithout<T(!new)>(xs: seq<T>, a: set<T>, b: set<T>)
    ensures Without(Without(xs, a), b) == Without(xs, a + b)
  {
    if |xs| > 0 {
      WithoutWithout(xs[1..], a, b);
      if xs[0] !in a {
        assert ([xs[0]] + Without(xs[1..], a))[1..] == Without(xs[1..], a);
      }
    }
  }
}
