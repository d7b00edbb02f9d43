/** `Array.prototype.filter` over immutable sequences, as the store
    commands use it. */
module Lists {
  /** `xs.filter(keep)`: the elements `keep` accepts, each as often as it
      occurs (`FilterCounts`), in order (`FilterAppend`). */
  function Filter<T>(xs: seq<T>, keep: T -> bool): (r: seq<T>)
    ensures |r| <= |xs|
    ensures forall k :: 0 <= k < |r| ==> r[k] in xs && keep(r[k])
    ensures forall k :: 0 <= k < |xs| && keep(xs[k]) ==> xs[k] in r
    decreases |xs|
  {
    if |xs| == 0 then []
    else (if keep(xs[0]) then [xs[0]] else []) + Filter(xs[1..], keep)
  }

  /** The filter keeps each accepted element exactly as often as it
      occurs, and no rejected one. */
  lemma {:induction false} FilterCounts<T>(xs: seq<T>, keep: T -> bool)
    ensures forall k :: 0 <= k < |xs| ==>
      multiset(Filter(xs, keep))[xs[k]] == if keep(xs[k]) then multiset(xs)[xs[k]] else 0
    decreases |xs|
  {
    if |xs| > 0 {
      FilterCounts(xs[1..], keep);
      assert xs == [xs[0]] + xs[1..];
      var rest := Filter(xs[1..], keep);
      assert Filter(xs, keep) == (if keep(xs[0]) then [xs[0]] else []) + rest;
      forall k | 0 <= k < |xs|
        ensures multiset(Filter(xs, keep))[xs[k]] == if keep(xs[k]) then multiset(xs)[xs[k]] else 0
      {
        var x := xs[k];
        if x !in xs[1..] {
          assert k == 0;
          assert x !in rest;
          assert multiset(rest)[x] == 0 && multiset(xs[1..])[x] == 0;
        } else {
          var j :| 0 <= j < |xs[1..]| && xs[1..][j] == x;
        }
      }
    }
  }

  /** Filtering a concatenation filters each part: the kept elements keep
      their relative order. */
  lemma {:induction false} FilterAppend<T>(a: seq<T>, b: seq<T>, keep: T -> bool)
    ensures Filter(a + b, keep) == Filter(a, keep) + Filter(b, keep)
    decreases |a|
  {
    if |a| == 0 {
      assert a + b == b;
    } else {
      assert (a + b)[0] == a[0];
      assert (a + b)[1..] == a[1..] + b;
      FilterAppend(a[1..], b, keep);
    }
  }

  /** A filter that accepts every element is the identity. */
  lemma {:induction false} FilterKeepsAll<T>(xs: seq<T>, keep: T -> bool)
    requires forall k :: 0 <= k < |xs| ==> keep(xs[k])
    ensures Filter(xs, keep) == xs
    decreases |xs|
  {
    if |xs| > 0 {
      assert forall k :: 0 <= k < |xs| - 1 ==> xs[1..][k] == xs[k + 1];
      FilterKeepsAll(xs[1..], keep);
      assert xs == [xs[0]] + xs[1..];
    }
  }

  /** A filter that rejects every element leaves nothing. */
  lemma {:induction false} FilterRejectsAll<T>(xs: seq<T>, keep: T -> bool)
    requires forall k :: 0 <= k < |xs| ==> !keep(xs[k])
    ensures Filter(xs, keep) == []
    decreases |xs|
  {
    if |xs| > 0 {
      assert forall k :: 0 <= k < |xs| - 1 ==> xs[1..][k] == xs[k + 1];
      FilterRejectsAll(xs[1..], keep);
    }
  }

  function Both<T>(p: T -> bool, q: T -> bool): T -> bool {
    (x: T) => p(x) && q(x)
  }

  /** Two filters in a row are one filter by the conjunction. */
  lemma {:induction false} FilterTwice<T>(xs: seq<T>, p: T -> bool, q: T -> bool)
    ensures Filter(Filter(xs, p), q) == Filter(xs, Both(p, q))
    decreases |xs|
  {
    if |xs| > 0 {
      var head := if p(xs[0]) then [xs[0]] else [];
      FilterAppend(head, Filter(xs[1..], p), q);
      if p(xs[0]) {
        assert head[1..] == [];
        assert Filter(head, q) == (if q(xs[0]) then [xs[0]] else []) + Filter(head[1..], q);
      } else {
        assert Filter(head, q) == [];
      }
      FilterTwice(xs[1..], p, q);
    }
  }
}
