/** Totals of a per-item attribute (price, taste, duration, interest) over the
    ids a subset-selection state lists, as the energy loops accumulate them. */
module Tally {
  import opened Lists

  /** Sum of `w[i]` over the ids `i` of `ids`, each occurrence counted. */
  function Sum(ids: seq<int>, w: seq<real>): real
    requires InRange(ids, |w|)
  {
    if |ids| == 0 then 0.0 else w[ids[0]] + Sum(ids[1..], w)
  }

  predicate NonNegative(w: seq<real>) {
    forall i :: 0 <= i < |w| ==> w[i] >= 0.0
  }

  /** Totals of non-negative attributes are non-negative. */
  lemma {:induction false} SumNonNegative(ids: seq<int>, w: seq<real>)
    requires InRange(ids, |w|) && NonNegative(w)
    ensures Sum(ids, w) >= 0.0
  {
    if |ids| > 0 {
      SumNonNegative(ids[1..], w);
    }
  }

  /** Taking one occurrence of `x` out of the list takes `w[x]` off the total. */
  lemma {:induction false} SumRemoveFirst(ids: seq<int>, w: seq<real>, x: int)
    requires InRange(ids, |w|) && x in ids
    ensures InRange(RemoveFirst(ids, x), |w|)
    ensures Sum(ids, w) == w[x] + Sum(RemoveFirst(ids, x), w)
  {
    InRangeSub(ids, RemoveFirst(ids, x), |w|);
    if ids[0] != x {
      SumRemoveFirst(ids[1..], w, x);
    }
  }

  /** The total does not depend on the order of the ids: the energy loops
      of both subset problems may visit the state in any order. */
  lemma {:induction false} SumPermutation(s: seq<int>, t: seq<int>, w: seq<real>)
    requires InRange(s, |w|) && InRange(t, |w|)
    requires multiset(s) == multiset(t)
    ensures Sum(s, w) == Sum(t, w)
  {
    if |s| > 0 {
      assert s == [s[0]] + s[1..];
      assert s[0] in multiset(t);
      SumRemoveFirst(t, w, s[0]);
      var t' := RemoveFirst(t, s[0]);
      assert multiset(s[1..]) == multiset(t');
      SumPermutation(s[1..], t', w);
    }
  }

  /** Appending an id adds its weight. */
  lemma SumAppend(ids: seq<int>, w: seq<real>, x: int)
    requires InRange(ids, |w|) && 0 <= x < |w|
    ensures InRange(ids + [x], |w|)
    ensures Sum(ids + [x], w) == Sum(ids, w) + w[x]
  {
    assert ([x] + ids)[1..] == ids;
    assert multiset(ids + [x]) == multiset([x] + ids);
    SumPermutation(ids + [x], [x] + ids, w);
  }

  /** The energy loops' running total: start at zero and add the weight of
      each id in turn, first to last. `Sum` folds from the other end; over
      exact reals the two agree. */
  method Total(ids: seq<int>, w: seq<real>) returns (total: real)
    requires InRange(ids, |w|)
    ensures total == Sum(ids, w)
  {
    total := 0.0;
    var i := 0;
    while i < |ids|
      invariant 0 <= i <= |ids|
      invariant InRange(ids[..i], |w|)
      invariant total == Sum(ids[..i], w)
    {
      SumAppend(ids[..i], w, ids[i]);
      assert ids[..i + 1] == ids[..i] + [ids[i]];
      total := total + w[ids[i]];
      i := i + 1;
    }
    assert ids[..i] == ids;
  }
}
