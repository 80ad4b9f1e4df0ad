/** Sequence vocabulary shared by the three annealing problems: the two state
    invariants (no duplicates, every id a valid catalog index), Python's
    `list.remove`, slice reversal, and `random.choice` with the draw made an
    explicit parameter. */
module Lists {

  /** No value occurs twice. */
  predicate NoDup<T(==)>(s: seq<T>) {
    forall i, j :: 0 <= i < j < |s| ==> s[i] != s[j]
  }

  /** Every element is an index into a catalog of `n` items. */
  predicate InRange(s: seq<int>, n: int) {
    forall i :: 0 <= i < |s| ==> 0 <= s[i] < n
  }

  /** A list whose elements all come from an in-range list is in range. */
  lemma InRangeSub(s: seq<int>, t: seq<int>, n: int)
    requires InRange(s, n) && multiset(t) <= multiset(s)
    ensures InRange(t, n)
  {
    forall i | 0 <= i < |t|
      ensures 0 <= t[i] < n
    {
      assert t[i] in multiset(s);
    }
  }

  /** Python's `list.remove(x)`: drops the FIRST occurrence of `x`.  Python
      raises `ValueError` when `x` is absent; every caller draws `x` from the
      list itself, so presence is required. */
  function RemoveFirst<T(==)>(s: seq<T>, x: T): (r: seq<T>)
    requires x in s
    ensures |r| == |s| - 1
    ensures multiset(r) == multiset(s) - multiset{x}
  {
    assert s == [s[0]] + s[1..];
    if s[0] == x then s[1..] else [s[0]] + RemoveFirst(s[1..], x)
  }

  /** The occurrence removed is the first one, and every other element
      keeps its relative order. */
  lemma {:induction false} RemoveFirstAt<T>(s: seq<T>, x: T, i: int)
    requires 0 <= i < |s| && s[i] == x && x !in s[..i]
    ensures RemoveFirst(s, x) == s[..i] + s[i + 1..]
  {
    if i > 0 {
      assert s[0] == s[..i][0];
      assert s[1..][..i - 1] == s[1..i];
      assert x !in s[1..i] by {
        forall j | 0 <= j < i - 1 ensures s[1..i][j] != x {
          assert s[1..i][j] == s[..i][j + 1];
        }
      }
      RemoveFirstAt(s[1..], x, i - 1);
      assert s[..i] == [s[0]] + s[1..i];
      assert s[i + 1..] == s[1..][i..];
    }
  }

  /** Only `x` can change membership, and every other value keeps it. */
  lemma RemoveFirstMembers<T>(s: seq<T>, x: T, y: T)
    requires x in s && y != x
    ensures y in RemoveFirst(s, x) <==> y in s
  {
    assert y in multiset(RemoveFirst(s, x)) <==> y in multiset(s);
  }

  /** On a duplicate-free list the removed value is gone for good. */
  lemma {:induction false} RemoveFirstNoDup<T>(s: seq<T>, x: T)
    requires x in s && NoDup(s)
    ensures NoDup(RemoveFirst(s, x)) && x !in RemoveFirst(s, x)
  {
    if s[0] == x {
      assert s[0] !in s[1..];
    } else {
      assert NoDup(s[1..]);
      RemoveFirstNoDup(s[1..], x);
      var rest := RemoveFirst(s[1..], x);
      assert s[0] !in s[1..];
      assert s[0] !in multiset(rest);
    }
  }

  /** Removing what was just appended gives the list back. */
  lemma {:induction false} RemoveFirstAppended<T>(s: seq<T>, y: T)
    requires y !in s
    ensures RemoveFirst(s + [y], y) == s
  {
    if |s| > 0 {
      assert (s + [y])[1..] == s[1..] + [y];
      RemoveFirstAppended(s[1..], y);
    }
  }

  /** In a duplicate-free list every value occurs at most once. */
  lemma {:induction false} NoDupCount<T>(s: seq<T>, x: T)
    requires NoDup(s)
    ensures multiset(s)[x] == if x in s then 1 else 0
  {
    if |s| > 0 {
      assert s == [s[0]] + s[1..];
      assert NoDup(s[1..]);
      assert s[0] !in s[1..];
      NoDupCount(s[1..], x);
    }
  }

  /** A value at two positions occurs at least twice. */
  lemma TwoPositionsCount<T>(s: seq<T>, i: int, j: int)
    requires 0 <= i < j < |s| && s[i] == s[j]
    ensures multiset(s)[s[i]] >= 2
  {
    assert s == s[..j] + s[j..];
    assert s[i] in s[..j];
    assert s[j] in s[j..];
  }

  /** Reordering a duplicate-free list keeps it duplicate-free. */
  lemma PermutationNoDup<T>(s: seq<T>, t: seq<T>)
    requires NoDup(s) && multiset(t) == multiset(s)
    ensures NoDup(t)
  {
    forall i, j | 0 <= i < j < |t|
      ensures t[i] != t[j]
    {
      if t[i] == t[j] {
        TwoPositionsCount(t, i, j);
        NoDupCount(s, t[i]);
      }
    }
  }

  /** Two duplicate-free lists with the same members are permutations of
      each other. */
  lemma NoDupSameMembers<T>(s: seq<T>, t: seq<T>)
    requires NoDup(s) && NoDup(t)
    requires forall x :: x in s <==> x in t
    ensures multiset(s) == multiset(t)
  {
    forall x
      ensures multiset(s)[x] == multiset(t)[x]
    {
      NoDupCount(s, x);
      NoDupCount(t, x);
    }
  }

  /** Python's `xs[::-1]`. */
  function Reverse<T>(s: seq<T>): (r: seq<T>)
    ensures |r| == |s|
    ensures forall i :: 0 <= i < |s| ==> r[i] == s[|s| - 1 - i]
  {
    if |s| == 0 then [] else Reverse(s[1..]) + [s[0]]
  }

  /** Reversal only reorders. */
  lemma {:induction false} ReversePermutes<T>(s: seq<T>)
    ensures multiset(Reverse(s)) == multiset(s)
  {
    if |s| > 0 {
      ReversePermutes(s[1..]);
      assert s == [s[0]] + s[1..];
    }
  }

  /** Reversing twice gives the original sequence back. */
  lemma ReverseReverse<T>(s: seq<T>)
    ensures Reverse(Reverse(s)) == s
  {
  }

  /** `random.choice(xs)` with the random draw `k` made explicit: any natural
      number selects an element, by position modulo the length. */
  function Choice<T>(xs: seq<T>, k: nat): (x: T)
    requires |xs| > 0
    ensures x in xs
  {
    xs[k % |xs|]
  }

  /** Every element can be drawn, so the explicit draw loses no behaviour. */
  lemma ChoiceCovers<T>(xs: seq<T>, x: T)
    requires x in xs
    ensures exists k: nat :: Choice(xs, k) == x
  {
    var i :| 0 <= i < |xs| && xs[i] == x;
    var k: nat := i;
    assert k / |xs| == 0;
    assert Choice(xs, k) == x;
  }
}
