/** `ShowProblem` (exercicio1.py): choose which of sixteen concerts to attend
    under a ticket budget, optionally forced to attend one given show.  A
    state is the tuple of chosen show ids, kept sorted. */
module ShowProblem {
  import opened Lists
  import opened Tally

  /** `must_have_show_id`, which the source leaves as `None` when unset. */
  datatype Option<T> = None | Some(value: T)

  /** `len(artistas)`. */
  const Artists := 16

  /** `precos`, ticket price of each show (whole numbers of reais). */
  const Prices: seq<real> := [
    1200.0, 1100.0, 300.0, 250.0, 350.0, 280.0, 800.0, 1000.0,
    200.0, 220.0, 240.0, 180.0, 200.0, 800.0, 800.0, 950.0
  ]

  /** `gostos`, personal taste score of each show. */
  const Tastes: seq<real> := [
    9.5, 9.5, 7.0, 6.0, 6.0, 6.5, 7.5, 6.5,
    7.5, 7.5, 7.0, 5.5, 5.0, 8.0, 8.5, 8.5
  ]

  /** `ORCAMENTO_MAXIMO`. */
  const Budget: real := 3000.0

  /** Energy of a state that lacks the mandatory show. */
  const MissingMandatoryPenalty: real := 1000000.0

  /** Energy per real of budget overrun. */
  const OverrunWeight: real := 1000.0

  /** Worth of attending one more show, dominating taste. */
  const ShowWeight: int := 100

  predicate Sorted(s: seq<int>) {
    forall i, j :: 0 <= i < j < |s| ==> s[i] <= s[j]
  }

  /** The canonical form of a state: sorted without repetition. */
  predicate StrictlyIncreasing(s: seq<int>) {
    forall i, j :: 0 <= i < j < |s| ==> s[i] < s[j]
  }

  /** Insert `x` into a sorted list. */
  function Insert(x: int, t: seq<int>): (r: seq<int>)
    requires Sorted(t)
    ensures Sorted(r)
    ensures multiset(r) == multiset(t) + multiset{x}
  {
    if |t| == 0 || x <= t[0] then
      ConsSorted(x, t);
      [x] + t
    else
      var rest := Insert(x, t[1..]);
      assert t == [t[0]] + t[1..];
      assert |rest| == 0 || t[0] <= rest[0] by {
        if |rest| > 0 {
          assert rest[0] in multiset(t[1..]) + multiset{x};
        }
      }
      ConsSorted(t[0], rest);
      [t[0]] + rest
  }

  /** A sorted list stays sorted when an element no larger than its head is
      put in front. */
  lemma ConsSorted(y: int, u: seq<int>)
    requires Sorted(u) && (|u| == 0 || y <= u[0])
    ensures Sorted([y] + u)
  {
  }

  /** Python's `sorted` on a list of ids. */
  function Sort(s: seq<int>): (r: seq<int>)
    ensures Sorted(r)
    ensures multiset(r) == multiset(s)
  {
    if |s| == 0 then []
    else
      assert s == [s[0]] + s[1..];
      Insert(s[0], Sort(s[1..]))
  }

  /** Sorting a duplicate-free list yields the canonical form. */
  lemma SortCanonical(s: seq<int>)
    requires NoDup(s)
    ensures StrictlyIncreasing(Sort(s))
  {
    PermutationNoDup(s, Sort(s));
  }

  /** `ShowProblem.move` with the drawn `show_id` as a parameter: toggle the
      show's membership, except that the mandatory show is never removed,
      and return the result sorted. */
  function Move(s: seq<int>, showId: int, mustHave: Option<int>): (r: seq<int>)
    ensures showId in s && mustHave == Some(showId) ==> r == s
    ensures showId in s && mustHave != Some(showId) ==>
      Sorted(r) && multiset(r) == multiset(s) - multiset{showId}
    ensures showId !in s ==> Sorted(r) && multiset(r) == multiset(s) + multiset{showId}
  {
    if showId in s then
      if mustHave == Some(showId) then s else Sort(RemoveFirst(s, showId))
    else
      Sort(s + [showId])
  }

  /** A move changes the membership of `showId` alone. */
  lemma MoveTogglesOnlyShowId(s: seq<int>, showId: int, mustHave: Option<int>, x: int)
    requires x != showId
    ensures x in Move(s, showId, mustHave) <==> x in s
  {
    var r := Move(s, showId, mustHave);
    if showId in s && mustHave != Some(showId) {
      assert multiset(r)[x] == multiset(s)[x];
    } else if showId !in s {
      assert multiset(r)[x] == multiset(s)[x];
    }
    assert x in r <==> x in multiset(r);
  }

  /** On a duplicate-free state the drawn show is added when absent and
      removed when present, unless it is the mandatory show. */
  lemma MoveTogglesShowId(s: seq<int>, showId: int, mustHave: Option<int>)
    requires NoDup(s)
    ensures showId in Move(s, showId, mustHave) <==> showId !in s || mustHave == Some(showId)
  {
    var r := Move(s, showId, mustHave);
    if showId in s && mustHave != Some(showId) {
      NoDupCount(s, showId);
      assert showId !in multiset(r);
    } else if showId !in s {
      assert showId in multiset(r);
    }
  }

  /** Once present, the mandatory show stays, whatever show is drawn. */
  lemma MoveKeepsMandatory(s: seq<int>, showId: int, m: int)
    requires m in s
    ensures m in Move(s, showId, Some(m))
  {
    if m != showId {
      MoveTogglesOnlyShowId(s, showId, Some(m), m);
    }
  }

  /** Drawn ids come from `randint(0, len(artistas) - 1)`, so states built
      from valid ids stay valid. */
  lemma MoveKeepsRange(s: seq<int>, showId: int, mustHave: Option<int>)
    requires InRange(s, Artists) && 0 <= showId < Artists
    ensures InRange(Move(s, showId, mustHave), Artists)
  {
    var r := Move(s, showId, mustHave);
    if showId in s {
      if mustHave != Some(showId) {
        InRangeSub(s, r, Artists);
      }
    } else {
      InRangeSub(s + [showId], r, Artists);
    }
  }

  /** The tuple stays in canonical form: sorted with no repeated id. */
  lemma MoveKeepsCanonical(s: seq<int>, showId: int, mustHave: Option<int>)
    requires StrictlyIncreasing(s)
    ensures StrictlyIncreasing(Move(s, showId, mustHave))
  {
    if showId in s {
      if mustHave != Some(showId) {
        RemoveFirstNoDup(s, showId);
        SortCanonical(RemoveFirst(s, showId));
      }
    } else {
      SortCanonical(s + [showId]);
    }
  }

  /** Sorted lists with the same elements are identical. */
  lemma {:induction false} SortedUnique(a: seq<int>, b: seq<int>)
    requires Sorted(a) && Sorted(b) && multiset(a) == multiset(b)
    ensures a == b
  {
    if |a| > 0 {
      assert a == [a[0]] + a[1..];
      assert b == [b[0]] + b[1..];
      assert a[0] in multiset(b) && b[0] in multiset(a);
      assert a[0] == b[0];
      assert multiset(a[1..]) == multiset(a) - multiset{a[0]};
      assert multiset(b[1..]) == multiset(b) - multiset{b[0]};
      SortedUnique(a[1..], b[1..]);
    } else {
      assert |b| == |multiset(b)|;
    }
  }

  /** Drawing the same show twice undoes a move, unless the first draw added
      the mandatory show, which the second may not remove. */
  lemma MoveUndo(s: seq<int>, showId: int, mustHave: Option<int>)
    requires StrictlyIncreasing(s) && mustHave != Some(showId)
    ensures Move(Move(s, showId, mustHave), showId, mustHave) == s
  {
    var r := Move(s, showId, mustHave);
    var r2 := Move(r, showId, mustHave);
    MoveKeepsCanonical(s, showId, mustHave);
    MoveKeepsCanonical(r, showId, mustHave);
    MoveTogglesShowId(s, showId, mustHave);
    MoveTogglesShowId(r, showId, mustHave);
    forall x
      ensures x in r2 <==> x in s
    {
      if x != showId {
        MoveTogglesOnlyShowId(s, showId, mustHave, x);
        MoveTogglesOnlyShowId(r, showId, mustHave, x);
      }
    }
    NoDupSameMembers(r2, s);
    SortedUnique(r2, s);
  }

  /** The mandatory constraint, satisfied trivially when none is set. */
  predicate HasMandatory(s: seq<int>, mustHave: Option<int>) {
    mustHave.None? || mustHave.value in s
  }

  /** Total ticket price, `total_custo`. */
  function Cost(s: seq<int>): real
    requires InRange(s, Artists)
  {
    Sum(s, Prices)
  }

  /** Both constraints hold: the mandatory show is in and the budget is kept. */
  predicate Feasible(s: seq<int>, mustHave: Option<int>)
    requires InRange(s, Artists)
  {
    HasMandatory(s, mustHave) && Cost(s) <= Budget
  }

  /** `ShowProblem.energy`.  The mandatory check comes first and overrides the
      budget check; an overrun costs in proportion to its size; a feasible
      state scores minus a hundred per show plus its total taste.  Positive
      energy means exactly that the state is infeasible. */
  function Energy(s: seq<int>, mustHave: Option<int>): (e: real)
    requires InRange(s, Artists)
    ensures !HasMandatory(s, mustHave) ==> e == MissingMandatoryPenalty
    ensures HasMandatory(s, mustHave) && Cost(s) > Budget ==>
      e == (Cost(s) - Budget) * OverrunWeight
    ensures Feasible(s, mustHave) ==> e == -((ShowWeight * |s|) as real + Sum(s, Tastes))
    ensures e > 0.0 <==> !Feasible(s, mustHave)
  {
    if !HasMandatory(s, mustHave) then
      MissingMandatoryPenalty
    else
      var cost := Sum(s, Prices);
      var taste := Sum(s, Tastes);
      if cost > Budget then
        (cost - Budget) * OverrunWeight
      else
        SumNonNegative(s, Tastes);
        -((ShowWeight * |s|) as real + taste)
  }

  /** The minimiser can never prefer an infeasible state to a feasible one. */
  lemma FeasibleBeatsInfeasible(s: seq<int>, t: seq<int>, mustHave: Option<int>)
    requires InRange(s, Artists) && InRange(t, Artists)
    requires Feasible(s, mustHave) && !Feasible(t, mustHave)
    ensures Energy(s, mustHave) < Energy(t, mustHave)
  {
  }

  /** Energy sees only which shows are chosen, not the order of the tuple. */
  lemma EnergyOrderFree(s: seq<int>, t: seq<int>, mustHave: Option<int>)
    requires InRange(s, Artists) && InRange(t, Artists)
    requires multiset(s) == multiset(t)
    ensures Energy(s, mustHave) == Energy(t, mustHave)
  {
    SumPermutation(s, t, Prices);
    SumPermutation(s, t, Tastes);
    assert |s| == |multiset(s)| == |t|;
    if mustHave.Some? {
      assert mustHave.value in s <==> mustHave.value in multiset(t);
    }
  }

  /** For duplicate-free states energy is a function of the set of shows. */
  lemma EnergyOfSet(s: seq<int>, t: seq<int>, mustHave: Option<int>)
    requires InRange(s, Artists) && InRange(t, Artists)
    requires NoDup(s) && NoDup(t) && (forall x :: x in s <==> x in t)
    ensures Energy(s, mustHave) == Energy(t, mustHave)
  {
    NoDupSameMembers(s, t);
    EnergyOrderFree(s, t, mustHave);
  }

  /** The mandatory check overrides the budget check, so the penalties are
      not ordered by how far a state is from feasibility: with Taylor Swift
      (id 0) mandatory, five pricey shows without her score better than the
      same five with her. */
  lemma MissingMandatoryCanBeatOverrun()
    ensures Energy([1, 6, 7, 13, 14], Some(0)) == 1000000.0
    ensures Energy([0, 1, 6, 7, 13, 14], Some(0)) == 2700000.0
  {
    assert Sum([0, 1, 6, 7, 13, 14], Prices) == 5700.0;
  }
}
