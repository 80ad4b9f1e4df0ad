/** `AnimeAnnealer` (exercicio3.py): choose which anime series to watch in a
    month of evenings, maximising total interest within the hours available.
    A state is the list of chosen catalog indices, in insertion order. */
module AnimeAnnealer {
  import opened Lists
  import opened Tally

  /** `len(animes_data)`. */
  const Animes := 27

  /** The `duracao` column of `animes_data`, in hours. */
  const Durations: seq<real> := [
    25.07, 14.49, 10.18, 11.68, 9.80, 19.58, 57.97, 28.98, 10.18,
    10.57, 9.40, 4.70, 8.62, 9.79, 7.82, 6.27, 11.36, 9.79,
    10.18, 17.23, 2.35, 4.31, 3.92, 14.49, 86.17, 36.82, 8.62
  ]

  /** The `interesse` column of `animes_data`. */
  const Interests: seq<real> := [
    9.6, 9.2, 8.8, 9.0, 9.3, 9.1, 9.4, 9.0, 8.7,
    8.9, 8.5, 8.4, 8.6, 8.3, 8.8, 8.2, 8.1, 8.7,
    8.4, 8.8, 7.9, 8.5, 8.0, 9.0, 8.0, 9.3, 8.4
  ]

  /** `CAPACIDADE_HORAS`: thirty days of ten hours. */
  const CapacityHours: real := 300.0

  /** The fixed energy of every state over capacity. */
  const OverCapacityEnergy: real := 1.0

  /** The state invariant every move keeps: no anime twice, every index in
      the catalog. */
  predicate Valid(s: seq<int>) {
    NoDup(s) && InRange(s, Animes)
  }

  /** Catalog indices from `k` up that the state does not hold, ascending. */
  function AvailableFrom(k: nat, s: seq<int>): (r: seq<int>)
    ensures forall x :: x in r <==> k <= x < Animes && x !in s
    ensures forall i :: 0 <= i < |r| ==> k <= r[i]
    ensures NoDup(r)
    ensures (forall x :: k <= x < Animes ==> x in s) ==> r == []
    decreases Animes - k
  {
    if k >= Animes then []
    else if k in s then AvailableFrom(k + 1, s)
    else [k] + AvailableFrom(k + 1, s)
  }

  /** `[i for i in range(len(animes_data)) if i not in self.state]`. */
  function Available(s: seq<int>): (r: seq<int>)
    ensures forall x :: x in r <==> 0 <= x < Animes && x !in s
    ensures (forall x :: 0 <= x < Animes ==> x in s) ==> r == []
  {
    AvailableFrom(0, s)
  }

  /** Remove one anime drawn by `random.choice(self.state)`. */
  function Drop(s: seq<int>, pick: nat): (r: seq<int>)
    requires |s| > 0
    ensures |r| == |s| - 1
    ensures multiset(r) == multiset(s) - multiset{Choice(s, pick)}
  {
    RemoveFirst(s, Choice(s, pick))
  }

  /** The drawn anime leaves from its first position; the others keep
      their order. */
  lemma DropAt(s: seq<int>, pick: nat, i: int)
    requires 0 <= i < |s| && s[i] == Choice(s, pick) && Choice(s, pick) !in s[..i]
    ensures Drop(s, pick) == s[..i] + s[i + 1..]
  {
    RemoveFirstAt(s, Choice(s, pick), i);
  }

  /** Append one anime drawn by `random.choice` from those not yet chosen;
      nothing happens when every anime is already chosen. */
  function Add(s: seq<int>, pick: nat): (r: seq<int>)
    ensures |Available(s)| == 0 ==> r == s
    ensures |Available(s)| > 0 ==>
      r == s + [Choice(Available(s), pick)] && Choice(Available(s), pick) !in s
  {
    var free := Available(s);
    if |free| > 0 then s + [Choice(free, pick)] else s
  }

  /** `AnimeAnnealer.move` with the three random draws as parameters:
      `action` from `randint(0, 2)`, then the picks of the two
      `random.choice` calls.  Action 0 on an empty list does not stop: it
      falls through the `elif` to the swap branch. */
  function Move(s: seq<int>, action: int, removePick: nat, addPick: nat): (r: seq<int>)
    ensures |s| - 1 <= |r| <= |s| + 1
    ensures action == 1 ==> |r| >= |s|
  {
    if action == 0 && |s| > 0 then
      Drop(s, removePick)
    else if action == 1 then
      Add(s, addPick)
    else
      Add(if |s| > 0 then Drop(s, removePick) else s, addPick)
  }

  /** Removing keeps the invariant, and the removed anime is gone. */
  lemma DropKeepsValid(s: seq<int>, pick: nat)
    requires Valid(s) && |s| > 0
    ensures Valid(Drop(s, pick)) && Choice(s, pick) !in Drop(s, pick)
    ensures forall y :: y in Drop(s, pick) <==> y in s && y != Choice(s, pick)
  {
    var x := Choice(s, pick);
    RemoveFirstNoDup(s, x);
    InRangeSub(s, Drop(s, pick), Animes);
    forall y | y != x
      ensures y in Drop(s, pick) <==> y in s
    {
      RemoveFirstMembers(s, x, y);
    }
  }

  /** With any catalog index free, adding appends exactly one anime. */
  lemma AddGrows(s: seq<int>, pick: nat, x: int)
    requires 0 <= x < Animes && x !in s
    ensures |Add(s, pick)| == |s| + 1
  {
    assert x in Available(s);
  }

  /** Adding keeps the invariant: only an absent catalog index is appended. */
  lemma AddKeepsValid(s: seq<int>, pick: nat)
    requires Valid(s)
    ensures Valid(Add(s, pick))
  {
  }

  /** Every move keeps the state duplicate-free and inside the catalog. */
  lemma MoveKeepsValid(s: seq<int>, action: int, removePick: nat, addPick: nat)
    requires Valid(s)
    ensures Valid(Move(s, action, removePick, addPick))
  {
    if action == 0 && |s| > 0 {
      DropKeepsValid(s, removePick);
    } else if action == 1 || |s| == 0 {
      AddKeepsValid(s, addPick);
    } else {
      DropKeepsValid(s, removePick);
      AddKeepsValid(Drop(s, removePick), addPick);
    }
  }

  /** Remove branch: one fewer anime, and the drawn one is no longer there. */
  lemma MoveRemove(s: seq<int>, removePick: nat, addPick: nat)
    requires Valid(s) && |s| > 0
    ensures var r := Move(s, 0, removePick, addPick);
      |r| == |s| - 1 && Choice(s, removePick) !in r
      && forall y :: y in r <==> y in s && y != Choice(s, removePick)
  {
    DropKeepsValid(s, removePick);
  }

  /** Add branch: one more anime, one not chosen before, when any is left. */
  lemma MoveAdd(s: seq<int>, removePick: nat, addPick: nat, x: int)
    requires 0 <= x < Animes && x !in s
    ensures var r := Move(s, 1, removePick, addPick);
      |r| == |s| + 1 && r[..|s|] == s && r[|s|] !in s && 0 <= r[|s|] < Animes
  {
    assert x in Available(s);
    var r := Add(s, addPick);
    assert r == s + [Choice(Available(s), addPick)];
    assert r[..|s|] == s;
  }

  /** Add branch once all 27 anime are chosen: nothing changes. */
  lemma MoveAddAllChosen(s: seq<int>, removePick: nat, addPick: nat)
    requires forall x :: 0 <= x < Animes ==> x in s
    ensures Move(s, 1, removePick, addPick) == s
  {
  }

  /** Action 0 on an empty list runs the swap branch, which has nothing to
      remove but does add: the list gains exactly one anime. */
  lemma MoveEmptyFallsThrough(s: seq<int>, removePick: nat, addPick: nat)
    requires |s| == 0
    ensures Move(s, 0, removePick, addPick) == Add(s, addPick)
    ensures |Move(s, 0, removePick, addPick)| == |s| + 1
  {
    var r := Move(s, 0, removePick, addPick);
    assert r == Add(s, addPick) by {}
    AddGrows(s, addPick, 0);
  }

  /** Swap branch on a non-empty list: the length is kept, because the anime
      just removed is free again, so the add always finds a candidate. */
  lemma MoveSwap(s: seq<int>, removePick: nat, addPick: nat)
    requires Valid(s) && |s| > 0
    ensures var r := Move(s, 2, removePick, addPick);
      |r| == |s| && r[..|s| - 1] == Drop(s, removePick) && r[|s| - 1] !in Drop(s, removePick)
  {
    var kept := Drop(s, removePick);
    DropKeepsValid(s, removePick);
    assert Choice(s, removePick) in Available(kept);
    var r := Add(kept, addPick);
    assert r[..|s| - 1] == kept;
  }

  /** Drawing the last position for removal takes back what was appended. */
  lemma MoveRemoveLast(s: seq<int>, addPick: nat, y: int)
    requires y !in s
    ensures Move(s + [y], 0, |s|, addPick) == s
  {
    var added := s + [y];
    assert Choice(added, |s|) == y;
    RemoveFirstAppended(s, y);
    assert Move(added, 0, |s|, addPick) == Drop(added, |s|);
  }

  /** An add can be undone: removing the last element, which the add just
      appended, restores the previous list. */
  lemma AddThenRemoveRestores(s: seq<int>, removePick: nat, addPick: nat, x: int)
    requires 0 <= x < Animes && x !in s
    ensures var added := Move(s, 1, removePick, addPick);
      |added| == |s| + 1 && Move(added, 0, |s|, addPick) == s
  {
    assert x in Available(s);
    var y := Choice(Available(s), addPick);
    assert Move(s, 1, removePick, addPick) == s + [y];
    MoveRemoveLast(s, addPick, y);
  }

  /** Total viewing time, `total_duracao`. */
  function Duration(s: seq<int>): real
    requires InRange(s, Animes)
  {
    Sum(s, Durations)
  }

  /** Total interest, `total_interesse`. */
  function Interest(s: seq<int>): real
    requires InRange(s, Animes)
  {
    Sum(s, Interests)
  }

  /** The selection fits in the hours available. */
  predicate Feasible(s: seq<int>)
    requires InRange(s, Animes)
  {
    Duration(s) <= CapacityHours
  }

  /** `AnimeAnnealer.energy`: a fixed `1.0` over capacity, minus the total
      interest otherwise, so positive energy means exactly an overrun. */
  function Energy(s: seq<int>): (e: real)
    requires InRange(s, Animes)
    ensures !Feasible(s) ==> e == OverCapacityEnergy
    ensures Feasible(s) ==> e == -Interest(s)
    ensures e > 0.0 <==> !Feasible(s)
  {
    var duration := Sum(s, Durations);
    var interest := Sum(s, Interests);
    if duration > CapacityHours then
      OverCapacityEnergy
    else
      SumNonNegative(s, Interests);
      -interest
  }

  /** The minimiser can never prefer an over-capacity selection. */
  lemma FeasibleBeatsInfeasible(s: seq<int>, t: seq<int>)
    requires InRange(s, Animes) && InRange(t, Animes)
    requires Feasible(s) && !Feasible(t)
    ensures Energy(s) < Energy(t)
  {
  }

  /** Energy sees only which anime are chosen, not their order. */
  lemma EnergyOrderFree(s: seq<int>, t: seq<int>)
    requires InRange(s, Animes) && InRange(t, Animes)
    requires multiset(s) == multiset(t)
    ensures Energy(s) == Energy(t)
  {
    SumPermutation(s, t, Durations);
    SumPermutation(s, t, Interests);
  }

  /** For valid states energy is a function of the set of anime chosen. */
  lemma EnergyOfSet(s: seq<int>, t: seq<int>)
    requires Valid(s) && Valid(t) && (forall x :: x in s <==> x in t)
    ensures Energy(s) == Energy(t)
  {
    NoDupSameMembers(s, t);
    EnergyOrderFree(s, t);
  }

  /** A swap changes both totals only by the anime taken out and the one
      put in; redrawing the anime just removed leaves them as they were. */
  lemma SwapTotals(s: seq<int>, removePick: nat, addPick: nat)
    requires Valid(s) && |s| > 0
    ensures var r := Move(s, 2, removePick, addPick);
      var out := Choice(s, removePick);
      |r| == |s| && InRange(r, Animes)
      && Duration(r) == Duration(s) - Durations[out] + Durations[r[|s| - 1]]
      && Interest(r) == Interest(s) - Interests[out] + Interests[r[|s| - 1]]
  {
    var r := Move(s, 2, removePick, addPick);
    var out := Choice(s, removePick);
    var kept := Drop(s, removePick);
    MoveSwap(s, removePick, addPick);
    MoveKeepsValid(s, 2, removePick, addPick);
    assert r == kept + [r[|s| - 1]];
    SumRemoveFirst(s, Durations, out);
    SumRemoveFirst(s, Interests, out);
    SumAppend(kept, Durations, r[|s| - 1]);
    SumAppend(kept, Interests, r[|s| - 1]);
  }
}
