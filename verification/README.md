# Simulated-annealing neighbour moves and energies, in Dafny

This project models the problem-specific logic of three simulated-annealing exercises. Each exercise is a subclass of `simanneal.Annealer` that supplies a `move` (propose a neighbouring state) and an `energy` (the score to minimise):

- `ShowProblem` (exercicio1.py) picks which of sixteen concerts to attend within a 3000 budget. It can be forced to include one mandatory show. A state is a sorted tuple of show ids.
- `TSPAnnealer` (exercicio2.py) looks for a short closed tour of twelve stadiums. The tour starts and ends at Mineirão (index 0). A state is the visiting order of the other eleven stadiums.
- `AnimeAnnealer` (exercicio3.py) picks anime series to watch within 300 hours. A state is a list of catalog indices.

Each in-place `move` becomes a pure function that returns the new state. Every random draw becomes a parameter:

- `show_id` for `ShowProblem.move`;
- `a` and `b` for `TSPAnnealer.move`;
- the action and two picks for `AnimeAnnealer.move`.

A `random.choice(xs)` is modelled as `Choice(xs, k) = xs[k % |xs|]`. `Lists.ChoiceCovers` proves that every element can be drawn this way.

Modules:

- `Lists`: the state invariants (`NoDup`, `InRange`), Python's `list.remove` (`RemoveFirst`), `[::-1]` (`Reverse`) and `random.choice` (`Choice`).
- `Tally`: totals of a per-item attribute over the ids of a state.
- `ShowProblem`, `TspAnnealer`, `AnimeAnnealer`: one module per exercise, with its data tables, `Move`, `Energy` and the lemmas about them.

Catalog numbers (prices, tastes, durations, interests) are Dafny `real`s. Reals are exact rationals, so they are not Python floats. Distances are integers, as in the source.

Two behaviours of the code that the model keeps as written:

- `TSPAnnealer.move` reverses the Python slice `[a:b]`, which leaves position `b` out (see Findings).
- In `AnimeAnnealer.move`, action 0 on an empty list falls through to the swap branch, which adds one anime (`AnimeAnnealer.MoveEmptyFallsThrough`).

## Model

| member | source | states |
|---|---|---|
| Lists.RemoveFirst | exercicio1.py:53 | `list.remove` removes exactly one occurrence: the length drops by one and the multiset loses one copy of the value |
| Lists.RemoveFirstAt | exercicio1.py:53 | `list.remove` deletes the first occurrence of the value and keeps the order of every other element |
| Lists.RemoveFirstNoDup | exercicio3.py:63-65 | on a duplicate-free list the removed value is absent afterwards and the list stays duplicate-free |
| Lists.RemoveFirstAppended | exercicio3.py:73 | removing the value just appended gives back the original list |
| Lists.Reverse | exercicio2.py:76 | `[::-1]` keeps the length and puts the element at `i` at position `len-1-i` |
| Lists.ReversePermutes | exercicio2.py:76 | reversal only reorders: the multiset of elements is unchanged |
| Lists.Choice | exercicio3.py:64 | a drawn element always comes from the list it was drawn from |
| Lists.ChoiceCovers | exercicio3.py:72 | every element of the list can be drawn by some value of the explicit draw |
| Lists.NoDupSameMembers | exercicio3.py:96-98 | two duplicate-free lists with the same members are permutations of each other |
| Tally.SumPermutation | exercicio3.py:96-98 | the accumulated totals do not depend on the order in which the state is visited |
| Tally.SumNonNegative | exercicio1.py:71-73 | totals of non-negative attributes are non-negative |
| Tally.Total | exercicio1.py:71-73 | the energy loop's running total, accumulated first to last from zero, equals `Tally.Sum`, which folds from the last id; `ShowProblem.Cost`, `AnimeAnnealer.Duration` and `AnimeAnnealer.Interest` are `Tally.Sum` over their tables |
| Tally.SumAppend | exercicio3.py:85 | appending an id adds exactly its weight to the total |
| ShowProblem.Sort | exercicio1.py:57 | `sorted` returns a non-decreasing permutation of its input |
| ShowProblem.SortCanonical | exercicio1.py:57 | sorting a duplicate-free list gives a strictly increasing tuple |
| ShowProblem.Move | exercicio1.py:41-57 | drawing the mandatory show while it is present leaves the state unchanged; otherwise the result is sorted and has one copy of `show_id` removed (if present) or added (if absent) |
| ShowProblem.MoveTogglesOnlyShowId | exercicio1.py:49-55 | every id other than `show_id` keeps its membership |
| ShowProblem.MoveTogglesShowId | exercicio1.py:49-55 | on a duplicate-free state, `show_id` is in the result if and only if it was absent before or it is the mandatory show |
| ShowProblem.MoveKeepsMandatory | exercicio1.py:49-52 | once the mandatory show is in the state, no move removes it |
| ShowProblem.MoveKeepsRange | exercicio1.py:44 | with `show_id` drawn from `[0, 16)`, every id stays a valid index into the artist tables |
| ShowProblem.MoveKeepsCanonical | exercicio1.py:49-57 | a strictly increasing tuple stays strictly increasing: an id is appended only when absent, and the result is re-sorted |
| ShowProblem.MoveUndo | exercicio1.py:49-57 | on a canonical state, drawing the same non-mandatory show twice restores the state |
| ShowProblem.Energy | exercicio1.py:59-89 | the missing-mandatory penalty 1 000 000 is checked first and overrides the budget check; a budget overrun costs 1000 per unit of excess; a feasible state scores -(100 per show + total taste); energy is positive if and only if the state is infeasible |
| ShowProblem.FeasibleBeatsInfeasible | exercicio1.py:65-89 | every feasible state has lower energy than every infeasible one |
| ShowProblem.EnergyOrderFree | exercicio1.py:71-73 | energy depends only on the multiset of ids, not on their order |
| ShowProblem.EnergyOfSet | exercicio1.py:71-73 | for duplicate-free states, energy depends only on the set of ids |
| ShowProblem.MissingMandatoryCanBeatOverrun | exercicio1.py:65-79 | because the mandatory check comes first, a state without the mandatory show can score better than the same state with it when the budget is far exceeded |
| TspAnnealer.DistKmIsDistanceTable | exercicio2.py:26-39 | `dist_km` is a 12 by 12 table that is symmetric, has a zero diagonal and has no negative entry |
| TspAnnealer.StadiumRouteValid | exercicio2.py:130-133 | a shuffle of stadiums 1..11 is a duplicate-free list of eleven valid indices that never names the start |
| TspAnnealer.ReverseSegment | exercicio2.py:76 | assigning the reversed slice back keeps the route's length and its multiset of stadiums |
| TspAnnealer.ReverseSegmentAt | exercicio2.py:76 | after the slice assignment, position `i` inside `[lo, hi)` holds the element from `lo+hi-1-i` and every position outside is unchanged |
| TspAnnealer.Move | exercicio2.py:59-76 | equal draws change nothing; otherwise, after ordering the draws, the half-open range between them is reversed and every other position is kept; length and multiset are preserved |
| TspAnnealer.MoveKeepsRoute | exercicio2.py:65-76 | a permutation of stadiums 1..11 stays a permutation of 1..11 |
| TspAnnealer.MoveUndo | exercicio2.py:68-76 | applying the same draws twice restores the route |
| TspAnnealer.MoveDrawOrder | exercicio2.py:68-70 | swapping the two draws gives the same move |
| TspAnnealer.Energy | exercicio2.py:78-99 | on a non-empty route, the closed tour length equals the leg from the start to the first city, plus the path along the route, plus the leg from the last city back to the start; it is non-negative when the table is |
| TspAnnealer.EnergyLoop | exercicio2.py:84-99 | the source's accumulation loop computes exactly the closed tour length |
| TspAnnealer.PathReverse | exercicio2.py:90-94 | on a symmetric table a path has the same length walked backwards |
| TspAnnealer.PathSegmentReversed | exercicio2.py:90-94 | on a symmetric table, walking the middle part of a path backwards changes only the two legs joining it to the rest |
| TspAnnealer.EnergyReverse | exercicio2.py:84-99 | on a symmetric table, a route and its reverse have the same tour length |
| TspAnnealer.SegmentReversalDelta | exercicio2.py:76 | 2-opt identity: reversing `[lo, hi)` changes the tour length only by the two legs at the segment's ends |
| TspAnnealer.MoveChangesTwoLegs | exercicio2.py:65-99 | the 2-opt identity for a drawn move, stated with the neighbouring cities of the reversed slice |
| TspAnnealer.MoveFixesLastCity | exercicio2.py:65-76 | no move changes the last city of the route |
| TspAnnealer.WalkFixesLastCity | exercicio2.py:65-76 | after any sequence of accepted moves, the last city is still the one the initial shuffle put last |
| TspAnnealer.MoveInclusive | exercicio2.py:75-76 | corrected move: reversing the closed range `[a, b]` keeps the route's length and multiset of stadiums |
| TspAnnealer.MoveInclusiveAt | exercicio2.py:75-76 | after the corrected move, position `i` inside `[min, max]` holds the element from `min+max-i`, and every other position is unchanged |
| TspAnnealer.MoveInclusiveUndo | exercicio2.py:75-76 | the corrected move applied twice with the same draws restores the route |
| TspAnnealer.MoveInclusiveChangesTwoLegs | exercicio2.py:75-99 | on a symmetric table the corrected move changes the tour length only in the leg into `min` and the leg out of `max`, which returns to the anchor when `max` is the last position |
| TspAnnealer.MoveInclusiveReachesEveryPosition | exercicio2.py:75-76 | with the closed range, every position of a duplicate-free route, the last one included, can be changed by some draw |
| AnimeAnnealer.AvailableFrom | exercicio3.py:70 | the list of indices from `k` up that the state lacks, with no repeats; it is empty when every index is taken |
| AnimeAnnealer.Available | exercicio3.py:70 | an index is available if and only if it is in `[0, 27)` and not in the state |
| AnimeAnnealer.Drop | exercicio3.py:64-65 | removal of a drawn element: one fewer element, one copy of it gone |
| AnimeAnnealer.DropAt | exercicio3.py:64-65 | the drawn anime is deleted at its first position and the other anime keep their order |
| AnimeAnnealer.Add | exercicio3.py:70-73 | when an index is free, exactly one previously absent index is appended; otherwise nothing changes |
| AnimeAnnealer.Move | exercicio3.py:54-85 | every move changes the length by at most one, and the add action never shrinks the list |
| AnimeAnnealer.DropKeepsValid | exercicio3.py:63-65 | removal keeps the state duplicate-free and in range, and removes the drawn anime entirely |
| AnimeAnnealer.AddKeepsValid | exercicio3.py:70-73 | adding keeps the state duplicate-free and in range |
| AnimeAnnealer.AddGrows | exercicio3.py:70-73 | when any catalog index is free, the add step appends exactly one anime |
| AnimeAnnealer.MoveKeepsValid | exercicio3.py:54-85 | every branch keeps both invariants: no duplicates, all indices in `[0, 27)` |
| AnimeAnnealer.MoveRemove | exercicio3.py:62-65 | the remove branch on a non-empty state drops the length by one and removes the drawn index and nothing else |
| AnimeAnnealer.MoveAdd | exercicio3.py:67-73 | when some index is free, the add branch appends one index that was absent, and the length grows by one |
| AnimeAnnealer.MoveAddAllChosen | exercicio3.py:71 | with all 27 indices present, the add branch is a no-op |
| AnimeAnnealer.MoveEmptyFallsThrough | exercicio3.py:62-85 | action 0 on an empty state is not a no-op: it is exactly the add step of the swap branch, and the state gains exactly one anime |
| AnimeAnnealer.MoveSwap | exercicio3.py:75-85 | on a non-empty state the swap keeps the length: the removed index is free again, so the add always succeeds |
| AnimeAnnealer.MoveRemoveLast | exercicio3.py:62-65 | drawing the last position for removal takes back the element that was just appended |
| AnimeAnnealer.AddThenRemoveRestores | exercicio3.py:62-73 | an add can be undone by a remove |
| AnimeAnnealer.Energy | exercicio3.py:87-107 | over 300 hours the energy is 1.0; otherwise it is minus the total interest; energy is positive if and only if the state is over capacity |
| AnimeAnnealer.FeasibleBeatsInfeasible | exercicio3.py:100-107 | every selection within capacity has lower energy than every selection over it |
| AnimeAnnealer.EnergyOrderFree | exercicio3.py:96-98 | energy does not depend on the order of the indices |
| AnimeAnnealer.EnergyOfSet | exercicio3.py:96-98 | for valid states, energy depends only on the set of chosen anime |
| AnimeAnnealer.SwapTotals | exercicio3.py:75-98 | a swap changes total duration and total interest only by the anime taken out and the anime put in |

## Findings

| source | as written | input that shows it | evidently intended | confidence | as-written member | corrected member |
|---|---|---|---|---|---|---|
| exercicio2.py:65-76 | both draws are at most `len(state) - 1`, and the reversed slice `state[a:b]` stops before `b`, so the last position is never inside a reversed range | any route, for example `[1, 2, ..., 11]`: every move keeps city 11 last, so only tours that return to Mineirão from the initially-last stadium are ever explored | a 2-opt move that reverses the closed segment from `a` to `b`, so every position can move | medium, not executed | TspAnnealer.WalkFixesLastCity | TspAnnealer.MoveInclusiveReachesEveryPosition |

The corrected move reverses the segment `[min, max + 1)`. `TspAnnealer.SegmentReversalDelta` covers both moves; `TspAnnealer.MoveInclusiveChangesTwoLegs` and `TspAnnealer.MoveInclusiveUndo` restate the 2-opt identity and the self-inverse property for the corrected move.

## Left out

- The `simanneal.Annealer` engine is not modelled: `anneal`, `auto`, `run`, the Metropolis acceptance rule, the temperature schedule, calibration and progress reports. It is a foreign library whose source is not part of this model. `TspAnnealer.Walk` only describes the states reachable through accepted moves.
- The `random` module (`randint`, `choice`, `shuffle`) is not modelled. Each draw is a parameter. A `randint` range becomes a `requires`, and a `choice` becomes an index taken modulo the list length.
- `print_solution` and the module-level driver code are not modelled. They are output and presentation only.
- Floating point is not modelled. For `ShowProblem` this changes nothing: prices are integers and tastes are multiples of 0.5, so Python's float sums of them are exact. Anime durations and interests (exercicio3.py:96-103) are decimal fractions that floats only approximate, so a total within rounding error of the 300-hour capacity may compare differently from Python's float sum.
- ShowProblem.Energy: requires every id to be a valid index. Python would also accept negative ids through wrap-around indexing, but moves never produce them (`ShowProblem.MoveKeepsRange`).
- AnimeAnnealer.Energy: requires every index to be valid, for the same reason. Moves never produce invalid ones (`AnimeAnnealer.MoveKeepsValid`).
- TspAnnealer.Energy: requires valid stadium indices, a non-empty route and a square table. Moves keep a stadium route (`TspAnnealer.MoveKeepsRoute`). On an empty route the source raises `IndexError` when it reads `state[0]`.
- TspAnnealer.Move: requires both draws in `[0, len(route))`, the range `randint` produces. On an empty route the source's `randint(0, -1)` raises `ValueError`.
- `TspAnnealer.Edge` reads zero outside the table. This keeps the path lemmas free of range conditions. Every leg that `Energy` measures lies inside the table.
- `ShowProblem.Move` compares `show_id` with `must_have_show_id` by value, as the source does. The range of the mandatory id itself is not constrained.
