/** `TSPAnnealer` (exercicio2.py): the shortest closed tour from Mineirão
    through the eleven other World Cup stadiums.  A state is the visiting
    order of the other stadiums; the anchor is implicit at both ends. */
module TspAnnealer {
  import opened Lists

  /** `len(stadiums)`. */
  const Stadiums := 12

  /** `start_idx`: Mineirão, where the tour starts and ends. */
  const StartIdx := 0

  /** `dist_km`, road distance in km between stadiums. */
  const DistKm: seq<seq<int>> := [
    [0, 434, 629, 770, 1686, 1032, 1202, 2351, 2039, 2640, 1714, 822],
    [434, 0, 456, 1165, 1406, 844, 1515, 2730, 2340, 3074, 1971, 1166],
    [629, 456, 0, 1098, 1059, 412, 1830, 2962, 2666, 3098, 1658, 1014],
    [770, 1165, 1098, 0, 2030, 1355, 1324, 2101, 2056, 2004, 1100, 219],
    [1686, 1406, 1059, 2030, 0, 685, 2885, 4014, 3720, 4004, 2105, 1875],
    [1032, 844, 412, 1355, 685, 0, 2234, 3332, 3070, 3348, 1632, 1216],
    [1202, 1515, 1830, 1324, 2885, 2234, 0, 1275, 836, 2115, 2400, 1531],
    [2351, 2730, 2962, 2101, 4014, 3332, 1275, 0, 762, 1419, 2911, 2312],
    [2039, 2340, 2666, 2056, 3720, 3070, 836, 762, 0, 2078, 3056, 2274],
    [2640, 3074, 3098, 2004, 4004, 3348, 2115, 1419, 2078, 0, 2240, 2132],
    [1714, 1971, 1658, 1100, 2105, 1632, 2400, 2911, 3056, 2240, 0, 932],
    [822, 1166, 1014, 219, 1875, 1216, 1531, 2312, 2274, 2132, 932, 0]
  ]

  /** A square distance table. */
  predicate IsMatrix(d: seq<seq<int>>) {
    forall i :: 0 <= i < |d| ==> |d[i]| == |d|
  }

  predicate Symmetric(d: seq<seq<int>>)
    requires IsMatrix(d)
  {
    forall i, j :: 0 <= i < |d| && 0 <= j < |d| ==> d[i][j] == d[j][i]
  }

  predicate ZeroDiagonal(d: seq<seq<int>>)
    requires IsMatrix(d)
  {
    forall i :: 0 <= i < |d| ==> d[i][i] == 0
  }

  predicate NonNegativeTable(d: seq<seq<int>>)
    requires IsMatrix(d)
  {
    forall i, j :: 0 <= i < |d| && 0 <= j < |d| ==> d[i][j] >= 0
  }

  /** The stadium table is a proper 12 by 12 distance table. */
  lemma DistKmIsDistanceTable()
    ensures IsMatrix(DistKm) && |DistKm| == Stadiums
    ensures Symmetric(DistKm) && ZeroDiagonal(DistKm) && NonNegativeTable(DistKm)
  {
    DistKmIsSquare();
    DistKmSymmetric();
    DistKmNonNegative();
    forall i | 0 <= i < Stadiums
      ensures DistKm[i][i] == 0
    {
      DistKmDiagonal(i);
    }
  }

  lemma DistKmSymmetric()
    ensures IsMatrix(DistKm) && Symmetric(DistKm)
  {
    DistKmIsSquare();
    forall i, j | 0 <= i < Stadiums && 0 <= j < Stadiums
      ensures DistKm[i][j] == DistKm[j][i]
    {
      DistKmRow(i, j);
    }
  }

  lemma DistKmNonNegative()
    ensures IsMatrix(DistKm) && NonNegativeTable(DistKm)
  {
    DistKmIsSquare();
    forall i | 0 <= i < Stadiums
      ensures forall j :: 0 <= j < Stadiums ==> DistKm[i][j] >= 0
    {
      DistKmRowNonNegative(i);
    }
  }

  lemma DistKmIsSquare()
    ensures IsMatrix(DistKm) && |DistKm| == Stadiums
  {
    forall i | 0 <= i < Stadiums
      ensures |DistKm[i]| == Stadiums
    {
      assert i in {0, 1, 2, 3, 4, 5, 6, 7, 8, 9, 10, 11};
    }
  }

  lemma DistKmDiagonal(i: int)
    requires 0 <= i < Stadiums
    ensures DistKm[i][i] == 0
  {
    assert i in {0, 1, 2, 3, 4, 5, 6, 7, 8, 9, 10, 11};
  }

  /** One entry of the stadium table against its mirror entry. */
  lemma DistKmRow(i: int, j: int)
    requires 0 <= i < Stadiums && 0 <= j < Stadiums
    ensures DistKm[i][j] == DistKm[j][i]
  {
    assert j in {0, 1, 2, 3, 4, 5, 6, 7, 8, 9, 10, 11};
    if i == 0 {} else if i == 1 {} else if i == 2 {} else if i == 3 {}
    else if i == 4 {} else if i == 5 {} else if i == 6 {} else if i == 7 {}
    else if i == 8 {} else if i == 9 {} else if i == 10 {} else {}
  }

  /** No distance in one row of the stadium table is negative. */
  lemma DistKmRowNonNegative(i: int)
    requires 0 <= i < Stadiums
    ensures forall j :: 0 <= j < Stadiums ==> DistKm[i][j] >= 0
  {
    assert i in {0, 1, 2, 3, 4, 5, 6, 7, 8, 9, 10, 11};
  }

  /** The initial route `list(range(1, len(stadiums)))`, later shuffled. */
  function OtherStadiums(): (r: seq<int>)
    ensures |r| == Stadiums - 1
  {
    seq(Stadiums - 1, i => i + 1)
  }

  /** A route visits every stadium but the anchor exactly once. */
  predicate IsStadiumRoute(route: seq<int>) {
    multiset(route) == multiset(OtherStadiums())
  }

  /** A stadium route is a valid index list that never names the anchor. */
  lemma StadiumRouteValid(route: seq<int>)
    requires IsStadiumRoute(route)
    ensures |route| == Stadiums - 1 && InRange(route, Stadiums) && NoDup(route)
    ensures StartIdx !in route
  {
    var o := OtherStadiums();
    assert |route| == |multiset(route)| == |o|;
    assert InRange(o, Stadiums);
    InRangeSub(o, route, Stadiums);
    assert NoDup(o);
    PermutationNoDup(o, route);
    assert StartIdx !in multiset(o);
  }

  function Min(a: int, b: int): int { if a <= b then a else b }
  function Max(a: int, b: int): int { if a <= b then b else a }

  /** `s[lo:hi] = s[lo:hi][::-1]`: reverse the half-open segment [lo, hi)
      of `s` and keep the other positions, so the route is only reordered. */
  function ReverseSegment(s: seq<int>, lo: int, hi: int): (r: seq<int>)
    requires 0 <= lo <= hi <= |s|
    ensures |r| == |s|
    ensures multiset(r) == multiset(s)
  {
    ReverseSegmentPermutes(s, lo, hi);
    s[..lo] + Reverse(s[lo..hi]) + s[hi..]
  }

  /** Position `i` after reversing [lo, hi): mirrored inside the segment,
      unchanged outside it. */
  lemma ReverseSegmentAt(s: seq<int>, lo: int, hi: int, i: int)
    requires 0 <= lo <= hi <= |s| && 0 <= i < |s|
    ensures ReverseSegment(s, lo, hi)[i] == if lo <= i < hi then s[lo + hi - 1 - i] else s[i]
  {
    var m := Reverse(s[lo..hi]);
    var r := s[..lo] + m + s[hi..];
    assert ReverseSegment(s, lo, hi) == r;
    if i < lo {
      assert r[i] == s[..lo][i];
    } else if i < hi {
      assert r[i] == m[i - lo];
    } else {
      assert r[i] == s[hi..][i - hi];
    }
  }

  lemma ReverseSegmentPermutes(s: seq<int>, lo: int, hi: int)
    requires 0 <= lo <= hi <= |s|
    ensures multiset(s[..lo] + Reverse(s[lo..hi]) + s[hi..]) == multiset(s)
  {
    var head, mid, tail := s[..lo], s[lo..hi], s[hi..];
    ReversePermutes(mid);
    assert multiset(s) == multiset(head) + multiset(mid) + multiset(tail) by {
      assert s == head + mid + tail;
    }
    assert multiset(head + Reverse(mid) + tail) == multiset(head) + multiset(Reverse(mid)) + multiset(tail);
  }

  /** `TSPAnnealer.move` with the two `randint` draws as parameters: order
      them, do nothing when they coincide, else reverse the slice [a, b),
      which leaves position b itself in place. */
  function Move(route: seq<int>, a: int, b: int): (r: seq<int>)
    requires 0 <= a < |route| && 0 <= b < |route|
    ensures a == b ==> r == route
    ensures |r| == |route| && multiset(r) == multiset(route)
    ensures forall i :: 0 <= i < |route| ==>
      r[i] == if Min(a, b) <= i < Max(a, b) then route[Min(a, b) + Max(a, b) - 1 - i] else route[i]
  {
    if a > b then
      forall i | 0 <= i < |route| {
        ReverseSegmentAt(route, b, a, i);
      }
      ReverseSegment(route, b, a)
    else if a == b then
      route
    else
      forall i | 0 <= i < |route| {
        ReverseSegmentAt(route, a, b, i);
      }
      ReverseSegment(route, a, b)
  }

  /** A move keeps a permutation of the eleven stadiums a permutation. */
  lemma MoveKeepsRoute(route: seq<int>, a: int, b: int)
    requires 0 <= a < |route| && 0 <= b < |route| && IsStadiumRoute(route)
    ensures IsStadiumRoute(Move(route, a, b))
  {
  }

  /** Reversing the same segment twice restores the sequence. */
  lemma ReverseSegmentTwice(s: seq<int>, lo: int, hi: int)
    requires 0 <= lo <= hi <= |s|
    ensures ReverseSegment(ReverseSegment(s, lo, hi), lo, hi) == s
  {
    var r := ReverseSegment(s, lo, hi);
    var back := ReverseSegment(r, lo, hi);
    forall i | 0 <= i < |s|
      ensures back[i] == s[i]
    {
      ReverseSegmentAt(r, lo, hi, i);
      if lo <= i < hi {
        ReverseSegmentAt(s, lo, hi, lo + hi - 1 - i);
      } else {
        ReverseSegmentAt(s, lo, hi, i);
      }
    }
  }

  /** The same draw applied twice restores the route. */
  lemma MoveUndo(route: seq<int>, a: int, b: int)
    requires 0 <= a < |route| && 0 <= b < |route|
    ensures Move(Move(route, a, b), a, b) == route
  {
    if a != b {
      var lo, hi := Min(a, b), Max(a, b);
      ReverseSegmentTwice(route, lo, hi);
      assert Move(route, a, b) == ReverseSegment(route, lo, hi);
      assert Move(Move(route, a, b), a, b) == ReverseSegment(Move(route, a, b), lo, hi);
    }
  }

  /** The order of the two draws does not matter. */
  lemma MoveDrawOrder(route: seq<int>, a: int, b: int)
    requires 0 <= a < |route| && 0 <= b < |route|
    ensures Move(route, a, b) == Move(route, b, a)
  {
  }

  /** One leg of a path.  Every leg the model measures is inside the
      table; outside it the leg counts zero, which keeps the path algebra
      below free of range side conditions. */
  function Edge(d: seq<seq<int>>, x: int, y: int): int {
    if 0 <= x < |d| && 0 <= y < |d[x]| then d[x][y] else 0
  }

  /** Length of the open path visiting `c` in order. */
  function PathLength(d: seq<seq<int>>, c: seq<int>): int {
    if |c| < 2 then 0 else Edge(d, c[0], c[1]) + PathLength(d, c[1..])
  }

  /** Extending a path by one stop adds the leg to it. */
  lemma {:induction false} PathSnoc(d: seq<seq<int>>, c: seq<int>, x: int)
    requires |c| > 0
    ensures PathLength(d, c + [x]) == PathLength(d, c) + Edge(d, c[|c| - 1], x)
  {
    if |c| > 1 {
      assert (c + [x])[1..] == c[1..] + [x];
      PathSnoc(d, c[1..], x);
    }
  }

  /** Joining two paths adds the leg between them. */
  lemma {:induction false} PathConcat(d: seq<seq<int>>, p: seq<int>, q: seq<int>)
    requires |p| > 0 && |q| > 0
    ensures PathLength(d, p + q) == PathLength(d, p) + Edge(d, p[|p| - 1], q[0]) + PathLength(d, q)
  {
    if |p| > 1 {
      assert (p + q)[1..] == p[1..] + q;
      PathConcat(d, p[1..], q);
    }
  }

  lemma {:induction false} PathNonNegative(d: seq<seq<int>>, c: seq<int>)
    requires IsMatrix(d)
    ensures NonNegativeTable(d) ==> PathLength(d, c) >= 0
  {
    if |c| >= 2 {
      PathNonNegative(d, c[1..]);
    }
  }

  /** On a symmetric table a path is as long walked backwards. */
  lemma {:induction false} PathReverse(d: seq<seq<int>>, c: seq<int>)
    requires IsMatrix(d) && Symmetric(d)
    ensures PathLength(d, Reverse(c)) == PathLength(d, c)
  {
    if |c| >= 2 {
      PathReverse(d, c[1..]);
      PathSnoc(d, Reverse(c[1..]), c[0]);
    }
  }

  /** The closed tour: anchor, route, anchor again. */
  function Tour(start: int, route: seq<int>): seq<int> {
    [start] + route + [start]
  }

  /** `TSPAnnealer.energy`: the length of the closed tour.  The source needs
      a non-empty route (it reads `state[0]`). */
  function Energy(d: seq<seq<int>>, start: int, route: seq<int>): (e: int)
    requires IsMatrix(d) && 0 <= start < |d| && InRange(route, |d|) && |route| > 0
    ensures e == d[start][route[0]] + PathLength(d, route) + d[route[|route| - 1]][start]
    ensures NonNegativeTable(d) ==> e >= 0
  {
    PathConcat(d, [start], route);
    PathSnoc(d, [start] + route, start);
    PathNonNegative(d, Tour(start, route));
    PathLength(d, Tour(start, route))
  }

  /** The accumulation loop of `TSPAnnealer.energy`, edge by edge from the
      anchor, computes the closed tour length. */
  method EnergyLoop(d: seq<seq<int>>, start: int, route: seq<int>) returns (distance: int)
    requires IsMatrix(d) && 0 <= start < |d| && InRange(route, |d|) && |route| > 0
    ensures distance == Energy(d, start, route)
  {
    distance := d[start][route[0]];
    var i := 0;
    while i < |route| - 1
      invariant 0 <= i <= |route| - 1
      invariant distance == d[start][route[0]] + PathLength(d, route[..i + 1])
    {
      assert route[..i + 2] == route[..i + 1] + [route[i + 1]];
      PathSnoc(d, route[..i + 1], route[i + 1]);
      distance := distance + d[route[i]][route[i + 1]];
      i := i + 1;
    }
    assert route[..i + 1] == route;
    distance := distance + d[route[|route| - 1]][start];
  }

  /** Stop `i` of the closed tour: the anchor at both ends, the route between. */
  lemma TourAt(start: int, route: seq<int>, i: int)
    requires 0 <= i < |route| + 2
    ensures Tour(start, route)[i] == if i == 0 || i == |route| + 1 then start else route[i - 1]
  {
  }

  /** On a symmetric table the tour is as long in either direction. */
  lemma EnergyReverse(d: seq<seq<int>>, start: int, route: seq<int>)
    requires IsMatrix(d) && 0 <= start < |d| && InRange(route, |d|) && |route| > 0
    requires Symmetric(d)
    ensures InRange(Reverse(route), |d|)
    ensures Energy(d, start, Reverse(route)) == Energy(d, start, route)
  {
    ReversePermutes(route);
    InRangeSub(route, Reverse(route), |d|);
    PathReverse(d, Tour(start, route));
    ReverseTour(start, route);
    assert Energy(d, start, route) == PathLength(d, Tour(start, route));
    assert Energy(d, start, Reverse(route)) == PathLength(d, Tour(start, Reverse(route)));
  }

  /** The closed tour walked backwards is the tour of the reversed route. */
  lemma ReverseTour(start: int, route: seq<int>)
    ensures Reverse(Tour(start, route)) == Tour(start, Reverse(route))
  {
    var t := Tour(start, route);
    var u := Tour(start, Reverse(route));
    forall i | 0 <= i < |t|
      ensures Reverse(t)[i] == u[i]
    {
      if 0 < i < |t| - 1 {
        assert u[i] == Reverse(route)[i - 1];
      }
    }
  }

  /** A path cut in three: the parts plus the two joining legs. */
  lemma PathThreeParts(d: seq<seq<int>>, h: seq<int>, m: seq<int>, t: seq<int>)
    requires |h| > 0 && |m| > 0 && |t| > 0
    ensures PathLength(d, h + m + t)
            == PathLength(d, h) + Edge(d, h[|h| - 1], m[0]) + PathLength(d, m)
               + Edge(d, m[|m| - 1], t[0]) + PathLength(d, t)
  {
    PathConcat(d, h, m);
    PathConcat(d, h + m, t);
  }

  /** On a symmetric table, walking the middle part of a path backwards
      changes only the two legs that join it to the rest. */
  lemma PathSegmentReversed(d: seq<seq<int>>, h: seq<int>, m: seq<int>, t: seq<int>)
    requires IsMatrix(d) && Symmetric(d)
    requires |h| > 0 && |m| > 0 && |t| > 0
    ensures PathLength(d, h + Reverse(m) + t)
            == PathLength(d, h + m + t)
               - Edge(d, h[|h| - 1], m[0]) - Edge(d, m[|m| - 1], t[0])
               + Edge(d, h[|h| - 1], m[|m| - 1]) + Edge(d, m[0], t[0])
  {
    PathReverse(d, m);
    PathThreeParts(d, h, m, t);
    PathThreeParts(d, h, Reverse(m), t);
  }

  /** The closed tour around a reversed segment, cut at the segment. */
  lemma TourAroundSegment(start: int, s: seq<int>, lo: int, hi: int)
    requires 0 <= lo < hi <= |s|
    ensures Tour(start, s) == ([start] + s[..lo]) + s[lo..hi] + (s[hi..] + [start])
    ensures Tour(start, ReverseSegment(s, lo, hi))
            == ([start] + s[..lo]) + Reverse(s[lo..hi]) + (s[hi..] + [start])
  {
    assert s == s[..lo] + s[lo..hi] + s[hi..];
  }

  /** The 2-opt identity: on a symmetric table, reversing the segment
      [lo, hi) changes only the two tour legs at its ends. */
  lemma SegmentReversalDelta(d: seq<seq<int>>, start: int, s: seq<int>, lo: int, hi: int)
    requires IsMatrix(d) && 0 <= start < |d| && InRange(s, |d|) && Symmetric(d)
    requires 0 <= lo < hi <= |s|
    ensures InRange(ReverseSegment(s, lo, hi), |d|)
    ensures
      var before := Tour(start, s)[lo];
      var after := Tour(start, s)[hi + 1];
      Energy(d, start, ReverseSegment(s, lo, hi))
      == Energy(d, start, s)
         - Edge(d, before, s[lo]) - Edge(d, s[hi - 1], after)
         + Edge(d, before, s[hi - 1]) + Edge(d, s[lo], after)
  {
    var moved := ReverseSegment(s, lo, hi);
    InRangeSub(s, moved, |d|);
    TourReversalDelta(d, start, s, lo, hi);
    assert Energy(d, start, s) == PathLength(d, Tour(start, s));
    assert Energy(d, start, moved) == PathLength(d, Tour(start, moved));
  }

  /** The 2-opt identity on the closed tour itself. */
  lemma TourReversalDelta(d: seq<seq<int>>, start: int, s: seq<int>, lo: int, hi: int)
    requires IsMatrix(d) && Symmetric(d)
    requires 0 <= lo < hi <= |s|
    ensures
      var before := Tour(start, s)[lo];
      var after := Tour(start, s)[hi + 1];
      PathLength(d, Tour(start, ReverseSegment(s, lo, hi)))
      == PathLength(d, Tour(start, s))
         - Edge(d, before, s[lo]) - Edge(d, s[hi - 1], after)
         + Edge(d, before, s[hi - 1]) + Edge(d, s[lo], after)
  {
    var head := [start] + s[..lo];
    var mid := s[lo..hi];
    var tail := s[hi..] + [start];
    TourAroundSegment(start, s, lo, hi);
    assert head[|head| - 1] == Tour(start, s)[lo];
    assert tail[0] == Tour(start, s)[hi + 1];
    assert mid[0] == s[lo] && mid[|mid| - 1] == s[hi - 1];
    PathSegmentReversed(d, head, mid, tail);
  }

  /** The 2-opt identity for a drawn move: the new tour differs from the old
      one only in the leg into position `lo` and the leg out of `hi - 1`. */
  lemma MoveChangesTwoLegs(d: seq<seq<int>>, start: int, route: seq<int>, a: int, b: int)
    requires IsMatrix(d) && 0 <= start < |d| && InRange(route, |d|) && Symmetric(d)
    requires 0 <= a < |route| && 0 <= b < |route| && a != b
    ensures InRange(Move(route, a, b), |d|)
    ensures
      var lo, hi := Min(a, b), Max(a, b);
      var before := if lo == 0 then start else route[lo - 1];
      Energy(d, start, Move(route, a, b))
      == Energy(d, start, route)
         - Edge(d, before, route[lo]) - Edge(d, route[hi - 1], route[hi])
         + Edge(d, before, route[hi - 1]) + Edge(d, route[lo], route[hi])
  {
    var lo, hi := Min(a, b), Max(a, b);
    var moved := ReverseSegment(route, lo, hi);
    assert Move(route, a, b) == moved;
    SegmentReversalDelta(d, start, route, lo, hi);
    assert Tour(start, route)[lo] == if lo == 0 then start else route[lo - 1] by {
      TourAt(start, route, lo);
    }
    assert Tour(start, route)[hi + 1] == route[hi] by {
      TourAt(start, route, hi + 1);
    }
  }

  /** As written, the slice [a, b) never reaches the last position, because
      `b` is at most `len(state) - 1`: no move changes the final city. */
  lemma MoveFixesLastCity(route: seq<int>, a: int, b: int)
    requires 0 <= a < |route| && 0 <= b < |route|
    ensures Move(route, a, b)[|route| - 1] == route[|route| - 1]
  {
    if a != b {
      var lo, hi := Min(a, b), Max(a, b);
      assert Move(route, a, b) == ReverseSegment(route, lo, hi);
      ReverseSegmentAt(route, lo, hi, |route| - 1);
    }
  }

  /** Draws for `n`-stop routes, as `randint(0, n - 1)` yields them. */
  predicate ValidDraws(n: int, draws: seq<(int, int)>) {
    forall k :: 0 <= k < |draws| ==> 0 <= draws[k].0 < n && 0 <= draws[k].1 < n
  }

  /** The route after a series of accepted moves. */
  function Walk(route: seq<int>, draws: seq<(int, int)>): (r: seq<int>)
    requires ValidDraws(|route|, draws)
    ensures |r| == |route|
    decreases |draws|
  {
    if |draws| == 0 then route
    else Walk(Move(route, draws[0].0, draws[0].1), draws[1..])
  }

  /** Whatever the draws and acceptance decisions, the annealer only ever
      visits routes ending at the city the initial shuffle put last. */
  lemma {:induction false} WalkFixesLastCity(route: seq<int>, draws: seq<(int, int)>)
    requires ValidDraws(|route|, draws) && |route| > 0
    ensures Walk(route, draws)[|route| - 1] == route[|route| - 1]
    decreases |draws|
  {
    if |draws| > 0 {
      var next := Move(route, draws[0].0, draws[0].1);
      MoveFixesLastCity(route, draws[0].0, draws[0].1);
      assert ValidDraws(|next|, draws[1..]);
      WalkFixesLastCity(next, draws[1..]);
    }
  }

  /** The intended 2-opt move: reverse the closed segment [a, b]. */
  function MoveInclusive(route: seq<int>, a: int, b: int): (r: seq<int>)
    requires 0 <= a < |route| && 0 <= b < |route|
    ensures |r| == |route| && multiset(r) == multiset(route)
  {
    ReverseSegment(route, Min(a, b), Max(a, b) + 1)
  }

  /** Position `i` after the corrected move: mirrored inside the closed
      segment, unchanged outside it. */
  lemma MoveInclusiveAt(route: seq<int>, a: int, b: int, i: int)
    requires 0 <= a < |route| && 0 <= b < |route| && 0 <= i < |route|
    ensures MoveInclusive(route, a, b)[i]
            == if Min(a, b) <= i <= Max(a, b) then route[Min(a, b) + Max(a, b) - i] else route[i]
  {
    var lo, top := Min(a, b), Max(a, b) + 1;
    ReverseSegmentAt(route, lo, top, i);
    if lo <= i < top {
      assert route[lo + top - 1 - i] == route[Min(a, b) + Max(a, b) - i];
    }
  }

  /** With the closed segment every position, the last included, can be
      changed by some draw. */
  lemma MoveInclusiveReachesEveryPosition(route: seq<int>, i: int)
    requires NoDup(route) && |route| >= 2 && 0 <= i < |route|
    ensures exists a, b :: 0 <= a < |route| && 0 <= b < |route|
                           && MoveInclusive(route, a, b)[i] != route[i]
  {
    var a := if i == |route| - 1 then i - 1 else i;
    MoveInclusiveAt(route, a, a + 1, i);
    assert MoveInclusive(route, a, a + 1)[i] != route[i];
  }

  /** The corrected move is still a 2-opt step: on a symmetric table it
      changes only the leg into position `lo` and the leg out of position
      `hi`, where the leg out of the last position returns to the anchor. */
  lemma MoveInclusiveChangesTwoLegs(d: seq<seq<int>>, start: int, route: seq<int>, a: int, b: int)
    requires IsMatrix(d) && 0 <= start < |d| && InRange(route, |d|) && Symmetric(d)
    requires 0 <= a < |route| && 0 <= b < |route|
    ensures InRange(MoveInclusive(route, a, b), |d|)
    ensures
      var lo, hi := Min(a, b), Max(a, b);
      var before := if lo == 0 then start else route[lo - 1];
      var after := if hi == |route| - 1 then start else route[hi + 1];
      Energy(d, start, MoveInclusive(route, a, b))
      == Energy(d, start, route)
         - Edge(d, before, route[lo]) - Edge(d, route[hi], after)
         + Edge(d, before, route[hi]) + Edge(d, route[lo], after)
  {
    var lo, hi := Min(a, b), Max(a, b);
    var top := hi + 1;
    var moved := ReverseSegment(route, lo, top);
    assert MoveInclusive(route, a, b) == moved;
    TourAt(start, route, lo);
    TourAt(start, route, top + 1);
    assert route[top - 1] == route[hi];
    SegmentReversalDelta(d, start, route, lo, top);
  }

  /** The corrected move is its own inverse, like the original. */
  lemma MoveInclusiveUndo(route: seq<int>, a: int, b: int)
    requires 0 <= a < |route| && 0 <= b < |route|
    ensures MoveInclusive(MoveInclusive(route, a, b), a, b) == route
  {
    ReverseSegmentTwice(route, Min(a, b), Max(a, b) + 1);
  }
}
