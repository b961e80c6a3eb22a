/**
 The lattice part of simplex noise over exact reals: which lattice cell a point is in, the in-place sort of its
 distances that steps back after every swap, and the walk over the corners of the simplex around the point.
 */
module SimplexWalk {

  // ---------- orders and their inversions ----------

  predicate Descending(s: seq<real>, n: nat)
    requires n <= |s|
  {
    forall i, j :: 0 <= i < j < n ==> s[i] >= s[j]
  }

  function Less(s: seq<real>, x: real): nat {
    if s == [] then 0 else Less(s[..|s| - 1], x) + if s[|s| - 1] < x then 1 else 0
  }

  /** How many pairs are in the wrong order. */
  function Inversions(s: seq<real>): nat {
    if s == [] then 0 else Inversions(s[..|s| - 1]) + Less(s[..|s| - 1], s[|s| - 1])
  }

  function Swapped<T>(s: seq<T>, d: nat): (r: seq<T>)
    requires d + 1 < |s|
    ensures |r| == |s|
  {
    s[d := s[d + 1]][d + 1 := s[d]]
  }

  lemma SwappedFront<T>(s: seq<T>, d: nat)
    requires d + 1 < |s|
    ensures var n := |s| - 1;
            if d + 1 < n then Swapped(s, d)[..n] == Swapped(s[..n], d) && Swapped(s, d)[n] == s[n]
            else Swapped(s, d) == s[..d] + [s[d + 1], s[d]]
  {
  }

  lemma {:induction false} LessSwapped(s: seq<real>, d: nat, x: real)
    requires d + 1 < |s|
    ensures Less(Swapped(s, d), x) == Less(s, x)
    decreases |s|
  {
    hide Swapped;
    SwappedFront(s, d);
    var n := |s| - 1;
    if d + 1 < n {
      LessSwapped(s[..n], d, x);
    } else {
      LastTwo(s[..d], s[d], s[d + 1], x);
      LastTwo(s[..d], s[d + 1], s[d], x);
      assert s == s[..d] + [s[d], s[d + 1]];
    }
  }

  lemma LastTwo(p: seq<real>, a: real, b: real, x: real)
    ensures Less(p + [a, b], x) == Less(p, x) + (if a < x then 1 else 0) + if b < x then 1 else 0
    ensures Inversions(p + [a, b]) == Inversions(p) + Less(p, a) + Less(p, b) + if a < b then 1 else 0
  {
    var s := p + [a, b];
    assert s[..|p| + 1] == p + [a] && (p + [a])[..|p|] == p;
  }

  /** Swapping two neighbours that are in the wrong order leaves one inversion less. */
  lemma {:induction false} SwapDecreases(s: seq<real>, d: nat)
    requires d + 1 < |s| && s[d] < s[d + 1]
    ensures Inversions(Swapped(s, d)) == Inversions(s) - 1
    decreases |s|
  {
    hide Swapped;
    SwappedFront(s, d);
    var n := |s| - 1;
    if d + 1 < n {
      SwapDecreases(s[..n], d);
      LessSwapped(s[..n], d, s[n]);
    } else {
      LastTwo(s[..d], s[d], s[d + 1], 0.0);
      LastTwo(s[..d], s[d + 1], s[d], 0.0);
      assert s == s[..d] + [s[d], s[d + 1]];
    }
  }

  // ---------- the sort ----------

  predicate IsPermutation(index: seq<nat>) {
    (forall i :: 0 <= i < |index| ==> index[i] < |index|) &&
    forall i, j :: 0 <= i < j < |index| ==> index[i] != index[j]
  }

  /** sorted holds the distances in the order index says, equal ones in their first order. */
  predicate Tracks(sorted: seq<real>, index: seq<nat>, distance: seq<real>) {
    && |sorted| == |index| == |distance| && IsPermutation(index)
    && (forall i :: 0 <= i < |index| ==> sorted[i] == distance[index[i]])
    && (forall i, j :: 0 <= i < j < |index| && sorted[i] == sorted[j] ==> index[i] < index[j])
  }

  /** The largest distance first, and of equal ones the lower dimension. */
  predicate InOrder(distance: seq<real>, order: seq<nat>)
    requires |order| == |distance| && IsPermutation(order)
  {
    forall i, j :: 0 <= i < j < |order| ==>
      distance[order[i]] > distance[order[j]] || (distance[order[i]] == distance[order[j]] && order[i] < order[j])
  }

  lemma SwapTracks(sorted: seq<real>, index: seq<nat>, distance: seq<real>, d: nat)
    requires Tracks(sorted, index, distance) && d + 1 < |sorted| && sorted[d] < sorted[d + 1]
    ensures Tracks(Swapped(sorted, d), Swapped(index, d), distance)
  {
  }

  /** The sort of the kernel: after a swap it steps back one place, otherwise forward. */
  method SortDescending(sorted: array<real>, index: array<nat>, ghost distance: seq<real>)
    requires sorted != index as object && sorted.Length >= 1
    requires Tracks(sorted[..], index[..], distance)
    modifies sorted, index
    ensures Tracks(sorted[..], index[..], distance)
    ensures Descending(sorted[..], sorted.Length)
  {
    hide Tracks, Inversions;
    var n := sorted.Length;
    var dimension: int := 0;
    assert index.Length == n by { SameLength(sorted[..], index[..], distance); }
    while dimension < n - 1
      invariant 0 <= dimension <= n - 1
      invariant Tracks(sorted[..], index[..], distance)
      invariant Descending(sorted[..], dimension + 1)
      decreases Inversions(sorted[..]), n - dimension
    {
      if sorted[dimension] < sorted[dimension + 1] {
        ghost var s, x := sorted[..], index[..];
        var rTemp := sorted[dimension];
        var iTemp := index[dimension];
        sorted[dimension] := sorted[dimension + 1];
        index[dimension] := index[dimension + 1];
        sorted[dimension + 1] := rTemp;
        index[dimension + 1] := iTemp;
        assert sorted[..] == Swapped(s, dimension) && index[..] == Swapped(x, dimension);
        SwapTracks(s, x, distance, dimension);
        SwapDecreases(s, dimension);
        if dimension > 0 {
          dimension := dimension - 2;
        }
      }
      dimension := dimension + 1;
    }
  }

  lemma SameLength(sorted: seq<real>, index: seq<nat>, distance: seq<real>)
    requires Tracks(sorted, index, distance)
    ensures |sorted| == |index| == |distance|
  {
  }

  // ---------- the cell of a point ----------

  function Total(c: seq<int>): int {
    if c == [] then 0 else Total(c[..|c| - 1]) + c[|c| - 1]
  }

  function TotalReal(p: seq<real>): real {
    if p == [] then 0.0 else TotalReal(p[..|p| - 1]) + p[|p| - 1]
  }

  function Scaled(position: seq<real>, scale: real): (p: seq<real>)
    ensures |p| == |position|
  {
    seq(|position|, i requires 0 <= i < |position| => position[i] * scale)
  }

  /** What skewing adds to every coordinate. */
  function Shift(p: seq<real>, skew: real): real {
    TotalReal(p) * skew
  }

  /** The point in skewed coordinates, where the corners of the simplices are the integer points. */
  function Skewed(p: seq<real>, skew: real): (y: seq<real>)
    ensures |y| == |p|
  {
    var shift := Shift(p, skew);
    seq(|p|, i requires 0 <= i < |p| => p[i] + shift)
  }

  function Cell(p: seq<real>, skew: real): (c: seq<int>)
    ensures |c| == |p|
    ensures forall i :: 0 <= i < |p| ==> c[i] == Skewed(p, skew)[i].Floor
  {
    var y := Skewed(p, skew);
    seq(|p|, i requires 0 <= i < |p| => y[i].Floor)
  }

  /** From a lattice point to the point, unskewed. */
  function Offset(p: seq<real>, c: seq<int>, unskew: real): (d: seq<real>)
    requires |c| == |p|
    ensures |d| == |p|
  {
    seq(|p|, i requires 0 <= i < |p| => p[i] - (c[i] as real - Total(c) as real * unskew))
  }

  /** The point that the offset leads to from p, or back from it. */
  function Back(p: seq<real>, d: seq<real>): (q: seq<real>)
    requires |p| == |d|
    ensures |q| == |p| && forall i :: 0 <= i < |p| ==> q[i] == p[i] - d[i]
  {
    seq(|p|, i requires 0 <= i < |p| => p[i] - d[i])
  }

  lemma {:induction false} TotalOfShifted(q: seq<real>, c: seq<int>, t: real)
    requires |q| == |c| && forall i :: 0 <= i < |q| ==> q[i] == c[i] as real - t
    ensures TotalReal(q) == Total(c) as real - |c| as real * t
  {
    if q != [] {
      var n := |q| - 1;
      TotalOfShifted(q[..n], c[..n], t);
      assert |c| as real * t == n as real * t + t;
    }
  }

  /** Going back by the offset from a lattice point and skewing gives that lattice point, if the constants match. */
  lemma OffsetLeadsBack(p: seq<real>, c: seq<int>, skew: real, unskew: real)
    requires |c| == |p| && unskew * (1.0 + |p| as real * skew) == skew
    ensures forall i :: 0 <= i < |p| ==> Skewed(Back(p, Offset(p, c, unskew)), skew)[i] == c[i] as real
  {
    hide Total, TotalReal;
    var q, sum, n := Back(p, Offset(p, c, unskew)), Total(c) as real, |p| as real;
    TotalOfShifted(q, c, sum * unskew);
    ShiftsCancel(sum, n, skew, unskew);
    forall i | 0 <= i < |p| ensures Skewed(q, skew)[i] == c[i] as real {
      assert q[i] == c[i] as real - sum * unskew;
    }
  }

  lemma ShiftsCancel(sum: real, n: real, skew: real, unskew: real)
    requires unskew * (1.0 + n * skew) == skew
    ensures (sum - n * (sum * unskew)) * skew == sum * unskew
  {
    assert unskew * (1.0 + n * skew) == unskew + unskew * (n * skew);
    assert sum * skew == sum * unskew + sum * (unskew * (n * skew));
    assert n * (sum * unskew) * skew == sum * (unskew * (n * skew));
    assert (sum - n * (sum * unskew)) * skew == sum * skew - n * (sum * unskew) * skew;
  }

  /** Scaling scales the sum, and scaling by one changes nothing. */
  lemma {:induction false} ScaledIsLinear(p: seq<real>, scale: real)
    ensures TotalReal(Scaled(p, scale)) == TotalReal(p) * scale && Scaled(p, 1.0) == p
  {
    assert Scaled(p, 1.0) == p;
    if p != [] {
      var n := |p| - 1;
      ScaledIsLinear(p[..n], scale);
      ScaledFront(p, scale);
    }
  }

  lemma ScaledFront(p: seq<real>, scale: real)
    requires p != []
    ensures var n := |p| - 1; Scaled(p, scale)[..n] == Scaled(p[..n], scale) && Scaled(p, scale)[n] == p[n] * scale
  {
    var n := |p| - 1;
    forall i | 0 <= i < n ensures Scaled(p, scale)[i] == Scaled(p[..n], scale)[i] {
      assert p[..n][i] == p[i];
    }
  }

  /** The v-th corner: the first v coordinates of the order are one further. */
  function Corner(c: seq<int>, index: seq<nat>, v: nat): (r: seq<int>)
    requires v <= |index|
    ensures |r| == |c|
  {
    seq(|c|, i requires 0 <= i < |c| => c[i] + if i in index[..v] then 1 else 0)
  }

  lemma {:induction false} TotalOfUpdate(c: seq<int>, i: nat, x: int)
    requires i < |c|
    ensures Total(c[i := x]) == Total(c) - c[i] + x
    decreases |c|
  {
    var n := |c| - 1;
    if i == n {
      assert c[i := x][..n] == c[..n];
    } else {
      TotalOfUpdate(c[..n], i, x);
      assert c[i := x][..n] == c[..n][i := x];
    }
  }

  lemma NextCorner(c: seq<int>, index: seq<nat>, v: nat)
    requires v < |index| == |c| && IsPermutation(index)
    ensures Corner(c, index, v + 1) == Corner(c, index, v)[index[v] := Corner(c, index, v)[index[v]] + 1]
    ensures Total(Corner(c, index, v + 1)) == Total(Corner(c, index, v)) + 1
  {
    var now, x := Corner(c, index, v), index[v];
    assert index[..v + 1] == index[..v] + [x];
    assert x !in index[..v];
    assert Corner(c, index, v + 1) == now[x := now[x] + 1];
    TotalOfUpdate(now, x, now[x] + 1);
  }

  /** Each step adds unskew to every distance and takes one from the one that moves. */
  lemma NextOffset(p: seq<real>, c: seq<int>, index: seq<nat>, v: nat, unskew: real, i: nat)
    requires v < |index| == |c| == |p| && IsPermutation(index) && i < |p|
    ensures Offset(p, Corner(c, index, v + 1), unskew)[i] ==
            Offset(p, Corner(c, index, v), unskew)[i] + unskew - if i == index[v] then 1.0 else 0.0
  {
    hide Corner, Total;
    NextCorner(c, index, v);
    var t := Total(Corner(c, index, v)) as real;
    assert (t + 1.0) * unskew == t * unskew + unskew;
  }

  lemma {:induction false} TotalOfCorner(c: seq<int>, index: seq<nat>, v: nat)
    requires v <= |index| == |c| && IsPermutation(index)
    ensures Total(Corner(c, index, v)) == Total(c) + v
    decreases v
  {
    if v == 0 {
      assert Corner(c, index, 0) == c;
    } else {
      TotalOfCorner(c, index, v - 1);
      NextCorner(c, index, v - 1);
    }
  }

  // ---------- one octave ----------

  method SumPosition(p: seq<real>) returns (positionSum: real)
    requires |p| >= 1
    ensures positionSum == TotalReal(p)
  {
    positionSum := p[0];
    assert p[..1][..0] == [];
    for dimension := 1 to |p|
      invariant positionSum == TotalReal(p[..dimension])
    {
      positionSum := positionSum + p[dimension];
      assert p[..dimension + 1][..dimension] == p[..dimension];
    }
    assert p[..|p|] == p;
  }

  lemma CellAt(p: seq<real>, skew: real, i: nat)
    requires i < |p|
    ensures Cell(p, skew)[i] == (p[i] + Shift(p, skew)).Floor
  {
    hide Shift, Cell;
    assert Skewed(p, skew)[i] == p[i] + Shift(p, skew);
  }

  lemma TotalGrows(c: seq<int>, k: nat)
    requires k < |c|
    ensures Total(c[..0]) == 0 && Total(c[..k + 1]) == Total(c[..k]) + c[k]
  {
    assert c[..k + 1][..k] == c[..k];
  }

  /** The integer position of the point and its sum. */
  method FindCell(p: seq<real>, skew: real, integerPosition: array<int>) returns (integerPositionSum: int)
    requires integerPosition.Length == |p| >= 1
    modifies integerPosition
    ensures integerPosition[..] == Cell(p, skew) && integerPositionSum == Total(Cell(p, skew))
  {
    hide Cell, Skewed, Total, TotalReal;
    ghost var cell := Cell(p, skew);
    var positionSum := SumPosition(p);
    integerPosition[0] := (p[0] + positionSum * skew).Floor;
    integerPositionSum := integerPosition[0];
    CellAt(p, skew, 0);
    TotalGrows(cell, 0);
    for dimension := 1 to |p|
      invariant forall i :: 0 <= i < dimension ==> integerPosition[i] == cell[i]
      invariant integerPositionSum == Total(cell[..dimension])
    {
      integerPosition[dimension] := (p[dimension] + positionSum * skew).Floor;
      integerPositionSum := integerPositionSum + integerPosition[dimension];
      CellAt(p, skew, dimension);
      TotalGrows(cell, dimension);
    }
    assert cell[..|p|] == cell;
  }

  /** From one corner to the next. */
  method Advance(ghost p: seq<real>, ghost cell: seq<int>, unskew: real, vertex: nat, index: array<nat>,
                 integerPosition: array<int>, distance: array<real>)
    requires |p| == |cell| == index.Length == integerPosition.Length == distance.Length && vertex < |p|
    requires IsPermutation(index[..])
    requires integerPosition[..] == Corner(cell, index[..], vertex)
    requires distance[..] == Offset(p, Corner(cell, index[..], vertex), unskew)
    modifies integerPosition, distance
    ensures integerPosition[..] == Corner(cell, index[..], vertex + 1)
    ensures distance[..] == Offset(p, Corner(cell, index[..], vertex + 1), unskew)
  {
    hide Corner, Offset;
    ghost var before, order := distance[..], index[..];
    for dimension := 0 to distance.Length
      invariant integerPosition[..] == Corner(cell, order, vertex)
      invariant forall i :: 0 <= i < |p| ==> distance[i] == before[i] + if i < dimension then unskew else 0.0
    {
      distance[dimension] := distance[dimension] + unskew;
    }
    distance[index[vertex]] := distance[index[vertex]] - 1.0;
    integerPosition[index[vertex]] := integerPosition[index[vertex]] + 1;
    NextCorner(cell, order, vertex);
    forall i | 0 <= i < |p| ensures distance[i] == Offset(p, Corner(cell, order, vertex + 1), unskew)[i] {
      NextOffset(p, cell, order, vertex, unskew, i);
    }
  }

  /** The distances from the first corner, in the order of the dimensions. */
  method SetDistances(p: seq<real>, integerPosition: array<int>, sum: int, unskew: real,
                      distance: array<real>, sortedDistance: array<real>, index: array<nat>)
    requires |p| == integerPosition.Length == distance.Length == sortedDistance.Length == index.Length
    requires sum == Total(integerPosition[..]) && distance != sortedDistance
    modifies distance, sortedDistance, index
    ensures distance[..] == sortedDistance[..] == Offset(p, integerPosition[..], unskew)
    ensures Tracks(sortedDistance[..], index[..], distance[..])
  {
    hide Tracks, Total;
    ghost var first := Offset(p, integerPosition[..], unskew);
    for dimension := 0 to |p|
      invariant forall i :: 0 <= i < dimension ==>
                distance[i] == first[i] && sortedDistance[i] == first[i] && index[i] == i
    {
      distance[dimension] := p[dimension] - (integerPosition[dimension] as real - sum as real * unskew);
      sortedDistance[dimension] := distance[dimension];
      index[dimension] := dimension;
    }
    assert distance[..] == first && sortedDistance[..] == first;
    Unsorted(first, index[..]);
  }

  /**
   What one octave visits: the corners of the simplex around the point in the order of its largest distances, each
   with the distances from it, which is all that the contribution of a corner is computed from.
   */
  method Walk(position: seq<real>, scale: real, skew: real, unskew: real)
    returns (corners: seq<seq<int>>, offsets: seq<seq<real>>, order: seq<nat>)
    requires |position| >= 1
    ensures var p, n := Scaled(position, scale), |position|; var cell := Cell(p, skew);
            |corners| == |offsets| == n + 1 && |order| == n && IsPermutation(order) &&
            InOrder(Offset(p, cell, unskew), order) &&
            forall v :: 0 <= v <= n ==>
              corners[v] == Corner(cell, order, v) && offsets[v] == Offset(p, corners[v], unskew)
  {
    hide Tracks, Total, Corner, Cell, InOrder, IsPermutation;
    var n, p := |position|, Scaled(position, scale);
    var integerPosition, index := new int[n], new nat[n];
    var distance, sortedDistance := new real[n], new real[n];
    var integerPositionSum := FindCell(p, skew, integerPosition);
    ghost var cell := Cell(p, skew);
    SetDistances(p, integerPosition, integerPositionSum, unskew, distance, sortedDistance, index);
    SortDescending(sortedDistance, index, distance[..]);
    SortedOrder(sortedDistance[..], index[..], distance[..]);
    order := index[..];
    FirstCorner(cell, order);
    corners, offsets := [], [];
    var vertex := 0;
    while true
      invariant vertex <= n && |corners| == |offsets| == vertex && index[..] == order
      invariant integerPosition[..] == Corner(cell, order, vertex)
      invariant distance[..] == Offset(p, Corner(cell, order, vertex), unskew)
      invariant forall v :: 0 <= v < vertex ==>
                corners[v] == Corner(cell, order, v) && offsets[v] == Offset(p, corners[v], unskew)
      decreases n - vertex
    {
      corners, offsets := corners + [integerPosition[..]], offsets + [distance[..]];
      if vertex >= n {
        break;
      }
      Advance(p, cell, unskew, vertex, index, integerPosition, distance);
      vertex := vertex + 1;
    }
  }

  lemma Unsorted(distance: seq<real>, index: seq<nat>)
    requires |index| == |distance| && forall i :: 0 <= i < |index| ==> index[i] == i
    ensures Tracks(distance, index, distance)
  {
  }

  lemma SortedOrder(sorted: seq<real>, index: seq<nat>, distance: seq<real>)
    requires Tracks(sorted, index, distance) && Descending(sorted, |sorted|)
    ensures |index| == |distance| && IsPermutation(index) && InOrder(distance, index)
  {
  }

  lemma FirstCorner(c: seq<int>, index: seq<nat>)
    ensures Corner(c, index, 0) == c
  {
  }

  // ---------- what the corners are ----------

  /** The corners are distinct, and the last one is a whole step further in every coordinate. */
  lemma CornersDistinct(c: seq<int>, index: seq<nat>)
    requires |index| == |c| && IsPermutation(index)
    ensures forall v, w :: 0 <= v < w <= |c| ==> Corner(c, index, v) != Corner(c, index, w)
    ensures forall i :: 0 <= i < |c| ==> Corner(c, index, |c|)[i] == c[i] + 1
  {
    forall v, w | 0 <= v < w <= |c| ensures Corner(c, index, v) != Corner(c, index, w) {
      TotalOfCorner(c, index, v);
      TotalOfCorner(c, index, w);
    }
    forall i | 0 <= i < |c| ensures Corner(c, index, |c|)[i] == c[i] + 1 {
      var r := RankOf(index, i);
      assert index[..|c|][r] == i;
    }
  }

  /** Below n there are no more than n numbers. */
  lemma {:induction false} FewBelow(s: set<nat>, n: nat)
    requires forall x :: x in s ==> x < n
    ensures |s| <= n
  {
    if n == 0 {
      assert s == {};
    } else if n - 1 in s {
      FewBelow(s - {n - 1}, n - 1);
    } else {
      FewBelow(s, n - 1);
    }
  }

  lemma {:induction false} ElementsOf(index: seq<nat>) returns (s: set<nat>)
    requires forall i, j :: 0 <= i < j < |index| ==> index[i] != index[j]
    ensures |s| == |index| && forall x :: x in s <==> x in index
  {
    if index == [] {
      s := {};
    } else {
      var n := |index| - 1;
      s := ElementsOf(index[..n]);
      assert index[n] !in s;
      assert index == index[..n] + [index[n]];
      s := s + {index[n]};
    }
  }

  /** A permutation has every number somewhere. */
  lemma RankOf(index: seq<nat>, x: nat) returns (r: nat)
    requires IsPermutation(index) && x < |index|
    ensures r < |index| && index[r] == x
  {
    var s := ElementsOf(index);
    if x !in index {
      FewBelow(s + {x}, |index|);
      assert false;
    }
    r :| 0 <= r < |index| && index[r] == x;
  }

  // ---------- the point is inside the simplex of the corners ----------

  /** How far the point is into its cell, in skewed coordinates. */
  function Fraction(p: seq<real>, skew: real): (f: seq<real>)
    ensures |f| == |p|
    ensures forall i :: 0 <= i < |p| ==> 0.0 <= f[i] < 1.0
  {
    var y, c := Skewed(p, skew), Cell(p, skew);
    seq(|p|, i requires 0 <= i < |p| => y[i] - c[i] as real)
  }

  /** The weight of the v-th corner in the point. */
  function Weight(f: seq<real>, index: seq<nat>, v: nat): real
    requires |index| == |f| && IsPermutation(index) && v <= |f|
  {
    (if v == 0 then 1.0 else f[index[v - 1]]) - if v == |f| then 0.0 else f[index[v]]
  }

  function WeightsFrom(f: seq<real>, index: seq<nat>, v: nat): real
    requires |index| == |f| && IsPermutation(index) && v <= |f| + 1
    decreases |f| + 1 - v
  {
    if v == |f| + 1 then 0.0 else Weight(f, index, v) + WeightsFrom(f, index, v + 1)
  }

  /** Coordinate i of the weighted corners from the v-th on. */
  function BlendFrom(c: seq<int>, f: seq<real>, index: seq<nat>, i: nat, v: nat): real
    requires |index| == |f| == |c| && IsPermutation(index) && i < |c| && v <= |f| + 1
    decreases |f| + 1 - v
  {
    if v == |f| + 1 then 0.0
    else Weight(f, index, v) * Corner(c, index, v)[i] as real + BlendFrom(c, f, index, i, v + 1)
  }

  lemma {:induction false} WeightsTelescope(f: seq<real>, index: seq<nat>, v: nat)
    requires |index| == |f| && IsPermutation(index) && v <= |f|
    ensures WeightsFrom(f, index, v) == if v == 0 then 1.0 else f[index[v - 1]]
    decreases |f| - v
  {
    if v < |f| {
      WeightsTelescope(f, index, v + 1);
    } else {
      assert WeightsFrom(f, index, v + 1) == 0.0;
    }
  }

  lemma CornerAt(c: seq<int>, index: seq<nat>, v: nat, r: nat)
    requires |index| == |c| && IsPermutation(index) && v <= |c| && r < |c|
    ensures Corner(c, index, v)[index[r]] == c[index[r]] + if r < v then 1 else 0
  {
    if r < v {
      assert index[..v][r] == index[r];
    }
  }

  lemma {:induction false} BlendIs(c: seq<int>, f: seq<real>, index: seq<nat>, r: nat, v: nat)
    requires |index| == |f| == |c| && IsPermutation(index) && r < |c| && v <= |f| + 1
    ensures BlendFrom(c, f, index, index[r], v) ==
            c[index[r]] as real * WeightsFrom(f, index, v) + WeightsFrom(f, index, if v <= r then r + 1 else v)
    decreases |f| + 1 - v
  {
    hide Weight, Corner;
    if v <= |f| {
      BlendIs(c, f, index, r, v + 1);
      CornerAt(c, index, v, r);
      var w, rest, x := Weight(f, index, v), WeightsFrom(f, index, v + 1), c[index[r]] as real;
      assert x * (w + rest) == x * w + x * rest;
      assert (x + 1.0) * w == x * w + w;
    }
  }

  /**
   For any point, skew and unskew, the corners visited in the order of the distances are those of a simplex that
   holds the point: in skewed coordinates it is the mean of the corners under weights that are not negative and add
   up to one.
   */
  lemma PointInSimplex(p: seq<real>, skew: real, unskew: real, order: seq<nat>)
    requires |order| == |p| && IsPermutation(order)
    requires InOrder(Offset(p, Cell(p, skew), unskew), order)
    ensures var f, c := Fraction(p, skew), Cell(p, skew);
            (forall v :: 0 <= v <= |p| ==> Weight(f, order, v) >= 0.0) && WeightsFrom(f, order, 0) == 1.0 &&
            forall i :: 0 <= i < |p| ==> BlendFrom(c, f, order, i, 0) == Skewed(p, skew)[i]
  {
    hide BlendFrom, WeightsFrom, Total, TotalReal;
    var f, c := Fraction(p, skew), Cell(p, skew);
    forall v | 0 <= v <= |p| ensures Weight(f, order, v) >= 0.0 {
      if 0 < v < |p| {
        var a, b := order[v - 1], order[v];
        assert Offset(p, c, unskew)[a] >= Offset(p, c, unskew)[b];
      }
    }
    WeightsTelescope(f, order, 0);
    forall i | 0 <= i < |p| ensures BlendFrom(c, f, order, i, 0) == Skewed(p, skew)[i] {
      var r := RankOf(order, i);
      BlendIs(c, f, order, r, 0);
      WeightsTelescope(f, order, r + 1);
    }
  }

  /** There is just one such order: the walk is determined, ties and all. */
  lemma {:induction false} OrderIsUnique(distance: seq<real>, order: seq<nat>, other: seq<nat>, k: nat)
    requires |order| == |other| == |distance| && IsPermutation(order) && IsPermutation(other)
    requires InOrder(distance, order) && InOrder(distance, other) && k < |order|
    ensures order[k] == other[k]
  {
    forall m | 0 <= m < k ensures order[m] == other[m] {
      OrderIsUnique(distance, order, other, m);
    }
    if order[k] != other[k] {
      var i := RankOf(order, other[k]);
      var j := RankOf(other, order[k]);
      NotBoth(distance, order, other, k, i, j);
    }
  }

  lemma NotBoth(distance: seq<real>, order: seq<nat>, other: seq<nat>, k: nat, i: nat, j: nat)
    requires |order| == |other| == |distance| && IsPermutation(order) && IsPermutation(other)
    requires InOrder(distance, order) && InOrder(distance, other) && k < |order|
    requires forall m :: 0 <= m < k ==> order[m] == other[m]
    requires i < |order| && j < |order| && order[i] == other[k] && other[j] == order[k]
    ensures order[k] == other[k]
  {
  }

  /** The two constants of the kernel undo each other; r stands for the root of the dimensionality plus one. */
  lemma SkewsMatch(n: nat, r: real)
    requires n >= 1 && r > 0.0 && r * r == n as real + 1.0
    ensures var skew, unskew := (r - 1.0) / n as real, (n as real + 1.0 - r) / (n as real * (n as real + 1.0));
            unskew * (1.0 + n as real * skew) == skew
  {
    var k := n as real;
    var skew := (r - 1.0) / k;
    var unskew := (k + 1.0 - r) / (k * (k + 1.0));
    assert k * skew == r - 1.0;
    assert unskew * (k * (k + 1.0)) == k + 1.0 - r;
    assert unskew * r * (k * (k + 1.0)) == r * (k + 1.0) - r * r;
    assert skew * (k * (k + 1.0)) == (r - 1.0) * (k + 1.0);
  }
}
