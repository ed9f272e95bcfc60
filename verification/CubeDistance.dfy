/** Nearest-neighbour search over boxes: the three metrics, the coordinate ordering, and why keys never overestimate. */
module CubeDistance {
  import opened Wrappers
  import opened CubeBox
  import opened CubeSearch

  /** distance_1D. */
  function Distance1D(a1: real, a2: real, b1: real, b2: real): real {
    if a1 <= b1 && a2 <= b1 && a1 <= b2 && a2 <= b2 then Min(b1, b2) - Max(a1, a2)
    else if a1 > b1 && a2 > b1 && a1 > b2 && a2 > b2 then Min(a1, a2) - Max(b1, b2)
    else 0.0
  }

  /** How far apart the intervals of two boxes are in one dimension. */
  function Gap(a: Box, b: Box, i: nat): real
    requires Valid(a) && Valid(b)
  {
    Max(0.0, Max(Lo(b, i) - Hi(a, i), Lo(a, i) - Hi(b, i)))
  }

  lemma Distance1DIs(a1: real, a2: real, b1: real, b2: real)
    ensures Abs(Distance1D(a1, a2, b1, b2)) == Distance1D(a1, a2, b1, b2)
      == Max(0.0, Max(Min(b1, b2) - Max(a1, a2), Min(a1, a2) - Max(b1, b2)))
  {
  }

  /** What the loops add for a dimension, both boxes having it or only the first. */
  lemma GapIs(a: Box, b: Box, i: nat)
    requires Valid(a) && Valid(b) && i < a.dim
    ensures i < b.dim ==> Gap(a, b, i) == Abs(Distance1D(LL(a, i), UR(a, i), LL(b, i), UR(b, i)))
    ensures i >= b.dim ==> Gap(a, b, i) == Abs(Distance1D(LL(a, i), UR(a, i), 0.0, 0.0))
  {
    if i < b.dim {
      Distance1DIs(LL(a, i), UR(a, i), LL(b, i), UR(b, i));
    } else {
      Distance1DIs(LL(a, i), UR(a, i), 0.0, 0.0);
    }
  }

  datatype Metric = Taxicab | Euclid | Chebyshev

  function Combine(metric: Metric, sofar: real, d: real): real {
    match metric
    case Taxicab => sofar + d
    case Euclid => sofar + d * d
    case Chebyshev => if d > sofar then d else sofar
  }

  /** The per-dimension distances combined; for the Euclidean metric, the square of the distance. */
  function Total(metric: Metric, gaps: seq<real>): real {
    if gaps == [] then 0.0 else Combine(metric, Total(metric, gaps[..|gaps| - 1]), gaps[|gaps| - 1])
  }

  /** The sum of some numbers, first to last. */
  function SumOf(s: seq<real>): real {
    if s == [] then 0.0 else s[0] + SumOf(s[1..])
  }

  function Squares(s: seq<real>): (r: seq<real>)
    ensures |r| == |s| && forall i :: 0 <= i < |s| ==> r[i] == s[i] * s[i]
  {
    seq(|s|, i requires 0 <= i < |s| => s[i] * s[i])
  }

  /** What each metric makes of the gaps: their sum, the sum of their squares, or the greatest of them. */
  predicate Measures(metric: Metric, gaps: seq<real>, r: real) {
    match metric
    case Taxicab => r == SumOf(gaps)
    case Euclid => r == SumOf(Squares(gaps))
    case Chebyshev => (forall g | g in gaps :: g <= r) && (r in gaps || (gaps == [] && r == 0.0))
  }

  lemma {:induction false} SumLast(s: seq<real>, x: real)
    ensures SumOf(s + [x]) == SumOf(s) + x
  {
    if s == [] {
      assert s + [x] == [x] && [x][1..] == [];
    } else {
      SumLast(s[1..], x);
      assert (s + [x])[1..] == s[1..] + [x];
    }
  }

  lemma SquaresLast(s: seq<real>, x: real)
    ensures Squares(s + [x]) == Squares(s) + [x * x]
  {
    var all := s + [x];
    forall i | 0 <= i < |all|
      ensures Squares(all)[i] == (Squares(s) + [x * x])[i]
    {
      assert i < |s| ==> all[i] == s[i];
    }
  }

  lemma {:induction false} TotalTaxicab(gaps: seq<real>)
    ensures Total(Taxicab, gaps) == SumOf(gaps)
  {
    if gaps != [] {
      var n := |gaps| - 1;
      TotalTaxicab(gaps[..n]);
      SumLast(gaps[..n], gaps[n]);
      assert gaps == gaps[..n] + [gaps[n]];
    }
  }

  lemma {:induction false} TotalEuclid(gaps: seq<real>)
    ensures Total(Euclid, gaps) == SumOf(Squares(gaps))
  {
    if gaps != [] {
      var n := |gaps| - 1;
      var init, d := gaps[..n], gaps[n];
      assert gaps == init + [d];
      TotalEuclid(init);
      SquaresLast(init, d);
      SumLast(Squares(init), d * d);
      assert Total(Euclid, gaps) == Total(Euclid, init) + d * d;
    }
  }

  lemma {:induction false} TotalChebyshev(gaps: seq<real>)
    requires forall i :: 0 <= i < |gaps| ==> 0.0 <= gaps[i]
    ensures forall g | g in gaps :: g <= Total(Chebyshev, gaps)
    ensures gaps != [] ==> Total(Chebyshev, gaps) in gaps
  {
    if gaps != [] {
      var n := |gaps| - 1;
      TotalChebyshev(gaps[..n]);
      assert gaps == gaps[..n] + [gaps[n]];
    }
  }

  /** The combined distances are what the metrics promise. */
  lemma TotalMeasures(metric: Metric, gaps: seq<real>)
    requires forall i :: 0 <= i < |gaps| ==> 0.0 <= gaps[i]
    ensures Measures(metric, gaps, Total(metric, gaps))
  {
    match metric
    case Taxicab => TotalTaxicab(gaps);
    case Euclid => TotalEuclid(gaps);
    case Chebyshev => TotalChebyshev(gaps);
  }

  function Gaps(a: Box, b: Box, n: nat): (s: seq<real>)
    requires Valid(a) && Valid(b)
    ensures |s| == n && forall i :: 0 <= i < n ==> s[i] == Gap(a, b, i)
  {
    seq(n, i requires 0 <= i < n => Gap(a, b, i))
  }

  function Distance(metric: Metric, a: Box, b: Box): real
    requires Valid(a) && Valid(b)
  {
    Total(metric, Gaps(a, b, MaxDim(a, b)))
  }

  lemma GapsLast(a: Box, b: Box, n: nat)
    requires Valid(a) && Valid(b)
    ensures Gaps(a, b, n + 1)[..n] == Gaps(a, b, n) && Gaps(a, b, n + 1)[n] == Gap(a, b, n)
  {
  }

  lemma TotalLast(metric: Metric, a: Box, b: Box, n: nat)
    requires Valid(a) && Valid(b)
    ensures Total(metric, Gaps(a, b, n + 1)) == Combine(metric, Total(metric, Gaps(a, b, n)), Gap(a, b, n))
  {
    GapsLast(a, b, n);
  }

  lemma GapSymmetric(a: Box, b: Box, n: nat)
    requires Valid(a) && Valid(b)
    ensures Gaps(a, b, n) == Gaps(b, a, n)
  {
  }

  /** What one dimension adds. */
  method AddDimension(metric: Metric, sofar: real, d: real) returns (r: real)
    ensures r == Combine(metric, sofar, d)
  {
    match metric
    case Taxicab => r := sofar + d;
    case Euclid => r := sofar + d * d;
    case Chebyshev => r := if d > sofar then d else sofar;
  }

  /** The loops over the common dimensions and over those of the larger box alone. */
  method Accumulate(metric: Metric, a: Box, b: Box) returns (distance: real)
    requires Valid(a) && Valid(b)
    ensures distance == Distance(metric, a, b)
    decreases a.dim < b.dim
  {
    if a.dim < b.dim {
      distance := Accumulate(metric, b, a);
      GapSymmetric(a, b, b.dim);
      return;
    }
    distance := 0.0;
    for i := 0 to b.dim
      invariant distance == Total(metric, Gaps(a, b, i))
    {
      var d := Distance1D(LL(a, i), UR(a, i), LL(b, i), UR(b, i));
      GapIs(a, b, i);
      TotalLast(metric, a, b, i);
      distance := AddDimension(metric, distance, Abs(d));
    }
    for i := b.dim to a.dim
      invariant distance == Total(metric, Gaps(a, b, i))
    {
      var d := Distance1D(LL(a, i), UR(a, i), 0.0, 0.0);
      GapIs(a, b, i);
      TotalLast(metric, a, b, i);
      distance := AddDimension(metric, distance, Abs(d));
    }
  }

  lemma GapNonNegative(a: Box, b: Box, i: nat)
    requires Valid(a) && Valid(b)
    ensures 0.0 <= Gap(a, b, i)
  {
  }

  /** distance_taxicab, cube_distance up to its square root, and distance_chebyshev, which share their loops. */
  method BoxDistance(metric: Metric, a: Box, b: Box) returns (distance: real)
    requires Valid(a) && Valid(b)
    ensures distance == Distance(metric, a, b)
    ensures Measures(metric, Gaps(a, b, MaxDim(a, b)), distance)
  {
    distance := Accumulate(metric, a, b);
    TotalMeasures(metric, Gaps(a, b, MaxDim(a, b)));
  }

  lemma ProductNonNegative(x: real, y: real)
    requires 0.0 <= x && 0.0 <= y
    ensures 0.0 <= x * y
  {
  }

  lemma SquareMonotone(d: real, e: real)
    requires 0.0 <= d <= e
    ensures 0.0 <= d * d <= e * e
  {
    var f := e - d;
    ProductNonNegative(d, d);
    ProductNonNegative(d, f);
    ProductNonNegative(f, e);
    assert e * e == d * d + d * f + f * e;
  }

  lemma CombineMonotone(metric: Metric, r: real, s: real, d: real, e: real)
    requires 0.0 <= r <= s && 0.0 <= d <= e
    ensures 0.0 <= Combine(metric, r, d) <= Combine(metric, s, e)
  {
    SquareMonotone(d, e);
  }

  lemma {:induction false} TotalMonotone(metric: Metric, s: seq<real>, t: seq<real>)
    requires |s| == |t| && forall i :: 0 <= i < |s| ==> 0.0 <= s[i] <= t[i]
    ensures 0.0 <= Total(metric, s) <= Total(metric, t)
  {
    if s != [] {
      var n := |s| - 1;
      TotalMonotone(metric, s[..n], t[..n]);
      CombineMonotone(metric, Total(metric, s[..n]), Total(metric, t[..n]), s[n], t[n]);
    }
  }

  lemma DistanceNonNegative(metric: Metric, a: Box, b: Box, n: nat)
    requires Valid(a) && Valid(b)
    ensures 0.0 <= Total(metric, Gaps(a, b, n))
  {
    TotalMonotone(metric, Gaps(a, b, n), Gaps(a, b, n));
  }

  lemma GapBeyond(a: Box, b: Box, i: nat)
    requires Valid(a) && Valid(b) && i >= MaxDim(a, b)
    ensures Gap(a, b, i) == 0.0
  {
  }

  lemma CombineZero(metric: Metric, r: real)
    requires 0.0 <= r
    ensures Combine(metric, r, 0.0) == r
  {
  }

  /** Dimensions that neither box has add nothing. */
  lemma {:induction false} Padding(metric: Metric, a: Box, b: Box, n: nat)
    requires Valid(a) && Valid(b) && n >= MaxDim(a, b)
    ensures Total(metric, Gaps(a, b, n)) == Distance(metric, a, b)
  {
    if n > MaxDim(a, b) {
      Padding(metric, a, b, n - 1);
      TotalLast(metric, a, b, n - 1);
      GapBeyond(a, b, n - 1);
      DistanceNonNegative(metric, a, b, n - 1);
      CombineZero(metric, Total(metric, Gaps(a, b, n - 1)));
    }
  }

  lemma GapShrinks(key: Box, b: Box, query: Box, i: nat)
    requires Valid(key) && Valid(b) && Valid(query) && CoversAt(key, b, i)
    ensures 0.0 <= Gap(key, query, i) <= Gap(b, query, i)
  {
  }

  /** A key is never further from a query than a box it encloses. */
  lemma KeyNeverFurther(metric: Metric, key: Box, b: Box, query: Box)
    requires Valid(key) && Valid(b) && Valid(query) && Covers(key, b)
    ensures Distance(metric, key, query) <= Distance(metric, b, query)
  {
    var n := MaxDim(key, query);
    forall i | 0 <= i < n
      ensures 0.0 <= Gaps(key, query, n)[i] <= Gaps(b, query, n)[i]
    {
      assert CoversAt(key, b, i);
      GapShrinks(key, b, query, i);
    }
    TotalMonotone(metric, Gaps(key, query, n), Gaps(b, query, n));
    Padding(metric, b, query, n);
  }

  /** The distance of an entry is a lower bound for everything stored below it. */
  lemma EntryNeverFurther(metric: Metric, t: Tree, b: Box, query: Box)
    requires Sound(t) && b in Boxes(t) && Valid(query)
    ensures Valid(b) && Distance(metric, Key(t), query) <= Distance(metric, b, query)
  {
    KeyCovers(t, b);
    KeyNeverFurther(metric, Key(t), b, query);
  }

  /** The distances of two points, dimension by dimension. */
  function PointGaps(p: seq<real>, q: seq<real>, n: nat): (s: seq<real>)
    ensures |s| == n
  {
    seq(n, i requires 0 <= i < n => Abs(At(p, i) - At(q, i)))
  }

  lemma PointsNeverNearer(a: Box, b: Box, p: seq<real>, q: seq<real>, i: nat)
    requires Valid(a) && Valid(b) && InsideAt(p, a, i) && InsideAt(q, b, i)
    ensures 0.0 <= Gap(a, b, i) <= Abs(At(p, i) - At(q, i))
  {
  }

  /** The distance of two boxes is a lower bound for the distances of their points. */
  lemma DistanceBelow(metric: Metric, a: Box, b: Box, p: seq<real>, q: seq<real>)
    requires Valid(a) && Valid(b) && Inside(p, a) && Inside(q, b)
    ensures Distance(metric, a, b) <= Total(metric, PointGaps(p, q, MaxDim(a, b)))
  {
    var n := MaxDim(a, b);
    forall i | 0 <= i < n
      ensures 0.0 <= Gaps(a, b, n)[i] <= PointGaps(p, q, n)[i]
    {
      assert InsideAt(p, a, i) && InsideAt(q, b, i);
      PointsNeverNearer(a, b, p, q, i);
    }
    TotalMonotone(metric, Gaps(a, b, n), PointGaps(p, q, n));
  }

  /** The point of a box nearest to another point, over n dimensions. */
  function Clamp(b: Box, p: seq<real>, n: nat): (q: seq<real>)
    requires Valid(b)
  {
    seq(n, i requires 0 <= i < n => Max(Lo(b, i), Min(Hi(b, i), At(p, i))))
  }

  lemma ClampInside(b: Box, p: seq<real>, n: nat)
    requires Valid(b) && n >= b.dim
    ensures Inside(Clamp(b, p, n), b)
  {
    forall i: nat
      ensures InsideAt(Clamp(b, p, n), b, i)
    {
      LoBelowHi(b, i);
    }
  }

  lemma ClampGap(a: Box, b: Box, i: nat)
    requires Valid(a) && Valid(b)
    ensures var x := Max(Lo(a, i), Min(Hi(a, i), Lo(b, i))); Gap(a, b, i) == Abs(x - Max(Lo(b, i), Min(Hi(b, i), x)))
  {
    LoBelowHi(a, i);
    LoBelowHi(b, i);
  }

  /** The bound is tight: two points of the boxes are exactly that far apart. */
  lemma DistanceAttained(metric: Metric, a: Box, b: Box) returns (p: seq<real>, q: seq<real>)
    requires Valid(a) && Valid(b)
    ensures Inside(p, a) && Inside(q, b) && Total(metric, PointGaps(p, q, MaxDim(a, b))) == Distance(metric, a, b)
  {
    var n := MaxDim(a, b);
    CornerInside(b, false);
    p := Clamp(a, Corner(b, false), n);
    q := Clamp(b, p, n);
    ClampInside(a, Corner(b, false), n);
    ClampInside(b, p, n);
    forall i | 0 <= i < n
      ensures Gaps(a, b, n)[i] == PointGaps(p, q, n)[i]
    {
      ClampGap(a, b, i);
    }
    assert Gaps(a, b, n) == PointGaps(p, q, n);
  }

  /** g_cube_distance for the coordinate ordering; no value for a coordinate that is not positive. */
  function CoordinateDistance(b: Box, coord: int, leaf: bool): Option<real>
    requires Valid(b)
  {
    if coord <= 0 then None
    else if coord > 2 * b.dim then Some(0.0)
    else
      var index, upper := (coord - 1) / 2, (coord - 1) % 2 == 1;
      if b.point then Some(b.x[index])
      else if leaf && upper then Some(Max(b.x[index], b.x[index + b.dim]))
      else Some(Min(b.x[index], b.x[index + b.dim]))
  }

  /** At a leaf an odd coordinate is the lower bound of its dimension and an even one the upper bound. */
  lemma LeafCoordinate(b: Box, i: nat)
    requires Valid(b)
    ensures CoordinateDistance(b, 2 * i + 1, true) == Some(Lo(b, i))
    ensures CoordinateDistance(b, 2 * i + 2, true) == Some(Hi(b, i))
  {
    assert (2 * i + 1) / 2 == i && (2 * i + 1) % 2 == 1;
  }

  /** Above the leaves both are the lower bound. */
  lemma InnerCoordinate(b: Box, i: nat)
    requires Valid(b)
    ensures CoordinateDistance(b, 2 * i + 1, false) == CoordinateDistance(b, 2 * i + 2, false) == Some(Lo(b, i))
  {
    assert (2 * i + 1) / 2 == i && (2 * i + 1) % 2 == 1;
  }

  /** An inner entry never overestimates a coordinate of a box below it, and fails for the same coordinates. */
  lemma CoordinateNeverFurther(t: Tree, b: Box, coord: int)
    requires Sound(t) && b in Boxes(t)
    ensures Valid(b)
    ensures var inner, leaf := CoordinateDistance(Key(t), coord, false), CoordinateDistance(b, coord, true);
      if coord <= 0 then inner == leaf == None else inner.Some? && leaf.Some? && inner.value <= leaf.value
  {
    KeyCovers(t, b);
    if coord > 0 {
      var i := (coord - 1) / 2;
      assert coord == 2 * i + 1 || coord == 2 * i + 2;
      InnerCoordinate(Key(t), i);
      LeafCoordinate(b, i);
      assert CoversAt(Key(t), b, i);
      LoBelowHi(b, i);
    }
  }
}
