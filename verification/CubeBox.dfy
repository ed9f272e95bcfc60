/** N-dimensional boxes: two corners in no particular order, or one for a point; missing dimensions count as zero. */
module CubeBox {
  /** NDBOX: the coordinates of one corner, then, unless the point flag is set, those of the other. */
  datatype Box = Box(point: bool, dim: nat, x: seq<real>)

  predicate Valid(b: Box) {
    |b.x| == if b.point then b.dim else 2 * b.dim
  }

  function Min(a: real, b: real): real {
    if a < b then a else b
  }

  function Max(a: real, b: real): real {
    if a > b then a else b
  }

  lemma MinMax(a: real, b: real, c: real)
    ensures c <= Min(a, b) <==> c <= a && c <= b
    ensures Max(a, b) <= c <==> a <= c && b <= c
  {
  }

  /** LL_COORD and UR_COORD. */
  function LL(b: Box, i: nat): real
    requires Valid(b) && i < b.dim
  {
    b.x[i]
  }

  function UR(b: Box, i: nat): real
    requires Valid(b) && i < b.dim
  {
    if b.point then b.x[i] else b.x[i + b.dim]
  }

  /** The interval that a box covers in any dimension. */
  function Lo(b: Box, i: nat): real
    requires Valid(b)
  {
    if i < b.dim then Min(LL(b, i), UR(b, i)) else 0.0
  }

  function Hi(b: Box, i: nat): real
    requires Valid(b)
  {
    if i < b.dim then Max(LL(b, i), UR(b, i)) else 0.0
  }

  function MaxDim(a: Box, b: Box): nat {
    if a.dim < b.dim then b.dim else a.dim
  }

  predicate CoversAt(k: Box, b: Box, i: nat)
    requires Valid(k) && Valid(b)
  {
    Lo(k, i) <= Lo(b, i) && Hi(b, i) <= Hi(k, i)
  }

  /** k encloses b in every dimension and has at least as many. */
  ghost predicate Covers(k: Box, b: Box)
    requires Valid(k) && Valid(b)
  {
    k.dim >= b.dim && forall i: nat :: CoversAt(k, b, i)
  }

  /** A box from its lower and upper coordinates; the point flag is set when they agree. */
  function FromBounds(lower: seq<real>, upper: seq<real>): (r: Box)
    requires |lower| == |upper|
    ensures Valid(r) && r.dim == |lower|
  {
    if lower == upper then Box(true, |lower|, lower) else Box(false, |lower|, lower + upper)
  }

  function UnionLower(a: Box, b: Box): (s: seq<real>)
    requires Valid(a) && Valid(b)
    ensures |s| == MaxDim(a, b) && forall i :: 0 <= i < |s| ==> s[i] == Min(Lo(a, i), Lo(b, i))
  {
    seq(MaxDim(a, b), k requires 0 <= k < MaxDim(a, b) => Min(Lo(a, k), Lo(b, k)))
  }

  function UnionUpper(a: Box, b: Box): (s: seq<real>)
    requires Valid(a) && Valid(b)
    ensures |s| == MaxDim(a, b) && forall i :: 0 <= i < |s| ==> s[i] == Max(Hi(a, i), Hi(b, i))
  {
    seq(MaxDim(a, b), k requires 0 <= k < MaxDim(a, b) => Max(Hi(a, k), Hi(b, k)))
  }

  /** The smallest box around two boxes. */
  function Union(a: Box, b: Box): (r: Box)
    requires Valid(a) && Valid(b)
    ensures Valid(r) && r.dim == MaxDim(a, b)
  {
    FromBounds(UnionLower(a, b), UnionUpper(a, b))
  }

  lemma BoundsAt(lower: seq<real>, upper: seq<real>, i: nat)
    requires |lower| == |upper| && i < |lower| && lower[i] <= upper[i]
    ensures Lo(FromBounds(lower, upper), i) == lower[i] && Hi(FromBounds(lower, upper), i) == upper[i]
  {
  }

  lemma LoBelowHi(b: Box, i: nat)
    requires Valid(b)
    ensures Lo(b, i) <= Hi(b, i)
  {
  }

  /** In every dimension the union spans exactly the two intervals. */
  lemma UnionBounds(a: Box, b: Box, i: nat)
    requires Valid(a) && Valid(b)
    ensures Lo(Union(a, b), i) == Min(Lo(a, i), Lo(b, i)) && Hi(Union(a, b), i) == Max(Hi(a, i), Hi(b, i))
  {
    if i < MaxDim(a, b) {
      LoBelowHi(a, i);
      LoBelowHi(b, i);
      BoundsAt(UnionLower(a, b), UnionUpper(a, b), i);
    }
  }

  function InterLower(a: Box, b: Box): (s: seq<real>)
    requires Valid(a) && Valid(b)
    ensures |s| == MaxDim(a, b) && forall i :: 0 <= i < |s| ==> s[i] == Max(Lo(a, i), Lo(b, i))
  {
    seq(MaxDim(a, b), k requires 0 <= k < MaxDim(a, b) => Max(Lo(a, k), Lo(b, k)))
  }

  function InterUpper(a: Box, b: Box): (s: seq<real>)
    requires Valid(a) && Valid(b)
    ensures |s| == MaxDim(a, b) && forall i :: 0 <= i < |s| ==> s[i] == Min(Hi(a, i), Hi(b, i))
  {
    seq(MaxDim(a, b), k requires 0 <= k < MaxDim(a, b) => Min(Hi(a, k), Hi(b, k)))
  }

  /** The common part of two boxes; in a dimension where there is none the corners come out crossed. */
  function Inter(a: Box, b: Box): (r: Box)
    requires Valid(a) && Valid(b)
    ensures Valid(r) && r.dim == MaxDim(a, b)
  {
    FromBounds(InterLower(a, b), InterUpper(a, b))
  }

  /** cube_is_point_internal. */
  method IsPoint(b: Box) returns (r: bool)
    requires Valid(b)
    ensures r <==> b.point || forall i: nat | i < b.dim :: LL(b, i) == UR(b, i)
  {
    if b.point {
      return true;
    }
    for i := 0 to b.dim
      invariant forall k: nat | k < i :: LL(b, k) == UR(b, k)
    {
      if LL(b, i) != UR(b, i) {
        return false;
      }
    }
    return true;
  }

  /** The first i dimensions of both halves of the buffer are in place. */
  ghost predicate Filled(x: seq<real>, i: nat, lower: seq<real>, upper: seq<real>) {
    && i <= |lower| == |upper| && |x| == 2 * |lower|
    && x[..i] == lower[..i] && x[|lower|..|lower| + i] == upper[..i]
  }

  method Place(x: array<real>, i: nat, dim: nat, lo: real, hi: real, ghost lower: seq<real>, ghost upper: seq<real>)
    requires i < dim == |lower| && Filled(x[..], i, lower, upper) && lo == lower[i] && hi == upper[i]
    modifies x
    ensures Filled(x[..], i + 1, lower, upper)
  {
    x[i] := lo;
    x[i + dim] := hi;
    assert lower[..i + 1] == lower[..i] + [lo] && upper[..i + 1] == upper[..i] + [hi];
    assert x[..i] == old(x[..i]) && x[dim..dim + i] == old(x[dim..dim + i]);
  }

  /** The end of cube_union_v0 and cube_inter: a result whose corners agree is stored as a point. */
  method Finish(x: array<real>, ghost lower: seq<real>, ghost upper: seq<real>) returns (r: Box)
    requires Filled(x[..], |lower|, lower, upper)
    ensures r == FromBounds(lower, upper)
  {
    var dim := x.Length / 2;
    assert x[..] == lower + upper;
    r := Box(false, dim, x[..]);
    var point := IsPoint(r);
    assert forall i: nat :: i < dim ==> LL(r, i) == lower[i] && UR(r, i) == upper[i];
    assert point <==> lower == upper;
    if point {
      r := Box(true, dim, x[..dim]);
      assert x[..dim] == lower;
    }
  }

  lemma UnionCommutes(a: Box, b: Box)
    requires Valid(a) && Valid(b)
    ensures Union(a, b) == Union(b, a)
  {
    assert UnionLower(a, b) == UnionLower(b, a) && UnionUpper(a, b) == UnionUpper(b, a);
  }

  lemma InterCommutes(a: Box, b: Box)
    requires Valid(a) && Valid(b)
    ensures Inter(a, b) == Inter(b, a)
  {
    assert InterLower(a, b) == InterLower(b, a) && InterUpper(a, b) == InterUpper(b, a);
  }

  /** One dimension of cube_union_v0: of both boxes, or of the larger one against zero. */
  method UnionDim(a: Box, b: Box, i: nat) returns (lo: real, hi: real)
    requires Valid(a) && Valid(b) && b.dim <= a.dim && i < a.dim
    ensures lo == UnionLower(a, b)[i] && hi == UnionUpper(a, b)[i]
  {
    if i < b.dim {
      lo := Min(Min(LL(a, i), UR(a, i)), Min(LL(b, i), UR(b, i)));
      hi := Max(Max(LL(a, i), UR(a, i)), Max(LL(b, i), UR(b, i)));
    } else {
      lo, hi := Min(0.0, Min(LL(a, i), UR(a, i))), Max(0.0, Max(LL(a, i), UR(a, i)));
    }
  }

  /**
   * cube_union_v0: the box itself when both are one and the same, else the larger one first, dimension by dimension.
   */
  method UnionV0(a: Box, b: Box, same: bool) returns (r: Box)
    requires Valid(a) && Valid(b) && (same ==> a == b)
    ensures r == if same then a else Union(a, b)
    decreases a.dim < b.dim
  {
    if same {
      return a;
    }
    if a.dim < b.dim {
      r := UnionV0(b, a, false);
      UnionCommutes(a, b);
      return;
    }
    ghost var lower, upper := UnionLower(a, b), UnionUpper(a, b);
    var x := new real[2 * a.dim](_ => 0.0);
    for i := 0 to a.dim
      invariant Filled(x[..], i, lower, upper)
    {
      var lo, hi := UnionDim(a, b, i);
      Place(x, i, a.dim, lo, hi, lower, upper);
    }
    r := Finish(x, lower, upper);
  }

  /** One dimension of cube_inter. */
  method InterDim(a: Box, b: Box, i: nat) returns (lo: real, hi: real)
    requires Valid(a) && Valid(b) && b.dim <= a.dim && i < a.dim
    ensures lo == InterLower(a, b)[i] && hi == InterUpper(a, b)[i]
  {
    if i < b.dim {
      lo := Max(Min(LL(a, i), UR(a, i)), Min(LL(b, i), UR(b, i)));
      hi := Min(Max(LL(a, i), UR(a, i)), Max(LL(b, i), UR(b, i)));
    } else {
      lo, hi := Max(0.0, Min(LL(a, i), UR(a, i))), Min(0.0, Max(LL(a, i), UR(a, i)));
    }
  }

  /** cube_inter. */
  method CubeInter(a: Box, b: Box) returns (r: Box)
    requires Valid(a) && Valid(b)
    ensures r == Inter(a, b)
    decreases a.dim < b.dim
  {
    if a.dim < b.dim {
      r := CubeInter(b, a);
      InterCommutes(a, b);
      return;
    }
    ghost var lower, upper := InterLower(a, b), InterUpper(a, b);
    var x := new real[2 * a.dim](_ => 0.0);
    for i := 0 to a.dim
      invariant Filled(x[..], i, lower, upper)
    {
      var lo, hi := InterDim(a, b, i);
      Place(x, i, a.dim, lo, hi, lower, upper);
    }
    r := Finish(x, lower, upper);
  }

  lemma UnionCoversAt(a: Box, b: Box, k: Box, i: nat)
    requires Valid(a) && Valid(b) && Valid(k)
    ensures CoversAt(k, Union(a, b), i) <==> CoversAt(k, a, i) && CoversAt(k, b, i)
  {
    UnionBounds(a, b, i);
    MinMax(Lo(a, i), Lo(b, i), Lo(k, i));
    MinMax(Hi(a, i), Hi(b, i), Hi(k, i));
  }

  /** The union is the least box that encloses both: a box encloses it just when it encloses them. */
  lemma UnionCovers(a: Box, b: Box, k: Box)
    requires Valid(a) && Valid(b) && Valid(k)
    ensures Covers(k, Union(a, b)) <==> Covers(k, a) && Covers(k, b)
  {
    forall i: nat
      ensures CoversAt(k, Union(a, b), i) <==> CoversAt(k, a, i) && CoversAt(k, b, i)
    {
      UnionCoversAt(a, b, k, i);
    }
  }

  lemma CoversItself(b: Box)
    requires Valid(b)
    ensures Covers(b, b)
  {
  }

  lemma CoversTransitive(a: Box, b: Box, c: Box)
    requires Valid(a) && Valid(b) && Valid(c) && Covers(a, b) && Covers(b, c)
    ensures Covers(a, c)
  {
    forall i: nat
      ensures CoversAt(a, c, i)
    {
      assert CoversAt(a, b, i) && CoversAt(b, c, i);
    }
  }

  function Abs(a: real): real {
    if a < 0.0 then -a else a
  }

  /** The product of some numbers, first to last. */
  function Product(s: seq<real>): real {
    if s == [] then 1.0 else s[0] * Product(s[1..])
  }

  lemma {:induction false} ProductLast(s: seq<real>, x: real)
    ensures Product(s + [x]) == Product(s) * x
  {
    if s == [] {
      assert s + [x] == [x] && [x][1..] == [];
    } else {
      ProductLast(s[1..], x);
      assert (s + [x])[1..] == s[1..] + [x];
    }
  }

  /** The lengths of the first n sides. */
  function SideLengths(b: Box, n: nat): (s: seq<real>)
    requires Valid(b) && n <= b.dim
    ensures |s| == n && forall i :: 0 <= i < n ==> s[i] == Hi(b, i) - Lo(b, i)
  {
    seq(n, i requires 0 <= i < n => Hi(b, i) - Lo(b, i))
  }

  lemma SidesLast(b: Box, n: nat)
    requires Valid(b) && n < b.dim
    ensures SideLengths(b, n + 1) == SideLengths(b, n) + [Abs(UR(b, n) - LL(b, n))]
  {
  }

  /** The product of the side lengths; zero for points and without dimensions. */
  function Size(b: Box): real
    requires Valid(b)
  {
    if b.point || b.dim == 0 then 0.0 else Product(SideLengths(b, b.dim))
  }

  /** rt_cube_size. */
  method CubeSize(b: Box) returns (r: real)
    requires Valid(b)
    ensures r == Size(b)
  {
    if b.point || b.dim == 0 {
      return 0.0;
    }
    r := 1.0;
    var i := 0;
    while i < b.dim
      invariant 0 <= i <= b.dim
      invariant r == Product(SideLengths(b, i))
    {
      SidesLast(b, i);
      ProductLast(SideLengths(b, i), Abs(UR(b, i) - LL(b, i)));
      r := r * Abs(UR(b, i) - LL(b, i));
      i := i + 1;
    }
  }

  /** Sizes multiply: a box over two groups of dimensions is as large as the two parts together. */
  lemma {:induction false} ProductConcat(s: seq<real>, t: seq<real>)
    ensures Product(s + t) == Product(s) * Product(t)
  {
    if s == [] {
      assert s + t == t;
    } else {
      ProductConcat(s[1..], t);
      assert (s + t)[1..] == s[1..] + t;
      ProductAssociates(s[0], Product(s[1..]), Product(t));
    }
  }

  lemma ProductAssociates(x: real, y: real, z: real)
    ensures x * (y * z) == (x * y) * z
  {
  }
}
