/** cube_cmp_v0, the comparison behind the equality strategy and the ordering operators. */
module CubeOrder {
  import opened CubeBox

  function Sign(x: real, y: real): int {
    if x > y then 1 else if x < y then -1 else 0
  }

  function MinDim(a: Box, b: Box): nat {
    if a.dim < b.dim then a.dim else b.dim
  }

  /**
   * The j-th value compared when m dimensions are common and n are there at all: the lower bounds of the
   * common dimensions, their upper bounds, then the lower and the upper bounds of the others.
   */
  function Key(b: Box, m: nat, n: nat, j: nat): real
    requires Valid(b) && m <= n && j < 2 * n
  {
    if j < m then Lo(b, j) else if j < 2 * m then Hi(b, j - m) else if j < m + n then Lo(b, j - m) else Hi(b, j - n)
  }

  /** The sign of the first difference among the first k values. */
  function First(a: Box, b: Box, m: nat, n: nat, k: nat): int
    requires Valid(a) && Valid(b) && m <= n && k <= 2 * n
  {
    if k == 0 then 0
    else
      var c := First(a, b, m, n, k - 1);
      if c != 0 then c else Sign(Key(a, m, n, k - 1), Key(b, m, n, k - 1))
  }

  /** Values first, then the number of dimensions. */
  function Cmp(a: Box, b: Box): int
    requires Valid(a) && Valid(b)
  {
    var n := MaxDim(a, b);
    var c := First(a, b, MinDim(a, b), n, 2 * n);
    if c != 0 then c else if a.dim > b.dim then 1 else if a.dim < b.dim then -1 else 0
  }

  /** The lower, or the upper, bounds in dimensions m up to n. */
  function BoundsFrom(b: Box, upper: bool, m: nat, n: nat): (s: seq<real>)
    requires Valid(b) && m <= n
    ensures |s| == n - m
  {
    seq(n - m, i requires 0 <= i < n - m => if upper then Hi(b, m + i) else Lo(b, m + i))
  }

  /**
   * All values compared, in order: the bounds of the m common dimensions, lower ones first, then those of the others.
   */
  function Compared(b: Box, m: nat, n: nat): (s: seq<real>)
    requires Valid(b) && m <= n
    ensures |s| == 2 * n
  {
    BoundsFrom(b, false, 0, m) + BoundsFrom(b, true, 0, m) + BoundsFrom(b, false, m, n) + BoundsFrom(b, true, m, n)
  }

  lemma ComparedIs(b: Box, m: nat, n: nat, j: nat)
    requires Valid(b) && m <= n && j < 2 * n
    ensures Compared(b, m, n)[j] == Key(b, m, n, j)
  {
  }

  /** The result of comparing two lists: by their first difference, and by length of the boxes if there is none. */
  ghost predicate DecidedBy(x: seq<real>, y: seq<real>, d: int, r: int)
    requires |x| == |y|
  {
    if x == y then r == (if d > 0 then 1 else if d < 0 then -1 else 0)
    else exists j :: 0 <= j < |x| && x[..j] == y[..j] && x[j] != y[j] && r == if x[j] > y[j] then 1 else -1
  }

  /** A difference, once found, decides. */
  lemma {:induction false} Decided(a: Box, b: Box, m: nat, n: nat, j: nat, k: nat)
    requires Valid(a) && Valid(b) && m <= n && j <= k <= 2 * n && First(a, b, m, n, j) != 0
    ensures First(a, b, m, n, k) == First(a, b, m, n, j)
  {
    if j < k {
      Decided(a, b, m, n, j, k - 1);
    }
  }

  /** The comparison is zero exactly while all values agree. */
  lemma {:induction false} Agreement(a: Box, b: Box, m: nat, n: nat, k: nat)
    requires Valid(a) && Valid(b) && m <= n && k <= 2 * n
    ensures First(a, b, m, n, k) == 0 <==> forall j: nat | j < k :: Key(a, m, n, j) == Key(b, m, n, j)
  {
    if k > 0 {
      Agreement(a, b, m, n, k - 1);
    }
  }

  lemma {:induction false} Mirrored(a: Box, b: Box, m: nat, n: nat, k: nat)
    requires Valid(a) && Valid(b) && m <= n && k <= 2 * n
    ensures First(b, a, m, n, k) == -First(a, b, m, n, k)
  {
    if k > 0 {
      Mirrored(a, b, m, n, k - 1);
    }
  }

  lemma CmpAntisymmetric(a: Box, b: Box)
    requires Valid(a) && Valid(b)
    ensures Cmp(b, a) == -Cmp(a, b)
  {
    var n := MaxDim(a, b);
    Mirrored(a, b, MinDim(a, b), n, 2 * n);
  }

  /** One comparison: it decides if the values differ, and otherwise the next one is reached. */
  lemma Step(a: Box, b: Box, m: nat, n: nat, k: nat, x: real, y: real)
    requires Valid(a) && Valid(b) && m <= n && k < 2 * n && First(a, b, m, n, k) == 0
    requires x == Key(a, m, n, k) && y == Key(b, m, n, k)
    ensures First(a, b, m, n, if x == y then k + 1 else 2 * n) == Sign(x, y)
  {
    if x != y {
      Decided(a, b, m, n, k + 1, 2 * n);
    }
  }

  /** The two loops over the dimensions that both boxes have. */
  method CompareCommon(a: Box, b: Box) returns (r: int)
    requires Valid(a) && Valid(b)
    ensures var m, n := MinDim(a, b), MaxDim(a, b);
      if r == 0 then First(a, b, m, n, 2 * m) == 0 else First(a, b, m, n, 2 * n) == r
  {
    var dim := MinDim(a, b);
    ghost var n := MaxDim(a, b);
    for i := 0 to dim
      invariant First(a, b, dim, n, i) == 0
    {
      var x, y := Min(LL(a, i), UR(a, i)), Min(LL(b, i), UR(b, i));
      Step(a, b, dim, n, i, x, y);
      if x > y {
        return 1;
      }
      if x < y {
        return -1;
      }
    }
    for i := 0 to dim
      invariant First(a, b, dim, n, dim + i) == 0
    {
      var x, y := Max(LL(a, i), UR(a, i)), Max(LL(b, i), UR(b, i));
      Step(a, b, dim, n, dim + i, x, y);
      if x > y {
        return 1;
      }
      if x < y {
        return -1;
      }
    }
    return 0;
  }

  lemma ExtraKeys(a: Box, b: Box, i: nat)
    requires Valid(a) && Valid(b) && b.dim <= i < a.dim
    ensures Key(a, b.dim, a.dim, b.dim + i) == Lo(a, i) && Key(b, b.dim, a.dim, b.dim + i) == 0.0
    ensures Key(a, b.dim, a.dim, a.dim + i) == Hi(a, i) && Key(b, b.dim, a.dim, a.dim + i) == 0.0
  {
  }

  /** The two loops that compare the extra dimensions of the larger box to zero. */
  method CompareExtraLower(a: Box, b: Box) returns (r: int)
    requires Valid(a) && Valid(b) && a.dim > b.dim && First(a, b, b.dim, a.dim, 2 * b.dim) == 0
    ensures r == First(a, b, b.dim, a.dim, if r == 0 then b.dim + a.dim else 2 * a.dim)
  {
    for i := b.dim to a.dim
      invariant First(a, b, b.dim, a.dim, b.dim + i) == 0
    {
      var x := Min(LL(a, i), UR(a, i));
      ExtraKeys(a, b, i);
      Step(a, b, b.dim, a.dim, b.dim + i, x, 0.0);
      if x > 0.0 {
        return 1;
      }
      if x < 0.0 {
        return -1;
      }
    }
    return 0;
  }

  method CompareExtraUpper(a: Box, b: Box) returns (r: int)
    requires Valid(a) && Valid(b) && a.dim > b.dim && First(a, b, b.dim, a.dim, b.dim + a.dim) == 0
    ensures r == First(a, b, b.dim, a.dim, 2 * a.dim)
  {
    for i := b.dim to a.dim
      invariant First(a, b, b.dim, a.dim, a.dim + i) == 0
    {
      var x := Max(LL(a, i), UR(a, i));
      ExtraKeys(a, b, i);
      Step(a, b, b.dim, a.dim, a.dim + i, x, 0.0);
      if x > 0.0 {
        return 1;
      }
      if x < 0.0 {
        return -1;
      }
    }
    return 0;
  }

  method CompareExtra(a: Box, b: Box) returns (r: int)
    requires Valid(a) && Valid(b) && a.dim > b.dim && First(a, b, b.dim, a.dim, 2 * b.dim) == 0
    ensures r == First(a, b, b.dim, a.dim, 2 * a.dim)
  {
    r := CompareExtraLower(a, b);
    if r == 0 {
      r := CompareExtraUpper(a, b);
    }
  }

  /** The four loops; the two mirrored branches for the extra dimensions share one method. */
  method Compare(a: Box, b: Box) returns (r: int)
    requires Valid(a) && Valid(b)
    ensures r == Cmp(a, b)
  {
    r := CompareCommon(a, b);
    if r != 0 {
      return;
    }
    if a.dim > b.dim {
      r := CompareExtra(a, b);
      r := if r == 0 then 1 else r;
    } else if a.dim < b.dim {
      Mirrored(a, b, a.dim, b.dim, 2 * a.dim);
      r := CompareExtra(b, a);
      Mirrored(a, b, a.dim, b.dim, 2 * b.dim);
      r := if r == 0 then -1 else -r;
    }
  }

  ghost predicate SameBox(a: Box, b: Box)
    requires Valid(a) && Valid(b)
  {
    a.dim == b.dim && forall i: nat :: Lo(a, i) == Lo(b, i) && Hi(a, i) == Hi(b, i)
  }

  lemma KeyBounds(b: Box, n: nat, i: nat)
    requires Valid(b) && i < n
    ensures Key(b, n, n, i) == Lo(b, i) && Key(b, n, n, i + n) == Hi(b, i)
  {
  }

  /** Boxes compare equal exactly when they have the same dimensions and span the same intervals. */
  lemma CmpEqual(a: Box, b: Box)
    requires Valid(a) && Valid(b)
    ensures Cmp(a, b) == 0 <==> SameBox(a, b)
  {
    var n := MaxDim(a, b);
    if a.dim == b.dim {
      Agreement(a, b, n, n, 2 * n);
      if Cmp(a, b) == 0 {
        forall i: nat
          ensures Lo(a, i) == Lo(b, i) && Hi(a, i) == Hi(b, i)
        {
          if i < n {
            KeyBounds(a, n, i);
            KeyBounds(b, n, i);
          }
        }
      }
    }
  }

  lemma {:induction false} FirstTransitive(a: Box, b: Box, c: Box, m: nat, n: nat, k: nat)
    requires Valid(a) && Valid(b) && Valid(c) && m <= n && k <= 2 * n
    requires First(a, b, m, n, k) <= 0 && First(b, c, m, n, k) <= 0
    ensures First(a, c, m, n, k) <= 0
    ensures First(a, c, m, n, k) == 0 ==> First(a, b, m, n, k) == 0 && First(b, c, m, n, k) == 0
  {
    if k > 0 {
      FirstTransitive(a, b, c, m, n, k - 1);
    }
  }

  predicate Le(a: Box, b: Box)
    requires Valid(a) && Valid(b)
  {
    Cmp(a, b) <= 0
  }

  /** With no common dimensions, or none but common ones, the order of the values is the same. */
  lemma {:induction false} SameKeys(a: Box, b: Box, n: nat, k: nat)
    requires Valid(a) && Valid(b) && k <= 2 * n
    ensures First(a, b, 0, n, k) == First(a, b, n, n, k)
  {
    if k > 0 {
      SameKeys(a, b, n, k - 1);
    }
  }

  /** Boxes with no dimensions or d of them are all compared over the same d dimensions. */
  lemma CommonForm(a: Box, b: Box, d: nat)
    requires Valid(a) && Valid(b) && a.dim in {0, d} && b.dim in {0, d}
    ensures var c := First(a, b, d, d, 2 * d);
      Cmp(a, b) == if c != 0 then c else if a.dim > b.dim then 1 else if a.dim < b.dim then -1 else 0
  {
    SameKeys(a, b, d, 2 * d);
    Agreement(a, b, d, d, 2 * d);
  }

  lemma LeTransitive(a: Box, b: Box, c: Box, d: nat)
    requires Valid(a) && Valid(b) && Valid(c) && a.dim in {0, d} && b.dim in {0, d} && c.dim in {0, d}
    requires Le(a, b) && Le(b, c)
    ensures Le(a, c)
  {
    CommonForm(a, b, d);
    CommonForm(b, c, d);
    CommonForm(a, c, d);
    FirstTransitive(a, b, c, d, d, 2 * d);
  }

  /** The first difference decides the comparison. */
  lemma FirstDifference(a: Box, b: Box, k: nat)
    requires Valid(a) && Valid(b) && k < 2 * MaxDim(a, b)
    requires var m, n := MinDim(a, b), MaxDim(a, b); forall j: nat | j < k :: Key(a, m, n, j) == Key(b, m, n, j)
    requires var m, n := MinDim(a, b), MaxDim(a, b); Key(a, m, n, k) != Key(b, m, n, k)
    ensures var m, n := MinDim(a, b), MaxDim(a, b); Cmp(a, b) == Sign(Key(a, m, n, k), Key(b, m, n, k))
  {
    var m, n := MinDim(a, b), MaxDim(a, b);
    Agreement(a, b, m, n, k);
    Decided(a, b, m, n, k + 1, 2 * n);
  }

  /** Where two lists first differ. */
  lemma {:induction false} Difference(x: seq<real>, y: seq<real>) returns (j: nat)
    requires |x| == |y| && x != y
    ensures j < |x| && x[..j] == y[..j] && x[j] != y[j]
  {
    var n := |x| - 1;
    assert x == x[..n] + [x[n]] && y == y[..n] + [y[n]];
    if x[..n] == y[..n] {
      j := n;
    } else {
      j := Difference(x[..n], y[..n]);
      assert x[..n][..j] == x[..j] && y[..n][..j] == y[..j];
    }
  }

  /** The comparison, told by the bounds in the order in which they are looked at. */
  lemma CmpMeans(a: Box, b: Box)
    requires Valid(a) && Valid(b)
    ensures var m, n := MinDim(a, b), MaxDim(a, b);
      DecidedBy(Compared(a, m, n), Compared(b, m, n), a.dim - b.dim, Cmp(a, b))
  {
    var m, n := MinDim(a, b), MaxDim(a, b);
    var x, y := Compared(a, m, n), Compared(b, m, n);
    forall j: nat | j < 2 * n
      ensures x[j] == Key(a, m, n, j) && y[j] == Key(b, m, n, j)
    {
      ComparedIs(a, m, n, j);
      ComparedIs(b, m, n, j);
    }
    if x == y {
      Agreement(a, b, m, n, 2 * n);
    } else {
      var j := Difference(x, y);
      forall k: nat | k < j
        ensures Key(a, m, n, k) == Key(b, m, n, k)
      {
        assert x[..j][k] == y[..j][k];
      }
      FirstDifference(a, b, j);
    }
  }

  /** cube_cmp_v0. */
  method CmpV0(a: Box, b: Box) returns (r: int)
    requires Valid(a) && Valid(b)
    ensures r == Cmp(a, b)
    ensures var m, n := MinDim(a, b), MaxDim(a, b);
      DecidedBy(Compared(a, m, n), Compared(b, m, n), a.dim - b.dim, r)
  {
    CmpMeans(a, b);
    r := Compare(a, b);
  }

  /** n dimensions, all zero but the first, which reaches up to top, and d, which lies at side. */
  function Slab(n: nat, d: nat, top: real, side: real): (r: Box)
    requires 0 < d
    ensures Valid(r) && r.dim == n
  {
    FromBounds(
      seq(n, i => if i == d then side else 0.0),
      seq(n, i => if i == 0 then top else if i == d then side else 0.0))
  }

  lemma SlabAt(n: nat, d: nat, top: real, side: real, i: nat)
    requires 0 < d && 0.0 <= top
    ensures i < n && i == d ==> Lo(Slab(n, d, top, side), i) == side
    ensures i != d || i >= n ==> Lo(Slab(n, d, top, side), i) == 0.0
    ensures 0 == i < n ==> Hi(Slab(n, d, top, side), i) == top
  {
    var lower, upper := seq(n, i => if i == d then side else 0.0),
      seq(n, i => if i == 0 then top else if i == d then side else 0.0);
    if i < n {
      BoundsAt(lower, upper, i);
    }
  }

  lemma SlabKeys(n: nat, d: nat, top: real, side: real, m: nat, j: nat)
    requires 0 < d <= m && n <= m && 0.0 <= top && j < d
    ensures Key(Slab(n, d, top, side), d, m, j) == Key(Slab(n, d, top, side), m, m, j) == 0.0
  {
    SlabAt(n, d, top, side, j);
  }

  /** Over two different positive numbers of dimensions the comparison runs in a circle. */
  lemma MixedCircle(d: nat, e: nat)
    requires 0 < d < e
    ensures var a, b, c := Slab(e, d, 1.0, 5.0), Slab(d, d, 2.0, 0.0), Slab(e, d, 3.0, 4.0);
      Le(a, b) && Le(b, c) && !Le(a, c)
  {
    var a, b, c := Slab(e, d, 1.0, 5.0), Slab(d, d, 2.0, 0.0), Slab(e, d, 3.0, 4.0);
    forall j: nat | j < d
      ensures Key(a, d, e, j) == Key(b, d, e, j) == Key(c, d, e, j) == 0.0 && Key(a, e, e, j) == Key(c, e, e, j) == 0.0
    {
      SlabKeys(e, d, 1.0, 5.0, e, j);
      SlabKeys(d, d, 2.0, 0.0, e, j);
      SlabKeys(e, d, 3.0, 4.0, e, j);
    }
    SlabAt(e, d, 1.0, 5.0, 0);
    SlabAt(d, d, 2.0, 0.0, 0);
    SlabAt(e, d, 3.0, 4.0, 0);
    FirstDifference(a, b, d);
    FirstDifference(b, c, d);
    SlabAt(e, d, 1.0, 5.0, d);
    SlabAt(e, d, 3.0, 4.0, d);
    FirstDifference(a, c, d);
  }

  ghost predicate TransitiveOver(dims: set<nat>) {
    forall a, b, c | Valid(a) && Valid(b) && Valid(c) && a.dim in dims && b.dim in dims && c.dim in dims ::
      Le(a, b) && Le(b, c) ==> Le(a, c)
  }

  /** The comparison orders boxes of given dimensions exactly when no two positive ones differ. */
  lemma TransitiveExactly(dims: set<nat>)
    ensures TransitiveOver(dims) <==> forall d, e | d in dims && e in dims && 0 < d && 0 < e :: d == e
  {
    if TransitiveOver(dims) {
      forall d, e | d in dims && e in dims && 0 < d && 0 < e
        ensures d == e
      {
        if d < e {
          MixedCircle(d, e);
        } else if e < d {
          MixedCircle(e, d);
        }
      }
    }
    if forall d, e | d in dims && e in dims && 0 < d && 0 < e :: d == e {
      forall a, b, c | Valid(a) && Valid(b) && Valid(c) && a.dim in dims && b.dim in dims && c.dim in dims && Le(a, b)
        && Le(b, c)
        ensures Le(a, c)
      {
        LeTransitive(a, b, c, if a.dim > 0 then a.dim else if b.dim > 0 then b.dim else c.dim);
      }
    }
  }
}
