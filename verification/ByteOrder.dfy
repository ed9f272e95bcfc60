/** Byte strings in the order of byteacmp: memcmp over the shorter length, then the shorter first. */
module ByteOrder {
  type byte = x: int | 0 <= x < 256

  type Bytes = seq<byte>

  /** Length of the longest common prefix. */
  function CommonPrefix(a: Bytes, b: Bytes): (p: nat)
    ensures p <= |a| && p <= |b|
    ensures a[..p] == b[..p]
    ensures p < |a| && p < |b| ==> a[p] != b[p]
  {
    if a == [] || b == [] || a[0] != b[0] then 0
    else
      var p := CommonPrefix(a[1..], b[1..]);
      assert a[..p + 1] == [a[0]] + a[1..][..p];
      assert b[..p + 1] == [b[0]] + b[1..][..p];
      p + 1
  }

  /** The first `c` bytes, or everything when there are fewer. */
  function Take(a: Bytes, c: nat): Bytes {
    if c <= |a| then a[..c] else a
  }

  /** a <= b: decided by the first differing byte, or by a being a prefix of b. */
  predicate Le(a: Bytes, b: Bytes) {
    var p := CommonPrefix(a, b);
    p == |a| || (p < |b| && a[p] < b[p])
  }

  /** The first byte where two strings differ, if there is one, is smaller in a. */
  predicate SmallerAt(a: Bytes, b: Bytes, p: nat) {
    p < |a| && p < |b| && a[..p] == b[..p] && a[p] < b[p]
  }

  /** a is at most b just when it begins b or is smaller at the first difference. */
  lemma LeMeans(a: Bytes, b: Bytes)
    ensures Le(a, b) <==> a <= b || exists p: nat :: SmallerAt(a, b, p)
  {
    var q := CommonPrefix(a, b);
    if q < |a| && q < |b| && a[q] < b[q] {
      assert SmallerAt(a, b, q);
    }
    if a <= b {
      CommonPrefixIs(a, b, |a|);
    }
    if p: nat :| SmallerAt(a, b, p) {
      CommonPrefixIs(a, b, p);
    }
  }

  /** The length of what two strings have in common at the front. */
  predicate Shared(a: Bytes, b: Bytes, p: nat) {
    p <= |a| && p <= |b| && a[..p] == b[..p] && (p < |a| && p < |b| ==> a[p] != b[p])
  }

  /** The first n bytes of a string, or all of it. */
  predicate CutTo(a: Bytes, n: nat, r: Bytes) {
    r <= a && |r| == if |a| < n then |a| else n
  }

  predicate Lt(a: Bytes, b: Bytes) {
    !Le(b, a)
  }

  /** Bytes inside a common prefix agree. */
  lemma Agree(a: Bytes, b: Bytes, p: nat, i: nat)
    requires p <= |a| && p <= |b| && a[..p] == b[..p]
    requires i < p
    ensures a[i] == b[i]
  {
    assert a[i] == a[..p][i] == b[..p][i] == b[i];
  }

  /** A common prefix whose next byte differs, or where a string ends, is the longest one. */
  lemma CommonPrefixIs(a: Bytes, b: Bytes, p: nat)
    requires p <= |a| && p <= |b| && a[..p] == b[..p]
    requires p < |a| && p < |b| ==> a[p] != b[p]
    ensures CommonPrefix(a, b) == p
  {
    var q := CommonPrefix(a, b);
    if q < p {
      Agree(a, b, p, q);
    } else if p < q {
      Agree(a, b, q, p);
    }
  }

  lemma CommonPrefixSymmetric(a: Bytes, b: Bytes)
    ensures CommonPrefix(a, b) == CommonPrefix(b, a)
  {
    CommonPrefixIs(b, a, CommonPrefix(a, b));
  }

  /** Two of the three common prefixes of three strings bound the third. */
  lemma CommonPrefixThree(a: Bytes, b: Bytes, c: Bytes)
    ensures var p, q, r := CommonPrefix(a, b), CommonPrefix(b, c), CommonPrefix(a, c);
      (p < q ==> r == p) && (q < p ==> r == q) && (p == q ==> r >= p)
  {
    var p, q := CommonPrefix(a, b), CommonPrefix(b, c);
    var m := if p < q then p else q;
    assert a[..m] == c[..m] by {
      assert a[..m] == a[..p][..m];
      assert b[..m] == b[..p][..m] == b[..q][..m];
      assert c[..m] == c[..q][..m];
    }
    if p < q {
      Agree(b, c, q, p);
      CommonPrefixIs(a, c, p);
    } else if q < p {
      Agree(a, b, p, q);
      CommonPrefixIs(a, c, q);
    } else {
      var r := CommonPrefix(a, c);
      if r < m {
        Agree(a, c, m, r);
      }
    }
  }

  lemma LeTransitive(a: Bytes, b: Bytes, c: Bytes)
    requires Le(a, b) && Le(b, c)
    ensures Le(a, c)
  {
    CommonPrefixThree(a, b, c);
    var p, q, r := CommonPrefix(a, b), CommonPrefix(b, c), CommonPrefix(a, c);
    if p < q {
      Agree(b, c, q, p);
    } else if q < p {
      Agree(a, b, p, q);
    } else if r < |a| && p < r {
      Agree(a, c, r, p);
    }
  }

  lemma LeAntisymmetric(a: Bytes, b: Bytes)
    requires Le(a, b) && Le(b, a)
    ensures a == b
  {
    CommonPrefixSymmetric(a, b);
    assert a == a[..|a|] && b == b[..|b|];
  }

  lemma LeTotal(a: Bytes, b: Bytes)
    ensures Le(a, b) || Le(b, a)
    ensures Le(a, a)
  {
    CommonPrefixSymmetric(a, b);
    CommonPrefixIs(a, a, |a|);
  }

  /** A prefix is never above the string it begins. */
  lemma PrefixLe(a: Bytes, b: Bytes)
    requires a <= b
    ensures Le(a, b) && CommonPrefix(a, b) == |a|
  {
    CommonPrefixIs(a, b, |a|);
  }

  /** Cutting both sides at the same length keeps their order. */
  lemma TakeMonotone(a: Bytes, b: Bytes, c: nat)
    requires Le(a, b)
    ensures Le(Take(a, c), Take(b, c))
  {
    var a', b' := Take(a, c), Take(b, c);
    var p := CommonPrefix(a, b);
    var m := if p < c then p else c;
    assert a'[..m] == b'[..m] by {
      assert a'[..m] == a[..p][..m];
      assert b'[..m] == b[..p][..m];
    }
    CommonPrefixIs(a', b', m);
  }

  /** A cut past the common prefix keeps it. */
  lemma TakeKeepsCommonPrefix(a: Bytes, b: Bytes, c: nat)
    requires c > CommonPrefix(a, b)
    ensures CommonPrefix(Take(a, c), Take(b, c)) == CommonPrefix(a, b)
  {
    var p := CommonPrefix(a, b);
    assert Take(a, c)[..p] == a[..p] && Take(b, c)[..p] == b[..p];
    CommonPrefixIs(Take(a, c), Take(b, c), p);
  }

  /** Strings that differ stay different when cut past their common prefix. */
  lemma TakeKeepsDifference(a: Bytes, b: Bytes, c: nat)
    requires c > CommonPrefix(a, b)
    ensures Take(a, c) == Take(b, c) ==> a == b == Take(a, c)
  {
    var p := CommonPrefix(a, b);
    if Take(a, c) == Take(b, c) {
      CommonPrefixIs(Take(a, c), Take(b, c), |Take(a, c)|);
      TakeKeepsCommonPrefix(a, b, c);
      if p == |a| || p == |b| {
        assert a == a[..p] && b == b[..p];
      }
    }
  }

  /** Widening a range cannot lengthen the prefix its two ends share. */
  lemma WiderSharesLess(l: Bytes, l': Bytes, u': Bytes, u: Bytes)
    requires Le(l, l') && Le(l', u') && Le(u', u)
    ensures CommonPrefix(l, u) <= CommonPrefix(l', u')
  {
    var k := CommonPrefix(l, u);
    LeTransitive(l', u', u);
    // l' keeps the first k bytes of l, being between l and u; so does u'
    BetweenKeepsPrefix(l[..k], l, l', u);
    LeTransitive(l, l', u');
    BetweenKeepsPrefix(l[..k], l, u', u);
    var r := CommonPrefix(l', u');
    if r < k {
      Agree(l', u', k, r);
    }
  }

  /** A string between two extensions of f is itself an extension of f. */
  lemma BetweenKeepsPrefix(f: Bytes, a: Bytes, q: Bytes, b: Bytes)
    requires f <= a && f <= b
    requires Le(a, q) && Le(q, b)
    ensures f <= q
  {
    var s, t := CommonPrefix(a, q), CommonPrefix(q, b);
    if s < |f| {
      Agree(f, a, |f|, s);
      Agree(f, b, |f|, s);
      if s < t {
        Agree(q, b, t, s);
      } else if t < s {
        Agree(a, q, s, t);
      }
    } else {
      assert q[..|f|] == q[..s][..|f|] == a[..s][..|f|] == a[..|f|] == f;
    }
  }

  /** When v cut at c is at most u, and u is no longer than c, then v is at most u or begins with u. */
  lemma CutDecides(v: Bytes, u: Bytes, c: nat)
    requires Le(Take(v, c), u) && |u| <= c
    ensures Le(v, u) || u <= v
  {
    var v' := Take(v, c);
    var p := CommonPrefix(v', u);
    if p == |u| {
      assert u == u[..p] == v'[..p] == v[..p];
    } else {
      assert v[..p] == v'[..p] == u[..p];
      CommonPrefixIs(v, u, p);
    }
  }
}
