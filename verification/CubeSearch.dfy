/** Searching a GiST over boxes: the leaf and internal tests, and what the descent finds. */
module CubeSearch {
  import opened Wrappers
  import opened Sequences
  import opened CubeBox
  import opened CubeOrder

  predicate OverlapAt(a: Box, b: Box, i: nat)
    requires Valid(a) && Valid(b)
  {
    Lo(a, i) <= Hi(b, i) && Lo(b, i) <= Hi(a, i)
  }

  predicate Overlap(a: Box, b: Box)
    requires Valid(a) && Valid(b)
  {
    forall i: nat | i < MaxDim(a, b) :: OverlapAt(a, b, i)
  }

  /** Only the dimensions of the contained box matter; where the other has none it counts as zero. */
  predicate Contains(a: Box, b: Box)
    requires Valid(a) && Valid(b)
  {
    forall i: nat | i < b.dim :: CoversAt(a, b, i)
  }

  /** cube_overlap_v0. */
  method OverlapV0(a: Box, b: Box) returns (r: bool)
    requires Valid(a) && Valid(b)
    ensures r == Overlap(a, b)
    decreases a.dim < b.dim
  {
    if a.dim < b.dim {
      r := OverlapV0(b, a);
      assert forall i: nat | i < MaxDim(a, b) :: OverlapAt(a, b, i) == OverlapAt(b, a, i);
      return;
    }
    for i := 0 to b.dim
      invariant forall k: nat | k < i :: OverlapAt(a, b, k)
    {
      if Min(LL(a, i), UR(a, i)) > Max(LL(b, i), UR(b, i)) || Max(LL(a, i), UR(a, i)) < Min(LL(b, i), UR(b, i)) {
        assert !OverlapAt(a, b, i);
        return false;
      }
    }
    for i := b.dim to a.dim
      invariant forall k: nat | k < i :: OverlapAt(a, b, k)
    {
      if Min(LL(a, i), UR(a, i)) > 0.0 || Max(LL(a, i), UR(a, i)) < 0.0 {
        assert !OverlapAt(a, b, i);
        return false;
      }
    }
    return true;
  }

  /** cube_contains_v0. */
  method ContainsV0(a: Box, b: Box) returns (r: bool)
    requires Valid(a) && Valid(b)
    ensures r == Contains(a, b)
  {
    for i := a.dim to MaxDim(a, b)
      invariant forall k: nat | a.dim <= k < i :: CoversAt(a, b, k)
    {
      if LL(b, i) != 0.0 || UR(b, i) != 0.0 {
        assert !CoversAt(a, b, i);
        return false;
      }
    }
    for i := 0 to MinDim(a, b)
      invariant forall k: nat | k < i :: CoversAt(a, b, k)
    {
      if Min(LL(a, i), UR(a, i)) > Min(LL(b, i), UR(b, i)) || Max(LL(a, i), UR(a, i)) < Max(LL(b, i), UR(b, i)) {
        assert !CoversAt(a, b, i);
        return false;
      }
    }
    return true;
  }

  /** A point has as many coordinates as are listed, and zero in every other dimension. */
  function At(p: seq<real>, i: nat): real {
    if i < |p| then p[i] else 0.0
  }

  predicate InsideAt(p: seq<real>, b: Box, i: nat)
    requires Valid(b)
  {
    Lo(b, i) <= At(p, i) <= Hi(b, i)
  }

  ghost predicate Inside(p: seq<real>, b: Box)
    requires Valid(b)
  {
    forall i: nat :: InsideAt(p, b, i)
  }

  /** The corner where every coordinate is smallest, or largest. */
  function Corner(b: Box, upper: bool): (p: seq<real>)
    requires Valid(b)
  {
    seq(b.dim, i requires 0 <= i < b.dim => if upper then Hi(b, i) else Lo(b, i))
  }

  lemma CornerInside(b: Box, upper: bool)
    requires Valid(b)
    ensures Inside(Corner(b, upper), b)
    ensures forall i: nat :: At(Corner(b, upper), i) == if upper then Hi(b, i) else Lo(b, i)
  {
    forall i: nat
      ensures InsideAt(Corner(b, upper), b, i)
    {
      LoBelowHi(b, i);
    }
  }

  /** Boxes overlap exactly when they share a point. */
  lemma OverlapMeans(a: Box, b: Box)
    requires Valid(a) && Valid(b)
    ensures Overlap(a, b) <==> exists p :: Inside(p, a) && Inside(p, b)
  {
    if Overlap(a, b) {
      var n := MaxDim(a, b);
      var p := seq(n, i requires 0 <= i < n => Max(Lo(a, i), Lo(b, i)));
      forall i: nat
        ensures InsideAt(p, a, i) && InsideAt(p, b, i)
      {
        LoBelowHi(a, i);
        LoBelowHi(b, i);
        assert i < n ==> OverlapAt(a, b, i);
      }
      assert Inside(p, a) && Inside(p, b);
    }
    forall p | Inside(p, a) && Inside(p, b)
      ensures Overlap(a, b)
    {
      forall i: nat
        ensures OverlapAt(a, b, i)
      {
        assert InsideAt(p, a, i) && InsideAt(p, b, i);
      }
    }
  }

  lemma InterBounds(a: Box, b: Box, i: nat)
    requires Valid(a) && Valid(b) && OverlapAt(a, b, i)
    ensures Lo(Inter(a, b), i) == Max(Lo(a, i), Lo(b, i)) && Hi(Inter(a, b), i) == Min(Hi(a, i), Hi(b, i))
  {
    LoBelowHi(a, i);
    LoBelowHi(b, i);
    if i < MaxDim(a, b) {
      BoundsAt(InterLower(a, b), InterUpper(a, b), i);
    }
  }

  lemma InsideInterAt(a: Box, b: Box, p: seq<real>, i: nat)
    requires Valid(a) && Valid(b) && OverlapAt(a, b, i)
    ensures InsideAt(p, Inter(a, b), i) <==> InsideAt(p, a, i) && InsideAt(p, b, i)
  {
    InterBounds(a, b, i);
  }

  /** The intersection of overlapping boxes holds exactly the points that both hold. */
  lemma InterMeans(a: Box, b: Box, p: seq<real>)
    requires Valid(a) && Valid(b) && Overlap(a, b)
    ensures Inside(p, Inter(a, b)) <==> Inside(p, a) && Inside(p, b)
  {
    forall i: nat
      ensures InsideAt(p, Inter(a, b), i) <==> InsideAt(p, a, i) && InsideAt(p, b, i)
    {
      assert i < MaxDim(a, b) ==> OverlapAt(a, b, i);
      InsideInterAt(a, b, p, i);
    }
  }

  /** A box contains another exactly when every point of the other, cut to the other's dimensions, lies in it. */
  lemma ContainsMeans(a: Box, b: Box)
    requires Valid(a) && Valid(b)
    ensures Contains(a, b) <==> forall p, i: nat | Inside(p, b) && i < b.dim :: InsideAt(p, a, i)
  {
    if Contains(a, b) {
      forall p, i: nat | Inside(p, b) && i < b.dim
        ensures InsideAt(p, a, i)
      {
        assert InsideAt(p, b, i) && CoversAt(a, b, i);
      }
    }
    if forall p, i: nat | Inside(p, b) && i < b.dim :: InsideAt(p, a, i) {
      CornerInside(b, false);
      CornerInside(b, true);
      forall i: nat | i < b.dim
        ensures CoversAt(a, b, i)
      {
        assert InsideAt(Corner(b, false), a, i) && InsideAt(Corner(b, true), a, i);
      }
    }
  }

  /** g_cube_union: the least box around all entries, or no datum at all for a single one. */
  method CubeUnion(entries: seq<Box>) returns (r: Option<Box>)
    requires entries != [] && forall e | e in entries :: Valid(e)
    ensures r.None? <==> |entries| == 1
    ensures r.Some? ==>
      Valid(r.value) && forall k | Valid(k) :: Covers(k, r.value) <==> forall e | e in entries :: Covers(k, e)
  {
    r := None;
    var tmp := entries[0];
    for i := 1 to |entries|
      invariant Valid(tmp) && (r.None? <==> i == 1) && (r.Some? ==> r.value == tmp)
      invariant forall k | Valid(k) :: Covers(k, tmp) <==> forall e | e in entries[..i] :: Covers(k, e)
    {
      var union := UnionV0(tmp, entries[i], false);
      assert entries[..i + 1] == entries[..i] + [entries[i]];
      forall k | Valid(k)
        ensures Covers(k, union) <==> forall e | e in entries[..i + 1] :: Covers(k, e)
      {
        UnionCovers(tmp, entries[i], k);
      }
      r, tmp := Some(union), union;
    }
    assert entries[..|entries|] == entries;
  }

  datatype Strategy = Overlaps | Same | Containing | ContainedBy | Unsupported

  /** g_cube_leaf_consistent. */
  predicate LeafConsistent(key: Box, query: Box, strategy: Strategy)
    requires Valid(key) && Valid(query)
  {
    match strategy
    case Overlaps => Overlap(key, query)
    case Same => Cmp(key, query) == 0
    case Containing => Contains(key, query)
    case ContainedBy => Contains(query, key)
    case Unsupported => false
  }

  /** g_cube_internal_consistent. */
  predicate InternalConsistent(key: Box, query: Box, strategy: Strategy)
    requires Valid(key) && Valid(query)
  {
    match strategy
    case Overlaps => Overlap(key, query)
    case Same => Contains(key, query)
    case Containing => Contains(key, query)
    case ContainedBy => Overlap(key, query)
    case Unsupported => false
  }

  /** An entry: a stored box, or a key with the page below it. */
  datatype Tree = Leaf(box: Box) | Node(key: Box, children: seq<Tree>)

  function Key(t: Tree): Box {
    if t.Leaf? then t.box else t.key
  }

  /** Every key encloses the keys of the page below. */
  ghost predicate Sound(t: Tree) {
    Valid(Key(t)) && (t.Node? ==> forall c | c in t.children :: Sound(c) && Covers(t.key, Key(c)))
  }

  /** The boxes stored below an entry, left to right. */
  function Boxes(t: Tree): seq<Box>
    decreases t, 1
  {
    match t
    case Leaf(b) => [b]
    case Node(_, children) => PageBoxes(children)
  }

  function PageBoxes(ts: seq<Tree>): seq<Box>
    decreases ts, 0
  {
    if ts == [] then [] else Boxes(ts[0]) + PageBoxes(ts[1..])
  }

  /** A key encloses every box stored below it. */
  lemma {:induction false} KeyCovers(t: Tree, b: Box)
    requires Sound(t) && b in Boxes(t)
    ensures Valid(b) && Covers(Key(t), b)
    decreases t, 1
  {
    if t.Node? {
      PageCovers(t.children, t.key, b);
    } else {
      CoversItself(b);
    }
  }

  lemma {:induction false} PageCovers(ts: seq<Tree>, key: Box, b: Box)
    requires Valid(key) && b in PageBoxes(ts) && forall c | c in ts :: Sound(c) && Covers(key, Key(c))
    ensures Valid(b) && Covers(key, b)
    decreases ts, 0
  {
    if b in Boxes(ts[0]) {
      KeyCovers(ts[0], b);
      CoversTransitive(key, Key(ts[0]), b);
    } else {
      PageCovers(ts[1..], key, b);
    }
  }

  /** From the n-th dimension on the query reaches zero. */
  predicate ReachesZero(query: Box, n: nat)
    requires Valid(query)
  {
    forall i: nat | n <= i < query.dim :: Lo(query, i) <= 0.0 <= Hi(query, i)
  }

  lemma ContainedOverlaps(key: Box, b: Box, query: Box)
    requires Valid(key) && Valid(b) && Valid(query) && Covers(key, b) && Contains(query, b) && ReachesZero(query, b.dim)
    ensures Overlap(key, query)
  {
    forall i: nat
      ensures OverlapAt(key, query, i)
    {
      LoBelowHi(b, i);
      assert CoversAt(key, b, i) && (i < b.dim ==> CoversAt(query, b, i));
    }
  }

  /** A key passes the internal test whenever a box below it passes the leaf test. */
  lemma NothingPruned(key: Box, b: Box, query: Box, strategy: Strategy)
    requires Valid(key) && Valid(b) && Valid(query) && Covers(key, b) && LeafConsistent(b, query, strategy)
    requires strategy.ContainedBy? ==> ReachesZero(query, b.dim)
    ensures InternalConsistent(key, query, strategy)
  {
    match strategy {
      case Overlaps =>
        forall i: nat
          ensures OverlapAt(key, query, i)
        {
          assert CoversAt(key, b, i) && (i < MaxDim(b, query) ==> OverlapAt(b, query, i));
        }
      case Same =>
        CmpEqual(b, query);
        assert forall i: nat :: CoversAt(key, b, i) ==> CoversAt(key, query, i);
      case Containing =>
        assert forall i: nat :: CoversAt(key, b, i) && CoversAt(b, query, i) ==> CoversAt(key, query, i);
      case ContainedBy =>
        ContainedOverlaps(key, b, query);
      case Unsupported =>
    }
  }

  // ---- what the internal test lets through ----

  /** A box that the key encloses passes the leaf test; for contained-by, one whose missing dimensions do not matter. */
  ghost predicate Possible(key: Box, query: Box, strategy: Strategy)
    requires Valid(key) && Valid(query)
  {
    exists b :: Valid(b) && Covers(key, b) && LeafConsistent(b, query, strategy)
      && (strategy.ContainedBy? ==> ReachesZero(query, b.dim))
  }

  /** A point that key and query share, with the dimensions of the key. */
  function SharedPoint(key: Box, query: Box): (b: Box)
    requires Valid(key) && Valid(query)
    ensures Valid(b) && b.dim == key.dim
    ensures forall i: nat | i < key.dim :: Lo(b, i) == Hi(b, i) == Max(Lo(key, i), Lo(query, i))
  {
    Box(true, key.dim, seq(key.dim, i requires 0 <= i < key.dim => Max(Lo(key, i), Lo(query, i))))
  }

  lemma SharedPointQualifies(key: Box, query: Box)
    requires Valid(key) && Valid(query) && Overlap(key, query)
    ensures var b := SharedPoint(key, query);
      Covers(key, b) && Contains(query, b) && ReachesZero(query, b.dim)
  {
    var b := SharedPoint(key, query);
    forall i: nat
      ensures CoversAt(key, b, i) && (i < b.dim ==> CoversAt(query, b, i))
      ensures key.dim <= i < query.dim ==> Lo(query, i) <= 0.0 <= Hi(query, i)
    {
      LoBelowHi(key, i);
      LoBelowHi(query, i);
      assert i < MaxDim(key, query) ==> OverlapAt(key, query, i);
    }
  }

  lemma SameIsCovered(key: Box, query: Box)
    requires Valid(key) && Valid(query)
    ensures Possible(key, query, Same) <==> Covers(key, query)
  {
    if Covers(key, query) {
      CmpEqual(query, query);
    }
    forall b | Valid(b) && Covers(key, b) && LeafConsistent(b, query, Same)
      ensures Covers(key, query)
    {
      CmpEqual(b, query);
      assert forall i: nat :: CoversAt(key, b, i) ==> CoversAt(key, query, i);
    }
  }

  lemma CoversMeans(key: Box, query: Box)
    requires Valid(key) && Valid(query)
    ensures Covers(key, query) <==> Contains(key, query) && key.dim >= query.dim && ReachesZero(key, query.dim)
  {
    if Contains(key, query) && key.dim >= query.dim && ReachesZero(key, query.dim) {
      forall i: nat
        ensures CoversAt(key, query, i)
      {
        assert i < query.dim ==> CoversAt(key, query, i);
      }
    }
    if Covers(key, query) {
      forall i: nat | i < key.dim
        ensures query.dim <= i ==> Lo(key, i) <= 0.0 <= Hi(key, i)
      {
        assert CoversAt(key, query, i);
      }
    }
  }

  /**
   * The internal test, exactly: it passes when some box within the key may qualify; for equality it does not look at
   * the dimensions that the query lacks.
   */
  lemma InternalTestExactly(key: Box, query: Box, strategy: Strategy)
    requires Valid(key) && Valid(query)
    ensures !strategy.Same? ==> (InternalConsistent(key, query, strategy) <==> Possible(key, query, strategy))
    ensures strategy.Same? ==>
      (Possible(key, query, strategy) <==>
         InternalConsistent(key, query, strategy) && key.dim >= query.dim && ReachesZero(key, query.dim))
  {
    if strategy.Same? {
      SameIsCovered(key, query);
      CoversMeans(key, query);
    } else {
      CoversItself(key);
      if strategy.ContainedBy? && Overlap(key, query) {
        SharedPointQualifies(key, query);
      }
      if Possible(key, query, strategy) {
        var b :| Valid(b) && Covers(key, b) && LeafConsistent(b, query, strategy)
          && (strategy.ContainedBy? ==> ReachesZero(query, b.dim));
        NothingPruned(key, b, query, strategy);
      }
    }
  }

  /** The descent below one entry. */
  function SearchEntry(t: Tree, query: Box, strategy: Strategy): seq<Box>
    requires Sound(t) && Valid(query)
    decreases t, 1
  {
    match t
    case Leaf(b) => if LeafConsistent(b, query, strategy) then [b] else []
    case Node(key, children) =>
      if InternalConsistent(key, query, strategy) then Search(children, query, strategy) else []
  }

  /** The descent over the entries of a page. */
  function Search(ts: seq<Tree>, query: Box, strategy: Strategy): seq<Box>
    requires Valid(query) && forall c | c in ts :: Sound(c)
    decreases ts, 0
  {
    if ts == [] then [] else SearchEntry(ts[0], query, strategy) + Search(ts[1..], query, strategy)
  }

  function Matches(query: Box, strategy: Strategy): Box -> bool
    requires Valid(query)
  {
    b => Valid(b) && LeafConsistent(b, query, strategy)
  }

  /** A contained-by search may drop boxes that have fewer dimensions than the query; this rules it out. */
  predicate Safe(query: Box, strategy: Strategy, boxes: seq<Box>)
    requires Valid(query)
  {
    strategy.ContainedBy? ==> forall b | b in boxes :: Valid(b) && Contains(query, b) ==> ReachesZero(query, b.dim)
  }

  lemma {:induction false} SearchEntryIsExact(t: Tree, query: Box, strategy: Strategy)
    requires Sound(t) && Valid(query) && Safe(query, strategy, Boxes(t))
    ensures SearchEntry(t, query, strategy) == Filter(Boxes(t), Matches(query, strategy))
    decreases t, 1
  {
    if t.Node? {
      if InternalConsistent(t.key, query, strategy) {
        SearchIsExact(t.children, query, strategy);
      } else {
        forall b | b in Boxes(t)
          ensures !Matches(query, strategy)(b)
        {
          KeyCovers(t, b);
          if LeafConsistent(b, query, strategy) {
            NothingPruned(t.key, b, query, strategy);
          }
        }
        FilterNone(Boxes(t), Matches(query, strategy));
      }
    }
  }

  /** The descent returns exactly the stored boxes that satisfy the operator, each once, in order. */
  lemma {:induction false} SearchIsExact(ts: seq<Tree>, query: Box, strategy: Strategy)
    requires Valid(query) && Safe(query, strategy, PageBoxes(ts)) && forall c | c in ts :: Sound(c)
    ensures Search(ts, query, strategy) == Filter(PageBoxes(ts), Matches(query, strategy))
    decreases ts, 0
  {
    if ts != [] {
      SearchEntryIsExact(ts[0], query, strategy);
      SearchIsExact(ts[1..], query, strategy);
      FilterConcat(Boxes(ts[0]), PageBoxes(ts[1..]), Matches(query, strategy));
    }
  }

  /** Every contained-by search over boxes of at least n dimensions is exact. */
  ghost predicate ContainedByExact(query: Box, n: nat)
    requires Valid(query)
  {
    forall ts: seq<Tree> | (forall c | c in ts :: Sound(c)) && (forall b | b in PageBoxes(ts) :: b.dim >= n) ::
      Search(ts, query, ContainedBy) == Filter(PageBoxes(ts), Matches(query, ContainedBy))
  }

  /** The lower corner of the query in its first n dimensions. */
  function Stub(query: Box, n: nat): (b: Box)
    requires Valid(query) && n <= query.dim
    ensures Valid(b) && b.dim == n
  {
    Box(true, n, Corner(query, false)[..n])
  }

  /** If the query misses zero in a later dimension, a one-box page below that box's own bounds is not entered. */
  lemma StubLost(query: Box, n: nat)
    requires Valid(query) && n <= query.dim && !ReachesZero(query, n)
    ensures var b := Stub(query, n); var t := Node(b, [Leaf(b)]);
      Sound(t) && PageBoxes([t]) == [b] && Search([t], query, ContainedBy) == [] && Matches(query, ContainedBy)(b)
  {
    var b := Stub(query, n);
    var t := Node(b, [Leaf(b)]);
    CoversItself(b);
    assert Sound(Leaf(b)) && Sound(t);
    forall i: nat | i < n
      ensures CoversAt(query, b, i)
    {
      LoBelowHi(query, i);
    }
    var i: nat :| n <= i < query.dim && !(Lo(query, i) <= 0.0 <= Hi(query, i));
    assert !OverlapAt(b, query, i);
    assert !Overlap(b, query);
    assert PageBoxes([Leaf(b)]) == [b] && PageBoxes([t]) == [b];
  }

  /** Contained-by searches are exact just when the query reaches zero in every dimension a stored box may lack. */
  lemma ContainedByExactly(query: Box, n: nat)
    requires Valid(query)
    ensures ContainedByExact(query, n) <==> ReachesZero(query, n)
  {
    if ReachesZero(query, n) {
      forall ts: seq<Tree> | (forall c | c in ts :: Sound(c)) && (forall b | b in PageBoxes(ts) :: b.dim >= n)
        ensures Search(ts, query, ContainedBy) == Filter(PageBoxes(ts), Matches(query, ContainedBy))
      {
        SearchIsExact(ts, query, ContainedBy);
      }
    } else {
      StubLost(query, n);
      var b := Stub(query, n);
      var t := Node(b, [Leaf(b)]);
      FilterMembers([b], Matches(query, ContainedBy), b);
      assert Search([t], query, ContainedBy) != Filter(PageBoxes([t]), Matches(query, ContainedBy));
    }
  }
}
