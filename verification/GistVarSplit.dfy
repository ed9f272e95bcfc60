/** gbt_var_picksplit: halves of the sorted entries, each side's union cut at one shared length. */
module GistVarSplit {
  import opened ByteOrder
  import opened GistVarKey
  import opened Sorting

  /** The cut both sides share: two bytes past the longer of the two common prefixes. */
  function SplitCut(left: seq<VarKey>, right: seq<VarKey>): nat
    requires left != [] && right != []
  {
    if UnionCut(left) < UnionCut(right) then UnionCut(right) else UnionCut(left)
  }

  /** A key as unions and leaf splits leave it: its cut is two or more bytes past the common prefix of its bounds. */
  predicate Stored(key: VarKey, cut: nat) {
    && Le(key.lower, key.upper)
    && CommonPrefix(key.lower, key.upper) + 2 <= cut
    && |key.upper| <= cut
  }

  /** The entry was truncated, the greatest upper bound of its side continues its own by something other than 0xFF bytes
      before the cut c, and the least lower bound of the side, as cut, does not begin it. */
  predicate Overcut(entry: VarKey, cut: nat, least: Bytes, greatest: Bytes, c: nat) {
    && |entry.upper| == cut
    && entry.upper < greatest
    && (exists j :: |entry.upper| <= j < |greatest| && j < c && greatest[j] != 255)
    && !(Take(least, c) <= entry.upper)
  }

  /** The same, seen from the key of the side. */
  predicate Continued(entry: VarKey, cut: nat, side: VarKey) {
    && |entry.upper| == cut
    && entry.upper < side.upper
    && (exists j :: |entry.upper| <= j < |side.upper| && side.upper[j] != 255)
    && !(side.lower <= entry.upper)
  }

  lemma OvercutIsContinued(entry: VarKey, cut: nat, raw: VarKey, c: nat)
    requires c > 0
    ensures Overcut(entry, cut, raw.lower, raw.upper, c) <==> Continued(entry, cut, Truncate(raw, c - 1))
  {
    var u := Take(raw.upper, c);
    assert forall j :: 0 <= j < |u| ==> u[j] == raw.upper[j];
    if Overcut(entry, cut, raw.lower, raw.upper, c) {
      var j :| |entry.upper| <= j < |raw.upper| && j < c && raw.upper[j] != 255;
      assert u[j] != 255;
    }
    if Continued(entry, cut, Truncate(raw, c - 1)) {
      var j :| |entry.upper| <= j < |u| && u[j] != 255;
      assert raw.upper[j] != 255;
    }
  }

  /** Nothing the entry may stand for is lost to any search through the side's key. */
  ghost predicate Covered(entry: VarKey, cut: nat, side: VarKey) {
    forall v: Bytes, query: Bytes, strategy: Strategy ::
      Bounds(entry, cut, v) && Satisfies(v, query, strategy) ==> Consistent(side, query, strategy, false)
  }

  /** A key whose bounds are equal stands for one value only. */
  lemma PinnedValue(key: VarKey, cut: nat, v: Bytes)
    requires Stored(key, cut) && Bounds(key, cut, v) && key.lower == key.upper
    ensures v == key.lower
  {
    var x := key.lower;
    CommonPrefixIs(x, x, |x|);
    CutDecides(v, x, cut);
    if Le(v, x) {
      LeAntisymmetric(v, x);
    } else {
      PrefixLe(x, Take(v, cut));
      LeAntisymmetric(x, Take(v, cut));
    }
  }

  /** A value above its entry's upper bound can only come from a truncated entry. */
  lemma BeyondMeansTruncated(key: VarKey, cut: nat, v: Bytes)
    requires Stored(key, cut) && Bounds(key, cut, v) && !Le(v, key.upper)
    ensures key.upper <= v && |key.upper| == cut
  {
    CutDecides(v, key.upper, cut);
    if |key.upper| < cut {
      PrefixLe(key.upper, Take(v, cut));
      LeAntisymmetric(key.upper, Take(v, cut));
      LeTotal(v, v);
    }
  }

  /** An extension of an entry's upper bound against the cut upper bound of the side. */
  lemma ExtensionAgainstCut(entryUpper: Bytes, raw: Bytes, c: nat, v: Bytes)
    requires Le(entryUpper, raw) && entryUpper <= v
    requires !(entryUpper < Take(raw, c)) || forall j :: |entryUpper| <= j < |Take(raw, c)| ==> Take(raw, c)[j] == 255
    ensures Le(v, Take(raw, c)) || Take(raw, c) <= v
  {
    var u := Take(raw, c);
    var p := CommonPrefix(v, u);
    if p == |u| {
      assert u == u[..p] == v[..p];
    } else if p < |v| {
      if p < |entryUpper| {
        assert entryUpper[..p] == v[..p] == u[..p] == raw[..p];
        assert entryUpper[p] == v[p];
        CommonPrefixIs(entryUpper, raw, p);
      } else {
        assert entryUpper == v[..p][..|entryUpper|] == u[..p][..|entryUpper|];
      }
    }
  }

  /** A value accepted by the side's bounds or prefixes passes the inner test for every operator it satisfies. */
  lemma AcceptedIsConsistent(key: VarKey, v: Bytes, query: Bytes, strategy: Strategy)
    requires Le(key.lower, v) && Le(key.lower, key.upper)
    requires Le(v, key.upper) || key.upper <= v || key.lower <= v
    requires key.lower == key.upper ==> v == key.lower
    requires Satisfies(v, query, strategy)
    ensures Consistent(key, query, strategy, false)
  {
    LeTotal(v, query);
    LeTotal(query, key.upper);
    LeTotal(key.upper, key.upper);
    LeTotal(key.lower, key.lower);
    if strategy.LessEqual? || strategy.Less? {
      LeTransitive(key.lower, v, query);
    } else if strategy.Greater? || strategy.GreaterEqual? {
      if Le(v, key.upper) {
        LeTransitive(query, v, key.upper);
      } else if Le(key.upper, query) {
        if key.upper <= v {
          BetweenKeepsPrefix(key.upper, key.upper, query, v);
        } else {
          LeTransitive(key.lower, key.upper, query);
          BetweenKeepsPrefix(key.lower, key.lower, query, v);
        }
      }
    }
  }

  /** The bounds of a side's key: ordered, below every entry, and apart when the raw bounds are. */
  lemma SideShape(side: seq<VarKey>, i: nat, c: nat)
    requires i < |side| && Le(side[i].lower, side[i].upper) && c >= UnionCut(side)
    ensures var key := CutUnion(side, c);
      && Le(key.lower, key.upper) && Le(key.lower, side[i].lower)
      && (key.lower == key.upper ==> RawUnion(side).lower == RawUnion(side).upper == key.lower)
  {
    var raw := RawUnion(side);
    RawUnionEncloses(side, i);
    RawUnionOrdered(side, i);
    LeTotal(raw.lower, raw.lower);
    CutLower(raw.lower, raw.lower, side[i].lower, c);
    TakeMonotone(raw.lower, raw.upper, c);
    TakeKeepsDifference(raw.lower, raw.upper, c);
  }

  /** Without an overcut the side's key accepts every value of the entry. */
  lemma CoveredValue(side: seq<VarKey>, i: nat, cut: nat, c: nat, v: Bytes)
    requires i < |side| && Stored(side[i], cut) && c >= UnionCut(side)
    requires Bounds(side[i], cut, v) && !Continued(side[i], cut, CutUnion(side, c))
    ensures var key := CutUnion(side, c); Le(v, key.upper) || key.upper <= v || key.lower <= v
  {
    var entry, raw, key := side[i], RawUnion(side), CutUnion(side, c);
    RawUnionEncloses(side, i);
    if Le(v, entry.upper) {
      CutUpper(v, entry.upper, raw.upper, c);
      CutDecides(v, key.upper, c);
    } else {
      BeyondMeansTruncated(entry, cut, v);
      if !(key.lower <= entry.upper) {
        ExtensionAgainstCut(entry.upper, raw.upper, c, v);
      }
    }
  }

  /** A bound with one byte raised. */
  function Raised(u: Bytes, j: nat): Bytes
    requires j < |u| && u[j] != 255
  {
    u[..j] + [u[j] + 1]
  }

  lemma RaisedAbove(u: Bytes, j: nat)
    requires j < |u| && u[j] != 255
    ensures !Le(Raised(u, j), u) && CommonPrefix(Raised(u, j), u) == j
  {
    assert Raised(u, j)[..j] == u[..j];
    CommonPrefixIs(Raised(u, j), u, j);
  }

  lemma RaisedBounded(entry: VarKey, cut: nat, u: Bytes, j: nat)
    requires Le(entry.lower, entry.upper) && |entry.upper| == cut <= j < |u| && u[j] != 255 && entry.upper < u
    ensures Bounds(entry, cut, Raised(u, j)) && entry.upper < Raised(u, j)
  {
    var v := Raised(u, j);
    assert v[..cut] == u[..cut] == entry.upper;
    PrefixLe(entry.upper, v);
    LeTransitive(entry.lower, entry.upper, v);
    LeTotal(entry.upper, entry.upper);
  }

  /** An overcut entry may stand for a value that an equality search no longer reaches: this one. */
  lemma OvercutLoses(entry: VarKey, cut: nat, side: VarKey) returns (v: Bytes)
    requires Stored(entry, cut) && Continued(entry, cut, side) && Le(side.lower, entry.lower)
    ensures Bounds(entry, cut, v) && !Consistent(side, v, Equal, false)
  {
    var j :| |entry.upper| <= j < |side.upper| && side.upper[j] != 255;
    v := Raised(side.upper, j);
    RaisedAbove(side.upper, j);
    RaisedBounded(entry, cut, side.upper, j);
    LeTransitive(side.lower, entry.lower, entry.upper);
    if side.lower <= v && |side.lower| > |entry.upper| {
      PrefixLe(entry.upper, side.lower);
      LeAntisymmetric(entry.upper, side.lower);
    }
  }

  lemma SideCoversExactly(side: seq<VarKey>, i: nat, cut: nat, c: nat)
    requires i < |side| && Stored(side[i], cut) && c >= UnionCut(side)
    ensures Covered(side[i], cut, CutUnion(side, c)) <==> !Continued(side[i], cut, CutUnion(side, c))
  {
    var entry, key := side[i], CutUnion(side, c);
    SideShape(side, i, c);
    if Continued(entry, cut, key) {
      var v := OvercutLoses(entry, cut, key);
      assert Satisfies(v, v, Equal);
    } else {
      forall v: Bytes, query: Bytes, strategy: Strategy | Bounds(entry, cut, v) && Satisfies(v, query, strategy)
        ensures Consistent(key, query, strategy, false)
      {
        CoveredValue(side, i, cut, c, v);
        LeTransitive(key.lower, entry.lower, v);
        if key.lower == key.upper {
          RawUnionEncloses(side, i);
          PinnedChild(key.lower, entry);
          PinnedValue(entry, cut, v);
        }
        AcceptedIsConsistent(key, v, query, strategy);
      }
    }
  }

  lemma ExtremesAreRaw(side: seq<VarKey>, l: nat, g: nat)
    requires Extremes(side, l, g)
    ensures RawUnion(side) == VarKey(side[l].lower, side[g].upper)
  {
    var i, j := RawUnionAttained(side);
    RawUnionEncloses(side, l);
    RawUnionEncloses(side, g);
    LeAntisymmetric(RawUnion(side).lower, side[l].lower);
    LeAntisymmetric(RawUnion(side).upper, side[g].upper);
  }

  /** Main result: a side's key serves an entry, for every value and operator, exactly when the entry is not overcut. */
  lemma SplitCoversExactly(side: seq<VarKey>, i: nat, cut: nat, c: nat, l: nat, g: nat)
    requires i < |side| && Stored(side[i], cut) && c >= UnionCut(side) && Extremes(side, l, g)
    ensures Covered(side[i], cut, CutUnion(side, c)) <==> !Overcut(side[i], cut, side[l].lower, side[g].upper, c)
  {
    SideCoversExactly(side, i, cut, c);
    ExtremesAreRaw(side, l, g);
    OvercutIsContinued(side[i], cut, RawUnion(side), c);
  }

  // ---- what the inner test lets through ----

  /** Searches that the inner test lets through although no value may be there: the code compares loosely at the bounds
      and enters every page with a bound that the query begins with. */
  predicate Loose(key: VarKey, query: Bytes, strategy: Strategy) {
    match strategy
    case Less => query == key.lower
    case Equal => key.lower <= query || key.upper <= query
    case GreaterEqual => key.lower <= query || key.upper <= query
    case Greater => query == key.upper || key.lower <= query || key.upper <= query
    case _ => false
  }

  /** A value that the key may stand for satisfies the operator. */
  ghost predicate Possible(key: VarKey, cut: nat, query: Bytes, strategy: Strategy) {
    exists v :: Bounds(key, cut, v) && Satisfies(v, query, strategy)
  }

  lemma BoundsItself(key: VarKey, cut: nat, v: Bytes)
    requires |key.upper| <= cut && Le(key.lower, v) && Le(v, key.upper)
    ensures Bounds(key, cut, v)
  {
    PrefixLe(Take(v, cut), v);
    LeTransitive(Take(v, cut), v, key.upper);
  }

  lemma PassedIsPossible(key: VarKey, cut: nat, query: Bytes, strategy: Strategy)
    requires Stored(key, cut) && Consistent(key, query, strategy, false) && !Loose(key, query, strategy)
    ensures Possible(key, cut, query, strategy)
  {
    LeTotal(key.lower, key.lower);
    LeTotal(key.upper, key.upper);
    BoundsItself(key, cut, key.lower);
    BoundsItself(key, cut, key.upper);
    match strategy {
      case LessEqual => PrefixTests(key, query);
      case Less =>
        PrefixTests(key, query);
        NotEqualIsLess(key.lower, query);
      case Equal => BoundsItself(key, cut, query);
      case Greater => NotEqualIsLess(query, key.upper);
      case GreaterEqual =>
      case NotEqual =>
      case Unknown =>
    }
  }

  /** A query that begins with a bound is not below the lower one. */
  lemma PrefixTests(key: VarKey, query: Bytes)
    requires Le(key.lower, key.upper) && (Le(key.lower, query) || NodePrefixMatch(key, query))
    ensures Le(key.lower, query)
  {
    if key.lower <= query {
      PrefixLe(key.lower, query);
    } else if key.upper <= query {
      PrefixLe(key.upper, query);
      LeTransitive(key.lower, key.upper, query);
    }
  }

  lemma NotEqualIsLess(a: Bytes, b: Bytes)
    requires Le(a, b) && a != b
    ensures Lt(a, b)
  {
    if Le(b, a) {
      LeAntisymmetric(a, b);
    }
  }

  lemma LoosePasses(key: VarKey, query: Bytes, strategy: Strategy)
    requires Loose(key, query, strategy)
    ensures Consistent(key, query, strategy, false)
  {
    LeTotal(query, query);
  }

  /** The inner test, exactly: it passes when a value that the key may stand for satisfies the operator, and otherwise
      only in the loose cases. */
  lemma InnerTestExactly(key: VarKey, cut: nat, query: Bytes, strategy: Strategy)
    requires Stored(key, cut)
    ensures Consistent(key, query, strategy, false)
      <==> Possible(key, cut, query, strategy) || Loose(key, query, strategy)
  {
    if Possible(key, cut, query, strategy) {
      var v :| Bounds(key, cut, v) && Satisfies(v, query, strategy);
      if key.lower == key.upper {
        PinnedValue(key, cut, v);
      }
      BoundedIsConsistent(key, cut, v, query, strategy);
    }
    if Loose(key, query, strategy) {
      LoosePasses(key, query, strategy);
    } else if Consistent(key, query, strategy, false) {
      PassedIsPossible(key, cut, query, strategy);
    }
  }

  /** Splitting a leaf page loses nothing: its entries were never truncated. */
  lemma LeafSplitCovers(side: seq<VarKey>, i: nat, c: nat, query: Bytes, strategy: Strategy)
    requires i < |side| && side[i].lower == side[i].upper && c >= UnionCut(side)
    requires Satisfies(side[i].lower, query, strategy)
    ensures Consistent(CutUnion(side, c), query, strategy, false)
  {
    var v := side[i].lower;
    LeTotal(v, v);
    CommonPrefixIs(v, v, |v|);
    SideCoversExactly(side, i, |v| + 2, c);
    assert Bounds(side[i], |v| + 2, v);
  }

  /** The entries of a page of leaf values. */
  function LeafPage(values: seq<Bytes>): (ts: seq<Tree>)
    ensures |ts| == |values| && forall i :: 0 <= i < |ts| ==> ts[i] == Leaf(values[i])
  {
    seq(|values|, i requires 0 <= i < |values| => Leaf(values[i]))
  }

  lemma {:induction false} LeafPageValues(values: seq<Bytes>)
    ensures ForestValues(LeafPage(values)) == values
  {
    if values != [] {
      assert LeafPage(values)[1..] == LeafPage(values[1..]);
      LeafPageValues(values[1..]);
    }
  }

  /**
   * The page that a leaf split makes of one half is a node of the tree, so searches over it, and over any unions of
   * keys above it, are exact.
   */
  lemma LeafSplitIsNode(values: seq<Bytes>, c: nat)
    requires values != [] && c >= UnionCut(Keys(LeafPage(values)))
    ensures var keys := Keys(LeafPage(values)); var t := Node(LeafPage(values), c - UnionCut(keys));
      WellFormed(t) && Key(t) == CutUnion(keys, c) && Values(t) == values
  {
    LeafPageValues(values);
  }

  /** Entries sort by lower bound, then by upper bound (gbt_vsrt_cmp). */
  predicate KeyLe(a: VarKey, b: VarKey) {
    if a.lower == b.lower then Le(a.upper, b.upper) else Le(a.lower, b.lower)
  }

  lemma KeyOrder()
    ensures TotalOrder(KeyLe)
  {
    forall x: VarKey, y: VarKey
      ensures KeyLe(x, y) || KeyLe(y, x)
    {
      LeTotal(x.lower, y.lower);
      LeTotal(x.upper, y.upper);
    }
    forall x: VarKey, y: VarKey, z: VarKey | KeyLe(x, y) && KeyLe(y, z)
      ensures KeyLe(x, z)
    {
      KeyLeTransitive(x, y, z);
    }
  }

  lemma KeyLeTransitive(x: VarKey, y: VarKey, z: VarKey)
    requires KeyLe(x, y) && KeyLe(y, z)
    ensures KeyLe(x, z)
  {
    if x.lower == y.lower && y.lower == z.lower {
      LeTransitive(x.upper, y.upper, z.upper);
    } else {
      LeTotal(x.lower, x.lower);
      if x.lower == z.lower {
        LeAntisymmetric(x.lower, y.lower);
      } else {
        LeTotal(y.lower, y.lower);
        LeTransitive(x.lower, y.lower, z.lower);
      }
    }
  }

  /** One entry is not behind another: not by its lower bound, nor, where these are equal, by its upper one. */
  predicate InTurn(a: VarKey, b: VarKey) {
    Le(a.lower, b.lower) && (a.lower == b.lower ==> Le(a.upper, b.upper))
  }

  lemma KeyLeMeans(a: VarKey, b: VarKey)
    ensures KeyLe(a, b) <==> InTurn(a, b)
  {
    LeTotal(a.lower, a.lower);
  }

  function Longer(p: nat, q: nat): nat {
    if p < q then q else p
  }

  method SortedHalves(keys: seq<VarKey>) returns (left: seq<nat>, right: seq<nat>)
    ensures |left| == |keys| / 2 && |left| + |right| == |keys|
    ensures ValidOffsets(left, |keys|) && ValidOffsets(right, |keys|)
    ensures forall o :: 1 <= o <= |keys| ==> (o in left <==> o !in right)
    ensures forall i, j | 0 <= i < |left| && 0 <= j < |right| :: InTurn(keys[left[i] - 1], keys[right[j] - 1])
  {
    KeyOrder();
    left, right := SplitHalves(keys, KeyLe);
    forall i, j | 0 <= i < |left| && 0 <= j < |right|
      ensures InTurn(keys[left[i] - 1], keys[right[j] - 1])
    {
      KeyLeMeans(keys[left[i] - 1], keys[right[j] - 1]);
    }
  }

  /** gbt_var_picksplit on the entries at offsets 1 to |keys|. */
  method PickSplit(keys: seq<VarKey>)
    returns (left: seq<nat>, right: seq<nat>, leftKey: VarKey, rightKey: VarKey, ghost ls: Span, ghost rs: Span)
    requires |keys| >= 2
    ensures |left| == |keys| / 2 && |left| + |right| == |keys|
    ensures ValidOffsets(left, |keys|) && ValidOffsets(right, |keys|)
    ensures forall o :: 1 <= o <= |keys| ==> (o in left <==> o !in right)
    ensures forall i, j | 0 <= i < |left| && 0 <= j < |right| :: InTurn(keys[left[i] - 1], keys[right[j] - 1])
    ensures var l, r := KeysAt(keys, left), KeysAt(keys, right); var cut := Longer(ls.p, rs.p) + 2;
      && leftKey == CutUnion(l, SplitCut(l, r)) && rightKey == CutUnion(r, SplitCut(l, r))
      && IsSpan(l, ls) && IsSpan(r, rs) && HoldsSpan(l, ls, cut, leftKey) && HoldsSpan(r, rs, cut, rightKey)
  {
    left, right := SortedHalves(keys);
    leftKey, rightKey := SideKeys(KeysAt(keys, left), KeysAt(keys, right));
    ls := UnionSpan(KeysAt(keys, left));
    rs := UnionSpan(KeysAt(keys, right));
    CutHolds(KeysAt(keys, left), ls, Longer(ls.p, rs.p) + 2);
    CutHolds(KeysAt(keys, right), rs, Longer(ls.p, rs.p) + 2);
  }

  /** The keys of the two halves: their unions, both cut behind the longer common prefix. */
  method SideKeys(l: seq<VarKey>, r: seq<VarKey>) returns (leftKey: VarKey, rightKey: VarKey)
    requires l != [] && r != []
    ensures leftKey == CutUnion(l, SplitCut(l, r)) && rightKey == CutUnion(r, SplitCut(l, r))
  {
    leftKey := UnionOf(l);
    rightKey := UnionOf(r);
    var ll := NodeCommonPrefix(leftKey);
    var lr := NodeCommonPrefix(rightKey);
    ll := (if ll < lr then lr else ll) + 1;
    leftKey := Truncate(leftKey, ll);
    rightKey := Truncate(rightKey, ll);
  }

  /** Four inner entries, sorted, as four pairs of leaf values give them. */
  function LosingPage(): seq<Tree> {
    [Node([Leaf([1]), Leaf([2, 9, 9])], 0), Node([Leaf([2, 9, 1]), Leaf([2, 9, 5])], 0),
     Node([Leaf([3, 3, 1]), Leaf([3, 3, 2])], 0), Node([Leaf([3, 3, 3]), Leaf([3, 3, 4])], 0)]
  }

  lemma PairKey(a: Bytes, b: Bytes, p: nat)
    requires p <= |a| && p < |b| && a[..p] == b[..p] && (p < |a| ==> a[p] < b[p])
    ensures WellFormed(Node([Leaf(a), Leaf(b)], 0))
    ensures Key(Node([Leaf(a), Leaf(b)], 0)) == VarKey(Take(a, p + 2), Take(b, p + 2))
    ensures UnionCut([VarKey(a, a), VarKey(b, b)]) == p + 2
  {
    var ts := [Leaf(a), Leaf(b)];
    CommonPrefixIs(a, b, p);
    CommonPrefixIs(b, a, p);
    assert Keys(ts) == [VarKey(a, a), VarKey(b, b)];
    PairUnion(VarKey(a, a), VarKey(b, b));
  }

  lemma PairUnion(x: VarKey, y: VarKey)
    requires !Lt(y.lower, x.lower) && Lt(x.upper, y.upper)
    ensures RawUnion([x, y]) == VarKey(x.lower, y.upper)
  {
    assert [x, y][..1] == [x];
  }

  /** The keys that the unions of gbt_var_union store for those entries. */
  function LosingKeys(): seq<VarKey> {
    [VarKey([1], [2, 9]), VarKey([2, 9, 1], [2, 9, 5]), VarKey([3, 3, 1], [3, 3, 2]), VarKey([3, 3, 3], [3, 3, 4])]
  }

  lemma LosingFirstKey()
    ensures WellFormed(LosingPage()[0]) && Key(LosingPage()[0]) == LosingKeys()[0]
  {
    PairKey([1], [2, 9, 9], 0);
  }

  /** The keys of pairs that share two bytes keep three. */
  lemma LosingLaterKey(x: byte, y: byte, z: byte, w: byte)
    requires z < w
    ensures WellFormed(Node([Leaf([x, y, z]), Leaf([x, y, w])], 0))
    ensures Key(Node([Leaf([x, y, z]), Leaf([x, y, w])], 0)) == VarKey([x, y, z], [x, y, w])
  {
    PairKey([x, y, z], [x, y, w], 2);
  }

  lemma LosingPageKeys(i: nat)
    requires i < 4
    ensures WellFormed(LosingPage()[i]) && Key(LosingPage()[i]) == LosingKeys()[i]
  {
    if i == 0 {
      LosingFirstKey();
    } else {
      var x, y, z, w := LosingKeys()[i].lower[0], LosingKeys()[i].lower[1], LosingKeys()[i].lower[2],
        LosingKeys()[i].upper[2];
      LosingLaterKey(x, y, z, w);
      assert LosingKeys()[i] == VarKey([x, y, z], [x, y, w]);
    }
  }

  lemma LosingKeysSorted(i: nat, j: nat)
    requires i < j < 4
    ensures KeyLe(LosingKeys()[i], LosingKeys()[j]) && !KeyLe(LosingKeys()[j], LosingKeys()[i])
  {
    var a, b := LosingKeys()[i].lower, LosingKeys()[j].lower;
    var p := if i == 2 then 2 else 0;
    assert a[..p] == b[..p] && a[p] < b[p];
    CommonPrefixIs(a, b, p);
    CommonPrefixIs(b, a, p);
  }

  lemma StrictlyBelow(a: Bytes, b: Bytes, p: nat)
    requires p <= |a| && p < |b| && a[..p] == b[..p] && (p < |a| ==> a[p] < b[p])
    ensures Lt(a, b) && !Lt(b, a) && CommonPrefix(a, b) == p
  {
    CommonPrefixIs(a, b, p);
    CommonPrefixIs(b, a, p);
  }

  lemma LosingLeftUnion()
    ensures RawUnion(LosingKeys()[..2]) == VarKey([1], [2, 9, 5]) && UnionCut(LosingKeys()[..2]) == 2
  {
    var x, y := LosingKeys()[0], LosingKeys()[1];
    assert LosingKeys()[..2] == [x, y];
    StrictlyBelow(x.lower, y.lower, 0);
    StrictlyBelow(x.upper, y.upper, 2);
    PairUnion(x, y);
    StrictlyBelow([1], [2, 9, 5], 0);
  }

  lemma LosingRightUnion()
    ensures UnionCut(LosingKeys()[2..]) == 4
  {
    var x, y := LosingKeys()[2], LosingKeys()[3];
    assert LosingKeys()[2..] == [x, y];
    StrictlyBelow(x.lower, y.lower, 2);
    StrictlyBelow(x.upper, y.upper, 2);
    PairUnion(x, y);
    StrictlyBelow(x.lower, y.upper, 2);
  }

  /** On a page of truncated entries the split does lose values: [2, 9, 9] is stored below the first entry, which sorts
      into the left half, but an equality search no longer enters the left page. */
  lemma InnerSplitLosesValue()
    ensures [2, 9, 9] in Values(LosingPage()[0])
    ensures var left, right := LosingKeys()[..2], LosingKeys()[2..];
      !Consistent(CutUnion(left, SplitCut(left, right)), [2, 9, 9], Equal, false)
  {
    LosingLeftUnion();
    LosingRightUnion();
    StrictlyBelow([2, 9, 5], [2, 9, 9], 2);
    assert Values(LosingPage()[0].children[1]) == [[2, 9, 9]];
  }
}
