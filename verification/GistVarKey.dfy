/** btree_gist keys of variable length, for byte-ordered types with truncated inner keys (bytea). */
module GistVarKey {
  import opened ByteOrder
  import opened Sequences

  /** The two bounds that a stored key gives back. */
  datatype VarKey = VarKey(lower: Bytes, upper: Bytes)

  datatype Strategy = LessEqual | Less | Equal | Greater | GreaterEqual | NotEqual | Unknown

  /** What the SQL operator behind a strategy says of an indexed value. */
  predicate Satisfies(value: Bytes, query: Bytes, strategy: Strategy) {
    match strategy
    case LessEqual => Le(value, query)
    case Less => Lt(value, query)
    case Equal => value == query
    case Greater => Lt(query, value)
    case GreaterEqual => Le(query, value)
    case NotEqual => value != query
    case Unknown => false
  }

  /** gbt_var_node_pf_match: the query begins with one of the two bounds. */
  predicate NodePrefixMatch(key: VarKey, query: Bytes) {
    key.lower <= query || key.upper <= query
  }

  /** gbt_var_consistent. */
  predicate Consistent(key: VarKey, query: Bytes, strategy: Strategy, isLeaf: bool) {
    match strategy
    case LessEqual =>
      if isLeaf then Le(key.lower, query) else Le(key.lower, query) || NodePrefixMatch(key, query)
    case Less =>
      if isLeaf then Lt(key.lower, query) else Le(key.lower, query) || NodePrefixMatch(key, query)
    case Equal =>
      if isLeaf then query == key.lower
      else (Le(key.lower, query) && Le(query, key.upper)) || NodePrefixMatch(key, query)
    case Greater =>
      if isLeaf then Lt(query, key.upper) else Le(query, key.upper) || NodePrefixMatch(key, query)
    case GreaterEqual =>
      if isLeaf then Le(query, key.upper) else Le(query, key.upper) || NodePrefixMatch(key, query)
    case NotEqual => !(query == key.lower && query == key.upper)
    case Unknown => false
  }

  /** gbt_var_bin_union on an existing key: each bound moves only when the entry is beyond it. */
  function BinUnion(u: VarKey, e: VarKey): VarKey {
    VarKey(if Lt(e.lower, u.lower) then e.lower else u.lower,
           if Lt(u.upper, e.upper) then e.upper else u.upper)
  }

  /** The union before truncation, entries taken left to right. */
  function RawUnion(keys: seq<VarKey>): VarKey
    requires keys != []
  {
    if |keys| == 1 then keys[0]
    else BinUnion(RawUnion(keys[..|keys| - 1]), keys[|keys| - 1])
  }

  /** gbt_var_node_truncate: both bounds keep one byte more than the given prefix length. */
  function Truncate(key: VarKey, prefixLength: nat): VarKey {
    VarKey(Take(key.lower, prefixLength + 1), Take(key.upper, prefixLength + 1))
  }

  /** The number of bytes that the bounds of a union keep. */
  function UnionCut(keys: seq<VarKey>): nat
    requires keys != []
  {
    CommonPrefix(RawUnion(keys).lower, RawUnion(keys).upper) + 2
  }

  /** A union whose bounds keep a given number of bytes. */
  function CutUnion(keys: seq<VarKey>, cut: nat): VarKey
    requires keys != [] && cut > 0
  {
    Truncate(RawUnion(keys), cut - 1)
  }

  /** gbt_var_union. */
  function Union(keys: seq<VarKey>): VarKey
    requires keys != []
  {
    CutUnion(keys, UnionCut(keys))
  }

  /** gbt_var_node_cp_len for single-byte encodings. */
  method NodeCommonPrefix(key: VarKey) returns (length: nat)
    ensures length == CommonPrefix(key.lower, key.upper)
  {
    var ml := if |key.lower| < |key.upper| then |key.lower| else |key.upper|;
    if ml == 0 {
      return 0;
    }
    var i := 0;
    while i < ml
      invariant i <= ml && key.lower[..i] == key.upper[..i]
    {
      if key.lower[i] != key.upper[i] {
        CommonPrefixIs(key.lower, key.upper, i);
        return i;
      }
      i := i + 1;
    }
    CommonPrefixIs(key.lower, key.upper, ml);
    return ml;
  }

  /** The entries with the least lower and the greatest upper bound. */
  ghost predicate Extremes(keys: seq<VarKey>, l: nat, g: nat) {
    && l < |keys| && g < |keys|
    && forall e | 0 <= e < |keys| :: Le(keys[l].lower, keys[e].lower) && Le(keys[e].upper, keys[g].upper)
  }

  /** Which entries have the least lower and the greatest upper bound, and how much these have in common. */
  datatype Span = Span(l: nat, g: nat, p: nat)

  ghost predicate IsSpan(keys: seq<VarKey>, s: Span) {
    Extremes(keys, s.l, s.g) && Shared(keys[s.l].lower, keys[s.g].upper, s.p)
  }

  /** A key that holds the first n bytes of both. */
  predicate HoldsSpan(keys: seq<VarKey>, s: Span, n: nat, key: VarKey)
    requires s.l < |keys| && s.g < |keys|
  {
    CutTo(keys[s.l].lower, n, key.lower) && CutTo(keys[s.g].upper, n, key.upper)
  }

  /** The entries taken one by one, as gbt_var_union and each side of the split do. */
  method UnionOf(keys: seq<VarKey>) returns (key: VarKey)
    requires keys != []
    ensures key == RawUnion(keys)
  {
    key := keys[0];
    var i := 1;
    while i < |keys|
      invariant 1 <= i <= |keys|
      invariant key == RawUnion(keys[..i])
    {
      assert keys[..i + 1][..i] == keys[..i];
      if Lt(keys[i].lower, key.lower) {
        key := key.(lower := keys[i].lower);
      }
      if Lt(key.upper, keys[i].upper) {
        key := key.(upper := keys[i].upper);
      }
      i := i + 1;
    }
    assert keys[..i] == keys;
  }

  lemma BinUnionEncloses(u: VarKey, e: VarKey)
    ensures var r := BinUnion(u, e);
      Le(r.lower, u.lower) && Le(r.lower, e.lower) && Le(u.upper, r.upper) && Le(e.upper, r.upper)
  {
    LeTotal(u.lower, e.lower);
    LeTotal(e.lower, e.lower);
    LeTotal(u.upper, e.upper);
    LeTotal(e.upper, e.upper);
  }

  /** The raw union encloses every entry. */
  lemma {:induction false} RawUnionEncloses(keys: seq<VarKey>, i: nat)
    requires i < |keys|
    ensures Le(RawUnion(keys).lower, keys[i].lower) && Le(keys[i].upper, RawUnion(keys).upper)
  {
    var n := |keys| - 1;
    if n == 0 {
      LeTotal(keys[0].lower, keys[0].lower);
      LeTotal(keys[0].upper, keys[0].upper);
    } else {
      var prior, all := RawUnion(keys[..n]), RawUnion(keys);
      BinUnionEncloses(prior, keys[n]);
      if i < n {
        RawUnionEncloses(keys[..n], i);
        LeTransitive(all.lower, prior.lower, keys[i].lower);
        LeTransitive(keys[i].upper, prior.upper, all.upper);
      }
    }
  }

  lemma RawUnionOrdered(keys: seq<VarKey>, i: nat)
    requires i < |keys| && Le(keys[i].lower, keys[i].upper)
    ensures Le(RawUnion(keys).lower, RawUnion(keys).upper)
  {
    RawUnionEncloses(keys, i);
    LeTransitive(RawUnion(keys).lower, keys[i].lower, keys[i].upper);
    LeTransitive(RawUnion(keys).lower, keys[i].upper, RawUnion(keys).upper);
  }

  /** Each bound of the raw union comes from an entry. */
  lemma {:induction false} RawUnionAttained(keys: seq<VarKey>) returns (i: nat, j: nat)
    requires keys != []
    ensures i < |keys| && RawUnion(keys).lower == keys[i].lower
    ensures j < |keys| && RawUnion(keys).upper == keys[j].upper
  {
    var n := |keys| - 1;
    if n == 0 {
      i, j := 0, 0;
    } else {
      i, j := RawUnionAttained(keys[..n]);
      var prior := RawUnion(keys[..n]);
      i := if Lt(keys[n].lower, prior.lower) then n else i;
      j := if Lt(prior.upper, keys[n].upper) then n else j;
    }
  }

  /** What a union holds, told by its entries: bytes of the least lower and of the greatest upper bound. */
  lemma UnionSpan(keys: seq<VarKey>) returns (s: Span)
    requires keys != []
    ensures IsSpan(keys, s) && UnionCut(keys) == s.p + 2
    ensures RawUnion(keys) == VarKey(keys[s.l].lower, keys[s.g].upper)
  {
    var l, g := RawUnionAttained(keys);
    forall e | 0 <= e < |keys|
      ensures Le(keys[l].lower, keys[e].lower) && Le(keys[e].upper, keys[g].upper)
    {
      RawUnionEncloses(keys, e);
    }
    s := Span(l, g, UnionCut(keys) - 2);
  }

  lemma CutHolds(keys: seq<VarKey>, s: Span, cut: nat)
    requires s.l < |keys| && s.g < |keys| && cut > 0 && RawUnion(keys) == VarKey(keys[s.l].lower, keys[s.g].upper)
    ensures HoldsSpan(keys, s, cut, CutUnion(keys, cut))
  {
  }

  /** gbt_var_union as the source runs it: one bin_union per entry, then both bounds cut two bytes past what they have
      in common. */
  method ComputeUnion(keys: seq<VarKey>) returns (out: VarKey, ghost s: Span)
    requires keys != []
    ensures out == Union(keys) && IsSpan(keys, s) && HoldsSpan(keys, s, s.p + 2, out)
  {
    var raw := UnionOf(keys);
    var length := NodeCommonPrefix(raw);
    var keep := length + 2;
    out := VarKey(if |raw.lower| < keep then raw.lower else raw.lower[..keep],
                  if |raw.upper| < keep then raw.upper else raw.upper[..keep]);
    s := UnionSpan(keys);
    CutHolds(keys, s, s.p + 2);
  }

  /**
   * An index, or any nesting of key unions: a leaf holds a value, a node the union of its children's keys. A page of
   * leaf values that comes from a split keeps some extra bytes of its bounds.
   */
  datatype Tree = Leaf(value: Bytes) | Node(children: seq<Tree>, extra: nat)

  predicate WellFormed(t: Tree) {
    t.Node? ==>
      && t.children != [] && (forall c | c in t.children :: WellFormed(c))
      && (t.extra == 0 || forall c | c in t.children :: c.Leaf?)
  }

  /** The key stored for a subtree. */
  function Key(t: Tree): VarKey
    requires WellFormed(t)
    decreases t, 1
  {
    match t
    case Leaf(v) => VarKey(v, v)
    case Node(children, extra) => CutUnion(Keys(children), UnionCut(Keys(children)) + extra)
  }

  function Keys(ts: seq<Tree>): (keys: seq<VarKey>)
    requires forall c | c in ts :: WellFormed(c)
    ensures |keys| == |ts|
    ensures forall i :: 0 <= i < |ts| ==> keys[i] == Key(ts[i])
    decreases ts, 0
  {
    if ts == [] then [] else [Key(ts[0])] + Keys(ts[1..])
  }

  /** The values below a subtree, left to right. */
  function Values(t: Tree): seq<Bytes>
    decreases t, 1
  {
    match t
    case Leaf(v) => [v]
    case Node(children, _) => ForestValues(children)
  }

  function ForestValues(ts: seq<Tree>): seq<Bytes>
    decreases ts, 0
  {
    if ts == [] then [] else Values(ts[0]) + ForestValues(ts[1..])
  }

  /** Every value of a forest is a value of one of its trees. */
  lemma {:induction false} ValueHasTree(ts: seq<Tree>, v: Bytes)
    requires v in ForestValues(ts)
    ensures exists i :: 0 <= i < |ts| && v in Values(ts[i])
  {
    if v in Values(ts[0]) {
    } else {
      ValueHasTree(ts[1..], v);
      var i :| 0 <= i < |ts[1..]| && v in Values(ts[1..][i]);
      assert ts[i + 1] == ts[1..][i];
    }
  }

  /** How many bytes of the values below are still known to be bounded by the upper bound of the key. */
  function Cut(t: Tree): nat
    requires WellFormed(t)
  {
    match t
    case Leaf(v) => |v| + 2
    case Node(children, extra) => UnionCut(Keys(children)) + extra
  }

  /** What a stored key still says about one value below it. */
  predicate Bounds(key: VarKey, cut: nat, v: Bytes) {
    Le(key.lower, v) && Le(Take(v, cut), key.upper)
  }

  /** What holds of every key built by unions, however often it was truncated on the way up. */
  ghost predicate Sound(t: Tree)
    requires WellFormed(t)
  {
    var key := Key(t);
    && Le(key.lower, key.upper)
    && |key.upper| <= Cut(t)
    && CommonPrefix(key.lower, key.upper) + 2 <= Cut(t)
    && (forall v | v in Values(t) :: Bounds(key, Cut(t), v))
    && (key.lower == key.upper ==> forall v | v in Values(t) :: v == key.lower)
  }

  /** The child's bounds carry over to the parent, whose cut is never the longer one. */
  lemma WidenedBounds(child: VarKey, cut: nat, raw: VarKey, v: Bytes)
    requires Bounds(child, cut, v)
    requires Le(child.lower, child.upper) && CommonPrefix(child.lower, child.upper) + 2 <= cut
    requires Le(raw.lower, child.lower) && Le(child.upper, raw.upper)
    ensures var p := CommonPrefix(raw.lower, raw.upper); Bounds(Truncate(raw, p + 1), p + 2, v)
  {
    var p := CommonPrefix(raw.lower, raw.upper);
    WiderSharesLess(raw.lower, child.lower, child.upper, raw.upper);
    CutLower(raw.lower, child.lower, v, p + 2);
    CutUpper(Take(v, cut), child.upper, raw.upper, p + 2);
    assert Take(Take(v, cut), p + 2) == Take(v, p + 2);
  }

  lemma CutLower(a: Bytes, b: Bytes, v: Bytes, c: nat)
    requires Le(a, b) && Le(b, v)
    ensures Le(Take(a, c), v)
  {
    PrefixLe(Take(a, c), a);
    LeTransitive(a, b, v);
    LeTransitive(Take(a, c), a, v);
  }

  lemma CutUpper(v: Bytes, a: Bytes, b: Bytes, c: nat)
    requires Le(v, a) && Le(a, b)
    ensures Le(Take(v, c), Take(b, c))
  {
    LeTransitive(v, a, b);
    TakeMonotone(v, b, c);
  }

  /** The shape of a union, whatever it keeps past the common prefix: ordered bounds whose common prefix survived. */
  lemma UnionShape(keys: seq<VarKey>, cut: nat)
    requires keys != [] && Le(keys[0].lower, keys[0].upper) && cut >= UnionCut(keys)
    ensures var raw := RawUnion(keys); var key := CutUnion(keys, cut);
      && Le(key.lower, key.upper)
      && |key.upper| <= cut && CommonPrefix(key.lower, key.upper) + 2 == UnionCut(keys)
      && (key.lower == key.upper ==> raw.lower == raw.upper == key.lower)
  {
    var raw := RawUnion(keys);
    RawUnionOrdered(keys, 0);
    TakeMonotone(raw.lower, raw.upper, cut);
    TakeKeepsCommonPrefix(raw.lower, raw.upper, cut);
    TakeKeepsDifference(raw.lower, raw.upper, cut);
  }

  /** What a union that keeps more bytes says about a value that is one of its entries. */
  lemma LeafBounds(keys: seq<VarKey>, i: nat, cut: nat)
    requires i < |keys| && keys[i].lower == keys[i].upper && cut > 0
    ensures Bounds(CutUnion(keys, cut), cut, keys[i].lower)
    ensures RawUnion(keys).lower == RawUnion(keys).upper ==> keys[i].lower == RawUnion(keys).lower
  {
    var v, raw := keys[i].lower, RawUnion(keys);
    RawUnionEncloses(keys, i);
    LeTotal(v, v);
    CutLower(raw.lower, v, v, cut);
    CutUpper(v, v, raw.upper, cut);
    if raw.lower == raw.upper {
      PinnedChild(raw.lower, keys[i]);
    }
  }

  /** What a union says about a value that one of its entries bounds. */
  lemma UnionBounds(keys: seq<VarKey>, i: nat, cut: nat, v: Bytes)
    requires i < |keys| && Bounds(keys[i], cut, v)
    requires Le(keys[i].lower, keys[i].upper) && CommonPrefix(keys[i].lower, keys[i].upper) + 2 <= cut
    ensures Bounds(Union(keys), UnionCut(keys), v)
  {
    RawUnionEncloses(keys, i);
    WidenedBounds(keys[i], cut, RawUnion(keys), v);
  }

  /** A union of one point has that point in every entry. */
  lemma UnionPins(keys: seq<VarKey>, i: nat)
    requires i < |keys| && Le(keys[i].lower, keys[i].upper) && RawUnion(keys).lower == RawUnion(keys).upper
    ensures keys[i].lower == keys[i].upper == RawUnion(keys).lower
  {
    RawUnionEncloses(keys, i);
    PinnedChild(RawUnion(keys).lower, keys[i]);
  }

  /** What the key of a node says about a value of one of its children. */
  lemma ChildBounds(t: Tree, i: nat, v: Bytes)
    requires WellFormed(t) && t.Node? && i < |t.children| && v in Values(t.children[i]) && Sound(t.children[i])
    ensures Bounds(Key(t), Cut(t), v)
    ensures RawUnion(Keys(t.children)).lower == RawUnion(Keys(t.children)).upper
      ==> v == RawUnion(Keys(t.children)).lower
  {
    if t.extra == 0 {
      UnionBounds(Keys(t.children), i, Cut(t.children[i]), v);
      if RawUnion(Keys(t.children)).lower == RawUnion(Keys(t.children)).upper {
        UnionPins(Keys(t.children), i);
      }
    } else {
      assert t.children[i] in t.children;
      LeafBounds(Keys(t.children), i, Cut(t));
    }
  }

  /** Every key built by unions and leaf splits is sound: the induction over the whole tree. */
  lemma {:induction false} KeysAreSound(t: Tree)
    requires WellFormed(t)
    ensures Sound(t)
  {
    if t.Leaf? {
      LeTotal(t.value, t.value);
      CommonPrefixIs(t.value, t.value, |t.value|);
    } else {
      KeysAreSound(t.children[0]);
      UnionShape(Keys(t.children), Cut(t));
      forall v | v in Values(t)
        ensures Bounds(Key(t), Cut(t), v)
        ensures Key(t).lower == Key(t).upper ==> v == Key(t).lower
      {
        ValueHasTree(t.children, v);
        var i :| 0 <= i < |t.children| && v in Values(t.children[i]);
        KeysAreSound(t.children[i]);
        ChildBounds(t, i, v);
      }
    }
  }

  /** A range squeezed between two equal bounds is that one value. */
  lemma PinnedChild(x: Bytes, key: VarKey)
    requires Le(x, key.lower) && Le(key.lower, key.upper) && Le(key.upper, x)
    ensures key.lower == x && key.upper == x
  {
    LeTransitive(key.lower, key.upper, x);
    LeTransitive(x, key.lower, key.upper);
    LeAntisymmetric(x, key.lower);
    LeAntisymmetric(x, key.upper);
  }

  /** A bounded value that satisfies the operator makes the inner test succeed. */
  lemma BoundedIsConsistent(key: VarKey, cut: nat, v: Bytes, query: Bytes, strategy: Strategy)
    requires Bounds(key, cut, v) && |key.upper| <= cut
    requires key.lower == key.upper ==> v == key.lower
    requires Satisfies(v, query, strategy)
    ensures Consistent(key, query, strategy, false)
  {
    CutDecides(v, key.upper, cut);
    LeTotal(v, query);
    LeTotal(query, key.upper);
    if strategy.LessEqual? || strategy.Less? {
      LeTransitive(key.lower, v, query);
    } else if strategy.Greater? || strategy.GreaterEqual? {
      if Le(v, key.upper) {
        LeTransitive(query, v, key.upper);
      } else if Le(key.upper, query) {
        LeTotal(key.upper, key.upper);
        BetweenKeepsPrefix(key.upper, key.upper, query, v);
      }
    }
  }

  /**
   * Main result: whatever satisfies the operator below a node, at any depth and for any strategy, its key lets through.
   */
  lemma InnerKeyNeverLosesValue(t: Tree, v: Bytes, query: Bytes, strategy: Strategy)
    requires WellFormed(t) && t.Node?
    requires v in Values(t) && Satisfies(v, query, strategy)
    ensures Consistent(Key(t), query, strategy, false)
  {
    KeysAreSound(t);
    BoundedIsConsistent(Key(t), Cut(t), v, query, strategy);
  }

  /** The descent below one entry: a leaf answers for itself, a node is entered when its key is consistent. */
  function SearchEntry(t: Tree, query: Bytes, strategy: Strategy): seq<Bytes>
    requires WellFormed(t)
    decreases t, 1
  {
    match t
    case Leaf(v) => if Consistent(VarKey(v, v), query, strategy, true) then [v] else []
    case Node(children, _) =>
      if Consistent(Key(t), query, strategy, false) then Search(children, query, strategy) else []
  }

  /** The descent over the entries of a page. */
  function Search(ts: seq<Tree>, query: Bytes, strategy: Strategy): seq<Bytes>
    requires forall c | c in ts :: WellFormed(c)
    decreases ts, 0
  {
    if ts == [] then [] else SearchEntry(ts[0], query, strategy) + Search(ts[1..], query, strategy)
  }

  function Matches(query: Bytes, strategy: Strategy): Bytes -> bool {
    v => Satisfies(v, query, strategy)
  }

  lemma {:induction false} SearchEntryIsExact(t: Tree, query: Bytes, strategy: Strategy)
    requires WellFormed(t)
    ensures SearchEntry(t, query, strategy) == Filter(Values(t), Matches(query, strategy))
    decreases t, 1
  {
    if t.Node? {
      if Consistent(Key(t), query, strategy, false) {
        SearchIsExact(t.children, query, strategy);
      } else {
        forall v | v in Values(t)
          ensures !Satisfies(v, query, strategy)
        {
          if Satisfies(v, query, strategy) {
            InnerKeyNeverLosesValue(t, v, query, strategy);
          }
        }
        FilterNone(Values(t), Matches(query, strategy));
      }
    } else {
      LeTotal(t.value, query);
      assert [t.value][..0] == [];
    }
  }

  /** The descent returns exactly the indexed values that satisfy the operator, in order. */
  lemma {:induction false} SearchIsExact(ts: seq<Tree>, query: Bytes, strategy: Strategy)
    requires forall c | c in ts :: WellFormed(c)
    ensures Search(ts, query, strategy) == Filter(ForestValues(ts), Matches(query, strategy))
    decreases ts, 0
  {
    if ts != [] {
      SearchEntryIsExact(ts[0], query, strategy);
      SearchIsExact(ts[1..], query, strategy);
      FilterConcat(Values(ts[0]), ForestValues(ts[1..]), Matches(query, strategy));
    }
  }
}
