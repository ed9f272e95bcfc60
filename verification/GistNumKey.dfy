/** Interval keys over any totally ordered type, as btree_gist keeps them for its fixed-size types. */
module GistNumKey {
  import opened Wrappers
  import opened Sequences
  import opened Sorting

  datatype NumKey<T> = NumKey(lower: T, upper: T)

  type Order<!T> = (T, T) -> bool

  /** The comparison functions of a type, all derived from its order. */
  predicate Lt<T>(le: Order<T>, x: T, y: T) {
    !le(y, x)
  }

  predicate Eq<T>(le: Order<T>, x: T, y: T) {
    le(x, y) && le(y, x)
  }

  datatype Strategy = Less | LessEqual | Equal | GreaterEqual | Greater | NotEqual | Unsupported

  /** The operator that a strategy stands for. */
  predicate Satisfies<T>(le: Order<T>, v: T, query: T, strategy: Strategy) {
    match strategy
    case Less => Lt(le, v, query)
    case LessEqual => le(v, query)
    case Equal => Eq(le, v, query)
    case GreaterEqual => le(query, v)
    case Greater => Lt(le, query, v)
    case NotEqual => !Eq(le, v, query)
    case Unsupported => false
  }

  /** gbt_num_consistent. */
  predicate Consistent<T>(le: Order<T>, key: NumKey<T>, query: T, strategy: Strategy, leaf: bool) {
    match strategy
    case LessEqual => le(key.lower, query)
    case Less => if leaf then Lt(le, key.lower, query) else le(key.lower, query)
    case Equal => if leaf then Eq(le, query, key.lower) else le(key.lower, query) && le(query, key.upper)
    case Greater => if leaf then Lt(le, query, key.upper) else le(query, key.upper)
    case GreaterEqual => le(query, key.upper)
    case NotEqual => !(Eq(le, query, key.lower) && Eq(le, query, key.upper))
    case Unsupported => false
  }

  /** k encloses e. */
  predicate Within<T>(le: Order<T>, k: NumKey<T>, e: NumKey<T>) {
    le(k.lower, e.lower) && le(e.upper, k.upper)
  }

  lemma WithinTransitive<T(!new)>(le: Order<T>, a: NumKey<T>, b: NumKey<T>, c: NumKey<T>)
    requires TotalOrder(le) && Within(le, a, b) && Within(le, b, c)
    ensures Within(le, a, c)
  {
    assert Chain(a.lower, b.lower, c.lower) && Chain(c.upper, b.upper, a.upper);
  }

  /** gbt_num_bin_union: adopts the first key, then widens by each further one. */
  function BinUnion<T>(le: Order<T>, u: Option<NumKey<T>>, e: NumKey<T>): NumKey<T> {
    if u.None? then e
    else NumKey(if Lt(le, e.lower, u.value.lower) then e.lower else u.value.lower,
                if Lt(le, u.value.upper, e.upper) then e.upper else u.value.upper)
  }

  lemma BinUnionWithin<T(!new)>(le: Order<T>, u: NumKey<T>, e: NumKey<T>, k: NumKey<T>)
    requires TotalOrder(le)
    ensures Within(le, k, BinUnion(le, Some(u), e)) <==> Within(le, k, u) && Within(le, k, e)
  {
    assert Chain(k.lower, e.lower, u.lower) && Chain(k.lower, u.lower, e.lower);
    assert Chain(u.upper, e.upper, k.upper) && Chain(e.upper, u.upper, k.upper);
  }

  /** Least says that a key is the tightest around the given ones: just the keys that enclose them all enclose it. */
  ghost predicate Least<T(!new)>(le: Order<T>, u: NumKey<T>, keys: seq<NumKey<T>>) {
    forall k: NumKey<T> :: Within(le, k, u) <==> forall e | e in keys :: Within(le, k, e)
  }

  lemma LeastMore<T(!new)>(le: Order<T>, u: NumKey<T>, keys: seq<NumKey<T>>, e: NumKey<T>)
    requires TotalOrder(le) && Least(le, u, keys)
    ensures Least(le, BinUnion(le, Some(u), e), keys + [e])
  {
    forall k: NumKey<T>
      ensures Within(le, k, BinUnion(le, Some(u), e)) <==> forall x | x in keys + [e] :: Within(le, k, x)
    {
      BinUnionWithin(le, u, e, k);
    }
  }

  /** gbt_num_union. */
  method NumUnion<T(!new)>(le: Order<T>, entries: seq<NumKey<T>>) returns (out: NumKey<T>)
    requires TotalOrder(le) && entries != []
    ensures Least(le, out, entries)
    ensures exists i, j :: 0 <= i < |entries| && 0 <= j < |entries| && out == NumKey(entries[i].lower, entries[j].upper)
  {
    out := entries[0];
    ghost var l, u := 0, 0;
    for i := 1 to |entries|
      invariant Least(le, out, entries[..i])
      invariant 0 <= l < i && 0 <= u < i && out == NumKey(entries[l].lower, entries[u].upper)
    {
      ghost var before := out;
      var cur := entries[i];
      if Lt(le, cur.lower, out.lower) {
        out, l := out.(lower := cur.lower), i;
      }
      if Lt(le, out.upper, cur.upper) {
        out, u := out.(upper := cur.upper), i;
      }
      assert out == BinUnion(le, Some(before), cur);
      LeastMore(le, before, entries[..i], cur);
      assert entries[..i + 1] == entries[..i] + [cur];
    }
    assert entries[..|entries|] == entries;
  }

  /** An entry: a stored value, or a key with the page below it. */
  datatype Tree<T> = Leaf(value: T) | Node(key: NumKey<T>, children: seq<Tree<T>>)

  function Key<T>(t: Tree<T>): NumKey<T> {
    if t.Leaf? then NumKey(t.value, t.value) else t.key
  }

  /** Every key encloses the keys of the page below it. */
  ghost predicate Sound<T>(le: Order<T>, t: Tree<T>) {
    t.Node? ==> forall c | c in t.children :: Sound(le, c) && Within(le, t.key, Key(c))
  }

  /** The values stored below an entry, left to right. */
  function Values<T>(t: Tree<T>): seq<T>
    decreases t, 1
  {
    match t
    case Leaf(v) => [v]
    case Node(_, children) => PageValues(children)
  }

  function PageValues<T>(ts: seq<Tree<T>>): seq<T>
    decreases ts, 0
  {
    if ts == [] then [] else Values(ts[0]) + PageValues(ts[1..])
  }

  lemma {:induction false} KeyEncloses<T(!new)>(le: Order<T>, t: Tree<T>, v: T)
    requires TotalOrder(le) && Sound(le, t) && v in Values(t)
    ensures Within(le, Key(t), NumKey(v, v))
    decreases t, 1
  {
    if t.Node? {
      PageEncloses(le, t.children, t.key, v);
    } else {
      assert le(v, v);
    }
  }

  lemma {:induction false} PageEncloses<T(!new)>(le: Order<T>, ts: seq<Tree<T>>, key: NumKey<T>, v: T)
    requires TotalOrder(le) && v in PageValues(ts) && forall c | c in ts :: Sound(le, c) && Within(le, key, Key(c))
    ensures Within(le, key, NumKey(v, v))
    decreases ts, 0
  {
    if v in Values(ts[0]) {
      KeyEncloses(le, ts[0], v);
      WithinTransitive(le, key, Key(ts[0]), NumKey(v, v));
    } else {
      PageEncloses(le, ts[1..], key, v);
    }
  }

  /** An inner key is consistent whenever a value it encloses satisfies the operator. */
  lemma NothingPruned<T(!new)>(le: Order<T>, key: NumKey<T>, v: T, query: T, strategy: Strategy)
    requires TotalOrder(le) && Within(le, key, NumKey(v, v)) && Satisfies(le, v, query, strategy)
    ensures Consistent(le, key, query, strategy, false)
  {
    assert le(v, query) || le(query, v);
    assert Chain(key.lower, v, query) && Chain(query, v, key.upper);
    assert Chain(query, key.lower, v) && Chain(v, key.upper, query);
  }

  /**
   * The loose comparisons at the bounds: a page whose bound equals the query is entered for the strict operators too.
   */
  predicate Loose<T>(le: Order<T>, key: NumKey<T>, query: T, strategy: Strategy) {
    match strategy
    case Less => Eq(le, query, key.lower)
    case Greater => Eq(le, query, key.upper)
    case _ => false
  }

  /** A value within the key satisfies the operator. */
  ghost predicate Possible<T(!new)>(le: Order<T>, key: NumKey<T>, query: T, strategy: Strategy) {
    exists v :: Within(le, key, NumKey(v, v)) && Satisfies(le, v, query, strategy)
  }

  /**
   * The inner test, exactly: it passes when some value within the key satisfies the operator, and otherwise only in the
   * loose cases.
   */
  lemma InnerTestExactly<T(!new)>(le: Order<T>, key: NumKey<T>, query: T, strategy: Strategy)
    requires TotalOrder(le) && le(key.lower, key.upper)
    ensures Consistent(le, key, query, strategy, false)
      <==> Possible(le, key, query, strategy) || Loose(le, key, query, strategy)
  {
    if Possible(le, key, query, strategy) {
      var v :| Within(le, key, NumKey(v, v)) && Satisfies(le, v, query, strategy);
      NothingPruned(le, key, v, query, strategy);
    }
    if Consistent(le, key, query, strategy, false) && !Loose(le, key, query, strategy) {
      assert Within(le, key, NumKey(key.lower, key.lower)) && Within(le, key, NumKey(key.upper, key.upper));
      assert strategy.Equal? ==> Within(le, key, NumKey(query, query));
    }
  }

  lemma LeafTest<T(!new)>(le: Order<T>, v: T, query: T, strategy: Strategy)
    requires TotalOrder(le)
    ensures Consistent(le, NumKey(v, v), query, strategy, true) <==> Satisfies(le, v, query, strategy)
  {
  }

  function SearchEntry<T>(le: Order<T>, t: Tree<T>, query: T, strategy: Strategy): seq<T>
    decreases t, 1
  {
    match t
    case Leaf(v) => if Consistent(le, NumKey(v, v), query, strategy, true) then [v] else []
    case Node(key, children) =>
      if Consistent(le, key, query, strategy, false) then Search(le, children, query, strategy) else []
  }

  /** The descent over the entries of a page. */
  function Search<T>(le: Order<T>, ts: seq<Tree<T>>, query: T, strategy: Strategy): seq<T>
    decreases ts, 0
  {
    if ts == [] then [] else SearchEntry(le, ts[0], query, strategy) + Search(le, ts[1..], query, strategy)
  }

  function Matches<T>(le: Order<T>, query: T, strategy: Strategy): T -> bool {
    v => Satisfies(le, v, query, strategy)
  }

  lemma {:induction false} SearchEntryIsExact<T(!new)>(le: Order<T>, t: Tree<T>, query: T, strategy: Strategy)
    requires TotalOrder(le) && Sound(le, t)
    ensures SearchEntry(le, t, query, strategy) == Filter(Values(t), Matches(le, query, strategy))
    decreases t, 1
  {
    if t.Leaf? {
      LeafTest(le, t.value, query, strategy);
    } else if Consistent(le, t.key, query, strategy, false) {
      SearchIsExact(le, t.children, query, strategy);
    } else {
      forall v | v in Values(t)
        ensures !Satisfies(le, v, query, strategy)
      {
        KeyEncloses(le, t, v);
        if Satisfies(le, v, query, strategy) {
          NothingPruned(le, t.key, v, query, strategy);
        }
      }
      FilterNone(Values(t), Matches(le, query, strategy));
    }
  }

  /**
   * For every total order the descent returns exactly the stored values that satisfy the operator, each once, in order.
   */
  lemma {:induction false} SearchIsExact<T(!new)>(le: Order<T>, ts: seq<Tree<T>>, query: T, strategy: Strategy)
    requires TotalOrder(le) && forall c | c in ts :: Sound(le, c)
    ensures Search(le, ts, query, strategy) == Filter(PageValues(ts), Matches(le, query, strategy))
    decreases ts, 0
  {
    if ts != [] {
      SearchEntryIsExact(le, ts[0], query, strategy);
      SearchIsExact(le, ts[1..], query, strategy);
      FilterConcat(Values(ts[0]), PageValues(ts[1..]), Matches(le, query, strategy));
    }
  }

  type Distance<!T> = (T, T) -> real

  /** gbt_num_distance; no value for a type without a distance function. */
  function KeyDistance<T>(le: Order<T>, dist: Option<Distance<T>>, key: NumKey<T>, query: T): Option<real> {
    if dist.None? then None
    else if le(query, key.lower) then Some((dist.value)(query, key.lower))
    else if le(key.upper, query) then Some((dist.value)(query, key.upper))
    else Some(0.0)
  }

  /** A distance that never shrinks as a value moves away from the query, on either side. */
  ghost predicate Monotone<T(!new)>(le: Order<T>, dist: Distance<T>) {
    && (forall q, x :: 0.0 <= dist(q, x))
    && (forall q, x, y {:trigger Chain(q, x, y)} :: Chain(q, x, y) && le(q, x) && le(x, y) ==> dist(q, x) <= dist(q, y))
    && (forall q, x, y {:trigger Chain(y, x, q)} :: Chain(y, x, q) && le(y, x) && le(x, q) ==> dist(q, x) <= dist(q, y))
  }

  /** The distance of an entry is a lower bound for every value below it, and exact for a stored value. */
  lemma KeyNeverFurther<T(!new)>(le: Order<T>, dist: Distance<T>, t: Tree<T>, v: T, query: T)
    requires TotalOrder(le) && Monotone(le, dist) && Sound(le, t) && v in Values(t)
    ensures KeyDistance(le, Some(dist), Key(t), query).value <= dist(query, v)
    ensures t.Leaf? ==> KeyDistance(le, Some(dist), Key(t), query).value == dist(query, v)
  {
    KeyEncloses(le, t, v);
    var key := Key(t);
    assert Chain(query, key.lower, v) && Chain(v, key.upper, query);
  }

  /** And it is no smaller than need be: some value within the key is exactly that far away. */
  lemma KeyDistanceAttained<T(!new)>(le: Order<T>, dist: Distance<T>, key: NumKey<T>, query: T) returns (v: T)
    requires TotalOrder(le) && le(key.lower, key.upper) && dist(query, query) == 0.0
    ensures Within(le, key, NumKey(v, v)) && KeyDistance(le, Some(dist), key, query) == Some(dist(query, v))
  {
    v := if le(query, key.lower) then key.lower else if le(key.upper, query) then key.upper else query;
  }

  /** The absolute difference of exact numbers is such a distance. */
  lemma DifferenceIsMonotone()
    ensures TotalOrder((x: real, y: real) => x <= y)
    ensures Monotone((x: real, y: real) => x <= y, (x: real, y: real) => if x < y then y - x else x - y)
  {
  }

  /** The comparison of whole keys: by lower bound, then by upper bound. */
  predicate KeyLe<T>(le: Order<T>, a: NumKey<T>, b: NumKey<T>) {
    Lt(le, a.lower, b.lower) || (Eq(le, a.lower, b.lower) && le(a.upper, b.upper))
  }

  /** One key is not behind another: not by its lower bound, nor, where these are equal, by its upper one. */
  predicate InTurn<T>(le: Order<T>, a: NumKey<T>, b: NumKey<T>) {
    le(a.lower, b.lower) && (le(b.lower, a.lower) ==> le(a.upper, b.upper))
  }

  lemma KeyLeMeans<T(!new)>(le: Order<T>, a: NumKey<T>, b: NumKey<T>)
    requires TotalOrder(le)
    ensures KeyLe(le, a, b) <==> InTurn(le, a, b)
  {
    assert le(a.lower, b.lower) || le(b.lower, a.lower);
  }

  function KeyOrder<T>(le: Order<T>): Order<NumKey<T>> {
    (a: NumKey<T>, b: NumKey<T>) => KeyLe(le, a, b)
  }

  lemma KeyLeTransitive<T(!new)>(le: Order<T>, a: NumKey<T>, b: NumKey<T>, c: NumKey<T>)
    requires TotalOrder(le) && KeyLe(le, a, b) && KeyLe(le, b, c)
    ensures KeyLe(le, a, c)
  {
    assert Chain(a.lower, b.lower, c.lower) && Chain(c.lower, a.lower, b.lower) && Chain(b.lower, c.lower, a.lower);
    assert Chain(c.lower, b.lower, a.lower) && Chain(a.upper, b.upper, c.upper);
  }

  lemma KeyOrderIsTotal<T(!new)>(le: Order<T>)
    requires TotalOrder(le)
    ensures TotalOrder(KeyOrder(le))
  {
    forall a, b
      ensures KeyOrder(le)(a, b) || KeyOrder(le)(b, a)
    {
      assert le(a.lower, b.lower) || le(b.lower, a.lower);
      assert le(a.upper, b.upper) || le(b.upper, a.upper);
    }
    forall a, b, c {:trigger Chain(a, b, c)} | KeyOrder(le)(a, b) && KeyOrder(le)(b, c)
      ensures KeyOrder(le)(a, c)
    {
      KeyLeTransitive(le, a, b, c);
    }
  }

  /** The union of the keys at the given offsets; none if there are none. */
  method SideDatum<T(!new)>(le: Order<T>, keys: seq<NumKey<T>>, offsets: seq<nat>) returns (datum: Option<NumKey<T>>)
    requires TotalOrder(le) && ValidOffsets(offsets, |keys|)
    ensures datum.None? <==> offsets == []
    ensures datum.Some? ==> Least(le, datum.value, KeysAt(keys, offsets))
  {
    datum := None;
    for i := 0 to |offsets|
      invariant datum.None? <==> i == 0
      invariant datum.Some? ==> Least(le, datum.value, KeysAt(keys, offsets)[..i])
    {
      ghost var before := datum;
      var e := keys[offsets[i] - 1];
      datum := Some(BinUnion(le, datum, e));
      assert KeysAt(keys, offsets)[..i + 1] == KeysAt(keys, offsets)[..i] + [e];
      if before.Some? {
        LeastMore(le, before.value, KeysAt(keys, offsets)[..i], e);
      }
    }
    assert KeysAt(keys, offsets)[..|offsets|] == KeysAt(keys, offsets);
  }

  /** gbt_num_picksplit: the sorted entries cut in the middle, each half with its tightest interval. */
  method PickSplit<T(!new)>(le: Order<T>, keys: seq<NumKey<T>>)
    returns (left: seq<nat>, right: seq<nat>, ldatum: Option<NumKey<T>>, rdatum: Option<NumKey<T>>)
    requires TotalOrder(le)
    ensures |left| == |keys| / 2 && |left| + |right| == |keys|
    ensures ValidOffsets(left, |keys|) && ValidOffsets(right, |keys|)
    ensures forall o :: 1 <= o <= |keys| ==> (o in left <==> o !in right)
    ensures forall i, j | 0 <= i < |left| && 0 <= j < |right| :: InTurn(le, keys[left[i] - 1], keys[right[j] - 1])
    ensures (ldatum.None? <==> left == []) && (rdatum.None? <==> right == [])
    ensures ldatum.Some? ==> Least(le, ldatum.value, KeysAt(keys, left))
    ensures rdatum.Some? ==> Least(le, rdatum.value, KeysAt(keys, right))
  {
    KeyOrderIsTotal(le);
    left, right := SplitHalves(keys, KeyOrder(le));
    ldatum := SideDatum(le, keys, left);
    rdatum := SideDatum(le, keys, right);
    forall i, j | 0 <= i < |left| && 0 <= j < |right|
      ensures InTurn(le, keys[left[i] - 1], keys[right[j] - 1])
    {
      assert KeyOrder(le)(keys[left[i] - 1], keys[right[j] - 1]);
      KeyLeMeans(le, keys[left[i] - 1], keys[right[j] - 1]);
    }
  }
}
