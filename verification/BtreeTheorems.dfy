/** What a silent check proves about an index. */
module BtreeTheorems {
  import opened BtreePages
  import opened BtreePageCheck
  import opened BtreeLevelCheck
  import opened BtreeTreeCheck

  ghost predicate Transitive<K(!new)>(le: (K, K) -> bool) {
    forall x, y, z {:trigger le(x, y), le(y, z)} :: le(x, y) && le(y, z) ==> le(x, z)
  }

  ghost predicate Sorted<K>(s: seq<K>, le: (K, K) -> bool) {
    forall i, j :: 0 <= i < j < |s| ==> le(s[i], s[j])
  }

  /** How many items stand in front of the real ones: the high key unless the page is rightmost, and on an internal page
      the one whose key is minus infinity. */
  function Leading<K>(p: Page<K>): nat {
    match (p.leaf, p.next == NONE)
    case (true, true) => 0
    case (true, false) => 1
    case (false, true) => 1
    case (false, false) => 2
  }

  lemma RealIs<K>(p: Page<K>, o: nat)
    ensures FirstReal(p) == Leading(p) + 1
    ensures Real(p, o) <==> Leading(p) < o <= |p.items|
  {
  }

  /** The real keys of a page, in order. */
  function RealKeys<K>(p: Page<K>): (ks: seq<K>)
    ensures |ks| == if Leading(p) <= |p.items| then |p.items| - Leading(p) else 0
    ensures forall i :: 0 <= i < |ks| ==> ks[i] == p.items[Leading(p) + i].key
  {
    if Leading(p) <= |p.items|
    then seq(|p.items| - Leading(p), i requires 0 <= i < |p.items| - Leading(p) => p.items[Leading(p) + i].key)
    else []
  }

  /** The real keys that a page adds to its level. */
  function LiveKeys<K>(p: Page<K>): seq<K> {
    if Ignorable(p) then [] else RealKeys(p)
  }

  /** The real keys of a level, page after page in right-link order, ignorable pages left out. */
  function LevelKeys<K>(idx: Index<K>, v: seq<nat>): seq<K>
    requires InFile(idx, v)
  {
    if v == [] then []
    else LevelKeys(idx, v[..|v| - 1]) + LiveKeys(idx.pages[v[|v| - 1]])
  }

  lemma {:induction false} PageKeysSorted<K(!new)>(idx: Index<K>, p: Page<K>, i: nat, j: nat)
    requires Transitive(idx.le) && InOrder(idx, p) && i < j < |RealKeys(p)|
    ensures idx.le(RealKeys(p)[i], RealKeys(p)[j])
    decreases j
  {
    var o := FirstReal(p) + j - 1;
    assert Real(p, o);
    assert idx.le(KeyAt(p, o), KeyAt(p, o + 1));
    if i < j - 1 {
      PageKeysSorted(idx, p, i, j - 1);
    }
  }

  /** Sorted runs join into a sorted run when the end of the first is at most the start of the second. */
  lemma SortedConcat<K(!new)>(a: seq<K>, b: seq<K>, le: (K, K) -> bool)
    requires Transitive(le) && Sorted(a, le) && Sorted(b, le)
    requires a != [] && b != [] ==> le(a[|a| - 1], b[0])
    ensures Sorted(a + b, le)
  {
    forall i, j | 0 <= i < j < |a + b|
      ensures le((a + b)[i], (a + b)[j])
    {
      if i < |a| <= j {
        var x, y := a[|a| - 1], b[0];
        assert i == |a| - 1 || le(a[i], x);
        assert j == |a| || le(y, b[j - |a|]);
        assert le(a[i], y);
      }
    }
  }

  /** The next live page of a level, from position i on. */
  function NextLive<K>(idx: Index<K>, v: seq<nat>, i: nat): (j: nat)
    requires InFile(idx, v) && i < |v| && !Ignorable(idx.pages[v[|v| - 1]])
    ensures i <= j < |v| && !Ignorable(idx.pages[v[j]])
    decreases |v| - i
  {
    if Ignorable(idx.pages[v[i]]) then NextLive(idx, v, i + 1) else i
  }

  /** The right sibling that the cross-page check finds is the next live page of the level. */
  lemma {:induction false} SiblingIsNextLive<K>(idx: Index<K>, level: Level, v: seq<nat>, fuel: nat, i: nat, f: nat)
    requires LevelSound(idx, level, v, fuel) && i < |v| && !Ignorable(idx.pages[v[|v| - 1]])
    requires RightSibling(idx, v[i], f).Ok?
    ensures RightSibling(idx, v[i], f).value == v[NextLive(idx, v, i)]
    decreases f
  {
    WalkAt(idx, level, v, fuel, i);
    if Ignorable(idx.pages[v[i]]) {
      SiblingIsNextLive(idx, level, v, fuel, i + 1, f - 1);
    }
  }

  lemma LastPageLive<K>(idx: Index<K>, level: Level, v: seq<nat>, fuel: nat)
    requires LevelSound(idx, level, v, fuel)
    ensures !Ignorable(idx.pages[v[|v| - 1]])
  {
    WalkAt(idx, level, v, fuel, |v| - 1);
  }

  /** Every live page of the level has a real key. */
  predicate NoEmptyPage<K>(idx: Index<K>, v: seq<nat>)
    requires InFile(idx, v)
  {
    forall i :: 0 <= i < |v| && !Ignorable(idx.pages[v[i]]) ==> RealKeys(idx.pages[v[i]]) != []
  }

  /** What the cross-page check compares. */
  lemma LastBelowFirst<K>(idx: Index<K>, p: Page<K>, fuel: nat)
    requires BelowRight(idx, p, fuel) && p.next != NONE && RealKeys(p) != []
    ensures RightSibling(idx, p.next, fuel).Ok?
    ensures var a, b := RealKeys(p), RealKeys(idx.pages[RightSibling(idx, p.next, fuel).value]);
      b != [] ==> idx.le(a[|a| - 1], b[0])
  {
    assert Real(p, |p.items|);
  }

  /** The last key of a live page is at most the first key of the next live page. */
  lemma PagesInOrder<K>(idx: Index<K>, level: Level, v: seq<nat>, fuel: nat, i: nat)
    requires LevelSound(idx, level, v, fuel) && NoEmptyPage(idx, v) && !Ignorable(idx.pages[v[|v| - 1]])
    requires i + 1 < |v| && !Ignorable(idx.pages[v[i]])
    ensures var a, b := RealKeys(idx.pages[v[i]]), RealKeys(idx.pages[v[NextLive(idx, v, i + 1)]]);
      a != [] && b != [] && idx.le(a[|a| - 1], b[0])
  {
    WalkAt(idx, level, v, fuel, i);
    WalkAt(idx, level, v, fuel, i + 1);
    LastBelowFirst(idx, idx.pages[v[i]], fuel);
    SiblingIsNextLive(idx, level, v, fuel, i + 1, fuel);
  }

  lemma AppendPage<K(!new)>(idx: Index<K>, ks: seq<K>, p: Page<K>)
    requires Transitive(idx.le) && Sorted(ks, idx.le) && InOrder(idx, p) && RealKeys(p) != []
    requires ks != [] ==> idx.le(ks[|ks| - 1], RealKeys(p)[0])
    ensures Sorted(ks + RealKeys(p), idx.le)
  {
    forall i, j | 0 <= i < j < |RealKeys(p)|
      ensures idx.le(RealKeys(p)[i], RealKeys(p)[j])
    {
      PageKeysSorted(idx, p, i, j);
    }
    SortedConcat(ks, RealKeys(p), idx.le);
  }

  /** A run of keys reaches no further than the first key of the next live page from position n on. */
  ghost predicate ReachesTo<K>(idx: Index<K>, v: seq<nat>, ks: seq<K>, n: nat)
    requires InFile(idx, v) && v != [] && !Ignorable(idx.pages[v[|v| - 1]])
  {
    n < |v| && ks != [] ==> var b := RealKeys(idx.pages[v[NextLive(idx, v, n)]]); b != [] && idx.le(ks[|ks| - 1], b[0])
  }

  lemma LiveStep<K(!new)>(idx: Index<K>, level: Level, v: seq<nat>, fuel: nat, n: nat, ks: seq<K>)
    requires Transitive(idx.le) && LevelSound(idx, level, v, fuel) && NoEmptyPage(idx, v) && n < |v|
    requires !Ignorable(idx.pages[v[|v| - 1]]) && !Ignorable(idx.pages[v[n]])
    requires Sorted(ks, idx.le) && ReachesTo(idx, v, ks, n)
    ensures Sorted(ks + RealKeys(idx.pages[v[n]]), idx.le) && ReachesTo(idx, v, ks + RealKeys(idx.pages[v[n]]), n + 1)
  {
    WalkAt(idx, level, v, fuel, n);
    AppendPage(idx, ks, idx.pages[v[n]]);
    if n + 1 < |v| {
      PagesInOrder(idx, level, v, fuel, n);
    }
  }

  lemma PageStep<K(!new)>(idx: Index<K>, level: Level, v: seq<nat>, fuel: nat, n: nat, ks: seq<K>)
    requires Transitive(idx.le) && LevelSound(idx, level, v, fuel) && NoEmptyPage(idx, v) && n < |v|
    requires !Ignorable(idx.pages[v[|v| - 1]]) && Sorted(ks, idx.le) && ReachesTo(idx, v, ks, n)
    ensures Sorted(ks + LiveKeys(idx.pages[v[n]]), idx.le) && ReachesTo(idx, v, ks + LiveKeys(idx.pages[v[n]]), n + 1)
  {
    if Ignorable(idx.pages[v[n]]) {
      assert ks + [] == ks;
    } else {
      LiveStep(idx, level, v, fuel, n, ks);
    }
  }

  lemma LevelKeysMore<K>(idx: Index<K>, v: seq<nat>, n: nat)
    requires InFile(idx, v) && n < |v|
    ensures LevelKeys(idx, v[..n + 1]) == LevelKeys(idx, v[..n]) + LiveKeys(idx.pages[v[n]])
  {
    assert v[..n + 1][..n] == v[..n];
  }

  /** The keys of the first n pages are sorted, and their last is at most the first key of the next live page. */
  lemma {:induction false} PrefixSorted<K(!new)>(idx: Index<K>, level: Level, v: seq<nat>, fuel: nat, n: nat)
    requires Transitive(idx.le) && LevelSound(idx, level, v, fuel) && NoEmptyPage(idx, v) && n <= |v|
    requires !Ignorable(idx.pages[v[|v| - 1]])
    ensures Sorted(LevelKeys(idx, v[..n]), idx.le) && ReachesTo(idx, v, LevelKeys(idx, v[..n]), n)
  {
    if n > 0 {
      PrefixSorted(idx, level, v, fuel, n - 1);
      LevelKeysMore(idx, v, n - 1);
      PageStep(idx, level, v, fuel, n - 1, LevelKeys(idx, v[..n - 1]));
    }
  }

  /** Main result on order: on a sound level whose live pages all have a real key, all keys of the level, read along the
      right links, are sorted. */
  lemma LevelGloballySorted<K(!new)>(idx: Index<K>, level: Level, v: seq<nat>, fuel: nat)
    requires Transitive(idx.le) && LevelSound(idx, level, v, fuel) && NoEmptyPage(idx, v)
    ensures Sorted(LevelKeys(idx, v), idx.le)
  {
    LastPageLive(idx, level, v, fuel);
    PrefixSorted(idx, level, v, fuel, |v|);
    assert v[..|v|] == v;
  }

  /** The levels of a sound tree count down from the level that the metapage names to zero. */
  lemma {:induction false} LevelNumbers<K>(idx: Index<K>, ws: seq<seq<nat>>, fuel: nat, d: nat)
    requires Descent(idx, ws, fuel) && d < |ws|
    ensures d <= idx.metad.level && LevelAfter(idx, ws[..d]).level == idx.metad.level - d
  {
    DescentAt(idx, ws, fuel, d);
    if d > 0 {
      LevelNumbers(idx, ws, fuel, d - 1);
      DescentAt(idx, ws, fuel, d - 1);
      assert ws[..d][..d - 1] == ws[..d - 1];
      LevelHandsDown(idx, LevelAfter(idx, ws[..d - 1]), ws[d - 1], fuel);
    }
  }

  /** Each level of a sound tree starts with the first downlink of the first page above it. */
  lemma LevelsConnect<K>(idx: Index<K>, ws: seq<seq<nat>>, fuel: nat, d: nat)
    requires TreeSound(idx, ws, fuel) && d < |ws|
    ensures ws[d] != [] && (d > 0 ==> ws[d - 1] != [] && InFile(idx, ws[d - 1]))
    ensures ws[d][0] == if d == 0 then idx.metad.root else Down(idx.pages[ws[d - 1][0]]).leftmost
  {
    DescentAt(idx, ws, fuel, d);
    LevelHandsDown(idx, LevelAfter(idx, ws[..d]), ws[d], fuel);
    if d > 0 {
      DescentAt(idx, ws, fuel, d - 1);
      assert ws[..d][..d - 1] == ws[..d - 1] && ws[..d][d - 1] == ws[d - 1];
      LevelHandsDown(idx, LevelAfter(idx, ws[..d - 1]), ws[d - 1], fuel);
    }
  }

  /** The block that d first downlinks from the root lead to. */
  function FirstBlock<K>(idx: Index<K>, d: nat): nat {
    if d == 0 then idx.metad.root
    else
      var b := FirstBlock(idx, d - 1);
      if b < |idx.pages| then Down(idx.pages[b]).leftmost else NONE
  }

  lemma {:induction false} FirstBlockIs<K>(idx: Index<K>, ws: seq<seq<nat>>, fuel: nat, d: nat)
    requires TreeSound(idx, ws, fuel) && d < |ws|
    ensures ws[d] != [] && ws[d][0] == FirstBlock(idx, d) != NONE && ws[d][0] < |idx.pages|
  {
    LevelsConnect(idx, ws, fuel, d);
    DescentAt(idx, ws, fuel, d);
    WalkAt(idx, LevelAfter(idx, ws[..d]), ws[d], fuel, 0);
    if d > 0 {
      FirstBlockIs(idx, ws, fuel, d - 1);
    }
  }

  /** The first downlinks end at block 0 right below the last level that was walked. */
  lemma LastLevel<K>(idx: Index<K>, ws: seq<seq<nat>>, fuel: nat)
    requires TreeSound(idx, ws, fuel)
    ensures |ws| <= idx.metad.level + 1 && FirstBlock(idx, |ws|) == NONE
    ensures ws != [] ==> var last := ws[|ws| - 1];
      && last != [] && last[0] < |idx.pages| && Down(idx.pages[last[0]]).leftmost == NONE
      && (|ws| == idx.metad.level + 1 <==> idx.pages[last[0]].leaf)
  {
    if ws != [] {
      var d := |ws| - 1;
      LevelNumbers(idx, ws, fuel, d);
      DescentAt(idx, ws, fuel, d);
      LevelHandsDown(idx, LevelAfter(idx, ws[..d]), ws[d], fuel);
      FirstBlockIs(idx, ws, fuel, d);
    }
  }

  /**
   * A silent check has walked one level for each number from the root's down to zero exactly when no first downlink on
   * the way names block 0.
   */
  lemma TreeHeight<K>(idx: Index<K>, ws: seq<seq<nat>>, fuel: nat)
    requires TreeSound(idx, ws, fuel)
    ensures |ws| == idx.metad.level + 1 <==> forall d: nat | d <= idx.metad.level :: FirstBlock(idx, d) != NONE
    ensures ws == [] <==> idx.metad.root == NONE
    ensures ws != [] ==>
      && |ws| <= idx.metad.level + 1
      && var last := ws[|ws| - 1];
      && last != [] && last[0] < |idx.pages|
      && (|ws| == idx.metad.level + 1 <==> idx.pages[last[0]].leaf)
      && Down(idx.pages[last[0]]).leftmost == NONE
  {
    LastLevel(idx, ws, fuel);
    assert FirstBlock(idx, 0) == idx.metad.root;
    forall d: nat | d < |ws|
      ensures FirstBlock(idx, d) != NONE
    {
      FirstBlockIs(idx, ws, fuel, d);
    }
  }

  /** A root page above the leaves whose only downlink names block 0. */
  function HeadlessIndex(): Index<int> {
    var rootPage := Page(true, 0, 0, 1, false, true, false, false, false, false, [Item(0, 0)], 0);
    Index([rootPage.(meta := true), rootPage], MetaData(true, true, 1, 1), (x, y) => x <= y)
  }

  /** A level of one page. */
  lemma OnePageLevel<K>(idx: Index<K>, level: Level, b: nat, fuel: nat)
    requires level.leftmost == b != NONE && StepOk(idx, level, NO_LEVEL, NONE, b, fuel) && idx.pages[b].next == NONE
    ensures LevelSound(idx, level, [b], fuel) && DownAlong(idx, [b]) == DownAfter(NO_LEVEL, idx.pages[b])
  {
    assert [b][..0] == [] && Walk(idx, level, [], fuel) && DownAlong(idx, []) == NO_LEVEL;
  }

  /** A tree of one level. */
  lemma OneLevelTree<K>(idx: Index<K>, v: seq<nat>, fuel: nat)
    requires Readable(idx, 0) && idx.metad.root != NONE && LevelSound(idx, RootLevel(idx), v, fuel)
      && DownAlong(idx, v).leftmost == NONE
    ensures TreeSound(idx, [v], fuel)
  {
    assert [v][..0] == [] && Descent(idx, [], fuel);
  }

  /** The check passes over it in silence, without having seen a leaf. */
  lemma SilentAboveLeaves(fuel: nat)
    ensures TreeSound(HeadlessIndex(), [[1]], fuel) && HeadlessIndex().metad.level == 1
  {
    var idx := HeadlessIndex();
    var p := idx.pages[1];
    assert forall o: nat :: !Real(p, o);
    OnePageLevel(idx, RootLevel(idx), 1, fuel);
    OneLevelTree(idx, [1], fuel);
  }

  /**
   * Main result on pages: after a silent check every live page of every level is on its level, has its real keys in
   * order and below its high key, and bounds its children from below.
   */
  lemma SilentCheckMeans<K>(idx: Index<K>, ws: seq<seq<nat>>, fuel: nat, d: nat, i: nat)
    requires TreeSound(idx, ws, fuel) && d < |ws| && i < |ws[d]|
    ensures ws[d][i] < |idx.pages|
    ensures var p := idx.pages[ws[d][i]];
      !Ignorable(p) ==>
        && p.level == idx.metad.level - d
        && (p.leaf <==> p.level == 0)
        && BelowHighKey(idx, p) && InOrder(idx, p) && BoundsChildren(idx, p)
        && p.prev == if i == 0 then NONE else ws[d][i - 1]
  {
    LevelNumbers(idx, ws, fuel, d);
    DescentAt(idx, ws, fuel, d);
    WalkAt(idx, LevelAfter(idx, ws[..d]), ws[d], fuel, i);
  }
}
