/** What a silent check means, told by the fields and items of the pages alone: no less and no more. */
module BtreeMeaning {
  import opened BtreePages
  import opened BtreePageCheck
  import opened BtreeLevelCheck
  import opened BtreeTreeCheck
  import opened BtreeTheorems
  import opened BtreeTermination

  /** A page that can be looked at: sane, the metapage just at block 0, its level fit for a leaf or an inner page. */
  predicate Presentable<K>(idx: Index<K>, b: nat) {
    && b < |idx.pages|
    && var p := idx.pages[b];
    && p.sane && (p.meta <==> b == 0)
    && (b == 0 ==> idx.metad.magicOk && idx.metad.versionOk)
    && (p.leaf && !p.deleted ==> p.level == 0)
    && (!p.leaf && !p.deleted && b != 0 ==> p.level > 0)
    && (!p.leaf ==> !p.garbage)
  }

  lemma ReadableIs<K>(idx: Index<K>, b: nat)
    ensures Readable(idx, b) <==> Presentable(idx, b)
  {
  }

  /** From item n on, each key is at most the one behind it. */
  ghost predicate OrderedFrom<K>(idx: Index<K>, p: Page<K>, n: nat) {
    forall i | n <= i < |p.items| - 1 :: idx.le(p.items[i].key, p.items[i + 1].key)
  }

  /** From item n on, no key is above that of item 0. */
  ghost predicate CappedFrom<K>(idx: Index<K>, p: Page<K>, n: nat) {
    forall i | n <= i < |p.items| :: idx.le(p.items[i].key, p.items[0].key)
  }

  /** From item n on, each child can be looked at and has no real key below that of the item. */
  ghost predicate ChildrenFrom<K>(idx: Index<K>, p: Page<K>, n: nat) {
    forall i | n <= i < |p.items| :: KeysFrom(idx, p.items[i].key, p.items[i].child)
  }

  ghost predicate KeysFrom<K>(idx: Index<K>, key: K, b: nat) {
    Presentable(idx, b) && forall j | Leading(idx.pages[b]) <= j < |idx.pages[b].items| ::
      idx.le(key, idx.pages[b].items[j].key)
  }

  /** The items of a live page: of four kinds, with different items in front of the real ones. */
  ghost predicate ItemsOk<K>(idx: Index<K>, p: Page<K>) {
    && (p.leaf && p.next == NONE ==> OrderedFrom(idx, p, 0))
    && (p.leaf && p.next != NONE ==> OrderedFrom(idx, p, 1) && CappedFrom(idx, p, 1))
    && (!p.leaf && p.next == NONE ==> OrderedFrom(idx, p, 1) && ChildrenFrom(idx, p, 1))
    && (!p.leaf && p.next != NONE ==> OrderedFrom(idx, p, 2) && CappedFrom(idx, p, 2) && ChildrenFrom(idx, p, 2))
  }

  lemma BoundsChildIs<K>(idx: Index<K>, key: K, b: nat)
    ensures BoundsChild(idx, key, b) <==> KeysFrom(idx, key, b)
  {
    ReadableIs(idx, b);
    if b < |idx.pages| {
      var c := idx.pages[b];
      if BoundsChild(idx, key, b) {
        forall j | Leading(c) <= j < |c.items|
          ensures idx.le(key, c.items[j].key)
        {
          assert Real(c, j + 1) && KeyAt(c, j + 1) == c.items[j].key;
        }
      }
      if KeysFrom(idx, key, b) {
        forall o: nat | Real(c, o)
          ensures idx.le(key, KeyAt(c, o))
        {
          assert KeyAt(c, o) == c.items[o - 1].key;
        }
      }
    }
  }

  lemma InOrderIs<K>(idx: Index<K>, p: Page<K>)
    ensures InOrder(idx, p) <==> OrderedFrom(idx, p, Leading(p))
  {
    if InOrder(idx, p) {
      forall i | Leading(p) <= i < |p.items| - 1
        ensures idx.le(p.items[i].key, p.items[i + 1].key)
      {
        assert Real(p, i + 1) && KeyAt(p, i + 1) == p.items[i].key && KeyAt(p, i + 2) == p.items[i + 1].key;
      }
    }
    if OrderedFrom(idx, p, Leading(p)) {
      forall o: nat | Real(p, o) && o + 1 <= |p.items|
        ensures idx.le(KeyAt(p, o), KeyAt(p, o + 1))
      {
        assert KeyAt(p, o) == p.items[o - 1].key;
      }
    }
  }

  lemma BelowHighKeyIs<K>(idx: Index<K>, p: Page<K>)
    requires p.next != NONE
    ensures BelowHighKey(idx, p) <==> CappedFrom(idx, p, Leading(p))
  {
    if BelowHighKey(idx, p) {
      forall i | Leading(p) <= i < |p.items|
        ensures idx.le(p.items[i].key, p.items[0].key)
      {
        assert Real(p, i + 1) && KeyAt(p, i + 1) == p.items[i].key;
      }
    }
    if CappedFrom(idx, p, Leading(p)) {
      forall o: nat | Real(p, o)
        ensures idx.le(KeyAt(p, o), KeyAt(p, 1))
      {
        assert KeyAt(p, o) == p.items[o - 1].key;
      }
    }
  }

  lemma BoundsChildrenIs<K>(idx: Index<K>, p: Page<K>)
    requires !p.leaf
    ensures BoundsChildren(idx, p) <==> ChildrenFrom(idx, p, Leading(p))
  {
    if BoundsChildren(idx, p) {
      forall i | Leading(p) <= i < |p.items|
        ensures KeysFrom(idx, p.items[i].key, p.items[i].child)
      {
        assert Real(p, i + 1) && KeyAt(p, i + 1) == p.items[i].key;
        BoundsChildIs(idx, p.items[i].key, p.items[i].child);
      }
    }
    if ChildrenFrom(idx, p, Leading(p)) {
      forall o: nat | Real(p, o)
        ensures BoundsChild(idx, KeyAt(p, o), p.items[o - 1].child)
      {
        BoundsChildIs(idx, p.items[o - 1].key, p.items[o - 1].child);
      }
    }
  }

  lemma ItemsAre<K>(idx: Index<K>, p: Page<K>)
    ensures BelowHighKey(idx, p) && InOrder(idx, p) && BoundsChildren(idx, p) <==> ItemsOk(idx, p)
  {
    InOrderIs(idx, p);
    if p.next != NONE {
      BelowHighKeyIs(idx, p);
    }
    if !p.leaf {
      BoundsChildrenIs(idx, p);
    }
  }

  /** The last item of one page is at most the first real one of another, where both have one. */
  ghost predicate Precedes<K>(idx: Index<K>, p: Page<K>, q: Page<K>) {
    Leading(p) < |p.items| && Leading(q) < |q.items| ==>
      idx.le(p.items[|p.items| - 1].key, q.items[Leading(q)].key)
  }

  /** The next page of the level that is neither deleted nor half dead. */
  ghost predicate NextUp<K>(idx: Index<K>, v: seq<nat>, i: nat, j: nat)
    requires InFile(idx, v)
  {
    i < j < |v| && !Ignorable(idx.pages[v[j]]) && forall k | i < k < j :: Ignorable(idx.pages[v[k]])
  }

  /** The page at position i of level n, links and flags: the walk goes along the right links to a rightmost page, the
      first and the last page are live, and live pages name their left neighbour and their level. */
  ghost predicate LinksOk<K>(idx: Index<K>, n: nat, isRoot: bool, v: seq<nat>, i: nat)
    requires InFile(idx, v) && i < |v|
  {
    var b, p := v[i], idx.pages[v[i]];
    && b != NONE && Presentable(idx, b)
    && p.next == (if i + 1 < |v| then v[i + 1] else NONE)
    && b != p.prev && (i > 0 ==> b != v[i - 1])
    && (i == 0 || i == |v| - 1 ==> !p.deleted && !p.halfDead)
    && (i == 0 && isRoot ==> p.root)
    && (!p.deleted && !p.halfDead ==> p.prev == (if i == 0 then NONE else v[i - 1]) && p.level == n)
  }

  /** And its contents: items in order, and none above those of the next live page. */
  ghost predicate ContentsOk<K>(idx: Index<K>, v: seq<nat>, i: nat)
    requires InFile(idx, v) && i < |v|
  {
    && ItemsOk(idx, idx.pages[v[i]])
    && forall j: nat | NextUp(idx, v, i, j) :: Precedes(idx, idx.pages[v[i]], idx.pages[v[j]])
  }

  ghost predicate PageOk<K>(idx: Index<K>, n: nat, isRoot: bool, v: seq<nat>, i: nat)
    requires InFile(idx, v) && i < |v|
  {
    && LinksOk(idx, n, isRoot, v, i)
    && (!idx.pages[v[i]].deleted && !idx.pages[v[i]].halfDead ==> ContentsOk(idx, v, i))
  }

  ghost predicate LevelOk<K>(idx: Index<K>, n: nat, isRoot: bool, v: seq<nat>) {
    v != [] && InFile(idx, v) && forall i: nat | i < |v| :: PageOk(idx, n, isRoot, v, i)
  }

  lemma LinksAt<K>(idx: Index<K>, n: nat, isRoot: bool, v: seq<nat>, i: nat)
    requires LevelOk(idx, n, isRoot, v) && i < |v|
    ensures LinksOk(idx, n, isRoot, v, i)
  {
    assert PageOk(idx, n, isRoot, v, i);
  }

  lemma ContentsAt<K>(idx: Index<K>, n: nat, isRoot: bool, v: seq<nat>, i: nat)
    requires LevelOk(idx, n, isRoot, v) && i < |v| && !Ignorable(idx.pages[v[i]])
    ensures ContentsOk(idx, v, i)
  {
    assert PageOk(idx, n, isRoot, v, i);
  }

  /** The first downlink of a page: of its first item behind the high key, if it has one; a leaf has none. */
  function FirstChild<K>(p: Page<K>): nat {
    if p.leaf then NONE
    else if p.next == NONE then if |p.items| >= 1 then p.items[0].child else p.stray
    else if |p.items| >= 2 then p.items[1].child else p.stray
  }

  lemma DownIs<K>(p: Page<K>)
    ensures Down(p).leftmost == FirstChild(p)
  {
  }

  // ---- a level ----

  lemma NextUpIs<K>(idx: Index<K>, v: seq<nat>, i: nat, j: nat, n: nat)
    requires InFile(idx, v) && i < n < |v| && !Ignorable(idx.pages[v[|v| - 1]]) && NextUp(idx, v, i, j)
    requires forall k | i < k < n :: Ignorable(idx.pages[v[k]])
    ensures NextLive(idx, v, n) == j
    decreases |v| - n
  {
    if Ignorable(idx.pages[v[n]]) {
      NextUpIs(idx, v, i, j, n + 1);
    }
  }

  lemma NextLiveIsUp<K>(idx: Index<K>, v: seq<nat>, i: nat, n: nat)
    requires InFile(idx, v) && i < n < |v| && !Ignorable(idx.pages[v[|v| - 1]])
    requires forall k | i < k < n :: Ignorable(idx.pages[v[k]])
    ensures NextUp(idx, v, i, NextLive(idx, v, n))
    decreases |v| - n
  {
    if Ignorable(idx.pages[v[n]]) {
      NextLiveIsUp(idx, v, i, n + 1);
    }
  }

  /** The cross-page check on a page whose right sibling is known. */
  lemma BelowRightIs<K>(idx: Index<K>, p: Page<K>, fuel: nat, b: nat)
    requires p.next != NONE && b < |idx.pages| && RightSibling(idx, p.next, fuel) == Ok(b)
    ensures BelowRight(idx, p, fuel) <==> Precedes(idx, p, idx.pages[b])
  {
    var q := idx.pages[b];
    RealIs(p, |p.items|);
    RealIs(q, |q.items|);
  }

  lemma NoRealItems<K>(idx: Index<K>, p: Page<K>, q: Page<K>)
    requires Leading(p) >= |p.items|
    ensures Precedes(idx, p, q)
  {
  }

  lemma PrecedesNext<K>(idx: Index<K>, level: Level, v: seq<nat>, fuel: nat, i: nat, j: nat)
    requires LevelSound(idx, level, v, fuel) && i < |v| && !Ignorable(idx.pages[v[i]]) && NextUp(idx, v, i, j)
    ensures Precedes(idx, idx.pages[v[i]], idx.pages[v[j]])
  {
    var p := idx.pages[v[i]];
    LastPageLive(idx, level, v, fuel);
    WalkAt(idx, level, v, fuel, i);
    WalkAt(idx, level, v, fuel, i + 1);
    if Leading(p) < |p.items| {
      RealIs(p, |p.items|);
      SiblingIsNextLive(idx, level, v, fuel, i + 1, fuel);
      NextUpIs(idx, v, i, j, i + 1);
      BelowRightIs(idx, p, fuel, v[j]);
    } else {
      NoRealItems(idx, p, idx.pages[v[j]]);
    }
  }

  /** What a walk that passes says of the page at one position. */
  lemma SoundPage<K>(idx: Index<K>, level: Level, v: seq<nat>, fuel: nat, i: nat)
    requires level.leftmost != NONE && LevelSound(idx, level, v, fuel) && i < |v|
    ensures PageOk(idx, level.level, level.isRoot, v, i)
  {
    var p := idx.pages[v[i]];
    WalkAt(idx, level, v, fuel, i);
    LastPageLive(idx, level, v, fuel);
    LevelHandsDown(idx, level, v, fuel);
    ReadableIs(idx, v[i]);
    assert i > 0 ==> LastOf(v[..i]) == v[i - 1];
    assert i == 0 ==> DownAlong(idx, v[..i]) == NO_LEVEL;
    if !Ignorable(p) {
      ItemsAre(idx, p);
      forall j: nat | NextUp(idx, v, i, j)
        ensures Precedes(idx, p, idx.pages[v[j]])
      {
        PrecedesNext(idx, level, v, fuel, i, j);
      }
    }
  }

  /** On such a level the search to the right finds the next live page. */
  lemma {:induction false} SearchFinds<K>(idx: Index<K>, n: nat, isRoot: bool, v: seq<nat>, i: nat, fuel: nat)
    requires LevelOk(idx, n, isRoot, v) && i < |v| && fuel > |v| - i && !Ignorable(idx.pages[v[|v| - 1]])
    ensures RightSibling(idx, v[i], fuel) == Ok(v[NextLive(idx, v, i)])
    decreases |v| - i
  {
    LinksAt(idx, n, isRoot, v, i);
    ReadableIs(idx, v[i]);
    if Ignorable(idx.pages[v[i]]) {
      LinksAt(idx, n, isRoot, v, i + 1);
      SearchFinds(idx, n, isRoot, v, i + 1, fuel - 1);
    }
  }

  /** The links of such a level never come back. */
  lemma {:induction false} Apart<K>(idx: Index<K>, n: nat, isRoot: bool, v: seq<nat>, i: nat, j: nat)
    requires LevelOk(idx, n, isRoot, v) && i < j < |v|
    ensures v[i] != v[j]
    decreases |v| - j
  {
    LinksAt(idx, n, isRoot, v, i);
    LinksAt(idx, n, isRoot, v, j);
    LinksAt(idx, n, isRoot, v, i + 1);
    if j + 1 < |v| {
      Apart(idx, n, isRoot, v, i + 1, j + 1);
    }
  }

  lemma LevelIsShort<K>(idx: Index<K>, n: nat, isRoot: bool, v: seq<nat>)
    requires LevelOk(idx, n, isRoot, v)
    ensures |v| <= |idx.pages|
  {
    forall i, j | 0 <= i < j < |v|
      ensures v[i] != v[j]
    {
      Apart(idx, n, isRoot, v, i, j);
    }
    Pigeonhole(v, |idx.pages|);
  }

  lemma OkSibling<K>(idx: Index<K>, n: nat, isRoot: bool, v: seq<nat>, i: nat, fuel: nat) returns (j: nat)
    requires LevelOk(idx, n, isRoot, v) && i + 1 < |v| && fuel > |v|
    ensures idx.pages[v[i]].next != NONE && NextUp(idx, v, i, j)
    ensures RightSibling(idx, idx.pages[v[i]].next, fuel) == Ok(v[j])
  {
    LinksAt(idx, n, isRoot, v, i);
    LinksAt(idx, n, isRoot, v, i + 1);
    LinksAt(idx, n, isRoot, v, |v| - 1);
    SearchFinds(idx, n, isRoot, v, i + 1, fuel);
    NextLiveIsUp(idx, v, i, i + 1);
    j := NextLive(idx, v, i + 1);
  }

  lemma OkBelowRight<K>(idx: Index<K>, n: nat, isRoot: bool, v: seq<nat>, i: nat, fuel: nat)
    requires LevelOk(idx, n, isRoot, v) && i < |v| && fuel > |v| && !Ignorable(idx.pages[v[i]])
    ensures BelowRight(idx, idx.pages[v[i]], fuel)
  {
    if i + 1 < |v| {
      var j := OkSibling(idx, n, isRoot, v, i, fuel);
      ContentsAt(idx, n, isRoot, v, i);
      BelowRightIs(idx, idx.pages[v[i]], fuel, v[j]);
    } else {
      LinksAt(idx, n, isRoot, v, i);
    }
  }

  lemma OkPageSound<K>(idx: Index<K>, n: nat, isRoot: bool, v: seq<nat>, i: nat, fuel: nat)
    requires LevelOk(idx, n, isRoot, v) && i < |v| && fuel > |v| && !Ignorable(idx.pages[v[i]])
    ensures PageSound(idx, idx.pages[v[i]], fuel)
  {
    ContentsAt(idx, n, isRoot, v, i);
    ItemsAre(idx, idx.pages[v[i]]);
    OkBelowRight(idx, n, isRoot, v, i, fuel);
  }

  /** The page that a walk along such a level meets next passes. */
  lemma OkSteps<K>(idx: Index<K>, level: Level, v: seq<nat>, fuel: nat, i: nat)
    requires LevelOk(idx, level.level, level.isRoot, v) && v[0] == level.leftmost && fuel > |v| && i < |v|
    requires FirstChild(idx.pages[v[0]]) != INVALID && Walk(idx, level, v[..i], fuel)
    ensures NextBlock(idx, level, v[..i]) == v[i] != NONE
    ensures StepOk(idx, level, DownAlong(idx, v[..i]), LastOf(v[..i]), v[i], fuel)
  {
    LinksAt(idx, level.level, level.isRoot, v, i);
    LinksAt(idx, level.level, level.isRoot, v, 0);
    ReadableIs(idx, v[i]);
    if i > 0 {
      LinksAt(idx, level.level, level.isRoot, v, i - 1);
      DownIsFirst(idx, level, v[..i], fuel);
      DownIs(idx.pages[v[0]]);
    }
    if i + 1 < |v| {
      LinksAt(idx, level.level, level.isRoot, v, i + 1);
    }
    if !Ignorable(idx.pages[v[i]]) {
      OkPageSound(idx, level.level, level.isRoot, v, i, fuel);
    }
  }

  /** Such pages in a row are a walk without an error. */
  lemma {:induction false} OkWalks<K>(idx: Index<K>, level: Level, v: seq<nat>, fuel: nat, n: nat)
    requires LevelOk(idx, level.level, level.isRoot, v) && v[0] == level.leftmost && fuel > |v| && n <= |v|
    requires FirstChild(idx.pages[v[0]]) != INVALID
    ensures Walk(idx, level, v[..n], fuel)
  {
    if n > 0 {
      OkWalks(idx, level, v, fuel, n - 1);
      OkSteps(idx, level, v, fuel, n - 1);
      assert v[..n][..n - 1] == v[..n - 1];
    }
  }

  /** A level passes just when its pages are in order, told by their fields and items. */
  lemma LevelExactly<K>(idx: Index<K>, level: Level, v: seq<nat>, fuel: nat)
    requires level.leftmost != NONE && fuel > |idx.pages|
    ensures LevelSound(idx, level, v, fuel) && DownAlong(idx, v).leftmost != INVALID <==>
      && LevelOk(idx, level.level, level.isRoot, v) && v[0] == level.leftmost
      && FirstChild(idx.pages[v[0]]) != INVALID
  {
    if LevelSound(idx, level, v, fuel) {
      LevelHandsDown(idx, level, v, fuel);
      DownIs(idx.pages[v[0]]);
      forall i: nat | i < |v|
        ensures PageOk(idx, level.level, level.isRoot, v, i)
      {
        SoundPage(idx, level, v, fuel, i);
      }
    }
    if LevelOk(idx, level.level, level.isRoot, v) && v[0] == level.leftmost && FirstChild(idx.pages[v[0]]) != INVALID {
      LevelIsShort(idx, level.level, level.isRoot, v);
      OkWalks(idx, level, v, fuel, |v|);
      assert v[..|v|] == v;
      LinksAt(idx, level.level, level.isRoot, v, |v| - 1);
      LinksAt(idx, level.level, level.isRoot, v, 0);
      DownIsFirst(idx, level, v, fuel);
      DownIs(idx.pages[v[0]]);
    }
  }

  // ---- the tree ----

  /** The block where the level at depth d starts. */
  function StartOf<K>(idx: Index<K>, ws: seq<seq<nat>>, d: nat): nat
    requires d <= |ws| && forall e | 0 <= e < d :: ws[e] != [] && InFile(idx, ws[e])
  {
    if d == 0 then idx.metad.root
    else
      assert InFile(idx, ws[d - 1]);
      FirstChild(idx.pages[ws[d - 1][0]])
  }

  ghost predicate DepthOk<K>(idx: Index<K>, ws: seq<seq<nat>>, d: nat)
    requires d < |ws| && forall e | 0 <= e < |ws| :: ws[e] != [] && InFile(idx, ws[e])
  {
    && d <= idx.metad.level && LevelOk(idx, idx.metad.level - d, d == 0, ws[d])
    && ws[d][0] == StartOf(idx, ws, d) && StartOf(idx, ws, d + 1) != INVALID
  }

  /** The tree that the check wants to see: the metapage, then one level below the other, each starting at the first
      downlink of the one above, until a first downlink is missing or names block 0. */
  ghost predicate TreeOk<K>(idx: Index<K>, ws: seq<seq<nat>>) {
    && Presentable(idx, 0)
    && (forall d | 0 <= d < |ws| :: ws[d] != [] && InFile(idx, ws[d]))
    && (forall d: nat | d < |ws| :: DepthOk(idx, ws, d))
    && StartOf(idx, ws, |ws|) == NONE
  }

  /** The level that the check expects at depth d. */
  lemma LevelAfterIs<K>(idx: Index<K>, ws: seq<seq<nat>>, fuel: nat, d: nat)
    requires Descent(idx, ws, fuel) && d <= |ws|
    ensures Descent(idx, ws[..d], fuel) && forall e | 0 <= e < |ws| :: ws[e] != [] && InFile(idx, ws[e])
    ensures LevelAfter(idx, ws[..d]).leftmost == StartOf(idx, ws, d)
    ensures d < |ws| ==> d <= idx.metad.level && LevelAfter(idx, ws[..d]).level == idx.metad.level - d
    ensures LevelAfter(idx, ws[..d]).isRoot <==> d == 0
  {
    DescentPrefix(idx, ws, fuel, d);
    forall e | 0 <= e < |ws|
      ensures ws[e] != [] && InFile(idx, ws[e])
    {
      DescentAt(idx, ws, fuel, e);
    }
    if d < |ws| {
      LevelNumbers(idx, ws, fuel, d);
    }
    if d > 0 {
      DescentAt(idx, ws, fuel, d - 1);
      LevelHandsDown(idx, LevelAfter(idx, ws[..d - 1]), ws[d - 1], fuel);
      DownIs(idx.pages[ws[d - 1][0]]);
      assert ws[..d][d - 1] == ws[d - 1];
    }
  }

  lemma SoundIsOk<K>(idx: Index<K>, ws: seq<seq<nat>>, fuel: nat)
    requires TreeSound(idx, ws, fuel) && fuel > |idx.pages|
    ensures TreeOk(idx, ws)
  {
    ReadableIs(idx, 0);
    LevelAfterIs(idx, ws, fuel, |ws|);
    assert ws[..|ws|] == ws;
    forall d: nat | d < |ws|
      ensures DepthOk(idx, ws, d)
    {
      LevelAfterIs(idx, ws, fuel, d);
      DescentAt(idx, ws, fuel, d);
      LevelExactly(idx, LevelAfter(idx, ws[..d]), ws[d], fuel);
    }
  }

  lemma {:induction false} OkDescends<K>(idx: Index<K>, ws: seq<seq<nat>>, fuel: nat, n: nat)
    requires TreeOk(idx, ws) && fuel > |idx.pages| && n <= |ws|
    ensures Descent(idx, ws[..n], fuel) && LevelAfter(idx, ws[..n]).leftmost == StartOf(idx, ws, n)
    ensures n < |ws| ==> LevelAfter(idx, ws[..n]).level == idx.metad.level - n
    ensures LevelAfter(idx, ws[..n]).isRoot <==> n == 0
  {
    if n > 0 {
      var d := n - 1;
      OkDescends(idx, ws, fuel, d);
      assert DepthOk(idx, ws, d) && ws[..n][..d] == ws[..d] && ws[..n][d] == ws[d];
      var level, p := LevelAfter(idx, ws[..d]), idx.pages[ws[d][0]];
      LinksAt(idx, level.level, level.isRoot, ws[d], 0);
      LevelExactly(idx, level, ws[d], fuel);
      LevelHandsDown(idx, level, ws[d], fuel);
      DownIs(p);
      if n < |ws| {
        assert DepthOk(idx, ws, n);
      }
    }
  }

  /** Main result on the whole check: with more steps than blocks it is silent on exactly the trees described above. */
  lemma SilentExactly<K>(idx: Index<K>, ws: seq<seq<nat>>, fuel: nat)
    requires fuel > |idx.pages|
    ensures TreeSound(idx, ws, fuel) <==> TreeOk(idx, ws)
  {
    if TreeSound(idx, ws, fuel) {
      SoundIsOk(idx, ws, fuel);
    }
    if TreeOk(idx, ws) {
      ReadableIs(idx, 0);
      OkDescends(idx, ws, fuel, |ws|);
      assert ws[..|ws|] == ws;
    }
  }

  /** Somewhere right links run in a ring: along a level without an error, or over ignorable pages. */
  ghost predicate HasRing<K>(idx: Index<K>, fuel: nat) {
    || (exists level: Level, n: nat :: RunsInRing(idx, level, n, fuel))
    || (exists b: nat, n: nat :: RightRing(idx, b, n))
  }

  /** bt_check_every_level, with its verdict told by the pages: silent on such a tree, an error where there is none, and
      no end only where right links run in a ring. */
  method CheckTree<K>(idx: Index<K>) returns (r: Outcome<()>, ghost ws: seq<seq<nat>>)
    ensures r.Ok? ==> TreeOk(idx, ws)
    ensures r.Corrupt? ==> (forall xs :: !TreeOk(idx, xs)) && TreeBlames(idx, ws, |idx.pages| + 1, r.error)
    ensures r.Unfinished? ==> HasRing(idx, |idx.pages| + 1)
  {
    var fuel := |idx.pages| + 1;
    r, ws := CheckEveryLevel(idx, fuel);
    if r.Unfinished? {
      ghost var level := LevelAfter(idx, ws);
      ghost var v :| Interrupted(idx, level, v, fuel);
      ghost var n := NoVerdictMeansRing(idx, level, v, fuel);
    } else {
      forall xs
        ensures TreeSound(idx, xs, fuel) <==> TreeOk(idx, xs)
      {
        SilentExactly(idx, xs, fuel);
      }
    }
  }

  /** On a page in order, items further apart are in order too. */
  lemma {:induction false} ItemsSorted<K(!new)>(idx: Index<K>, p: Page<K>, n: nat, i: nat, j: nat)
    requires Transitive(idx.le) && OrderedFrom(idx, p, n) && n <= i < j < |p.items|
    ensures idx.le(p.items[i].key, p.items[j].key)
    decreases j
  {
    assert idx.le(p.items[j - 1].key, p.items[j].key);
    if i < j - 1 {
      ItemsSorted(idx, p, n, i, j - 1);
    }
  }

  ghost predicate SortedFrom<K>(idx: Index<K>, p: Page<K>, n: nat) {
    forall i, j | n <= i < j < |p.items| :: idx.le(p.items[i].key, p.items[j].key)
  }

  lemma OrderedIsSorted<K(!new)>(idx: Index<K>, p: Page<K>, n: nat)
    requires Transitive(idx.le) && OrderedFrom(idx, p, n)
    ensures SortedFrom(idx, p, n)
  {
    forall i, j | n <= i < j < |p.items|
      ensures idx.le(p.items[i].key, p.items[j].key)
    {
      ItemsSorted(idx, p, n, i, j);
    }
  }

  /** After a silent check the items of every live page are sorted, first to last: all of a rightmost leaf; behind the
      high key, which none exceeds, on other leaves; and without the minus-infinity item on internal pages. */
  lemma SilentMeansSorted<K(!new)>(idx: Index<K>, ws: seq<seq<nat>>, fuel: nat, d: nat, k: nat)
    requires Transitive(idx.le) && TreeSound(idx, ws, fuel) && d < |ws| && k < |ws[d]|
    ensures ws[d][k] < |idx.pages|
    ensures var p := idx.pages[ws[d][k]]; !p.deleted && !p.halfDead ==>
      && (p.leaf && p.next == NONE ==> SortedFrom(idx, p, 0))
      && (p.leaf && p.next != NONE ==> SortedFrom(idx, p, 1) && CappedFrom(idx, p, 1))
      && (!p.leaf && p.next == NONE ==> SortedFrom(idx, p, 1) && ChildrenFrom(idx, p, 1))
      && (!p.leaf && p.next != NONE ==> SortedFrom(idx, p, 2) && CappedFrom(idx, p, 2) && ChildrenFrom(idx, p, 2))
  {
    SilentCheckMeans(idx, ws, fuel, d, k);
    var p := idx.pages[ws[d][k]];
    ItemsAre(idx, p);
    if !p.deleted && !p.halfDead {
      OrderedIsSorted(idx, p, Leading(p));
    }
  }
}
