/** The whole check: every level from the root down, and what its silence means. */
module BtreeTreeCheck {
  import opened Wrappers
  import opened BtreePages
  import opened BtreePageCheck
  import opened BtreeLevelCheck

  /** What a walk knows of the page at position i. */
  lemma WalkAt<K>(idx: Index<K>, level: Level, v: seq<nat>, fuel: nat, i: nat)
    requires Walk(idx, level, v, fuel) && i < |v|
    ensures v[i] == NextBlock(idx, level, v[..i]) != NONE
    ensures StepOk(idx, level, DownAlong(idx, v[..i]), LastOf(v[..i]), v[i], fuel)
    ensures i + 1 < |v| ==> v[i + 1] == idx.pages[v[i]].next
  {
    WalkPrefix(idx, level, v, fuel, i + 1);
    assert v[..i + 1][..i] == v[..i];
    if i + 1 < |v| {
      WalkPrefix(idx, level, v, fuel, i + 2);
      assert v[..i + 2][..i + 1] == v[..i + 1];
    }
  }

  lemma NonZero<K>(idx: Index<K>, level: Level, v: seq<nat>, fuel: nat)
    requires Walk(idx, level, v, fuel)
    ensures LastOf(v) == NONE <==> v == []
  {
  }

  /** While no live page has been met, nothing is known of the level below. */
  lemma {:induction false} NoneLiveYet<K>(idx: Index<K>, v: seq<nat>)
    requires InFile(idx, v) && forall i :: 0 <= i < |v| ==> Ignorable(idx.pages[v[i]])
    ensures DownAlong(idx, v) == NO_LEVEL
  {
    if v != [] {
      NoneLiveYet(idx, v[..|v| - 1]);
    }
  }

  /**
   * The first live page of a level is its leftmost one: a page further right has a left link, which the first may not.
   */
  lemma {:induction false} FirstPageLive<K>(idx: Index<K>, level: Level, v: seq<nat>, fuel: nat)
    requires v != [] && Walk(idx, level, v, fuel) && !Ignorable(idx.pages[LastOf(v)])
    ensures !Ignorable(idx.pages[v[0]])
  {
    var u := v[..|v| - 1];
    NonZero(idx, level, u, fuel);
    if u != [] && Ignorable(idx.pages[v[0]]) {
      if i :| 0 <= i < |u| && !Ignorable(idx.pages[u[i]]) {
        WalkPrefix(idx, level, v, fuel, i + 1);
        FirstPageLive(idx, level, v[..i + 1], fuel);
      } else {
        NoneLiveYet(idx, u);
      }
    }
  }

  /** From the first page on, what is known of the level below does not change. */
  lemma {:induction false} DownIsFirst<K>(idx: Index<K>, level: Level, v: seq<nat>, fuel: nat)
    requires v != [] && Walk(idx, level, v, fuel) && !Ignorable(idx.pages[v[0]])
    ensures DownAlong(idx, v) == Down(idx.pages[v[0]])
  {
    var u := v[..|v| - 1];
    if u == [] {
      assert DownAlong(idx, u) == NO_LEVEL;
    } else {
      DownIsFirst(idx, level, u, fuel);
      NonZero(idx, level, u, fuel);
    }
  }

  /** A sound level hands down the first downlink of its first page, on the level one lower, or nothing below leaves. */
  lemma LevelHandsDown<K>(idx: Index<K>, level: Level, v: seq<nat>, fuel: nat)
    requires level.leftmost != NONE && LevelSound(idx, level, v, fuel)
    ensures v[0] == level.leftmost && v[0] < |idx.pages| && !Ignorable(idx.pages[v[0]])
    ensures DownAlong(idx, v) == Down(idx.pages[v[0]])
    ensures !idx.pages[v[0]].leaf ==> level.level > 0 && DownAlong(idx, v).level == level.level - 1
    ensures idx.pages[v[0]].leaf ==> level.level == 0 && DownAlong(idx, v).leftmost == NONE
  {
    FirstPageLive(idx, level, v, fuel);
    DownIsFirst(idx, level, v, fuel);
    WalkAt(idx, level, v, fuel, 0);
  }

  function RootLevel<K>(idx: Index<K>): Level {
    Level(idx.metad.level, idx.metad.root, true)
  }

  ghost predicate AllInFile<K>(idx: Index<K>, ws: seq<seq<nat>>) {
    forall i :: 0 <= i < |ws| ==> InFile(idx, ws[i])
  }

  /** The level checked after those already walked. */
  ghost function LevelAfter<K>(idx: Index<K>, ws: seq<seq<nat>>): Level
    requires AllInFile(idx, ws)
  {
    if ws == [] then RootLevel(idx) else DownAlong(idx, ws[|ws| - 1])
  }

  /** Levels checked without an error so far, from the root down. */
  ghost predicate Descent<K>(idx: Index<K>, ws: seq<seq<nat>>, fuel: nat)
    ensures Descent(idx, ws, fuel) ==> AllInFile(idx, ws)
  {
    if ws == [] then true
    else
      var n := |ws| - 1;
      assert ws == ws[..n] + [ws[n]];
      && Descent(idx, ws[..n], fuel)
      && LevelAfter(idx, ws[..n]).leftmost != NONE
      && LevelSound(idx, LevelAfter(idx, ws[..n]), ws[n], fuel)
      && DownAlong(idx, ws[n]).leftmost != INVALID
  }

  /** A sound tree: a sound level below each sound level, down to the leaves. */
  ghost predicate TreeSound<K>(idx: Index<K>, ws: seq<seq<nat>>, fuel: nat) {
    Readable(idx, 0) && Descent(idx, ws, fuel) && LevelAfter(idx, ws).leftmost == NONE
  }

  lemma {:induction false} DescentPrefix<K>(idx: Index<K>, ws: seq<seq<nat>>, fuel: nat, n: nat)
    requires Descent(idx, ws, fuel) && n <= |ws|
    ensures Descent(idx, ws[..n], fuel)
  {
    if n == |ws| {
      assert ws[..n] == ws;
    } else {
      DescentPrefix(idx, ws[..|ws| - 1], fuel, n);
      assert ws[..|ws| - 1][..n] == ws[..n];
    }
  }

  lemma LevelUnique<K>(idx: Index<K>, level: Level, v: seq<nat>, w: seq<nat>, fuel: nat)
    requires level.leftmost != NONE && LevelSound(idx, level, v, fuel) && LevelSound(idx, level, w, fuel)
    ensures v == w
  {
    var n, m := |v| - 1, |w| - 1;
    WalkDetermined(idx, level, v[..n], w, fuel);
    WalkDetermined(idx, level, w[..m], v, fuel);
    WalkPrefix(idx, level, w, fuel, n + 1);
    assert w[..n + 1][..n] == v[..n];
    assert v == v[..n] + [v[n]] && w[..n + 1] == w[..n] + [w[n]];
  }

  lemma DescentAt<K>(idx: Index<K>, ws: seq<seq<nat>>, fuel: nat, n: nat)
    requires Descent(idx, ws, fuel) && n < |ws|
    ensures Descent(idx, ws[..n], fuel) && LevelAfter(idx, ws[..n]).leftmost != NONE
    ensures LevelSound(idx, LevelAfter(idx, ws[..n]), ws[n], fuel) && DownAlong(idx, ws[n]).leftmost != INVALID
  {
    DescentPrefix(idx, ws, fuel, n + 1);
    assert ws[..n + 1][..n] == ws[..n];
  }

  /** A sound tree has, at each depth, exactly the level that the check walks there. */
  lemma {:induction false} DescentDetermined<K>(idx: Index<K>, ws: seq<seq<nat>>, xs: seq<seq<nat>>, fuel: nat)
    requires Descent(idx, ws, fuel) && LevelAfter(idx, ws).leftmost != NONE && TreeSound(idx, xs, fuel)
    ensures |ws| < |xs| && xs[..|ws|] == ws
  {
    var n := |ws|;
    if n > 0 {
      DescentAt(idx, ws, fuel, n - 1);
      DescentDetermined(idx, ws[..n - 1], xs, fuel);
      DescentAt(idx, xs, fuel, n - 1);
      LevelUnique(idx, LevelAfter(idx, ws[..n - 1]), ws[n - 1], xs[n - 1], fuel);
      SamePrefix(ws, xs, n);
      NotFinished(idx, ws, xs, fuel);
    }
  }

  lemma SamePrefix(ws: seq<seq<nat>>, xs: seq<seq<nat>>, n: nat)
    requires 0 < n == |ws| <= |xs| && xs[..n - 1] == ws[..n - 1] && xs[n - 1] == ws[n - 1]
    ensures xs[..n] == ws
  {
    assert ws == ws[..n - 1] + [ws[n - 1]] && xs[..n] == xs[..n - 1] + [xs[n - 1]];
  }

  lemma NotFinished<K>(idx: Index<K>, ws: seq<seq<nat>>, xs: seq<seq<nat>>, fuel: nat)
    requires AllInFile(idx, ws) && AllInFile(idx, xs) && |ws| <= |xs| && xs[..|ws|] == ws
    requires LevelAfter(idx, ws).leftmost != NONE && LevelAfter(idx, xs).leftmost == NONE
    ensures |ws| < |xs|
  {
    assert xs[..|xs|] == xs;
  }

  /** A walk that used up all the steps it was allowed. */
  ghost predicate LongWalk<K>(idx: Index<K>, fuel: nat) {
    exists level: Level, v: seq<nat> :: Walk(idx, level, v, fuel) && |v| == fuel
  }

  /** What an error of the level check says of the level: a page that an error-free walk comes to does not pass. */
  ghost predicate LevelBlames<K>(idx: Index<K>, level: Level, v: seq<nat>, fuel: nat, e: Error, at: nat) {
    && Walk(idx, level, v, fuel) && NextBlock(idx, level, v) != NONE
    && StepBlames(idx, level, DownAlong(idx, v), LastOf(v), NextBlock(idx, level, v), fuel, e, at)
  }

  /** What an error of the whole check says: of the metapage, or of the level below those that passed. */
  ghost predicate TreeBlames<K>(idx: Index<K>, ws: seq<seq<nat>>, fuel: nat, e: Error) {
    || ReadError(idx, 0) == Some(e)
    || (Descent(idx, ws, fuel) && exists v, at: nat :: LevelBlames(idx, LevelAfter(idx, ws), v, fuel, e, at))
    || (Descent(idx, ws, fuel) && e == NoValidPages
        && exists v :: LevelSound(idx, LevelAfter(idx, ws), v, fuel) && DownAlong(idx, v).leftmost == INVALID)
  }

  /**
   * bt_check_every_level in readonly mode: silent exactly when the tree is sound. The second result lists the walks.
   */
  method CheckEveryLevel<K>(idx: Index<K>, fuel: nat) returns (r: Outcome<()>, ghost ws: seq<seq<nat>>)
    ensures r.Ok? ==> TreeSound(idx, ws, fuel)
    ensures r.Corrupt? ==> (forall xs :: !TreeSound(idx, xs, fuel)) && TreeBlames(idx, ws, fuel, r.error)
    ensures r.Unfinished? ==> Descent(idx, ws, fuel) && exists v :: Interrupted(idx, LevelAfter(idx, ws), v, fuel)
    ensures r.Unfinished? ==> LongWalk(idx, fuel) || EndlessRight(idx, fuel)
  {
    ws := [];
    var e := ReadError(idx, 0);
    if e.Some? {
      return Corrupt(e.value), ws;
    }
    var current := Level(idx.metad.level, idx.metad.root, true);
    while current.leftmost != NONE
      invariant Descent(idx, ws, fuel) && current == LevelAfter(idx, ws)
      decreases if current.leftmost == NONE then 0 else current.level + 1
    {
      ghost var v, at;
      var level;
      level, v, at := CheckLevel(idx, current, fuel);
      if level.Unfinished? {
        assert |v| == fuel ==> LongWalk(idx, fuel);
        return Unfinished, ws;
      }
      if level.Corrupt? || level.value.leftmost == INVALID {
        forall xs
          ensures !TreeSound(idx, xs, fuel)
        {
          if TreeSound(idx, xs, fuel) {
            DescentDetermined(idx, ws, xs, fuel);
            DescentAt(idx, xs, fuel, |ws|);
            if level.Ok? {
              LevelUnique(idx, current, v, xs[|ws|], fuel);
            }
          }
        }
        if level.Corrupt? {
          assert LevelBlames(idx, current, v, fuel, level.error, at);
          return Corrupt(level.error), ws;
        }
        return Corrupt(NoValidPages), ws;
      }
      LevelHandsDown(idx, current, v, fuel);
      assert (ws + [v])[..|ws|] == ws;
      ws := ws + [v];
      current := level.value;
    }
    return Ok(()), ws;
  }
}
