/** The walk along one level and down the levels: bt_check_level_from_leftmost and bt_check_every_level. */
module BtreeLevelCheck {
  import opened Wrappers
  import opened BtreePages
  import opened BtreePageCheck

  /** Where a level starts (BtreeLevel). */
  datatype Level = Level(level: nat, leftmost: nat, isRoot: bool)

  const NO_LEVEL := Level(INVALID, INVALID, false)

  /** The level below, as the first live page of a level gives it: its first downlink, or none below a leaf. */
  function Down<K>(p: Page<K>): Level {
    if p.leaf then Level(INVALID, NONE, false)
    else Level(if p.level > 0 then p.level - 1 else INVALID,
               if FirstData(p) <= |p.items| then p.items[FirstData(p) - 1].child else p.stray, false)
  }

  /** What is known of the level below after one more page. */
  function DownAfter<K>(down: Level, p: Page<K>): Level {
    if !Ignorable(p) && down.leftmost == INVALID then Down(p) else down
  }

  /** One page of the walk passes: read, linked both ways, on the right level, sound, and not its own neighbour. */
  ghost predicate StepOk<K>(idx: Index<K>, level: Level, down: Level, left: nat, b: nat, fuel: nat) {
    && Readable(idx, b)
    && var p := idx.pages[b];
    && (if Ignorable(p) then p.next != NONE
        else
          && (down.leftmost == INVALID ==> p.prev == NONE && (level.isRoot ==> p.root))
          && p.prev == left
          && level.level == p.level
          && PageSound(idx, p, fuel))
    && b != left && b != p.prev
  }

  /** What an error of the level check says of the page at block b; `at` is the item that a page check stopped at. */
  ghost predicate StepBlames<K>(idx: Index<K>, level: Level, down: Level, left: nat, b: nat, fuel: nat, e: Error,
      at: nat)
  {
    || ReadError(idx, b) == Some(e)
    || (Readable(idx, b) && LinkBlames(level, down, left, b, idx.pages[b], e))
    || (Readable(idx, b) && Real(idx.pages[b], at) && Blames(idx, idx.pages[b], at, fuel, e))
  }

  predicate LinkBlames<K>(level: Level, down: Level, left: nat, b: nat, p: Page<K>, e: Error) {
    || (e == FellOffEnd && Ignorable(p) && p.next == NONE)
    || (e == NotLeftmost && down.leftmost == INVALID && p.prev != NONE)
    || (e == NotTrueRoot && down.leftmost == INVALID && level.isRoot && !p.root)
    || (e == LinksDisagree && p.prev != left)
    || (e == WrongLevel && p.level != level.level)
    || (e == CircularLinks && (b == left || b == p.prev))
  }

  /** One iteration of bt_check_level_from_leftmost. */
  method CheckStep<K>(idx: Index<K>, level: Level, down: Level, left: nat, b: nat, fuel: nat)
      returns (r: Outcome<Level>, ghost at: nat)
    ensures r.Ok? <==> StepOk(idx, level, down, left, b, fuel)
    ensures r.Ok? ==> r.value == DownAfter(down, idx.pages[b])
    ensures r.Corrupt? ==> StepBlames(idx, level, down, left, b, fuel, r.error, at)
    ensures r.Unfinished? ==> RightLost(idx, b, fuel)
  {
    at := 0;
    var e := ReadError(idx, b);
    if e.Some? {
      return Corrupt(e.value), at;
    }
    var p, next := idx.pages[b], down;
    if Ignorable(p) {
      if p.next == NONE {
        return Corrupt(FellOffEnd), at;
      }
    } else {
      if down.leftmost == INVALID {
        if p.prev != NONE {
          return Corrupt(NotLeftmost), at;
        }
        if level.isRoot && !p.root {
          return Corrupt(NotTrueRoot), at;
        }
        next := Down(p);
      }
      if p.prev != left {
        return Corrupt(LinksDisagree), at;
      }
      if level.level != p.level {
        return Corrupt(WrongLevel), at;
      }
      var t;
      t, at := TargetPageCheck(idx, p, fuel);
      if t.Corrupt? {
        return Corrupt(t.error), at;
      }
      if t.Unfinished? {
        return Unfinished, at;
      }
    }
    if b == left || b == p.prev {
      return Corrupt(CircularLinks), at;
    }
    return Ok(next), at;
  }

  predicate InFile<K>(idx: Index<K>, v: seq<nat>) {
    forall i :: 0 <= i < |v| ==> v[i] < |idx.pages|
  }

  /** The last block of a walk so far. */
  function LastOf(v: seq<nat>): nat {
    if v == [] then NONE else v[|v| - 1]
  }

  /** The block a walk visits next: the leftmost one, then along the right links. */
  function NextBlock<K>(idx: Index<K>, level: Level, v: seq<nat>): nat
    requires InFile(idx, v)
  {
    if v == [] then level.leftmost else idx.pages[LastOf(v)].next
  }

  /** What is known of the level below after a walk. */
  function DownAlong<K>(idx: Index<K>, v: seq<nat>): Level
    requires InFile(idx, v)
  {
    if v == [] then NO_LEVEL else DownAfter(DownAlong(idx, v[..|v| - 1]), idx.pages[LastOf(v)])
  }

  /** A walk without an error so far. */
  ghost predicate Walk<K>(idx: Index<K>, level: Level, v: seq<nat>, fuel: nat)
    ensures Walk(idx, level, v, fuel) ==> InFile(idx, v)
  {
    if v == [] then true
    else
      var u := v[..|v| - 1];
      assert v == u + [LastOf(v)];
      && Walk(idx, level, u, fuel)
      && LastOf(v) == NextBlock(idx, level, u) != NONE
      && StepOk(idx, level, DownAlong(idx, u), LastOf(u), LastOf(v), fuel)
  }

  /** A sound level: a walk without an error that ends at a rightmost page. */
  ghost predicate LevelSound<K>(idx: Index<K>, level: Level, v: seq<nat>, fuel: nat) {
    v != [] && Walk(idx, level, v, fuel) && idx.pages[LastOf(v)].next == NONE
  }

  lemma {:induction false} WalkPrefix<K>(idx: Index<K>, level: Level, v: seq<nat>, fuel: nat, n: nat)
    requires Walk(idx, level, v, fuel) && n <= |v|
    ensures Walk(idx, level, v[..n], fuel)
  {
    if n == |v| {
      assert v[..n] == v;
    } else {
      WalkPrefix(idx, level, v[..|v| - 1], fuel, n);
      assert v[..|v| - 1][..n] == v[..n];
    }
  }

  /** The right links leave no choice: a sound level that a walk has begun continues with the next block. */
  lemma {:induction false} WalkDetermined<K>(idx: Index<K>, level: Level, v: seq<nat>, w: seq<nat>, fuel: nat)
    requires Walk(idx, level, v, fuel) && NextBlock(idx, level, v) != NONE && LevelSound(idx, level, w, fuel)
    ensures |v| < |w| && w[..|v|] == v
  {
    if v != [] {
      var n := |v| - 1;
      assert v == v[..n] + [v[n]];
      WalkDetermined(idx, level, v[..n], w, fuel);
      WalkPrefix(idx, level, w, fuel, n + 1);
      assert w[..n + 1][..n] == w[..n];
      assert w[..n + 1] == v;
    }
  }

  /** On a sound level the page where a walk goes next passes its checks. */
  lemma SoundContinues<K>(idx: Index<K>, level: Level, v: seq<nat>, w: seq<nat>, fuel: nat)
    requires Walk(idx, level, v, fuel) && NextBlock(idx, level, v) != NONE && LevelSound(idx, level, w, fuel)
    ensures StepOk(idx, level, DownAlong(idx, v), LastOf(v), NextBlock(idx, level, v), fuel)
  {
    WalkDetermined(idx, level, v, w, fuel);
    WalkPrefix(idx, level, w, fuel, |v| + 1);
    assert w[..|v| + 1][..|v|] == v;
  }

  /**
   * bt_check_level_from_leftmost: returns the next level exactly when this one is sound. The second result is the walk.
   */
  method CheckLevel<K>(idx: Index<K>, level: Level, fuel: nat)
    returns (r: Outcome<Level>, ghost v: seq<nat>, ghost at: nat)
    requires level.leftmost != NONE
    ensures r.Ok? ==> LevelSound(idx, level, v, fuel) && r.value == DownAlong(idx, v)
    ensures r.Corrupt? ==> Fails(idx, level, v, fuel) && forall w :: !LevelSound(idx, level, w, fuel)
    ensures r.Corrupt? ==>
      StepBlames(idx, level, DownAlong(idx, v), LastOf(v), NextBlock(idx, level, v), fuel, r.error, at)
    ensures r.Unfinished? ==> Interrupted(idx, level, v, fuel)
  {
    var leftcurrent, current, down, left: nat := NONE, level.leftmost, NO_LEVEL, fuel;
    v, at := [], 0;
    while left > 0
      invariant left <= fuel && |v| == fuel - left
      invariant Walk(idx, level, v, fuel) && current == NextBlock(idx, level, v) != NONE
      invariant leftcurrent == LastOf(v) && down == DownAlong(idx, v)
    {
      var step;
      step, at := CheckStep(idx, level, down, leftcurrent, current, fuel);
      if step.Unfinished? {
        return Unfinished, v, at;
      }
      if step.Corrupt? {
        forall w
          ensures !LevelSound(idx, level, w, fuel)
        {
          if LevelSound(idx, level, w, fuel) {
            SoundContinues(idx, level, v, w, fuel);
          }
        }
        return Corrupt(step.error), v, at;
      }
      assert (v + [current])[..|v|] == v;
      v := v + [current];
      down := step.value;
      leftcurrent, current := current, idx.pages[current].next;
      left := left - 1;
      if current == NONE {
        return Ok(down), v, at;
      }
    }
    return Unfinished, v, at;
  }

  /** The search for the right sibling of a page does not come to an end within the steps allowed. */
  predicate RightLost<K>(idx: Index<K>, b: nat, fuel: nat) {
    b < |idx.pages| && idx.pages[b].next != NONE && RightSibling(idx, idx.pages[b].next, fuel).Unfinished?
  }

  /** A walk whose next page does not pass. */
  ghost predicate Fails<K>(idx: Index<K>, level: Level, v: seq<nat>, fuel: nat) {
    && Walk(idx, level, v, fuel) && NextBlock(idx, level, v) != NONE
    && !StepOk(idx, level, DownAlong(idx, v), LastOf(v), NextBlock(idx, level, v), fuel)
  }

  /** A walk given up: all steps are used, or the search to the right of its next page has used all of its own. */
  ghost predicate Interrupted<K>(idx: Index<K>, level: Level, v: seq<nat>, fuel: nat) {
    && Walk(idx, level, v, fuel) && NextBlock(idx, level, v) != NONE
    && (|v| == fuel || RightLost(idx, NextBlock(idx, level, v), fuel))
  }

  /** Somewhere the search for a right sibling does not come to an end within the steps allowed. */
  ghost predicate EndlessRight<K>(idx: Index<K>, fuel: nat) {
    exists b: nat :: RightLost(idx, b, fuel)
  }
}
