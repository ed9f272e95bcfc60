/** When the check of a B-tree comes to an end: right links may run in a ring. */
module BtreeTermination {
  import opened BtreePages
  import opened BtreePageCheck
  import opened BtreeLevelCheck
  import opened BtreeTreeCheck

  predicate Distinct(v: seq<nat>) {
    forall i, j :: 0 <= i < j < |v| ==> v[i] != v[j]
  }

  /** The first block that a walk meets again is an ignorable one: a live page vouches for its left neighbour. */
  lemma RepeatIsIgnorable<K>(idx: Index<K>, level: Level, v: seq<nat>, fuel: nat, i: nat)
    requires v != [] && Walk(idx, level, v, fuel) && Distinct(v[..|v| - 1])
    requires i < |v| - 1 && v[i] == v[|v| - 1]
    ensures v[i] < |idx.pages| && Ignorable(idx.pages[v[i]])
  {
    var j := |v| - 1;
    WalkAt(idx, level, v, fuel, i);
    WalkAt(idx, level, v, fuel, j);
    WalkAt(idx, level, v, fuel, j - 1);
    if i > 0 {
      assert v[..j][i - 1] == v[i - 1] && v[..j][j - 1] == v[j - 1];
    }
  }

  ghost predicate NoIgnorable<K>(idx: Index<K>) {
    forall b :: 0 <= b < |idx.pages| ==> !Ignorable(idx.pages[b])
  }

  /** Without ignorable pages no walk targets a block twice. */
  lemma {:induction false} WalkDistinct<K>(idx: Index<K>, level: Level, v: seq<nat>, fuel: nat)
    requires NoIgnorable(idx) && Walk(idx, level, v, fuel)
    ensures Distinct(v)
  {
    if v != [] {
      var n := |v| - 1;
      WalkDistinct(idx, level, v[..n], fuel);
      forall i | 0 <= i < n
        ensures v[i] != v[n]
      {
        if v[i] == v[n] {
          RepeatIsIgnorable(idx, level, v, fuel, i);
        }
      }
      assert forall i, j :: 0 <= i < j < n ==> v[..n][i] != v[..n][j];
    }
  }

  /** Distinct blocks below a bound are no more than the bound. */
  lemma {:induction false} Pigeonhole(v: seq<nat>, bound: nat)
    requires Distinct(v) && forall i :: 0 <= i < |v| ==> v[i] < bound
    ensures |v| <= bound
    decreases bound
  {
    assert |v| > 0 ==> v[0] < bound;
    if bound > 0 {
      var top := bound - 1;
      if k :| 0 <= k < |v| && v[k] == top {
        var w := v[..k] + v[k + 1..];
        forall i | 0 <= i < |w|
          ensures w[i] < top
        {
          assert w[i] == if i < k then v[i] else v[i + 1];
        }
        Pigeonhole(w, top);
      } else {
        Pigeonhole(v, top);
      }
    }
  }

  /** Main result on termination: without ignorable pages, as many steps as there are blocks are enough, whatever the
      links say, so the check always comes to a verdict. */
  lemma StepsSuffice<K>(idx: Index<K>, fuel: nat)
    requires NoIgnorable(idx) && fuel >= |idx.pages| > 0
    ensures !LongWalk(idx, fuel) && !EndlessRight(idx, fuel)
  {
    if LongWalk(idx, fuel) {
      var level: Level, v: seq<nat> :| Walk(idx, level, v, fuel) && |v| == fuel;
      NoLongWalk(idx, level, v, fuel);
    }
  }

  lemma NoLongWalk<K>(idx: Index<K>, level: Level, v: seq<nat>, fuel: nat)
    requires NoIgnorable(idx) && Walk(idx, level, v, fuel) && |idx.pages| > 0
    ensures |v| < |idx.pages|
  {
    WalkDistinct(idx, level, v, fuel);
    DistinctIsShort(idx, level, v, fuel);
  }

  /** Two deleted pages that name each other as right siblings. */
  function LoopingIndex(): Index<int> {
    var deletedPage := (next: nat) => Page(true, 0, next, 0, true, false, true, false, false, false, [], 0);
    Index([deletedPage(0).(meta := true), deletedPage(2), deletedPage(1)], MetaData(true, true, 1, 0), (x, y) => x <= y)
  }

  function LoopWalk(n: nat): (v: seq<nat>)
    ensures |v| == n
    ensures n > 0 ==> v[n - 1] == if n % 2 == 1 then 1 else 2
  {
    if n == 0 then [] else LoopWalk(n - 1) + [if n % 2 == 1 then 1 else 2]
  }

  /** With ignorable pages the walk need not end: here it goes on, without an error, past any number of steps. */
  lemma {:induction false} WalkWithoutEnd(n: nat, fuel: nat)
    ensures Walk(LoopingIndex(), RootLevel(LoopingIndex()), LoopWalk(n), fuel)
    ensures NextBlock(LoopingIndex(), RootLevel(LoopingIndex()), LoopWalk(n)) == if n % 2 == 0 then 1 else 2
  {
    if n > 0 {
      WalkWithoutEnd(n - 1, fuel);
      assert LoopWalk(n)[..n - 1] == LoopWalk(n - 1);
      assert LastOf(LoopWalk(n - 1)) == if n == 1 then 0 else if n % 2 == 0 then 1 else 2;
    }
  }

  // ---- walks that go on for ever ----

  /** Once something is known of the level below, it stays so. */
  lemma {:induction false} DownStays<K>(idx: Index<K>, v: seq<nat>, n: nat)
    requires InFile(idx, v) && n <= |v| && DownAlong(idx, v[..n]).leftmost != INVALID
    ensures DownAlong(idx, v) == DownAlong(idx, v[..n])
  {
    if n == |v| {
      assert v[..n] == v;
    } else {
      assert v[..|v| - 1][..n] == v[..n];
      DownStays(idx, v[..|v| - 1], n);
    }
  }

  /** A step that passed once passes again later in the walk, from the same left neighbour. */
  lemma StepAgain<K>(idx: Index<K>, level: Level, v: seq<nat>, n: nat, left: nat, b: nat, fuel: nat)
    requires InFile(idx, v) && n <= |v| && StepOk(idx, level, DownAlong(idx, v[..n]), left, b, fuel)
    ensures StepOk(idx, level, DownAlong(idx, v), left, b, fuel)
  {
    if DownAlong(idx, v[..n]).leftmost != INVALID {
      DownStays(idx, v, n);
    }
  }

  /** Equal blocks have equal successors. */
  lemma {:induction false} Shifted<K>(idx: Index<K>, level: Level, v: seq<nat>, fuel: nat, i: nat, k: nat)
    requires Walk(idx, level, v, fuel) && i < k < |v| && v[i] == v[k]
    ensures v[i + (|v| - 1 - k)] == v[|v| - 1]
    decreases |v| - k
  {
    if k < |v| - 1 {
      WalkAt(idx, level, v, fuel, i);
      WalkAt(idx, level, v, fuel, k);
      Shifted(idx, level, v, fuel, i + 1, k + 1);
    }
  }

  /** A walk that has met a block twice goes on by one more step. */
  lemma WalkGoesOn<K>(idx: Index<K>, level: Level, v: seq<nat>, fuel: nat)
    requires Walk(idx, level, v, fuel) && !Distinct(v)
    ensures Walk(idx, level, v + [NextBlock(idx, level, v)], fuel) && !Distinct(v + [NextBlock(idx, level, v)])
  {
    var i, k :| 0 <= i < k < |v| && v[i] == v[k];
    Shifted(idx, level, v, fuel, i, k);
    var p, b, w := i + (|v| - 1 - k), NextBlock(idx, level, v), v + [NextBlock(idx, level, v)];
    WalkAt(idx, level, v, fuel, p);
    WalkAt(idx, level, v, fuel, p + 1);
    StepAgain(idx, level, v, p + 1, v[p], b, fuel);
    assert w[..|v|] == v && w[i] == w[k];
  }

  /** There is an error-free walk of n steps. */
  ghost predicate WalkOf<K>(idx: Index<K>, level: Level, n: nat, fuel: nat) {
    exists v: seq<nat> :: Walk(idx, level, v, fuel) && |v| == n
  }

  /** The walk of a level never ends. */
  ghost predicate Endless<K>(idx: Index<K>, level: Level, fuel: nat) {
    forall n: nat :: WalkOf(idx, level, n, fuel)
  }

  lemma {:induction false} RepeatGoesOn<K>(idx: Index<K>, level: Level, v: seq<nat>, fuel: nat, n: nat)
    requires Walk(idx, level, v, fuel) && !Distinct(v)
    ensures WalkOf(idx, level, n, fuel)
    decreases n - |v|
  {
    if n <= |v| {
      WalkPrefix(idx, level, v, fuel, n);
      assert |v[..n]| == n;
    } else {
      WalkGoesOn(idx, level, v, fuel);
      RepeatGoesOn(idx, level, v + [NextBlock(idx, level, v)], fuel, n);
    }
  }

  /** A walk of as many steps as there are blocks has met one twice. */
  lemma LongWalkRepeats<K>(idx: Index<K>, level: Level, v: seq<nat>, fuel: nat)
    requires Walk(idx, level, v, fuel) && |v| >= |idx.pages| > 0
    ensures !Distinct(v)
  {
    if Distinct(v) {
      DistinctIsShort(idx, level, v, fuel);
    }
  }

  lemma DistinctIsShort<K>(idx: Index<K>, level: Level, v: seq<nat>, fuel: nat)
    requires Distinct(v) && Walk(idx, level, v, fuel) && |idx.pages| > 0
    ensures |v| < |idx.pages|
  {
    var w := [0] + v;
    forall i, j | 0 <= i < j < |w|
      ensures w[i] != w[j]
    {
      WalkAt(idx, level, v, fuel, j - 1);
      assert i > 0 ==> w[i] == v[i - 1];
    }
    Pigeonhole(w, |idx.pages|);
  }

  /** The block that n right links from b lead to. */
  function Link<K>(idx: Index<K>, b: nat, n: nat): nat
    decreases n
  {
    if n == 0 then b else if b < |idx.pages| then Link(idx, idx.pages[b].next, n - 1) else NONE
  }

  /** The first n blocks along the right links from b. */
  function RightLinks<K>(idx: Index<K>, b: nat, n: nat): (v: seq<nat>)
    ensures |v| == n && forall i :: 0 <= i < n ==> v[i] == Link(idx, b, i)
  {
    seq(n, i requires 0 <= i < n => Link(idx, b, i))
  }

  lemma {:induction false} LinkNext<K>(idx: Index<K>, b: nat, n: nat)
    requires Link(idx, b, n) < |idx.pages| && forall i: nat | i < n :: Link(idx, b, i) < |idx.pages|
    ensures Link(idx, b, n + 1) == idx.pages[Link(idx, b, n)].next
    decreases n
  {
    if n > 0 {
      assert Link(idx, b, 0) == b;
      forall i: nat | i < n - 1
        ensures Link(idx, idx.pages[b].next, i) < |idx.pages|
      {
        assert Link(idx, b, i + 1) == Link(idx, idx.pages[b].next, i);
      }
      LinkNext(idx, idx.pages[b].next, n - 1);
    }
  }

  /** A walk follows the right links from the leftmost block. */
  lemma {:induction false} WalkIsLinks<K>(idx: Index<K>, level: Level, v: seq<nat>, fuel: nat)
    requires Walk(idx, level, v, fuel)
    ensures v == RightLinks(idx, level.leftmost, |v|)
  {
    if v != [] {
      var n := |v| - 1;
      WalkIsLinks(idx, level, v[..n], fuel);
      WalkAt(idx, level, v, fuel, n);
      assert forall i: nat | i < n :: Link(idx, level.leftmost, i) == v[..n][i] == v[i];
      if n > 0 {
        WalkAt(idx, level, v, fuel, n - 1);
        assert forall i: nat | i < n :: Link(idx, level.leftmost, i) < |idx.pages|;
        LinkNext(idx, level.leftmost, n - 1);
      }
    }
  }

  /** The last block was met before, and no other one was. */
  predicate Closes(v: seq<nat>) {
    v != [] && Distinct(v[..|v| - 1]) && exists i :: 0 <= i < |v| - 1 && v[i] == v[|v| - 1]
  }

  lemma DistinctPrefix(v: seq<nat>, m: nat)
    requires m <= |v| && Distinct(v[..m])
    ensures forall i, k :: 0 <= i < k < m ==> v[i] != v[k]
  {
    assert forall i :: 0 <= i < m ==> v[..m][i] == v[i];
  }

  /** A sequence with a repeat begins with one that closes. */
  lemma {:induction false} FirstReturn(v: seq<nat>) returns (n: nat)
    requires !Distinct(v)
    ensures n <= |v| && Closes(v[..n])
  {
    var m := |v| - 1;
    if Distinct(v[..m]) {
      DistinctPrefix(v, m);
      n := |v|;
      assert v[..n] == v;
    } else {
      n := FirstReturn(v[..m]);
      assert v[..m][..n] == v[..n];
    }
  }

  /** The right links of a level come back to an earlier block after n pages, all of which pass. */
  ghost predicate RunsInRing<K>(idx: Index<K>, level: Level, n: nat, fuel: nat) {
    var v := RightLinks(idx, level.leftmost, n);
    n <= |idx.pages| && Closes(v) && Walk(idx, level, v, fuel)
  }

  lemma {:induction false} ClosedIsShort<K>(idx: Index<K>, level: Level, v: seq<nat>, fuel: nat)
    requires Walk(idx, level, v, fuel) && Closes(v)
    ensures |v| <= |idx.pages|
  {
    WalkAt(idx, level, v, fuel, 0);
    WalkPrefix(idx, level, v, fuel, |v| - 1);
    DistinctIsShort(idx, level, v[..|v| - 1], fuel);
  }

  lemma RepeatIsRing<K>(idx: Index<K>, level: Level, v: seq<nat>, fuel: nat) returns (n: nat)
    requires Walk(idx, level, v, fuel) && !Distinct(v)
    ensures RunsInRing(idx, level, n, fuel)
  {
    n := FirstReturn(v);
    WalkPrefix(idx, level, v, fuel, n);
    WalkIsLinks(idx, level, v[..n], fuel);
    ClosedIsShort(idx, level, v[..n], fuel);
  }

  /**
   * Main result on walks: one never ends exactly when its right links come back, before any error, to an earlier block.
   */
  lemma EndlessExactly<K>(idx: Index<K>, level: Level, fuel: nat)
    ensures Endless(idx, level, fuel) <==> exists n: nat :: RunsInRing(idx, level, n, fuel)
  {
    if Endless(idx, level, fuel) {
      assert WalkOf(idx, level, |idx.pages| + 1, fuel);
      var v :| Walk(idx, level, v, fuel) && |v| == |idx.pages| + 1;
      WalkAt(idx, level, v, fuel, 0);
      LongWalkRepeats(idx, level, v, fuel);
      var n := RepeatIsRing(idx, level, v, fuel);
    }
    forall n: nat | RunsInRing(idx, level, n, fuel)
      ensures Endless(idx, level, fuel)
    {
      var v := RightLinks(idx, level.leftmost, n);
      CloseRepeats(v);
      forall m: nat
        ensures WalkOf(idx, level, m, fuel)
      {
        RepeatGoesOn(idx, level, v, fuel, m);
      }
    }
  }

  lemma CloseRepeats(v: seq<nat>)
    requires Closes(v)
    ensures !Distinct(v)
  {
  }

  /** The block where the ring closes is an ignorable one, though others in it may be live. */
  lemma RingClosesIgnorable<K>(idx: Index<K>, level: Level, n: nat, fuel: nat)
    requires RunsInRing(idx, level, n, fuel)
    ensures n > 0 && var b := Link(idx, level.leftmost, n - 1); b < |idx.pages| && Ignorable(idx.pages[b])
  {
    var v := RightLinks(idx, level.leftmost, n);
    var i: nat :| i < |v| - 1 && v[i] == v[|v| - 1];
    RepeatIsIgnorable(idx, level, v, fuel, i);
  }

  /** A live root leaf, and to its right a deleted page and a live leaf that name each other as right siblings. */
  function MixedRingIndex(): Index<int> {
    var leaf := (prev: nat, root: bool) => Page(true, prev, 2, 0, true, root, false, false, false, false, [], 0);
    var deletedPage := (next: nat) => Page(true, 0, next, 0, true, false, true, false, false, false, [], 0);
    Index([deletedPage(0).(meta := true), leaf(0, true), deletedPage(3), leaf(2, false)],
      MetaData(true, true, 1, 0), (x, y) => x <= y)
  }

  lemma WalkOn<K>(idx: Index<K>, level: Level, u: seq<nat>, b: nat, fuel: nat)
    requires Walk(idx, level, u, fuel) && b == NextBlock(idx, level, u) != NONE
    requires StepOk(idx, level, DownAlong(idx, u), LastOf(u), b, fuel)
    ensures Walk(idx, level, u + [b], fuel) && DownAlong(idx, u + [b]) == DownAfter(DownAlong(idx, u), idx.pages[b])
  {
    assert (u + [b])[..|u|] == u;
  }

  lemma EmptyPageSound<K>(idx: Index<K>, p: Page<K>, fuel: nat)
    requires p.items == []
    ensures PageSound(idx, p, fuel)
  {
    assert forall o: nat :: !Real(p, o);
  }

  /** Such links in any index make a walk that comes back to block 2. */
  lemma WalkReturns<K>(idx: Index<K>, level: Level, fuel: nat)
    requires Readable(idx, 1) && Readable(idx, 2) && Readable(idx, 3) && level.leftmost == 1
    requires var p := idx.pages[1];
      !Ignorable(p) && p.prev == NONE && p.root && p.next == 2 && p.level == level.level && p.items == []
    requires var p := idx.pages[2]; Ignorable(p) && p.next == 3 && p.prev == NONE
    requires var p := idx.pages[3];
      !Ignorable(p) && p.prev == 2 && p.next == 2 && p.level == level.level && p.items == []
    requires Down(idx.pages[1]).leftmost != INVALID
    ensures Walk(idx, level, [1, 2, 3, 2], fuel)
  {
    EmptyPageSound(idx, idx.pages[1], fuel);
    EmptyPageSound(idx, idx.pages[3], fuel);
    WalkOn(idx, level, [], 1, fuel);
    assert [] + [1] == [1];
    WalkOn(idx, level, [1], 2, fuel);
    assert [1] + [2] == [1, 2];
    WalkOn(idx, level, [1, 2], 3, fuel);
    assert [1, 2] + [3] == [1, 2, 3];
    WalkOn(idx, level, [1, 2, 3], 2, fuel);
    assert [1, 2, 3] + [2] == [1, 2, 3, 2];
  }

  /** So rings need not consist of ignorable pages: page 3 of this one is live. */
  lemma MixedRing(fuel: nat)
    ensures var idx := MixedRingIndex(); RunsInRing(idx, RootLevel(idx), 4, fuel) && !Ignorable(idx.pages[3])
  {
    var idx := MixedRingIndex();
    WalkReturns(idx, RootLevel(idx), fuel);
    WalkIsLinks(idx, RootLevel(idx), [1, 2, 3, 2], fuel);
    assert [1, 2, 3, 2][..3] == [1, 2, 3] && [1, 2, 3, 2][1] == 2;
  }

  /** On such a level there is neither silence nor an error to report. */
  lemma EndlessNoVerdict<K>(idx: Index<K>, level: Level, v: seq<nat>, fuel: nat)
    requires Endless(idx, level, fuel)
    ensures !LevelSound(idx, level, v, fuel) && !Fails(idx, level, v, fuel)
  {
    assert WalkOf(idx, level, |v| + 1, fuel);
    var w :| Walk(idx, level, w, fuel) && |w| == |v| + 1;
    if Walk(idx, level, v, fuel) {
      WalkIsLinks(idx, level, v, fuel);
      WalkIsLinks(idx, level, w, fuel);
      WalkAt(idx, level, w, fuel, |v|);
      assert w[..|v|] == v;
    }
  }

  // ---- searches to the right that go on for ever ----

  /** The search for a right sibling passes over a block. */
  predicate PassedOver<K>(idx: Index<K>, b: nat) {
    Readable(idx, b) && Ignorable(idx.pages[b]) && idx.pages[b].next != NONE
  }

  predicate PassedAt<K>(idx: Index<K>, b: nat, i: nat) {
    PassedOver(idx, Link(idx, b, i))
  }

  ghost predicate AllPassed<K>(idx: Index<K>, b: nat, f: nat) {
    forall i: nat | i < f :: PassedAt(idx, b, i)
  }

  lemma PassedFront<K>(idx: Index<K>, b: nat, f: nat)
    requires f > 0
    ensures AllPassed(idx, b, f) <==> PassedOver(idx, b) && AllPassed(idx, idx.pages[b].next, f - 1)
  {
    if AllPassed(idx, b, f) {
      assert PassedAt(idx, b, 0);
      forall i: nat | i < f - 1
        ensures PassedAt(idx, idx.pages[b].next, i)
      {
        assert PassedAt(idx, b, i + 1);
      }
    }
    if PassedOver(idx, b) && AllPassed(idx, idx.pages[b].next, f - 1) {
      forall i: nat | i < f
        ensures PassedAt(idx, b, i)
      {
        assert i > 0 ==> PassedAt(idx, idx.pages[b].next, i - 1);
      }
    }
  }

  /** It is unfinished after f steps exactly when it passed over all of the first f blocks. */
  lemma {:induction false} UnfinishedMeans<K>(idx: Index<K>, b: nat, f: nat)
    ensures RightSibling(idx, b, f).Unfinished? <==> AllPassed(idx, b, f)
    decreases f
  {
    if f > 0 {
      PassedFront(idx, b, f);
      if PassedOver(idx, b) {
        UnfinishedMeans(idx, idx.pages[b].next, f - 1);
      }
    }
  }

  /** The right links from b come back to an earlier block after n pages, all of which are passed over. */
  ghost predicate RightRing<K>(idx: Index<K>, b: nat, n: nat) {
    n <= |idx.pages| + 1 && Closes(RightLinks(idx, b, n)) && AllPassed(idx, b, n)
  }

  lemma {:induction false} LinkShift<K>(idx: Index<K>, b: nat, m: nat, n: nat)
    requires forall i: nat | i < m :: Link(idx, b, i) < |idx.pages|
    ensures Link(idx, b, m + n) == Link(idx, Link(idx, b, m), n)
    decreases m
  {
    if m > 0 {
      assert Link(idx, b, 0) == b;
      var c := idx.pages[b].next;
      forall i: nat | i < m - 1
        ensures Link(idx, c, i) < |idx.pages|
      {
        assert Link(idx, b, i + 1) == Link(idx, c, i);
      }
      LinkShift(idx, c, m - 1, n);
    }
  }

  lemma PassedInFile<K>(idx: Index<K>, b: nat, n: nat)
    requires AllPassed(idx, b, n)
    ensures forall i: nat | i < n :: Link(idx, b, i) < |idx.pages|
  {
    forall i: nat | i < n
      ensures Link(idx, b, i) < |idx.pages|
    {
      assert PassedAt(idx, b, i);
    }
  }

  /** From a ring the links never get out. */
  lemma {:induction false} RingHolds<K>(idx: Index<K>, b: nat, n: nat, i: nat)
    requires RightRing(idx, b, n)
    ensures PassedAt(idx, b, i)
    decreases i
  {
    if i >= n {
      var v := RightLinks(idx, b, n);
      var c: nat :| c < n - 1 && v[c] == v[n - 1];
      PassedInFile(idx, b, n);
      LinkShift(idx, b, n - 1, i - (n - 1));
      LinkShift(idx, b, c, i - (n - 1));
      RingHolds(idx, b, n, c + (i - (n - 1)));
    }
  }

  /** A search that has used more steps than there are blocks is in a ring. */
  lemma UnfinishedIsRing<K>(idx: Index<K>, b: nat, f: nat) returns (n: nat)
    requires RightSibling(idx, b, f).Unfinished? && f > |idx.pages|
    ensures RightRing(idx, b, n)
  {
    UnfinishedMeans(idx, b, f);
    var v := RightLinks(idx, b, |idx.pages| + 1);
    PassedInFile(idx, b, f);
    if Distinct(v) {
      Pigeonhole(v, |idx.pages|);
    }
    n := FirstReturn(v);
    assert v[..n] == RightLinks(idx, b, n);
  }

  /** The search for a right sibling never ends. */
  ghost predicate SearchEndless<K>(idx: Index<K>, b: nat) {
    forall f: nat :: RightSibling(idx, b, f).Unfinished?
  }

  lemma RingIsEndless<K>(idx: Index<K>, b: nat, n: nat)
    requires RightRing(idx, b, n)
    ensures SearchEndless(idx, b)
  {
    forall f: nat
      ensures RightSibling(idx, b, f).Unfinished?
    {
      forall i: nat | i < f
        ensures PassedAt(idx, b, i)
      {
        RingHolds(idx, b, n, i);
      }
      UnfinishedMeans(idx, b, f);
    }
  }

  /** Main result on searches: one never ends exactly when the right links run into a ring of ignorable pages. */
  lemma SearchEndlessExactly<K>(idx: Index<K>, b: nat)
    ensures SearchEndless(idx, b) <==> exists n: nat :: RightRing(idx, b, n)
  {
    if SearchEndless(idx, b) {
      var n := UnfinishedIsRing(idx, b, |idx.pages| + 1);
    }
    forall n: nat | RightRing(idx, b, n)
      ensures SearchEndless(idx, b)
    {
      RingIsEndless(idx, b, n);
    }
  }

  /** More steps than blocks are given up on only for a ring: of the level itself, or to the right of its next page. */
  lemma NoVerdictMeansRing<K>(idx: Index<K>, level: Level, v: seq<nat>, fuel: nat) returns (n: nat)
    requires Interrupted(idx, level, v, fuel) && fuel > |idx.pages|
    ensures RunsInRing(idx, level, n, fuel)
      || (var b := NextBlock(idx, level, v); b < |idx.pages| && RightRing(idx, idx.pages[b].next, n))
  {
    if |v| == fuel {
      WalkAt(idx, level, v, fuel, 0);
      LongWalkRepeats(idx, level, v, fuel);
      n := RepeatIsRing(idx, level, v, fuel);
    } else {
      n := UnfinishedIsRing(idx, idx.pages[NextBlock(idx, level, v)].next, fuel);
    }
  }

  // ---- the number of steps allowed does not matter ----

  lemma {:induction false} SiblingStable<K>(idx: Index<K>, b: nat, f: nat, g: nat)
    requires f <= g && !RightSibling(idx, b, f).Unfinished?
    ensures RightSibling(idx, b, g) == RightSibling(idx, b, f)
    decreases f
  {
    if PassedOver(idx, b) {
      SiblingStable(idx, idx.pages[b].next, f - 1, g - 1);
    }
  }

  /** Once more steps are allowed than there are blocks, their number no longer matters to a search. */
  lemma SiblingSame<K>(idx: Index<K>, b: nat, f: nat, g: nat)
    requires |idx.pages| < f <= g
    ensures RightSibling(idx, b, f) == RightSibling(idx, b, g)
  {
    if RightSibling(idx, b, f).Unfinished? {
      var n := UnfinishedIsRing(idx, b, f);
      RingIsEndless(idx, b, n);
    } else {
      SiblingStable(idx, b, f, g);
    }
  }

  lemma StepSame<K>(idx: Index<K>, level: Level, down: Level, left: nat, b: nat, f: nat, g: nat)
    requires |idx.pages| < f <= g
    ensures StepOk(idx, level, down, left, b, f) <==> StepOk(idx, level, down, left, b, g)
  {
    if b < |idx.pages| {
      SiblingSame(idx, idx.pages[b].next, f, g);
    }
  }

  lemma {:induction false} WalkSame<K>(idx: Index<K>, level: Level, v: seq<nat>, f: nat, g: nat)
    requires |idx.pages| < f <= g
    ensures Walk(idx, level, v, f) <==> Walk(idx, level, v, g)
  {
    if v != [] {
      var u := v[..|v| - 1];
      WalkSame(idx, level, u, f, g);
      if Walk(idx, level, u, f) {
        StepSame(idx, level, DownAlong(idx, u), LastOf(u), LastOf(v), f, g);
      }
    }
  }

  lemma {:induction false} DescentSame<K>(idx: Index<K>, ws: seq<seq<nat>>, f: nat, g: nat)
    requires |idx.pages| < f <= g
    ensures Descent(idx, ws, f) <==> Descent(idx, ws, g)
  {
    if ws != [] {
      var n := |ws| - 1;
      DescentSame(idx, ws[..n], f, g);
      if Descent(idx, ws[..n], f) {
        WalkSame(idx, LevelAfter(idx, ws[..n]), ws[n], f, g);
      }
    }
  }

  /** Nor to what a sound tree is, and so to what the check says of one. */
  lemma StepsDoNotMatter<K>(idx: Index<K>, ws: seq<seq<nat>>, f: nat, g: nat)
    requires |idx.pages| < f <= g
    ensures TreeSound(idx, ws, f) <==> TreeSound(idx, ws, g)
  {
    DescentSame(idx, ws, f, g);
  }
}
