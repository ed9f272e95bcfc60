/** g_cube_picksplit: Guttman's quadratic split of an overfull page of boxes. */
module CubeSplit {
  import opened CubeBox

  predicate AllValid(keys: seq<Box>) {
    forall b | b in keys :: Valid(b)
  }

  /** Entries are named by offsets that count from one. */
  function Entry(keys: seq<Box>, o: nat): (b: Box)
    requires AllValid(keys) && 1 <= o <= |keys|
    ensures Valid(b)
  {
    keys[o - 1]
  }

  /** The space wasted by putting two entries together. */
  function Waste(keys: seq<Box>, i: nat, j: nat): real
    requires AllValid(keys) && 1 <= i <= |keys| && 1 <= j <= |keys|
  {
    Size(Union(Entry(keys, i), Entry(keys, j))) - Size(Inter(Entry(keys, i), Entry(keys, j)))
  }

  /** The order in which the loops reach the pairs of offsets. */
  predicate Before(i: nat, j: nat, p: nat, q: nat) {
    i < p || (i == p && j < q)
  }

  predicate Pair(i: nat, j: nat, n: nat) {
    1 <= i < j <= n
  }

  /** (s, t) is the first of the highest among the pairs up to n that are reached before (p, q). */
  ghost predicate BestBefore(w: (nat, nat) -> real, n: nat, s: nat, t: nat, p: nat, q: nat) {
    && Pair(s, t, n) && Before(s, t, p, q)
    && forall i: nat, j: nat | Pair(i, j, n) && Before(i, j, p, q) ::
      w(i, j) <= w(s, t) && (Before(i, j, s, t) ==> w(i, j) < w(s, t))
  }

  lemma NextPair(w: (nat, nat) -> real, n: nat, s: nat, t: nat, p: nat, q: nat)
    requires BestBefore(w, n, s, t, p, q) && Pair(p, q, n)
    ensures w(p, q) <= w(s, t) ==> BestBefore(w, n, s, t, p, q + 1)
    ensures w(p, q) > w(s, t) ==> BestBefore(w, n, p, q, p, q + 1)
  {
  }

  lemma NextRow(w: (nat, nat) -> real, n: nat, s: nat, t: nat, p: nat)
    requires BestBefore(w, n, s, t, p, n + 1)
    ensures BestBefore(w, n, s, t, p + 1, p + 2)
  {
  }

  function WasteOf(keys: seq<Box>): (nat, nat) -> real
    requires AllValid(keys)
  {
    (i, j) => if 1 <= i <= |keys| && 1 <= j <= |keys| then Waste(keys, i, j) else 0.0
  }

  ghost predicate Tabulates(w: (nat, nat) -> real, keys: seq<Box>) {
    AllValid(keys) && forall i: nat, j: nat {:trigger Waste(keys, i, j)} | 1 <= i <= |keys| && 1 <= j <= |keys| ::
      w(i, j) == Waste(keys, i, j)
  }

  method PairWaste(keys: seq<Box>, i: nat, j: nat, ghost w: (nat, nat) -> real) returns (sizeWaste: real)
    requires Tabulates(w, keys) && 1 <= i <= |keys| && 1 <= j <= |keys|
    ensures sizeWaste == w(i, j)
  {
    var union := UnionV0(Entry(keys, i), Entry(keys, j), false);
    var sizeUnion := CubeSize(union);
    var inter := CubeInter(Entry(keys, i), Entry(keys, j));
    var sizeInter := CubeSize(inter);
    sizeWaste := sizeUnion - sizeInter;
    assert sizeWaste == Waste(keys, i, j);
  }

  /** The seeds among m entries: the first pair that wastes most, the last entry left aside, or the only two entries. */
  ghost predicate Seeds(w: (nat, nat) -> real, m: nat, s: nat, t: nat)
    requires m >= 2
  {
    if m == 2 then s == 1 && t == 2 else BestBefore(w, m - 1, s, t, m, 0)
  }

  /** What the loops know before they reach (p, q). */
  ghost predicate Known(w: (nat, nat) -> real, n: nat, firstTime: bool, waste: real, s: nat, t: nat, p: nat, q: nat) {
    if firstTime then s == 1 && t == 2 && p == 1 && q == 2 else BestBefore(w, n, s, t, p, q) && waste == w(s, t)
  }

  /** The step at (p, q), where x is wasted. */
  lemma Advance(w: (nat, nat) -> real, n: nat, firstTime: bool, waste: real, s: nat, t: nat, p: nat, q: nat, x: real)
    requires Known(w, n, firstTime, waste, s, t, p, q) && Pair(p, q, n) && x == w(p, q)
    ensures if x > waste || firstTime then Known(w, n, false, x, p, q, p, q + 1)
      else Known(w, n, false, waste, s, t, p, q + 1)
  {
    if !firstTime {
      NextPair(w, n, s, t, p, q);
    }
  }

  /** One row of the double loop. */
  method PickRow(keys: seq<Box>, i: nat, first: bool, waste0: real, s: nat, t: nat, ghost w: (nat, nat) -> real)
    returns (waste: real, seed1: nat, seed2: nat)
    requires Tabulates(w, keys) && 1 <= i < |keys| - 1 && Known(w, |keys| - 1, first, waste0, s, t, i, i + 1)
    ensures Known(w, |keys| - 1, false, waste, seed1, seed2, i, |keys|)
  {
    var firstTime, maxoff := first, |keys| - 1;
    waste, seed1, seed2 := waste0, s, t;
    for j := i + 1 to |keys|
      invariant Known(w, maxoff, firstTime, waste, seed1, seed2, i, j) && (j > i + 1 ==> !firstTime)
    {
      var sizeWaste := PairWaste(keys, i, j, w);
      Advance(w, maxoff, firstTime, waste, seed1, seed2, i, j, sizeWaste);
      if sizeWaste > waste || firstTime {
        waste, seed1, seed2, firstTime := sizeWaste, i, j, false;
      }
    }
  }

  method PickSeeds(keys: seq<Box>, ghost w: (nat, nat) -> real) returns (seed1: nat, seed2: nat)
    requires Tabulates(w, keys) && |keys| >= 2
    ensures Seeds(w, |keys|, seed1, seed2)
  {
    seed1, seed2 := 1, 2;
    var waste, maxoff := 0.0, |keys| - 1;
    var i := 1;
    while i < maxoff
      invariant 1 <= i <= maxoff
      invariant Known(w, maxoff, i == 1, waste, seed1, seed2, i, i + 1)
    {
      waste, seed1, seed2 := PickRow(keys, i, i == 1, waste, seed1, seed2, w);
      NextRow(w, maxoff, seed1, seed2, i);
      i := i + 1;
    }
  }

  /** The offsets of the entries that go to one side, when choices says of each whether it goes left. */
  function Offsets(choices: seq<bool>, left: bool): seq<nat> {
    var k := |choices|;
    if k == 0 then [] else Offsets(choices[..k - 1], left) + if choices[k - 1] == left then [k] else []
  }

  /** The key of one side: its seed, then every other entry that goes there. */
  function SideKey(keys: seq<Box>, seed: nat, choices: seq<bool>, left: bool): (b: Box)
    requires AllValid(keys) && 1 <= seed <= |keys| && |choices| <= |keys|
    ensures Valid(b)
  {
    var k := |choices|;
    if k == 0 then Entry(keys, seed)
    else
      var sofar := SideKey(keys, seed, choices[..k - 1], left);
      if choices[k - 1] == left && k != seed then Union(sofar, Entry(keys, k)) else sofar
  }

  /** The left side is enlarged less. */
  predicate PrefersLeft(l: Box, r: Box, b: Box)
    requires Valid(l) && Valid(r) && Valid(b)
  {
    Size(Union(l, b)) - Size(l) < Size(Union(r, b)) - Size(r)
  }

  predicate GoesLeft(keys: seq<Box>, s: nat, t: nat, choices: seq<bool>)
    requires AllValid(keys) && Pair(s, t, |keys|) && |choices| < |keys|
  {
    var k := |choices| + 1;
    k == s || (k != t && PrefersLeft(SideKey(keys, s, choices, true), SideKey(keys, t, choices, false), Entry(keys, k)))
  }

  /** Each seed goes to its own side, and every other entry to the side that it enlarges less. */
  ghost predicate Greedy(keys: seq<Box>, s: nat, t: nat, choices: seq<bool>)
    requires AllValid(keys) && Pair(s, t, |keys|) && |choices| <= |keys|
  {
    forall k: nat | k < |choices| :: choices[k] == GoesLeft(keys, s, t, choices[..k])
  }

  lemma GreedyMore(keys: seq<Box>, s: nat, t: nat, choices: seq<bool>, c: bool)
    requires AllValid(keys) && Pair(s, t, |keys|) && |choices| < |keys| && Greedy(keys, s, t, choices)
    requires c == GoesLeft(keys, s, t, choices)
    ensures Greedy(keys, s, t, choices + [c])
  {
    var more := choices + [c];
    forall k: nat | k < |more|
      ensures more[k] == GoesLeft(keys, s, t, more[..k])
    {
      assert more[..k] == choices[..k] && choices[..|choices|] == choices;
    }
  }

  lemma OffsetsMore(choices: seq<bool>, c: bool, left: bool)
    ensures Offsets(choices + [c], left) == Offsets(choices, left) + if c == left then [|choices| + 1] else []
  {
    assert (choices + [c])[..|choices|] == choices;
  }

  lemma SideKeyMore(keys: seq<Box>, seed: nat, choices: seq<bool>, c: bool, left: bool)
    requires AllValid(keys) && 1 <= seed <= |keys| && |choices| < |keys|
    ensures var sofar, k := SideKey(keys, seed, choices, left), |choices| + 1;
      SideKey(keys, seed, choices + [c], left) == if c == left && k != seed then Union(sofar, Entry(keys, k)) else sofar
  {
    assert (choices + [c])[..|choices|] == choices;
  }

  datatype Sides = Sides(left: seq<nat>, right: seq<nat>, leftKey: Box, rightKey: Box)

  function SidesOf(keys: seq<Box>, s: nat, t: nat, choices: seq<bool>): Sides
    requires AllValid(keys) && Pair(s, t, |keys|) && |choices| <= |keys|
  {
    Sides(Offsets(choices, true), Offsets(choices, false), SideKey(keys, s, choices, true),
      SideKey(keys, t, choices, false))
  }

  /** The choice for the next entry, and the key and its size on the side it goes to. */
  method Choose(keys: seq<Box>, s: nat, t: nat, ghost choices: seq<bool>, k: nat, datumL: Box, datumR: Box,
      sizeL: real, sizeR: real)
    returns (c: bool, datum: Box, size: real)
    requires AllValid(keys) && Pair(s, t, |keys|) && |choices| + 1 == k <= |keys| && k != s && k != t
    requires datumL == SideKey(keys, s, choices, true) && datumR == SideKey(keys, t, choices, false)
    requires sizeL == Size(datumL) && sizeR == Size(datumR)
    ensures c == GoesLeft(keys, s, t, choices) && datum == Union(if c then datumL else datumR, Entry(keys, k))
      && size == Size(datum)
  {
    var unionL := UnionV0(datumL, Entry(keys, k), false);
    var unionR := UnionV0(datumR, Entry(keys, k), false);
    var sizeAlpha := CubeSize(unionL);
    var sizeBeta := CubeSize(unionR);
    if sizeAlpha - sizeL < sizeBeta - sizeR {
      c, datum, size := true, unionL, sizeAlpha;
    } else {
      c, datum, size := false, unionR, sizeBeta;
    }
  }

  lemma SidesMore(keys: seq<Box>, s: nat, t: nat, choices: seq<bool>, c: bool)
    requires AllValid(keys) && Pair(s, t, |keys|) && |choices| < |keys|
    ensures var d, k := SidesOf(keys, s, t, choices), |choices| + 1;
      SidesOf(keys, s, t, choices + [c]) ==
        if c then d.(left := d.left + [k], leftKey := if k == s then d.leftKey else Union(d.leftKey, Entry(keys, k)))
        else d.(right := d.right + [k], rightKey := if k == t then d.rightKey else Union(d.rightKey, Entry(keys, k)))
  {
    OffsetsMore(choices, c, true);
    OffsetsMore(choices, c, false);
    SideKeyMore(keys, s, choices, c, true);
    SideKeyMore(keys, t, choices, c, false);
  }

  /** One turn of the loop that distributes the entries. */
  method PlaceEntry(keys: seq<Box>, s: nat, t: nat, ghost choices: seq<bool>, i: nat, d0: Sides, sizeL0: real,
      sizeR0: real)
    returns (ghost c: bool, d: Sides, sizeL: real, sizeR: real)
    requires AllValid(keys) && Pair(s, t, |keys|) && |choices| + 1 == i <= |keys| && d0 == SidesOf(keys, s, t, choices)
    requires sizeL0 == Size(d0.leftKey) && sizeR0 == Size(d0.rightKey)
    ensures c == GoesLeft(keys, s, t, choices) && d == SidesOf(keys, s, t, choices + [c])
    ensures sizeL == Size(d.leftKey) && sizeR == Size(d.rightKey)
  {
    d, sizeL, sizeR := d0, sizeL0, sizeR0;
    if i == s {
      c, d := true, d.(left := d.left + [i]);
    } else if i == t {
      c, d := false, d.(right := d.right + [i]);
    } else {
      var goesLeft, datum, size := Choose(keys, s, t, choices, i, d.leftKey, d.rightKey, sizeL, sizeR);
      c := goesLeft;
      if goesLeft {
        d, sizeL := d.(left := d.left + [i], leftKey := datum), size;
      } else {
        d, sizeR := d.(right := d.right + [i], rightKey := datum), size;
      }
    }
    SidesMore(keys, s, t, choices, c);
  }

  predicate Ascending(offsets: seq<nat>) {
    forall i, j :: 0 <= i < j < |offsets| ==> offsets[i] < offsets[j]
  }

  lemma AscendingMore(offsets: seq<nat>, k: nat)
    requires Ascending(offsets) && forall o | o in offsets :: o < k
    ensures Ascending(offsets + [k])
  {
    forall i, j | 0 <= i < j < |offsets + [k]|
      ensures (offsets + [k])[i] < (offsets + [k])[j]
    {
      assert offsets[i] in offsets;
    }
  }

  lemma {:induction false} OffsetsMembers(choices: seq<bool>, left: bool, o: int)
    ensures o in Offsets(choices, left) <==> 1 <= o <= |choices| && choices[o - 1] == left
  {
    var k := |choices|;
    if k > 0 {
      OffsetsMembers(choices[..k - 1], left, o);
    }
  }

  /** Each list is in order and holds exactly the offsets that go to its side. */
  lemma {:induction false} OffsetsPartition(choices: seq<bool>, left: bool)
    ensures Ascending(Offsets(choices, left))
    ensures forall o :: o in Offsets(choices, left) <==> 1 <= o <= |choices| && choices[o - 1] == left
  {
    var k := |choices|;
    if k > 0 {
      OffsetsPartition(choices[..k - 1], left);
      AscendingMore(Offsets(choices[..k - 1], left), k);
    }
    forall o
      ensures o in Offsets(choices, left) <==> 1 <= o <= |choices| && choices[o - 1] == left
    {
      OffsetsMembers(choices, left, o);
    }
  }

  /** A box encloses the entries at the given offsets. */
  ghost predicate CoversAll(k: Box, keys: seq<Box>, offsets: seq<nat>)
    requires Valid(k) && AllValid(keys)
  {
    forall o | o in offsets && 1 <= o <= |keys| :: Covers(k, Entry(keys, o))
  }

  lemma CoversMore(k: Box, keys: seq<Box>, offsets: seq<nat>, o: nat)
    requires Valid(k) && AllValid(keys) && 1 <= o <= |keys|
    ensures CoversAll(k, keys, offsets + [o]) <==> CoversAll(k, keys, offsets) && Covers(k, Entry(keys, o))
  {
  }

  /** Each key is the least box around the seed and the entries placed so far. */
  lemma {:induction false} KeySoFar(keys: seq<Box>, seed: nat, choices: seq<bool>, left: bool, box: Box)
    requires AllValid(keys) && 1 <= seed <= |keys| && |choices| <= |keys| && Valid(box)
    ensures Covers(box, SideKey(keys, seed, choices, left))
      <==> Covers(box, Entry(keys, seed)) && CoversAll(box, keys, Offsets(choices, left))
  {
    var k := |choices|;
    if k > 0 {
      KeySoFar(keys, seed, choices[..k - 1], left, box);
      CoversMore(box, keys, Offsets(choices[..k - 1], left), k);
      UnionCovers(SideKey(keys, seed, choices[..k - 1], left), Entry(keys, k), box);
    }
  }

  /** A seed is on its own side. */
  lemma SeedsApart(keys: seq<Box>, s: nat, t: nat, choices: seq<bool>)
    requires AllValid(keys) && Pair(s, t, |keys|) && |choices| == |keys| && Greedy(keys, s, t, choices)
    ensures s in Offsets(choices, true) && t in Offsets(choices, false)
  {
    OffsetsPartition(choices, true);
    OffsetsPartition(choices, false);
    assert choices[s - 1] == GoesLeft(keys, s, t, choices[..s - 1])
      && choices[t - 1] == GoesLeft(keys, s, t, choices[..t - 1]);
  }

  /** The two lists are in order, neither is empty, and every entry is on exactly one of them. */
  ghost predicate Partition(d: Sides, m: nat) {
    && d.left != [] && d.right != [] && Ascending(d.left) && Ascending(d.right)
    && (forall o | 1 <= o <= m :: o in d.left <==> o !in d.right)
    && (forall o | o in d.left + d.right :: 1 <= o <= m)
  }

  /** The key of each side is the least box around its entries. */
  ghost predicate LeastKeys(d: Sides, keys: seq<Box>)
    requires AllValid(keys) && Valid(d.leftKey) && Valid(d.rightKey)
  {
    forall box: Box {:trigger Valid(box)} | Valid(box) ::
      && (Covers(box, d.leftKey) <==> CoversAll(box, keys, d.left))
      && (Covers(box, d.rightKey) <==> CoversAll(box, keys, d.right))
  }

  /** A finished split puts every entry on one side and gives each side the least box around its entries. */
  lemma SplitIsSound(keys: seq<Box>, s: nat, t: nat, choices: seq<bool>)
    requires AllValid(keys) && Pair(s, t, |keys|) && |choices| == |keys| && Greedy(keys, s, t, choices)
    ensures var d := SidesOf(keys, s, t, choices);
      Valid(d.leftKey) && Valid(d.rightKey) && Partition(d, |keys|) && LeastKeys(d, keys)
  {
    OffsetsPartition(choices, true);
    OffsetsPartition(choices, false);
    SeedsApart(keys, s, t, choices);
    forall box: Box | Valid(box)
      ensures Covers(box, SideKey(keys, s, choices, true)) <==> CoversAll(box, keys, Offsets(choices, true))
      ensures Covers(box, SideKey(keys, t, choices, false)) <==> CoversAll(box, keys, Offsets(choices, false))
    {
      KeySoFar(keys, s, choices, true, box);
      KeySoFar(keys, t, choices, false, box);
    }
  }

  /** What putting two boxes together wastes: the size of their union less that of what they have in common. */
  function Overhead(a: Box, b: Box): real
    requires Valid(a) && Valid(b)
  {
    Size(Union(a, b)) - Size(Inter(a, b))
  }

  /** The pair (i, j) does not waste more than (s, t), and less if the loops reach it earlier. */
  predicate NotWorse(keys: seq<Box>, i: nat, j: nat, s: nat, t: nat)
    requires AllValid(keys) && Pair(i, j, |keys|) && Pair(s, t, |keys|)
  {
    var mine, best := Overhead(keys[i - 1], keys[j - 1]), Overhead(keys[s - 1], keys[t - 1]);
    if i < s || (i == s && j < t) then mine < best else mine <= best
  }

  /** The seeds waste most among all entries but the last. */
  ghost predicate MostWasteful(keys: seq<Box>, s: nat, t: nat)
    requires AllValid(keys) && Pair(s, t, |keys|)
  {
    if |keys| == 2 then s == 1 && t == 2
    else t < |keys| && forall i: nat, j: nat | 1 <= i < j < |keys| :: NotWorse(keys, i, j, s, t)
  }

  lemma WasteIs(keys: seq<Box>, i: nat, j: nat)
    requires AllValid(keys) && Pair(i, j, |keys|)
    ensures WasteOf(keys)(i, j) == Overhead(keys[i - 1], keys[j - 1])
  {
  }

  lemma SeedsNotWorse(keys: seq<Box>, w: (nat, nat) -> real, i: nat, j: nat, s: nat, t: nat)
    requires AllValid(keys) && 1 <= i < j < |keys| && Pair(s, t, |keys|) && BestBefore(w, |keys| - 1, s, t, |keys|, 0)
    requires w(i, j) == Overhead(keys[i - 1], keys[j - 1]) && w(s, t) == Overhead(keys[s - 1], keys[t - 1])
    ensures NotWorse(keys, i, j, s, t)
  {
    assert Pair(i, j, |keys| - 1) && Before(i, j, |keys|, 0);
  }

  lemma SeedsWasteMost(keys: seq<Box>, s: nat, t: nat)
    requires AllValid(keys) && |keys| >= 2 && Pair(s, t, |keys|) && Seeds(WasteOf(keys), |keys|, s, t)
    ensures MostWasteful(keys, s, t)
  {
    if |keys| > 2 {
      forall i: nat, j: nat | 1 <= i < j < |keys|
        ensures NotWorse(keys, i, j, s, t)
      {
        WasteIs(keys, i, j);
        WasteIs(keys, s, t);
        SeedsNotWorse(keys, WasteOf(keys), i, j, s, t);
      }
    }
  }

  /**
   * Seeds go to their own sides; any other entry goes left just when that enlarges the left key, as it is by then, less
   * than the right one.
   */
  ghost predicate PlacedAt(keys: seq<Box>, s: nat, t: nat, choices: seq<bool>, k: nat)
    requires AllValid(keys) && Pair(s, t, |keys|) && k < |choices| <= |keys|
  {
    var l, r, e := SideKey(keys, s, choices[..k], true), SideKey(keys, t, choices[..k], false), Entry(keys, k + 1);
    if k + 1 == s then choices[k]
    else if k + 1 == t then !choices[k]
    else choices[k] <==> Size(Union(l, e)) - Size(l) < Size(Union(r, e)) - Size(r)
  }

  lemma GreedyPlaces(keys: seq<Box>, s: nat, t: nat, choices: seq<bool>, k: nat)
    requires AllValid(keys) && Pair(s, t, |keys|) && k < |choices| <= |keys| && Greedy(keys, s, t, choices)
    ensures PlacedAt(keys, s, t, choices, k)
  {
    assert choices[k] == GoesLeft(keys, s, t, choices[..k]);
  }

  /** The seeds, then every entry in turn. */
  method Distribute(keys: seq<Box>) returns (d: Sides, ghost seed1: nat, ghost seed2: nat, ghost choices: seq<bool>)
    requires AllValid(keys) && |keys| >= 2
    ensures Seeds(WasteOf(keys), |keys|, seed1, seed2) && Pair(seed1, seed2, |keys|)
    ensures |choices| == |keys| && Greedy(keys, seed1, seed2, choices) && d == SidesOf(keys, seed1, seed2, choices)
  {
    var s, t := PickSeeds(keys, WasteOf(keys));
    seed1, seed2, choices := s, t, [];
    var datumL := UnionV0(Entry(keys, s), Entry(keys, s), true);
    var datumR := UnionV0(Entry(keys, t), Entry(keys, t), true);
    d := Sides([], [], datumL, datumR);
    var sizeL := CubeSize(d.leftKey);
    var sizeR := CubeSize(d.rightKey);
    for i := 1 to |keys| + 1
      invariant |choices| == i - 1 && Greedy(keys, s, t, choices) && d == SidesOf(keys, s, t, choices)
      invariant sizeL == Size(d.leftKey) && sizeR == Size(d.rightKey)
    {
      ghost var c;
      c, d, sizeL, sizeR := PlaceEntry(keys, s, t, choices, i, d, sizeL, sizeR);
      GreedyMore(keys, s, t, choices, c);
      choices := choices + [c];
    }
  }

  /** g_cube_picksplit on m entries, of which the last is the new one. */
  method PickSplit(keys: seq<Box>) returns (d: Sides, ghost seed1: nat, ghost seed2: nat, ghost choices: seq<bool>)
    requires AllValid(keys) && |keys| >= 2
    ensures Seeds(WasteOf(keys), |keys|, seed1, seed2) && Pair(seed1, seed2, |keys|)
    ensures |choices| == |keys| && Greedy(keys, seed1, seed2, choices) && d == SidesOf(keys, seed1, seed2, choices)
    ensures Valid(d.leftKey) && Valid(d.rightKey) && Partition(d, |keys|) && LeastKeys(d, keys)
    ensures MostWasteful(keys, seed1, seed2)
    ensures forall k: nat | k < |keys| :: PlacedAt(keys, seed1, seed2, choices, k)
  {
    d, seed1, seed2, choices := Distribute(keys);
    SplitIsSound(keys, seed1, seed2, choices);
    SeedsWasteMost(keys, seed1, seed2);
    forall k: nat | k < |keys|
      ensures PlacedAt(keys, seed1, seed2, choices, k)
    {
      GreedyPlaces(keys, seed1, seed2, choices, k);
    }
  }
}
