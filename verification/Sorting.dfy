/** Sorting the offsets of an entry vector by key: what the page splits need from qsort_arg. */
module Sorting {
  /** Names three elements, so that transitivity is used only where a proof asks for it. */
  predicate Chain<T>(x: T, y: T, z: T) {
    true
  }

  ghost predicate TotalOrder<T(!new)>(le: (T, T) -> bool) {
    && (forall x, y :: le(x, y) || le(y, x))
    && (forall x, y, z {:trigger Chain(x, y, z)} :: Chain(x, y, z) && le(x, y) && le(y, z) ==> le(x, z))
  }

  /** Offsets count from one. */
  predicate ValidOffsets(offsets: seq<nat>, n: nat) {
    forall i :: 0 <= i < |offsets| ==> 1 <= offsets[i] <= n
  }

  /** The keys found at the given offsets of an entry vector. */
  function KeysAt<T>(keys: seq<T>, offsets: seq<nat>): (r: seq<T>)
    requires ValidOffsets(offsets, |keys|)
    ensures |r| == |offsets|
    ensures forall i :: 0 <= i < |r| ==> r[i] == keys[offsets[i] - 1]
  {
    seq(|offsets|, i requires 0 <= i < |offsets| => keys[offsets[i] - 1])
  }

  predicate Sorted<T>(s: seq<T>, le: (T, T) -> bool) {
    forall i, j :: 0 <= i < j < |s| ==> le(s[i], s[j])
  }

  /** Every offset from 1 to n, each exactly once. */
  predicate Permutes(offsets: seq<nat>, n: nat) {
    && |offsets| == n
    && ValidOffsets(offsets, n)
    && (forall i, j :: 0 <= i < j < n ==> offsets[i] != offsets[j])
    && (forall o :: 1 <= o <= n ==> o in offsets)
  }

  method FindPlace<T(!new)>(s: seq<T>, x: T, le: (T, T) -> bool) returns (p: nat)
    requires TotalOrder(le) && Sorted(s, le)
    ensures p <= |s|
    ensures forall k :: 0 <= k < p ==> le(s[k], x)
    ensures forall k :: p <= k < |s| ==> le(x, s[k])
  {
    p := |s|;
    while p > 0 && !le(s[p - 1], x)
      invariant p <= |s|
      invariant forall k :: p <= k < |s| ==> le(x, s[k])
    {
      p := p - 1;
    }
    forall k | 0 <= k < p
      ensures le(s[k], x)
    {
      assert Chain(s[k], s[p - 1], x);
    }
  }

  /** Adds the next offset behind those whose keys are not above its own. */
  method InsertOffset<T(!new)>(keys: seq<T>, offsets: seq<nat>, le: (T, T) -> bool) returns (r: seq<nat>)
    requires TotalOrder(le) && |offsets| < |keys| && Permutes(offsets, |offsets|)
    requires Sorted(KeysAt(keys, offsets), le)
    ensures Permutes(r, |offsets| + 1)
    ensures Sorted(KeysAt(keys, r), le)
  {
    var n := |offsets|;
    var p := FindPlace(KeysAt(keys, offsets), keys[n], le);
    r := offsets[..p] + [n + 1] + offsets[p..];
    InsertedPermutes(offsets, p);
    InsertedKeys(keys, offsets, p);
    InsertedSorted(KeysAt(keys, offsets), p, keys[n], le);
  }

  lemma InsertedPermutes(offsets: seq<nat>, p: nat)
    requires Permutes(offsets, |offsets|) && p <= |offsets|
    ensures Permutes(offsets[..p] + [|offsets| + 1] + offsets[p..], |offsets| + 1)
  {
    var n := |offsets|;
    var r := offsets[..p] + [n + 1] + offsets[p..];
    forall o | 1 <= o <= n + 1
      ensures o in r
    {
      if o <= n {
        assert o in offsets;
        assert offsets == offsets[..p] + offsets[p..];
      }
    }
  }

  lemma InsertedSorted<T>(s: seq<T>, p: nat, x: T, le: (T, T) -> bool)
    requires Sorted(s, le) && p <= |s|
    requires forall k :: 0 <= k < p ==> le(s[k], x)
    requires forall k :: p <= k < |s| ==> le(x, s[k])
    ensures Sorted(s[..p] + [x] + s[p..], le)
  {
    var r := s[..p] + [x] + s[p..];
    forall i, j | 0 <= i < j < |r|
      ensures le(r[i], r[j])
    {
      var i', j' := if i > p then i - 1 else i, if j > p then j - 1 else j;
      assert i != p ==> r[i] == s[i'];
      assert j != p ==> r[j] == s[j'];
    }
  }

  lemma InsertedKeys<T>(keys: seq<T>, offsets: seq<nat>, p: nat)
    requires |offsets| < |keys| && ValidOffsets(offsets, |keys|) && p <= |offsets|
    ensures var r := offsets[..p] + [|offsets| + 1] + offsets[p..]; var s := KeysAt(keys, offsets);
      ValidOffsets(r, |keys|) && KeysAt(keys, r) == s[..p] + [keys[|offsets|]] + s[p..]
  {
  }

  method SortOffsets<T(!new)>(keys: seq<T>, le: (T, T) -> bool) returns (offsets: seq<nat>)
    requires TotalOrder(le)
    ensures Permutes(offsets, |keys|)
    ensures Sorted(KeysAt(keys, offsets), le)
  {
    offsets := [];
    while |offsets| < |keys|
      invariant |offsets| <= |keys|
      invariant Permutes(offsets, |offsets|)
      invariant Sorted(KeysAt(keys, offsets), le)
    {
      offsets := InsertOffset(keys, offsets, le);
    }
  }

  /** Cutting such a list in two puts every offset on exactly one side. */
  lemma HalvesPartition(offsets: seq<nat>, n: nat, half: nat, o: nat)
    requires Permutes(offsets, n) && half <= n && 1 <= o <= n
    ensures o in offsets[..half] <==> o !in offsets[half..]
  {
    assert o in offsets;
    var k :| 0 <= k < n && offsets[k] == o;
    if k < half {
      assert offsets[..half][k] == o;
    } else {
      assert offsets[half..][k - half] == o;
    }
  }

  /** Sorts the entries and cuts the list in the middle: the left half takes the smaller keys. */
  method SplitHalves<T(!new)>(keys: seq<T>, le: (T, T) -> bool) returns (left: seq<nat>, right: seq<nat>)
    requires TotalOrder(le)
    ensures |left| == |keys| / 2 && |left| + |right| == |keys|
    ensures ValidOffsets(left, |keys|) && ValidOffsets(right, |keys|)
    ensures forall o :: 1 <= o <= |keys| ==> (o in left <==> o !in right)
    ensures forall i, j :: 0 <= i < |left| && 0 <= j < |right| ==> le(keys[left[i] - 1], keys[right[j] - 1])
  {
    var n, half := |keys|, |keys| / 2;
    var offsets := SortOffsets(keys, le);
    left, right := offsets[..half], offsets[half..];
    forall i, j | 0 <= i < |left| && 0 <= j < |right|
      ensures le(keys[left[i] - 1], keys[right[j] - 1])
    {
      assert le(KeysAt(keys, offsets)[i], KeysAt(keys, offsets)[half + j]);
    }
    forall o | 1 <= o <= n
      ensures o in left <==> o !in right
    {
      HalvesPartition(offsets, n, half, o);
    }
  }
}
