/** Building a bloom index: tuples gather on a cached page that is flushed when the next one does not fit. */
module BloomBuild {
  import opened BloomPage

  /** The blocks written after n tuples, and how many of the cached page's tuples were counted. */
  ghost predicate Progress(tuples: seq<Tuple>, capacity: nat, pages: seq<Page>, cached: seq<Tuple>, count: nat) {
    && |pages| >= 1 && pages[0] == MetaPage
    && (forall b :: 1 <= b < |pages| ==> pages[b].DataPage? && !pages[b].deleted && |pages[b].tuples| == capacity)
    && AllTuples(pages) + cached == tuples
    && |cached| <= capacity
    && (|pages| > 1 ==> cached != [])
    && count == if |pages| == 1 then |cached| else |cached| - 1
  }

  /**
   * The tuples a finished build holds: all of them, or all but the last one when that one alone opened a fresh page.
   */
  function Indexed(tuples: seq<Tuple>, capacity: nat): seq<Tuple>
    requires capacity > 1
  {
    if |tuples| > 1 && |tuples| % capacity == 1 then tuples[..|tuples| - 1] else tuples
  }

  /** A finished build: the metapage, then full pages, the last one possibly not full. */
  predicate Packed(pages: seq<Page>, capacity: nat) {
    && |pages| >= 1 && pages[0] == MetaPage
    && (forall b :: 1 <= b < |pages| ==> pages[b].DataPage? && !pages[b].deleted && 1 <= |pages[b].tuples| <= capacity)
    && (forall b :: 1 <= b < |pages| - 1 ==> |pages[b].tuples| == capacity)
  }

  class BuildState {
    var pages: seq<Page>
    var cached: PageBuffer
    var count: nat

    ghost predicate Valid()
      reads this, cached, cached.slots
    {
      cached.Valid() && !cached.isNew && !cached.deleted
    }

    ghost function Cached(): seq<Tuple>
      reads this, cached, cached.slots
      requires Valid()
    {
      cached.View().tuples
    }

    /** The metapage is in place and the cached page empty. */
    constructor (size: nat)
      requires size > 0
      ensures Valid() && cached.size == size && fresh(cached) && fresh(cached.slots)
      ensures pages == [MetaPage] && Cached() == [] && count == 0
    {
      pages, count := [MetaPage], 0;
      cached := new PageBuffer(DataPage(false, []), size);
    }

    /** flushCachedPage: a relation under construction has no free pages, so the file grows by one block. */
    method FlushCachedPage()
      requires Valid()
      modifies this`pages
      ensures pages == old(pages) + [DataPage(false, Cached())]
    {
      pages := pages + [DataPage(false, cached.slots[..cached.maxoff])];
    }

    /** bloomBuildCallback. The counter moves only when the tuple fits on the page at hand. */
    method Callback(t: Tuple, ghost tuples: seq<Tuple>)
      requires Valid() && Capacity(cached.size) > 1
      requires Progress(tuples, Capacity(cached.size), pages, Cached(), count)
      modifies this, cached, cached.slots
      ensures Valid() && cached == old(cached)
      ensures Progress(tuples + [t], Capacity(cached.size), pages, Cached(), count)
    {
      ghost var before := Cached();
      var added := cached.AddItem(t);
      if added {
        count := count + 1;
        assert AllTuples(pages) + Cached() == (AllTuples(pages) + before) + [t];
      } else {
        FlushCachedPage();
        cached.Init();
        count := 0;
        added := cached.AddItem(t);
        assert added;
        assert pages[..|pages| - 1] == old(pages);
        assert AllTuples(pages) + Cached() == (AllTuples(old(pages)) + before) + [t];
      }
    }

    /** IndexBuildHeapScan: the callback once for every heap tuple. */
    method HeapScan(tuples: seq<Tuple>) returns (reltuples: nat)
      requires Valid() && Capacity(cached.size) > 1
      requires Progress([], Capacity(cached.size), pages, Cached(), count)
      modifies this, cached, cached.slots
      ensures Valid() && cached == old(cached) && reltuples == |tuples|
      ensures Progress(tuples, Capacity(cached.size), pages, Cached(), count)
    {
      reltuples := 0;
      assert tuples[..0] == [];
      while reltuples < |tuples|
        invariant reltuples <= |tuples|
        invariant Valid() && cached == old(cached)
        invariant Progress(tuples[..reltuples], Capacity(cached.size), pages, Cached(), count)
      {
        assert tuples[..reltuples + 1] == tuples[..reltuples] + [tuples[reltuples]];
        Callback(tuples[reltuples], tuples[..reltuples]);
        reltuples := reltuples + 1;
      }
      assert tuples[..reltuples] == tuples;
    }
  }

  /** Full pages hold a multiple of the capacity. */
  lemma {:induction false} FullPages(pages: seq<Page>, capacity: nat)
    requires |pages| >= 1 && pages[0] == MetaPage
    requires forall b :: 1 <= b < |pages| ==> pages[b].DataPage? && |pages[b].tuples| == capacity
    ensures |AllTuples(pages)| == (|pages| - 1) * capacity
  {
    var n := |pages| - 1;
    if n == 0 {
      assert AllTuples(pages[..0]) == [];
    } else {
      FullPages(pages[..n], capacity);
      assert n * capacity == (n - 1) * capacity + capacity;
    }
  }

  /** The last page is missing exactly when it holds one tuple and is not the first. */
  lemma LastPageCounted(n: nat, full: nat, rest: nat, capacity: nat)
    requires capacity > 1 && n == full * capacity + rest && rest <= capacity && (full > 0 ==> rest > 0)
    ensures n > 1 && n % capacity == 1 <==> full > 0 && rest == 1
  {
    if rest < capacity {
      Euclid(n, full, rest, capacity);
    } else {
      Euclid(n, full + 1, 0, capacity);
    }
  }

  lemma Euclid(n: nat, q: nat, r: nat, d: nat)
    requires d > 0 && n == q * d + r && r < d
    ensures n % d == r
  {
    var q' := n / d;
    assert n == q' * d + n % d;
    if q' < q {
      MultiplyMonotone(q' + 1, q, d);
    } else if q < q' {
      MultiplyMonotone(q + 1, q', d);
    }
  }

  /** blbuild: every heap tuple through the callback, then the cached page if the counter says it holds something. */
  method Build(tuples: seq<Tuple>, bloomLength: nat) returns (pages: seq<Page>, reltuples: nat)
    requires 1 <= bloomLength <= 256
    ensures Capacity(TupleSize(bloomLength)) >= 15
    ensures AllTuples(pages) == Indexed(tuples, Capacity(TupleSize(bloomLength)))
    ensures AllTuples(pages) == tuples <==> !(|tuples| > 1 && |tuples| % Capacity(TupleSize(bloomLength)) == 1)
    ensures Packed(pages, Capacity(TupleSize(bloomLength)))
    ensures reltuples == |tuples|
  {
    CapacityAtLeast(bloomLength);
    var size := TupleSize(bloomLength);
    var state := new BuildState(size);
    reltuples := state.HeapScan(tuples);
    FinishedBuild(tuples, Capacity(size), state.pages, state.Cached(), state.count);
    if state.count > 0 {
      state.FlushCachedPage();
    }
    pages := state.pages;
  }

  lemma FinishedBuild(tuples: seq<Tuple>, capacity: nat, pages: seq<Page>, cached: seq<Tuple>, count: nat)
    requires capacity > 1 && Progress(tuples, capacity, pages, cached, count)
    ensures var all := if count > 0 then pages + [DataPage(false, cached)] else pages;
      AllTuples(all) == Indexed(tuples, capacity) && Packed(all, capacity)
  {
    FullPages(pages, capacity);
    LastPageCounted(|tuples|, |pages| - 1, |cached|, capacity);
    if count > 0 {
      assert (pages + [DataPage(false, cached)])[..|pages|] == pages;
    } else if |pages| == 1 {
      assert AllTuples(pages) == [] && tuples == [];
    } else {
      assert AllTuples(pages) == (AllTuples(pages) + cached)[..|tuples| - 1];
    }
  }
}
