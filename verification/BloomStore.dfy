/** The blocks of a bloom index and its metapage, with the effect of each critical section as a function. */
module BloomStore {
  import opened BloomSignature
  import opened BloomPage
  import opened Sequences
  import opened Wrappers

  /** BloomMetaBlockN: what is left of the metapage after header, special area and options, in block numbers. */
  const META_BLOCKS := (BLOCK_SIZE - PAGE_HEADER - SPECIAL_SIZE - 144) / 4

  /** The queue of pages believed not to be full: entries nStart up to nEnd. */
  datatype Meta = Meta(nStart: nat, nEnd: nat, notFullPage: seq<nat>)

  /** The entries of the queue that count. */
  function Window(meta: Meta): seq<nat>
    requires meta.nStart <= meta.nEnd <= |meta.notFullPage|
  {
    meta.notFullPage[meta.nStart..meta.nEnd]
  }

  datatype Store = Store(pages: seq<Page>, meta: Meta)

  predicate PageOk(page: Page, capacity: nat) {
    page.DataPage? ==> |page.tuples| <= capacity && (page.deleted ==> page.tuples == [])
  }

  predicate PagesOk(pages: seq<Page>, capacity: nat) {
    && |pages| >= 1 && pages[0].MetaPage?
    && forall b :: 1 <= b < |pages| ==> !pages[b].MetaPage? && PageOk(pages[b], capacity)
  }

  /** The live window of the queue is in bounds and holds distinct data blocks. */
  predicate MetaOk(meta: Meta, blocks: nat) {
    && meta.nStart <= meta.nEnd <= META_BLOCKS == |meta.notFullPage|
    && (forall i :: meta.nStart <= i < meta.nEnd ==> 1 <= meta.notFullPage[i] < blocks)
    && (forall i, j :: meta.nStart <= i < j < meta.nEnd ==> meta.notFullPage[i] != meta.notFullPage[j])
  }

  predicate StoreOk(store: Store, capacity: nat) {
    PagesOk(store.pages, capacity) && MetaOk(store.meta, |store.pages|)
  }

  /** One block replaced, or one block added at the end. */
  function Put(pages: seq<Page>, b: nat, page: Page): (r: seq<Page>)
    requires b <= |pages|
    ensures |r| == if b == |pages| then |pages| + 1 else |pages|
  {
    if b == |pages| then pages + [page] else pages[b := page]
  }

  /** The tuples a vacuum page step takes away. */
  function DeadOn(page: Page, dead: set<ItemPointer>): seq<Tuple> {
    if page.DataPage? && !page.deleted then Filter(page.tuples, Dead(dead)) else []
  }

  /** Whether vacuum lists a page it leaves behind as not full. */
  predicate Listed(page: Page, capacity: nat) {
    page.DataPage? && !page.deleted && page.tuples != [] && |page.tuples| < capacity
  }

  /** The list of not-full pages after one more page, as long as it has room. */
  function ListPage(notFull: seq<nat>, b: nat, page: Page, capacity: nat): seq<nat> {
    if Listed(page, capacity) && |notFull| < META_BLOCKS then notFull + [b] else notFull
  }

  /** Strictly ascending data blocks below `limit`. */
  predicate Ascending(list: seq<nat>, limit: nat) {
    && (forall i :: 0 <= i < |list| ==> 1 <= list[i] < limit)
    && (forall i, j :: 0 <= i < j < |list| ==> list[i] < list[j])
  }

  /** The metapage after vacuum copies its list over the front of the array. */
  function WithList(meta: Meta, notFull: seq<nat>): Meta
    requires |notFull| <= |meta.notFullPage|
  {
    Meta(0, |notFull|, notFull + meta.notFullPage[|notFull|..])
  }

  /** The metapage after a new page was allocated. */
  function WithOnly(meta: Meta, b: nat): Meta
    requires |meta.notFullPage| > 0
  {
    Meta(0, 1, meta.notFullPage[0 := b])
  }

  /** The heap pointers that a scan takes from a page. */
  function Hits(page: Page, sign: seq<Word>): set<ItemPointer>
  {
    if page.DataPage? && !page.deleted
    then set t | t in page.tuples && |t.sign| == |sign| && WordsMatch(t.sign, sign) :: t.heapPtr
    else {}
  }

  /** All tuples of the index. */
  function Contents(pages: seq<Page>): multiset<Tuple> {
    multiset(AllTuples(pages))
  }

  lemma {:induction false} AllTuplesMember(pages: seq<Page>, t: Tuple)
    ensures t in AllTuples(pages) <==> exists b :: 0 <= b < |pages| && t in TuplesOf(pages[b])
  {
    if pages != [] {
      var n := |pages| - 1;
      AllTuplesMember(pages[..n], t);
      if t in AllTuples(pages[..n]) {
        var b :| 0 <= b < n && t in TuplesOf(pages[..n][b]);
        assert t in TuplesOf(pages[b]);
      }
      if b :| 0 <= b < |pages| && t in TuplesOf(pages[b]) {
        assert b < n ==> t in TuplesOf(pages[..n][b]);
      }
    }
  }

  lemma Cancel(a: multiset<Tuple>, b: multiset<Tuple>, x: multiset<Tuple>)
    requires a + x == b + x
    ensures a == b
  {
    assert a == (a + x) - x && b == (b + x) - x;
  }

  lemma AddToBoth(a: multiset<Tuple>, b: multiset<Tuple>, l: multiset<Tuple>, x: multiset<Tuple>, y: multiset<Tuple>)
    requires a + x == b + y
    ensures (a + l) + x == (b + l) + y
  {
    assert (a + l) + x == (a + x) + l && (b + l) + y == (b + y) + l;
  }

  lemma ContentsLast(pages: seq<Page>, page: Page)
    ensures Contents(pages + [page]) == Contents(pages) + multiset(TuplesOf(page))
  {
    assert (pages + [page])[..|pages|] == pages;
  }

  lemma ContentsPutBefore(init: seq<Page>, last: Page, b: nat, page: Page)
    requires b < |init|
    requires Contents(init[b := page]) + multiset(TuplesOf(init[b])) == Contents(init) + multiset(TuplesOf(page))
    ensures var pages := init + [last];
      Contents(pages[b := page]) + multiset(TuplesOf(pages[b])) == Contents(pages) + multiset(TuplesOf(page))
  {
    ContentsLast(init, last);
    assert (init + [last])[b := page] == init[b := page] + [last];
    ContentsLast(init[b := page], last);
    AddToBoth(Contents(init[b := page]), Contents(init), multiset(TuplesOf(last)), multiset(TuplesOf(init[b])),
      multiset(TuplesOf(page)));
  }

  /** Replacing a block trades its tuples and leaves every other block's alone. */
  lemma {:induction false} ContentsPut(pages: seq<Page>, b: nat, page: Page)
    requires b < |pages|
    ensures Contents(pages[b := page]) + multiset(TuplesOf(pages[b])) == Contents(pages) + multiset(TuplesOf(page))
  {
    var n := |pages| - 1;
    var init, last := pages[..n], pages[n];
    assert pages == init + [last];
    if b == n {
      ContentsLast(init, last);
      assert pages[b := page] == init + [page];
      ContentsLast(init, page);
    } else {
      ContentsPut(init, b, page);
      ContentsPutBefore(init, last, b, page);
    }
  }

  /** A vacuum page step splits the tuples of its page into kept and removed ones. */
  lemma VacuumSplits(page: Page, dead: set<ItemPointer>)
    ensures multiset(TuplesOf(Vacuumed(page, dead))) + multiset(DeadOn(page, dead)) == multiset(TuplesOf(page))
    ensures forall t | t in TuplesOf(Vacuumed(page, dead)) :: t in TuplesOf(page)
    ensures |TuplesOf(Vacuumed(page, dead))| <= |TuplesOf(page)|
  {
    if page.DataPage? && !page.deleted {
      FilterSplits(page.tuples, Live(dead), Dead(dead));
      FilterShorter(page.tuples, Live(dead));
      forall t | t in TuplesOf(Vacuumed(page, dead))
        ensures t in page.tuples
      {
        FilterMembers(page.tuples, Live(dead), t);
      }
    }
  }

  lemma VacuumedPage(page: Page, dead: set<ItemPointer>, room: nat)
    requires PageOk(page, room)
    ensures PageOk(Vacuumed(page, dead), room) && (Vacuumed(page, dead).MetaPage? <==> page.MetaPage?)
  {
    VacuumSplits(page, dead);
  }

  /** The same in numbers. */
  lemma CountPut(pages: seq<Page>, b: nat, page: Page)
    requires b < |pages|
    ensures |AllTuples(pages[b := page])| + |TuplesOf(pages[b])| == |AllTuples(pages)| + |TuplesOf(page)|
  {
    ContentsPut(pages, b, page);
    assert |Contents(pages[b := page]) + multiset(TuplesOf(pages[b]))|
      == |AllTuples(pages[b := page])| + |TuplesOf(pages[b])|;
    assert |Contents(pages) + multiset(TuplesOf(page))| == |AllTuples(pages)| + |TuplesOf(page)|;
  }

  lemma ListFits(meta: Meta, notFull: seq<nat>, blocks: nat)
    requires MetaOk(meta, blocks) && Ascending(notFull, blocks) && |notFull| <= META_BLOCKS
    ensures MetaOk(WithList(meta, notFull), blocks)
  {
    var r := WithList(meta, notFull);
    assert forall i :: 0 <= i < |notFull| ==> r.notFullPage[i] == notFull[i];
  }

  /** A tuple added to a page is added to the index. */
  lemma AddedContents(pages: seq<Page>, b: nat, t: Tuple, room: nat)
    requires b < |pages| && !pages[b].MetaPage? && PageOk(pages[b], room)
    ensures Contents(pages[b := Added(pages[b], t)]) == Contents(pages) + multiset{t}
  {
    var page := Added(pages[b], t);
    ContentsPut(pages, b, page);
    assert multiset(TuplesOf(page)) == multiset(TuplesOf(pages[b])) + multiset{t};
    Cancel(Contents(pages[b := page]), Contents(pages) + multiset{t}, multiset(TuplesOf(pages[b])));
  }

  /** A vacuum page step keeps the layout and puts no tuple anywhere. */
  lemma VacuumedMembers(pages: seq<Page>, blkno: nat, dead: set<ItemPointer>, room: nat)
    requires PagesOk(pages, room) && 1 <= blkno < |pages|
    ensures var pages' := pages[blkno := Vacuumed(pages[blkno], dead)];
      && PagesOk(pages', room)
      && forall c, u :: 0 <= c < |pages'| && u in TuplesOf(pages'[c]) ==> u in TuplesOf(pages[c])
  {
    VacuumedPage(pages[blkno], dead, room);
    VacuumSplits(pages[blkno], dead);
  }
}
