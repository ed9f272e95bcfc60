/** The access-method entry points as they run when nothing else touches the index. Each works on a copy of a page image
    and puts it back when the change is to be kept, as generic WAL does. */
module BloomIndex {
  import opened BloomRandom
  import opened BloomSignature
  import opened BloomPage
  import opened BloomStore
  import opened BloomMachine
  import opened Sequences
  import opened Wrappers

  predicate SignsOk(pages: seq<Page>, length: nat) {
    forall b, t :: 0 <= b < |pages| && t in TuplesOf(pages[b]) ==> |t.sign| == length
  }

  /** The first queue entry, from i on, whose page takes another tuple; nEnd when there is none. */
  function FirstFit(pages: seq<Page>, meta: Meta, i: nat, room: nat): (k: nat)
    requires MetaOk(meta, |pages|) && meta.nStart <= i <= meta.nEnd
    ensures i <= k <= meta.nEnd
    ensures k < meta.nEnd ==> Accepts(pages[meta.notFullPage[k]], room)
    ensures forall j :: i <= j < k ==> !Accepts(pages[meta.notFullPage[j]], room)
    decreases meta.nEnd - i
  {
    if i == meta.nEnd || Accepts(pages[meta.notFullPage[i]], room) then i else FirstFit(pages, meta, i + 1, room)
  }

  predicate Usable(pages: seq<Page>, answer: FsmAnswer) {
    answer.Offered? && answer.lockable && answer.blkno < |pages| && Unused(pages[answer.blkno])
  }

  /**
   * The block BloomNewBuffer settles on: the first usable one that the free space map offers, or one more at the end.
   */
  function NewBlock(pages: seq<Page>, answers: seq<FsmAnswer>): (b: nat)
    ensures b <= |pages| && (b < |pages| ==> Unused(pages[b]))
  {
    if answers == [] || answers[0].Nothing? then |pages|
    else if Usable(pages, answers[0]) then answers[0].blkno
    else NewBlock(pages, answers[1..])
  }

  /** The answer i is the first that can be used; all before it are offers that cannot. */
  predicate FirstUsable(pages: seq<Page>, answers: seq<FsmAnswer>, i: nat) {
    && i < |answers| && Usable(pages, answers[i])
    && forall j | 0 <= j < i :: answers[j].Offered? && !Usable(pages, answers[j])
  }

  /** What BloomNewBuffer takes, told by the answers: that of the first usable one, or a new block if there is none. */
  lemma {:induction false} NewBlockMeans(pages: seq<Page>, answers: seq<FsmAnswer>, i: nat)
    ensures FirstUsable(pages, answers, i) ==> NewBlock(pages, answers) == answers[i].blkno
    ensures NewBlock(pages, answers) < |pages| ==> exists k: nat :: FirstUsable(pages, answers, k)
  {
    if answers != [] && answers[0].Offered? && !Usable(pages, answers[0]) {
      NewBlockMeans(pages, answers[1..], if i > 0 then i - 1 else 0);
      assert i > 0 && FirstUsable(pages, answers, i) ==> FirstUsable(pages, answers[1..], i - 1);
      if NewBlock(pages, answers) < |pages| {
        var k: nat :| FirstUsable(pages, answers[1..], k);
        assert FirstUsable(pages, answers, k + 1);
      }
    } else if answers != [] && Usable(pages, answers[0]) {
      assert FirstUsable(pages, answers, 0);
    }
  }

  /** The index after an insertion that ran alone: on the first page of the queue that takes the tuple, which the queue
      then starts at, or on a new page, which becomes the whole queue. */
  function AfterInsert(store: Store, t: Tuple, answers: seq<FsmAnswer>, room: nat): Store
    requires StoreOk(store, room)
  {
    var pages, meta := store.pages, store.meta;
    var k := FirstFit(pages, meta, meta.nStart, room);
    if k < meta.nEnd then
      var b := meta.notFullPage[k];
      Store(pages[b := Added(pages[b], t)], meta.(nStart := k))
    else
      var b := NewBlock(pages, answers);
      Store(Put(pages, b, DataPage(false, [t])), WithOnly(meta, b))
  }

  /** What an insertion does to a queue, told by its entries alone: those in front of the first page that takes the
      tuple are dropped, and if there is none the new page is left as the only one. */
  ghost predicate QueueMoves(pages: seq<Page>, room: nat, before: seq<nat>, after: seq<nat>, b: nat) {
    && (forall i | 0 <= i < |before| :: before[i] < |pages|)
    && if forall i | 0 <= i < |before| :: !Accepts(pages[before[i]], room) then after == [b]
       else exists k ::
         && 0 <= k < |before| && before[k] == b && Accepts(pages[b], room) && after == before[k..]
         && forall i | 0 <= i < k :: !Accepts(pages[before[i]], room)
  }

  /** A live data page whose last tuple is t. */
  predicate EndsWith(page: Page, t: Tuple) {
    page.DataPage? && !page.deleted && page.tuples != [] && page.tuples[|page.tuples| - 1] == t
  }

  /** The block that an insertion alone puts its tuple on, and what it makes of the queue. */
  lemma InsertMovesQueue(store: Store, t: Tuple, answers: seq<FsmAnswer>, room: nat) returns (b: nat)
    requires StoreOk(store, room)
    ensures var s := AfterInsert(store, t, answers, room);
      && s.meta.nStart <= s.meta.nEnd <= |s.meta.notFullPage|
      && QueueMoves(store.pages, room, Window(store.meta), Window(s.meta), b)
      && b <= |store.pages| && b < |s.pages| && EndsWith(s.pages[b], t)
      && forall c | 0 <= c < |store.pages| && c != b :: s.pages[c] == store.pages[c]
  {
    var pages, meta := store.pages, store.meta;
    var k := FirstFit(pages, meta, meta.nStart, room);
    assert forall i :: 0 <= i < |Window(meta)| ==> Window(meta)[i] == meta.notFullPage[meta.nStart + i];
    if k < meta.nEnd {
      b := meta.notFullPage[k];
      assert Window(meta)[k - meta.nStart] == b;
      assert Window(AfterInsert(store, t, answers, room).meta) == Window(meta)[k - meta.nStart..];
    } else {
      b := NewBlock(pages, answers);
      assert Window(AfterInsert(store, t, answers, room).meta) == [b];
    }
  }

  /** When an insertion takes a new page, the next one goes to the same page and the file does not grow. */
  lemma NextInsertJoins(store: Store, t: Tuple, u: Tuple, answers: seq<FsmAnswer>, more: seq<FsmAnswer>, room: nat)
    requires StoreOk(store, room) && room > 1 && forall b | b in Window(store.meta) :: !Accepts(store.pages[b], room)
    ensures var s := AfterInsert(store, t, answers, room); var b := NewBlock(store.pages, answers);
      && StoreOk(s, room) && b < |s.pages| && s.pages[b] == DataPage(false, [t])
      && AfterInsert(s, u, more, room).pages == s.pages[b := DataPage(false, [t, u])]
  {
    var meta := store.meta;
    assert forall i :: meta.nStart <= i < meta.nEnd ==> meta.notFullPage[i] in Window(meta);
    var s := AfterInsert(store, t, answers, room);
    var b := NewBlock(store.pages, answers);
    assert FirstFit(s.pages, s.meta, 0, room) == 0;
    assert [t] + [u] == [t, u];
  }

  /** It adds that tuple to the index and nothing else. */
  lemma InsertAddsTuple(store: Store, t: Tuple, answers: seq<FsmAnswer>, room: nat)
    requires StoreOk(store, room)
    ensures Contents(AfterInsert(store, t, answers, room).pages) == Contents(store.pages) + multiset{t}
  {
    var k := FirstFit(store.pages, store.meta, store.meta.nStart, room);
    var b := NewBlock(store.pages, answers);
    if k < store.meta.nEnd {
      AddedContents(store.pages, store.meta.notFullPage[k], t, room);
    } else if b == |store.pages| {
      ContentsLast(store.pages, DataPage(false, [t]));
    } else {
      AddedContents(store.pages, b, t, room);
      assert Added(store.pages[b], t) == DataPage(false, [t]);
    }
  }

  /** Every block after a vacuum that ran alone. */
  function VacuumedPages(pages: seq<Page>, dead: set<ItemPointer>, n: nat): (r: seq<Page>)
    requires n <= |pages|
    ensures |r| == |pages|
    ensures forall b :: 0 <= b < n ==> r[b] == Vacuumed(pages[b], dead)
    ensures forall b :: n <= b < |pages| ==> r[b] == pages[b]
  {
    seq(|pages|, b requires 0 <= b < |pages| => if b < n then Vacuumed(pages[b], dead) else pages[b])
  }

  lemma AllSwept(pages: seq<Page>, dead: set<ItemPointer>)
    ensures forall b | 0 <= b < |pages| :: Swept(pages[b], VacuumedPages(pages, dead, |pages|)[b], dead)
  {
    forall b | 0 <= b < |pages|
      ensures Swept(pages[b], VacuumedPages(pages, dead, |pages|)[b], dead)
    {
      VacuumedSweeps(pages[b], dead);
    }
  }

  /** The list of not-full pages among blocks 1 up to n. */
  function ListedPages(pages: seq<Page>, n: nat, room: nat): (list: seq<nat>)
    requires n <= |pages|
    ensures Ascending(list, if n > 1 then n else 1) && |list| <= META_BLOCKS
  {
    if n <= 1 then [] else ListPage(ListedPages(pages, n - 1, room), n - 1, pages[n - 1], room)
  }

  /** The heap pointers that a scan finds on blocks 1 up to n. */
  function HitsUpTo(pages: seq<Page>, sign: seq<Word>, n: nat): set<ItemPointer>
    requires n <= |pages|
  {
    if n <= 1 then {} else HitsUpTo(pages, sign, n - 1) + Hits(pages[n - 1], sign)
  }

  /** What a vacuum reports (IndexBulkDeleteResult). */
  datatype Stats = Stats(numPages: nat, pagesFree: nat, numIndexTuples: nat, tuplesRemoved: nat)

  /** The report that a vacuum goes on with: the one it is given, or an empty one. */
  function Report(stats: Option<Stats>): Stats {
    if stats.Some? then stats.value else Stats(0, 0, 0, 0)
  }

  class Index {
    const opts: Options
    const gen: Generator
    var pages: seq<Page>
    var meta: Meta

    ghost predicate Valid()
      reads this
    {
      ValidOptions(opts) && StoreOk(Store(pages, meta), Room(opts.bloomLength)) && SignsOk(pages, opts.bloomLength)
    }

    /** An empty index: the metapage alone (BloomInitMetapage). */
    constructor (opts: Options)
      requires ValidOptions(opts)
      ensures Valid() && this.opts == opts && pages == [MetaPage] && meta.nStart == meta.nEnd == 0 && fresh(gen)
    {
      this.opts := opts;
      gen := new Generator();
      pages := [MetaPage];
      meta := Meta(0, 0, seq(META_BLOCKS, _ => 0));
    }

    /** One attempt to insert: the page image is initialised if unused, and kept only when the tuple fits. */
    method TryPage(b: nat, t: Tuple) returns (added: bool)
      requires Valid() && 1 <= b < |pages| && |t.sign| == opts.bloomLength
      modifies this`pages
      ensures Valid()
      ensures added <==> Accepts(old(pages)[b], Room(opts.bloomLength))
      ensures pages == if added then old(pages)[b := Added(old(pages)[b], t)] else old(pages)
    {
      var page := new PageBuffer(pages[b], TupleSize(opts.bloomLength));
      if page.isNew || page.deleted {
        page.Init();
      }
      added := page.AddItem(t);
      if added {
        pages := pages[b := DataPage(page.deleted, page.slots[..page.maxoff])];
      }
    }

    /**
     * BloomNewBuffer: asks the free space map until it offers an unused page that can be locked, else extends the file.
     */
    method NewBuffer(answers: seq<FsmAnswer>) returns (b: nat)
      requires Valid()
      modifies this`pages
      ensures b == NewBlock(old(pages), answers) <= |old(pages)|
      ensures pages == if b == |old(pages)| then old(pages) + [NewPage] else old(pages)
      ensures b >= 1 && Unused(pages[b])
    {
      var i := 0;
      while i < |answers| && answers[i].Offered?
        invariant 0 <= i <= |answers|
        invariant NewBlock(pages, answers) == NewBlock(pages, answers[i..])
        invariant pages == old(pages)
      {
        if Usable(pages, answers[i]) {
          return answers[i].blkno;
        }
        assert answers[i..][1..] == answers[i + 1..];
        i := i + 1;
      }
      b := |pages|;
      pages := pages + [NewPage];
    }

    /** The pages of the queue in turn; the entry that took the tuple, or the end of the queue. */
    method TryQueue(t: Tuple) returns (k: nat)
      requires Valid() && |t.sign| == opts.bloomLength
      modifies this`pages
      ensures Valid() && k == FirstFit(old(pages), meta, meta.nStart, Room(opts.bloomLength))
      ensures pages == if k == meta.nEnd then old(pages)
                       else old(pages)[meta.notFullPage[k] := Added(old(pages)[meta.notFullPage[k]], t)]
    {
      k := meta.nStart;
      while k < meta.nEnd
        invariant meta.nStart <= k <= meta.nEnd && pages == old(pages) && Valid()
        invariant FirstFit(pages, meta, meta.nStart, Room(opts.bloomLength))
          == FirstFit(pages, meta, k, Room(opts.bloomLength))
      {
        var added := TryPage(meta.notFullPage[k], t);
        if added {
          return;
        }
        k := k + 1;
      }
    }

    /** The tuple on a fresh page, which becomes the whole queue. */
    method Allocate(t: Tuple, answers: seq<FsmAnswer>)
      requires Valid() && |t.sign| == opts.bloomLength
      modifies this`pages, this`meta
      ensures Valid()
      ensures var b := NewBlock(old(pages), answers);
        && b <= |old(pages)| && pages == Put(old(pages), b, DataPage(false, [t])) && meta == WithOnly(old(meta), b)
        && Window(meta) == [b]
    {
      CapacityAtLeast(opts.bloomLength);
      var b := NewBuffer(answers);
      assert Added(pages[b], t) == DataPage(false, [t]);
      var added := TryPage(b, t);
      meta := Meta(0, 1, meta.notFullPage[0 := b]);
    }

    /** The pages of the queue, moving its start past those that are full, then a new page. */
    method PutTuple(t: Tuple, answers: seq<FsmAnswer>)
      requires Valid() && |t.sign| == opts.bloomLength
      modifies this`pages, this`meta
      ensures Valid()
      ensures Store(pages, meta) == AfterInsert(Store(old(pages), old(meta)), t, answers, Room(opts.bloomLength))
    {
      var k := TryQueue(t);
      if k < meta.nEnd {
        meta := meta.(nStart := k);
      } else {
        Allocate(t, answers);
      }
    }

    /** blinsert: the tuple ends up last on block b, and the queue starts there. */
    method Insert(t: Tuple, answers: seq<FsmAnswer>) returns (ghost b: nat)
      requires Valid() && |t.sign| == opts.bloomLength
      modifies this`pages, this`meta
      ensures Valid()
      ensures Store(pages, meta) == AfterInsert(Store(old(pages), old(meta)), t, answers, Room(opts.bloomLength))
      ensures QueueMoves(old(pages), Room(opts.bloomLength), Window(old(meta)), Window(meta), b)
      ensures b < |pages| && EndsWith(pages[b], t)
      ensures forall c | 0 <= c < |old(pages)| && c != b :: pages[c] == old(pages)[c]
    {
      b := InsertMovesQueue(Store(pages, meta), t, answers, Room(opts.bloomLength));
      PutTuple(t, answers);
    }

    /** One page of blbulkdelete. */
    method VacuumPage(blkno: nat, dead: set<ItemPointer>) returns (removed: nat)
      requires Valid() && 1 <= blkno < |pages|
      modifies this`pages
      ensures Valid() && pages == old(pages)[blkno := Vacuumed(old(pages)[blkno], dead)]
      ensures Swept(old(pages)[blkno], pages[blkno], dead)
      ensures removed + |AllTuples(pages)| == |AllTuples(old(pages))|
    {
      VacuumedSweeps(pages[blkno], dead);
      if Unused(pages[blkno]) {
        return 0;
      }
      VacuumedMembers(pages, blkno, dead, Room(opts.bloomLength));
      CountPut(pages, blkno, Vacuumed(pages[blkno], dead));
      var page := new PageBuffer(pages[blkno], TupleSize(opts.bloomLength));
      removed := page.Vacuum(dead);
      pages := pages[blkno := DataPage(page.deleted, page.slots[..page.maxoff])];
    }

    /** blbulkdelete: every data page in turn, then the metapage's queue. */
    method BulkDelete(stats: Option<Stats>, dead: set<ItemPointer>) returns (r: Stats)
      requires Valid()
      modifies this`pages, this`meta
      ensures Valid()
      ensures pages == VacuumedPages(old(pages), dead, |old(pages)|)
      ensures |pages| == |old(pages)| && forall b | 0 <= b < |pages| :: Swept(old(pages)[b], pages[b], dead)
      ensures meta == WithList(old(meta), ListedPages(pages, |pages|, Room(opts.bloomLength)))
      ensures Window(meta) == ListedPages(pages, |pages|, Room(opts.bloomLength))
      ensures r == Report(stats).(tuplesRemoved := r.tuplesRemoved)
      ensures r.tuplesRemoved + |AllTuples(pages)| == Report(stats).tuplesRemoved + |AllTuples(old(pages))|
    {
      var npages, blkno := |pages|, 1;
      var notFull := [];
      r := Report(stats);
      assert pages == VacuumedPages(old(pages), dead, 1);
      while blkno < npages
        invariant 1 <= blkno <= npages == |pages|
        invariant Valid() && meta == old(meta)
        invariant pages == VacuumedPages(old(pages), dead, blkno)
        invariant notFull == ListedPages(pages, blkno, Room(opts.bloomLength))
        invariant r == Report(stats).(tuplesRemoved := r.tuplesRemoved)
        invariant r.tuplesRemoved + |AllTuples(pages)| == Report(stats).tuplesRemoved + |AllTuples(old(pages))|
      {
        VacuumedNext(old(pages), pages, dead, blkno, Room(opts.bloomLength));
        var n := VacuumPage(blkno, dead);
        if !Unused(pages[blkno]) && pages[blkno].tuples != []
          && |pages[blkno].tuples| < Room(opts.bloomLength) && |notFull| < META_BLOCKS {
          notFull := notFull + [blkno];
        }
        r := r.(tuplesRemoved := r.tuplesRemoved + n);
        blkno := blkno + 1;
      }
      ListFits(meta, notFull, |pages|);
      meta := Meta(0, |notFull|, notFull + meta.notFullPage[|notFull|..]);
      AllSwept(old(pages), dead);
    }

    /** blbulkdelete and blvacuumcleanup, as a vacuum calls them: the blocks that are free afterwards. */
    method Vacuum(dead: set<ItemPointer>) returns (r: Stats, free: set<nat>)
      requires Valid()
      modifies this`pages, this`meta
      ensures Valid() && |pages| == |old(pages)|
      ensures forall b :: b in free <==> 1 <= b < |old(pages)| && Emptied(old(pages)[b], dead)
      ensures AllTuples(pages) == Filter(AllTuples(old(pages)), Live(dead))
      ensures r == Stats(|pages|, |free|, |AllTuples(pages)|, r.tuplesRemoved)
      ensures r.tuplesRemoved + |AllTuples(pages)| == |AllTuples(old(pages))|
    {
      VacuumLeavesLive(pages, dead, Room(opts.bloomLength));
      var deleted := BulkDelete(None, dead);
      var cleaned;
      cleaned, free := VacuumCleanup(false, Some(deleted));
      r := cleaned.value;
      forall b
        ensures b in free <==> 1 <= b < |old(pages)| && Emptied(old(pages)[b], dead)
      {
        if 1 <= b < |pages| {
          SweptFrees(old(pages)[b], pages[b], dead);
        }
      }
    }

    /** The page step of blgetbitmap. */
    method ScanPage(blkno: nat, sign: seq<Word>) returns (hits: set<ItemPointer>, n: nat)
      requires Valid() && 1 <= blkno < |pages| && |sign| == opts.bloomLength
      ensures hits == Hits(pages[blkno], sign)
      ensures n == |Filter(TuplesOf(pages[blkno]), Containing(BitsOf(sign)))|
    {
      if Unused(pages[blkno]) {
        return {}, 0;
      }
      assert forall t | t in pages[blkno].tuples :: t in TuplesOf(pages[blkno]);
      hits, n := ScanTuples(pages[blkno].tuples, sign);
    }

    /** The page loop of blgetbitmap. */
    method ScanPages(sign: seq<Word>) returns (found: set<ItemPointer>, ntids: nat)
      requires Valid() && |sign| == opts.bloomLength
      ensures found == HitsUpTo(pages, sign, |pages|)
      ensures ntids == |Filter(AllTuples(pages), Containing(BitsOf(sign)))|
    {
      found, ntids := {}, 0;
      var npages, blkno := |pages|, 1;
      assert pages[..1][..0] == [] && AllTuples(pages[..1]) == [];
      while blkno < npages
        invariant 1 <= blkno <= npages == |pages|
        invariant found == HitsUpTo(pages, sign, blkno)
        invariant ntids == |Filter(AllTuples(pages[..blkno]), Containing(BitsOf(sign)))|
      {
        FilterPage(pages, blkno, Containing(BitsOf(sign)));
        var hits, n := ScanPage(blkno, sign);
        found := found + hits;
        ntids := ntids + n;
        blkno := blkno + 1;
      }
      assert pages[..blkno] == pages;
    }

    /** blvacuumcleanup: the blocks that go to the free space map, and the report; neither when only analysing. */
    method VacuumCleanup(analyzeOnly: bool, stats: Option<Stats>) returns (r: Option<Stats>, free: set<nat>)
      requires Valid()
      ensures analyzeOnly ==> r == stats && free == {}
      ensures !analyzeOnly ==>
        && free == UnusedBlocks(pages, |pages|)
        && r == Some(Stats(|pages|, |free|, |AllTuples(pages)|, Report(stats).tuplesRemoved))
    {
      free := {};
      if analyzeOnly {
        return stats, free;
      }
      var tuples := 0;
      CleanupStarts(pages, Room(opts.bloomLength));
      for blkno := 1 to |pages|
        invariant free == UnusedBlocks(pages, blkno)
        invariant tuples == |AllTuples(pages[..blkno])|
      {
        CleanupStep(pages, blkno, Room(opts.bloomLength));
        if Unused(pages[blkno]) {
          free := free + {blkno};
        } else {
          tuples := tuples + |TuplesOf(pages[blkno])|;
        }
      }
      assert pages[..|pages|] == pages;
      r := Some(Stats(|pages|, |free|, tuples, Report(stats).tuplesRemoved));
    }
  }

  /** The page is unused already, or a vacuum leaves nothing of what it holds. */
  predicate Emptied(page: Page, dead: set<ItemPointer>) {
    || page.NewPage?
    || (page.DataPage? && (page.deleted || (page.tuples != [] && forall t | t in page.tuples :: t.heapPtr in dead)))
  }

  lemma SweptFrees(page: Page, after: Page, dead: set<ItemPointer>)
    requires Swept(page, after, dead)
    ensures Unused(after) <==> Emptied(page, dead)
  {
  }

  /** A scan of an index: its keys, and their signature once it has been computed. */
  class Scan {
    const index: Index
    const numberOfKeys: nat
    var keyData: seq<ScanKey>
    var sign: Option<seq<Word>>

    /** The signature kept, if any, is that of the present keys. */
    ghost predicate Valid()
      reads this
    {
      && ValidOptions(index.opts) && ValidKeys(keyData) && |keyData| == numberOfKeys
      && (sign.Some? ==>
            && |sign.value| == index.opts.bloomLength
            && (forall i :: 0 <= i < |keyData| ==> keyData[i].value.Hashed?)
            && BitsOf(sign.value) == KeyBits(MarksOf(index.opts), keyData, |keyData|))
    }

    /** blbeginscan, with the keys that the first blrescan brings. */
    constructor (index: Index, keys: seq<ScanKey>)
      requires ValidOptions(index.opts) && ValidKeys(keys)
      ensures Valid() && this.index == index && keyData == keys
    {
      this.index := index;
      numberOfKeys := |keys|;
      keyData := keys;
      sign := None;
    }

    /** blrescan: the signature is forgotten, and the keys are replaced if there are new ones. */
    method Rescan(keys: Option<seq<ScanKey>>)
      requires Valid() && (keys.Some? ==> numberOfKeys <= |keys.value| && ValidKeys(keys.value))
      modifies this
      ensures Valid() && sign == None
      ensures keyData == if keys.Some? then keys.value[..numberOfKeys] else old(keyData)
    {
      sign := None;
      if keys.Some? && numberOfKeys > 0 {
        keyData := keys.value[..numberOfKeys];
      }
    }

    /** blgetbitmap: the signature unless it is there already, then every data page; nothing when a key is null. */
    method GetBitmap() returns (found: set<ItemPointer>, ntids: nat)
      requires Valid() && index.Valid()
      modifies this`sign, index.gen
      ensures Valid() && (sign.Some? <==> forall i :: 0 <= i < |keyData| ==> keyData[i].value.Hashed?)
      ensures sign.None? ==> found == {} && ntids == 0
      ensures sign.Some? ==> var bits := KeyBits(MarksOf(index.opts), keyData, |keyData|);
        && (forall h :: h in found <==> Matched(index.pages, bits, h))
        && (forall h :: h in found <==> HasAllKeys(index.pages, MarksOf(index.opts), keyData, h))
        && ntids == |Filter(AllTuples(index.pages), Containing(bits))|
    {
      found, ntids := {}, 0;
      if sign.None? {
        var searchable, signature := ScanSignature(index.gen, index.opts, keyData);
        if !searchable {
          return;
        }
        sign := Some(signature[..]);
      }
      found, ntids := index.ScanPages(sign.value);
      forall h
        ensures h in found <==> Matched(index.pages, BitsOf(sign.value), h)
      {
        HitsExactly(index.pages, sign.value, Room(index.opts.bloomLength), h);
      }
      forall h
        ensures Matched(index.pages, BitsOf(sign.value), h)
          <==> HasAllKeys(index.pages, MarksOf(index.opts), keyData, h)
      {
        MatchedMeans(index.pages, MarksOf(index.opts), keyData, h);
      }
    }
  }

  /** The unused blocks among 1 up to n. */
  function UnusedBlocks(pages: seq<Page>, n: nat): set<nat>
    requires n <= |pages|
  {
    set b | 1 <= b < n && Unused(pages[b])
  }

  lemma CleanupStarts(pages: seq<Page>, room: nat)
    requires PagesOk(pages, room)
    ensures UnusedBlocks(pages, 1) == {} && AllTuples(pages[..1]) == []
  {
    assert pages[..1][..0] == [];
  }

  /** An unused block holds no tuples. */
  lemma CleanupStep(pages: seq<Page>, b: nat, room: nat)
    requires PagesOk(pages, room) && 1 <= b < |pages|
    ensures UnusedBlocks(pages, b + 1) == UnusedBlocks(pages, b) + (if Unused(pages[b]) then {b} else {})
    ensures |AllTuples(pages[..b + 1])|
      == |AllTuples(pages[..b])| + if Unused(pages[b]) then 0 else |TuplesOf(pages[b])|
  {
    assert pages[..b + 1][..b] == pages[..b];
  }

  function Containing(bits: set<nat>): Tuple -> bool {
    (t: Tuple) => bits <= BitsOf(t.sign)
  }

  /** The tuple loop of blgetbitmap on a live page. */
  method ScanTuples(tuples: seq<Tuple>, sign: seq<Word>) returns (hits: set<ItemPointer>, n: nat)
    requires forall t | t in tuples :: |t.sign| == |sign|
    ensures hits == Hits(DataPage(false, tuples), sign)
    ensures n == |Filter(tuples, Containing(BitsOf(sign)))|
  {
    hits, n := {}, 0;
    for offset := 0 to |tuples|
      invariant hits == Hits(DataPage(false, tuples[..offset]), sign)
      invariant n == |Filter(tuples[..offset], Containing(BitsOf(sign)))|
    {
      var t := tuples[offset];
      assert tuples[..offset + 1] == tuples[..offset] + [t];
      ScanTuple(tuples[..offset], t, sign);
      var res := SignatureMatches(t.sign, sign);
      if res {
        hits := hits + {t.heapPtr};
        n := n + 1;
      }
    }
    assert tuples[..|tuples|] == tuples;
  }

  /** What one more tuple adds to a scan. */
  lemma ScanTuple(s: seq<Tuple>, t: Tuple, sign: seq<Word>)
    requires |t.sign| == |sign|
    ensures var res, p := BitsOf(sign) <= BitsOf(t.sign), Containing(BitsOf(sign));
      && Hits(DataPage(false, s + [t]), sign) == Hits(DataPage(false, s), sign) + (if res then {t.heapPtr} else {})
      && |Filter(s + [t], p)| == |Filter(s, p)| + if res then 1 else 0
  {
    WordsMatchExact(t.sign, sign);
    assert (s + [t])[..|s|] == s;
  }

  lemma FilterPage(pages: seq<Page>, b: nat, p: Tuple -> bool)
    requires b < |pages|
    ensures Filter(AllTuples(pages[..b + 1]), p) == Filter(AllTuples(pages[..b]), p) + Filter(TuplesOf(pages[b]), p)
  {
    assert pages[..b + 1][..b] == pages[..b];
    FilterConcat(AllTuples(pages[..b]), TuplesOf(pages[b]), p);
  }

  lemma {:induction false} HitsUpToMember(pages: seq<Page>, sign: seq<Word>, n: nat, h: ItemPointer)
    requires n <= |pages|
    ensures h in HitsUpTo(pages, sign, n) <==> exists b :: 1 <= b < n && h in Hits(pages[b], sign)
  {
    if n > 1 {
      HitsUpToMember(pages, sign, n - 1, h);
    }
  }

  /** A heap pointer with an index tuple that has all the given bits. */
  ghost predicate Matched(pages: seq<Page>, bits: set<nat>, h: ItemPointer) {
    exists t :: t in AllTuples(pages) && t.heapPtr == h && bits <= BitsOf(t.sign)
  }

  /** An index tuple for h has the bits of every key. */
  ghost predicate HasAllKeys(pages: seq<Page>, marks: Marks, keys: seq<ScanKey>, h: ItemPointer)
    requires forall k :: 0 <= k < |keys| ==> keys[k].value.Hashed?
  {
    exists t :: t in AllTuples(pages) && t.heapPtr == h
      && forall k :: 0 <= k < |keys| ==> marks(keys[k].col, keys[k].value.hash) <= BitsOf(t.sign)
  }

  lemma MatchedMeans(pages: seq<Page>, marks: Marks, keys: seq<ScanKey>, h: ItemPointer)
    requires forall k :: 0 <= k < |keys| ==> keys[k].value.Hashed?
    ensures Matched(pages, KeyBits(marks, keys, |keys|), h) <==> HasAllKeys(pages, marks, keys, h)
  {
    forall t: Tuple
      ensures KeyBits(marks, keys, |keys|) <= BitsOf(t.sign)
        <==> forall k :: 0 <= k < |keys| ==> marks(keys[k].col, keys[k].value.hash) <= BitsOf(t.sign)
    {
      KeyBitsBelow(marks, keys, BitsOf(t.sign));
    }
  }

  lemma HitIsMatch(pages: seq<Page>, b: nat, sign: seq<Word>, h: ItemPointer)
    requires b < |pages| && h in Hits(pages[b], sign)
    ensures Matched(pages, BitsOf(sign), h)
  {
    var t :| t in pages[b].tuples && |t.sign| == |sign| && WordsMatch(t.sign, sign) && t.heapPtr == h;
    assert t in TuplesOf(pages[b]);
    AllTuplesMember(pages, t);
    WordsMatchExact(t.sign, sign);
  }

  lemma MatchIsHit(pages: seq<Page>, sign: seq<Word>, room: nat, t: Tuple) returns (b: nat)
    requires PagesOk(pages, room) && SignsOk(pages, |sign|)
    requires t in AllTuples(pages) && BitsOf(sign) <= BitsOf(t.sign)
    ensures 1 <= b < |pages| && t.heapPtr in Hits(pages[b], sign)
  {
    AllTuplesMember(pages, t);
    b :| 0 <= b < |pages| && t in TuplesOf(pages[b]);
    WordsMatchExact(t.sign, sign);
  }

  /** A scan that runs alone finds exactly the tuples whose signature contains the scan's. */
  lemma HitsExactly(pages: seq<Page>, sign: seq<Word>, room: nat, h: ItemPointer)
    requires PagesOk(pages, room) && SignsOk(pages, |sign|)
    ensures h in HitsUpTo(pages, sign, |pages|) <==> Matched(pages, BitsOf(sign), h)
  {
    HitsUpToMember(pages, sign, |pages|, h);
    if h in HitsUpTo(pages, sign, |pages|) {
      var b :| 1 <= b < |pages| && h in Hits(pages[b], sign);
      HitIsMatch(pages, b, sign, h);
    }
    if Matched(pages, BitsOf(sign), h) {
      var t :| t in AllTuples(pages) && t.heapPtr == h && BitsOf(sign) <= BitsOf(t.sign);
      var b := MatchIsHit(pages, sign, room, t);
    }
  }

  lemma VacuumedTuples(page: Page, dead: set<ItemPointer>, room: nat)
    requires PageOk(page, room)
    ensures TuplesOf(Vacuumed(page, dead)) == Filter(TuplesOf(page), Live(dead))
  {
  }

  /** A vacuum that runs alone leaves exactly the live tuples, in their order. */
  lemma {:induction false} VacuumLeavesLive(pages: seq<Page>, dead: set<ItemPointer>, room: nat)
    requires forall b :: 0 <= b < |pages| ==> PageOk(pages[b], room)
    ensures AllTuples(VacuumedPages(pages, dead, |pages|)) == Filter(AllTuples(pages), Live(dead))
  {
    if pages != [] {
      var n := |pages| - 1;
      VacuumLeavesLive(pages[..n], dead, room);
      assert VacuumedPages(pages, dead, |pages|)[..n] == VacuumedPages(pages[..n], dead, n);
      FilterConcat(AllTuples(pages[..n]), TuplesOf(pages[n]), Live(dead));
      VacuumedTuples(pages[n], dead, room);
    }
  }

  /** While the list has room it names exactly the pages that are in use and not full. */
  lemma {:induction false} ListIsExact(pages: seq<Page>, n: nat, room: nat, b: nat)
    requires n <= |pages| && |ListedPages(pages, n, room)| < META_BLOCKS && 1 <= b < n
    ensures b in ListedPages(pages, n, room)
      <==> pages[b].DataPage? && !pages[b].deleted && 0 < |pages[b].tuples| < room
  {
    if b < n - 1 {
      ListIsExact(pages, n - 1, room, b);
    }
  }

  /** One more page vacuumed and, perhaps, listed. */
  lemma VacuumedNext(before: seq<Page>, pages: seq<Page>, dead: set<ItemPointer>, b: nat, room: nat)
    requires 1 <= b < |before| && pages == VacuumedPages(before, dead, b)
    ensures var pages' := pages[b := Vacuumed(pages[b], dead)];
      && pages' == VacuumedPages(before, dead, b + 1)
      && ListedPages(pages', b + 1, room) == ListPage(ListedPages(pages, b, room), b, pages'[b], room)
  {
    ListedPrefix(pages, pages[b := Vacuumed(pages[b], dead)], b, room);
  }

  /** The list looks only at the pages it covers. */
  lemma {:induction false} ListedPrefix(pages: seq<Page>, pages': seq<Page>, n: nat, room: nat)
    requires n <= |pages| == |pages'| && forall b :: 0 <= b < n ==> pages[b] == pages'[b]
    ensures ListedPages(pages, n, room) == ListedPages(pages', n, room)
  {
    if n > 1 {
      ListedPrefix(pages, pages', n - 1, room);
    }
  }
}
