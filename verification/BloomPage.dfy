/** Data pages of a bloom index: layout, insertion at the end, in-place compaction by vacuum. */
module BloomPage {
  import opened BloomSignature
  import opened Sequences

  /** A heap tuple's address. */
  type ItemPointer = nat

  /** An index tuple. The serial number is not stored in the source: it counts insertions and names this one. */
  datatype Tuple = Tuple(serial: nat, heapPtr: ItemPointer, sign: seq<Word>)

  /** What a block holds: the metapage, a page never initialised, or a data page. */
  datatype Page = MetaPage | NewPage | DataPage(deleted: bool, tuples: seq<Tuple>)

  /** BLCKSZ, the aligned page header, the aligned special area, the tuple header. */
  const BLOCK_SIZE := 8192
  const PAGE_HEADER := 24
  const SPECIAL_SIZE := 8
  const TUPLE_HEADER := 6

  function TupleSize(bloomLength: nat): (size: nat)
    ensures bloomLength <= 256 ==> size <= 518
  {
    TUPLE_HEADER + 2 * bloomLength
  }

  /** BloomPageGetFreeSpace. */
  function FreeSpace(maxoff: nat, size: nat): int {
    BLOCK_SIZE - PAGE_HEADER - maxoff * size - SPECIAL_SIZE
  }

  /** How many pieces of the given size fit into the given room. */
  function Pieces(room: nat, size: nat): nat
    requires size > 0
  {
    if room < size then 0 else 1 + Pieces(room - size, size)
  }

  lemma {:induction false} PiecesBounds(room: nat, size: nat)
    requires size > 0
    ensures Pieces(room, size) * size <= room < (Pieces(room, size) + 1) * size
  {
    if room >= size {
      PiecesBounds(room - size, size);
    }
  }

  /** How many tuples a page takes. */
  function Capacity(size: nat): nat
    requires size > 0
  {
    Pieces(BLOCK_SIZE - PAGE_HEADER - SPECIAL_SIZE, size)
  }

  /** The free-space test of BloomPageAddItem is a test against the capacity. */
  lemma FitsExactly(maxoff: nat, size: nat)
    requires size > 0
    ensures FreeSpace(maxoff, size) >= size <==> maxoff < Capacity(size)
  {
    var c := Capacity(size);
    PiecesBounds(BLOCK_SIZE - PAGE_HEADER - SPECIAL_SIZE, size);
    if maxoff < c {
      MultiplyMonotone(maxoff + 1, c, size);
    } else {
      MultiplyMonotone(c + 1, maxoff + 1, size);
    }
  }

  lemma MultiplyMonotone(a: nat, b: nat, k: nat)
    requires a <= b
    ensures a * k <= b * k
  {
  }

  /** With the default length of five words a tuple takes sixteen bytes and a page 510 of them. */
  lemma DefaultCapacity()
    ensures TupleSize(5) == 16 && Capacity(TupleSize(5)) == 510
  {
    PiecesBounds(BLOCK_SIZE - PAGE_HEADER - SPECIAL_SIZE, 16);
  }

  /** Every signature length that the options allow leaves room for at least fifteen tuples. */
  lemma CapacityAtLeast(bloomLength: nat)
    requires 1 <= bloomLength <= 256
    ensures Capacity(TupleSize(bloomLength)) >= 15
  {
    var size := TupleSize(bloomLength);
    PiecesBounds(BLOCK_SIZE - PAGE_HEADER - SPECIAL_SIZE, size);
    MultiplyMonotone(size, 518, 15);
    if Capacity(size) < 15 {
      MultiplyMonotone(Capacity(size) + 1, 15, size);
    }
  }

  predicate Unused(page: Page) {
    page.NewPage? || (page.DataPage? && page.deleted)
  }

  /** The page that an insertion starts from: one never used or deleted is initialised first. */
  function Reinit(page: Page): Page {
    if Unused(page) then DataPage(false, []) else page
  }

  /** Whether an insertion into this block succeeds. */
  predicate Accepts(page: Page, capacity: nat) {
    Reinit(page).DataPage? && |Reinit(page).tuples| < capacity
  }

  function Added(page: Page, t: Tuple): Page
    requires Reinit(page).DataPage?
  {
    DataPage(false, Reinit(page).tuples + [t])
  }

  function TuplesOf(page: Page): seq<Tuple> {
    if page.DataPage? then page.tuples else []
  }

  /** The tuples of all blocks, in block order. */
  function AllTuples(pages: seq<Page>): seq<Tuple> {
    if pages == [] then [] else AllTuples(pages[..|pages| - 1]) + TuplesOf(pages[|pages| - 1])
  }

  function Live(dead: set<ItemPointer>): Tuple -> bool {
    (t: Tuple) => t.heapPtr !in dead
  }

  function Dead(dead: set<ItemPointer>): Tuple -> bool {
    (t: Tuple) => t.heapPtr in dead
  }

  /** What one page step of vacuum leaves: the live tuples in order, and the deleted flag when none is left of some. */
  function Vacuumed(page: Page, dead: set<ItemPointer>): Page {
    if !page.DataPage? || page.deleted then page
    else
      var kept := Filter(page.tuples, Live(dead));
      DataPage(kept == [] && page.tuples != [], kept)
  }

  /** A page step of vacuum, page before against page after: unused pages stay, of others the live tuples are left, and
      the page is marked deleted just when it held some and none is left. */
  ghost predicate Swept(page: Page, after: Page, dead: set<ItemPointer>) {
    if !page.DataPage? || page.deleted then after == page
    else
      && after.DataPage?
      && (after.deleted <==> page.tuples != [] && forall t | t in page.tuples :: t.heapPtr in dead)
      && (forall t :: t in after.tuples <==> t in page.tuples && t.heapPtr !in dead)
  }

  lemma VacuumedSweeps(page: Page, dead: set<ItemPointer>)
    ensures Swept(page, Vacuumed(page, dead), dead)
  {
    if page.DataPage? && !page.deleted {
      var kept := Filter(page.tuples, Live(dead));
      forall t
        ensures t in kept <==> t in page.tuples && t.heapPtr !in dead
      {
        FilterMembers(page.tuples, Live(dead), t);
      }
      if kept != [] {
        assert kept[0] in kept;
      }
    }
  }

  /** A page image while it is being changed: slots of tuple size behind the header, some of them in use. */
  class PageBuffer {
    const size: nat
    var isNew: bool
    var deleted: bool
    var maxoff: nat
    var lower: nat
    const slots: array<Tuple>

    ghost predicate Valid()
      reads this, slots
    {
      && size > 0
      && slots.Length == Capacity(size)
      && maxoff <= slots.Length
      && (isNew || deleted ==> maxoff == 0)
      && (!isNew ==> lower == PAGE_HEADER + maxoff * size)
    }

    ghost function View(): Page
      reads this, slots
      requires Valid()
    {
      if isNew then NewPage else DataPage(deleted, slots[..maxoff])
    }

    /** An image of a block. */
    constructor (page: Page, size: nat)
      requires size > 0 && !page.MetaPage?
      requires page.DataPage? ==> |page.tuples| <= Capacity(size) && (page.deleted ==> page.tuples == [])
      ensures Valid() && View() == page && fresh(slots) && this.size == size
    {
      var tuples := if page.DataPage? then page.tuples else [];
      this.size := size;
      isNew := page.NewPage?;
      deleted := page.DataPage? && page.deleted;
      maxoff := |tuples|;
      lower := PAGE_HEADER + |tuples| * size;
      slots := new Tuple[Capacity(size)](i => if 0 <= i < |tuples| then tuples[i] else Tuple(0, 0, []));
    }

    /** BloomInitPage. */
    method Init()
      requires Valid()
      modifies this
      ensures Valid() && View() == DataPage(false, [])
    {
      isNew, deleted, maxoff, lower := false, false, 0, PAGE_HEADER;
    }

    /** BloomPageAddItem. */
    method AddItem(t: Tuple) returns (added: bool)
      requires Valid() && !isNew && !deleted
      modifies this, slots
      ensures Valid()
      ensures added <==> |old(View()).tuples| < Capacity(size)
      ensures View() == if added then DataPage(false, old(View()).tuples + [t]) else old(View())
    {
      FitsExactly(maxoff, size);
      if FreeSpace(maxoff, size) < size {
        return false;
      }
      slots[maxoff] := t;
      maxoff := maxoff + 1;
      lower := PAGE_HEADER + maxoff * size;
      return true;
    }

    /** The tuple data ends before the special area. */
    lemma LowerInBounds()
      requires Valid() && !isNew
      ensures lower <= BLOCK_SIZE - SPECIAL_SIZE
    {
      PiecesBounds(BLOCK_SIZE - PAGE_HEADER - SPECIAL_SIZE, size);
      MultiplyMonotone(maxoff, Capacity(size), size);
    }

    /** The inner loop of blbulkdelete: two positions walk the page while maxoff shrinks as dead tuples are met. */
    method Compact(dead: set<ItemPointer>) returns (itupPtr: nat)
      requires maxoff <= slots.Length
      modifies this`maxoff, slots
      ensures itupPtr == maxoff <= old(maxoff)
      ensures slots[..maxoff] == Filter(old(slots[..maxoff]), Live(dead))
    {
      ghost var before := slots[..maxoff];
      var itup, itupEnd := 0, maxoff;
      itupPtr := 0;
      while itup < itupEnd
        invariant 0 <= itupPtr <= itup <= itupEnd == |before| <= slots.Length
        invariant slots[..itupPtr] == Filter(before[..itup], Live(dead))
        invariant forall k :: itup <= k < itupEnd ==> slots[k] == before[k]
        invariant maxoff == itupEnd - (itup - itupPtr)
      {
        assert before[..itup + 1][..itup] == before[..itup];
        if slots[itup].heapPtr in dead {
          maxoff := maxoff - 1;
        } else {
          if itupPtr != itup {
            slots[itupPtr] := slots[itup];
          }
          itupPtr := itupPtr + 1;
        }
        itup := itup + 1;
      }
      assert before[..itup] == before;
    }

    /** The tuples that stay, the deleted flag and the end of the data. */
    method Condense(dead: set<ItemPointer>) returns (removed: nat)
      requires Valid() && !isNew && !deleted
      modifies this, slots
      ensures Valid() && !isNew
      ensures View() == Vacuumed(old(View()), dead)
      ensures removed == |old(View()).tuples| - |View().tuples|
    {
      var itupEnd := maxoff;
      var itupPtr := Compact(dead);
      removed := itupEnd - maxoff;
      if itupPtr != itupEnd {
        if maxoff == 0 {
          deleted := true;
        }
        lower := PAGE_HEADER + itupPtr * size;
      }
    }

    /** The page step of blbulkdelete, with what it means for the page. */
    method Vacuum(dead: set<ItemPointer>) returns (removed: nat)
      requires Valid() && !isNew && !deleted
      modifies this, slots
      ensures Valid() && !isNew && View() == Vacuumed(old(View()), dead) && Swept(old(View()), View(), dead)
      ensures removed == |old(View()).tuples| - |View().tuples|
    {
      VacuumedSweeps(View(), dead);
      removed := Condense(dead);
    }
  }
}
