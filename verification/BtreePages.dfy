/** B-tree pages as amcheck reads them, corrupt or not, and what a sound page and a sound level are. */
module BtreePages {
  import opened Wrappers

  /** P_NONE and InvalidBlockNumber. */
  const NONE := 0
  const INVALID := 0xffff_ffff

  /** An index tuple: its key, and the block its t_tid names. */
  datatype Item<K> = Item(key: K, child: nat)

  /**
   * A page as found on disk. Nothing ties its fields together. `sane` is _bt_checkpage; `stray` is the block number
   * that bytes past the last item would decode to.
   */
  datatype Page<K> = Page(sane: bool, prev: nat, next: nat, level: nat, leaf: bool, root: bool, deleted: bool,
                          halfDead: bool, meta: bool, garbage: bool, items: seq<Item<K>>, stray: nat)

  datatype MetaData = MetaData(magicOk: bool, versionOk: bool, root: nat, level: nat)

  /** The pages, the contents of the metapage, and the order of the operator class. */
  datatype Index<!K> = Index(pages: seq<Page<K>>, metad: MetaData, le: (K, K) -> bool)

  datatype Error =
    | ReadFailed | BadPage | UnexpectedMeta | MetaCorrupt | VersionMismatch | LeafLevel | InternalLevel | GarbageItems
    | FellOffEnd | NotLeftmost | NotTrueRoot | LinksDisagree | WrongLevel | CircularLinks
    | HighKey | ItemOrder | CrossPage | Downlink | NoValidPages

  /** A result, an error report, or no answer within the number of steps allowed. */
  datatype Outcome<+T> = Ok(value: T) | Corrupt(error: Error) | Unfinished

  /** The checks of palloc_btree_page, in order; None when the page is handed back. */
  function ReadError<K>(idx: Index<K>, b: nat): Option<Error> {
    if b >= |idx.pages| then Some(ReadFailed)
    else
      var p := idx.pages[b];
      if !p.sane then Some(BadPage)
      else if p.meta && b != 0 then Some(UnexpectedMeta)
      else if b == 0 && (!p.meta || !idx.metad.magicOk) then Some(MetaCorrupt)
      else if b == 0 && !idx.metad.versionOk then Some(VersionMismatch)
      else if p.leaf && !p.deleted && p.level != 0 then Some(LeafLevel)
      else if b != 0 && !p.leaf && !p.deleted && p.level == 0 then Some(InternalLevel)
      else if !p.leaf && p.garbage then Some(GarbageItems)
      else None
  }

  predicate Readable<K>(idx: Index<K>, b: nat)
    ensures Readable(idx, b) ==> b < |idx.pages|
  {
    ReadError(idx, b).None?
  }

  /** P_IGNORE. */
  predicate Ignorable<K>(p: Page<K>) {
    p.deleted || p.halfDead
  }

  /** P_FIRSTDATAKEY: offset 1 is the high key unless the page is rightmost. */
  function FirstData<K>(p: Page<K>): nat {
    if p.next == NONE then 1 else 2
  }

  /**
   * An offset with a real key: not the high key, and not the first item of an internal page, which is minus infinity.
   */
  predicate Real<K>(p: Page<K>, off: nat) {
    FirstData(p) <= off <= |p.items| && (p.leaf || off != FirstData(p))
  }

  function KeyAt<K>(p: Page<K>, off: nat): K
    requires 1 <= off <= |p.items|
  {
    p.items[off - 1].key
  }

  /** The offset of the first real item, whether or not the page reaches that far. */
  function FirstReal<K>(p: Page<K>): (off: nat)
    ensures forall o: nat :: Real(p, o) <==> off <= o <= |p.items|
  {
    if p.leaf then FirstData(p) else FirstData(p) + 1
  }

  /** The page that bt_right_page_check_scankey settles on, starting at b: the first that is live or rightmost. */
  function RightSibling<K>(idx: Index<K>, b: nat, fuel: nat): (r: Outcome<nat>)
    ensures r.Ok? ==> Readable(idx, r.value) && (!Ignorable(idx.pages[r.value]) || idx.pages[r.value].next == NONE)
    decreases fuel
  {
    if fuel == 0 then Unfinished
    else match ReadError(idx, b)
      case Some(e) => Corrupt(e)
      case None =>
        if !Ignorable(idx.pages[b]) || idx.pages[b].next == NONE then Ok(b)
        else RightSibling(idx, idx.pages[b].next, fuel - 1)
  }

  // ---- what a sound page is ----

  /** No real key is above the high key, where there is one. */
  ghost predicate BelowHighKey<K>(idx: Index<K>, p: Page<K>) {
    p.next != NONE ==> forall o: nat :: Real(p, o) ==> idx.le(KeyAt(p, o), KeyAt(p, 1))
  }

  /** Each real key is at most the one behind it. */
  ghost predicate InOrder<K>(idx: Index<K>, p: Page<K>) {
    forall o: nat :: Real(p, o) && o + 1 <= |p.items| ==> idx.le(KeyAt(p, o), KeyAt(p, o + 1))
  }

  /** Every real key of an internal page is at most every real key of the readable child it points to. */
  ghost predicate BoundsChild<K>(idx: Index<K>, key: K, child: nat) {
    Readable(idx, child) && forall o: nat :: Real(idx.pages[child], o) ==> idx.le(key, KeyAt(idx.pages[child], o))
  }

  ghost predicate BoundsChildren<K>(idx: Index<K>, p: Page<K>) {
    !p.leaf ==> forall o: nat :: Real(p, o) ==> BoundsChild(idx, KeyAt(p, o), p.items[o - 1].child)
  }

  /** The last real key is at most the first real key of the page to the right, if both exist. */
  ghost predicate BelowRight<K>(idx: Index<K>, p: Page<K>, fuel: nat) {
    Real(p, |p.items|) && p.next != NONE ==>
      var r := RightSibling(idx, p.next, fuel);
      && r.Ok?
      && var q := idx.pages[r.value];
      (FirstReal(q) <= |q.items| ==> idx.le(KeyAt(p, |p.items|), KeyAt(q, FirstReal(q))))
  }

  ghost predicate PageSound<K>(idx: Index<K>, p: Page<K>, fuel: nat) {
    BelowHighKey(idx, p) && InOrder(idx, p) && BoundsChildren(idx, p) && BelowRight(idx, p, fuel)
  }

  /** What the page check asks of one real item. */
  ghost predicate ItemPasses<K>(idx: Index<K>, p: Page<K>, o: nat, fuel: nat)
    requires Real(p, o)
  {
    && (p.next != NONE ==> idx.le(KeyAt(p, o), KeyAt(p, 1)))
    && (o + 1 <= |p.items| ==> idx.le(KeyAt(p, o), KeyAt(p, o + 1)))
    && (o == |p.items| ==> BelowRight(idx, p, fuel))
    && (!p.leaf ==> BoundsChild(idx, KeyAt(p, o), p.items[o - 1].child))
  }

  /** A sound page is one whose real items all pass. */
  lemma ItemsPass<K>(idx: Index<K>, p: Page<K>, fuel: nat)
    ensures PageSound(idx, p, fuel) <==> forall o: nat | Real(p, o) :: ItemPasses(idx, p, o, fuel)
  {
    if forall o: nat | Real(p, o) :: ItemPasses(idx, p, o, fuel) {
      assert Real(p, |p.items|) ==> ItemPasses(idx, p, |p.items|, fuel);
    }
  }

  /** What an error of the page check says of the item it stopped at: the test that fails, or the page that cannot be
      read. */
  ghost predicate Blames<K>(idx: Index<K>, p: Page<K>, o: nat, fuel: nat, e: Error)
    requires Real(p, o)
  {
    || (e == HighKey && p.next != NONE && !idx.le(KeyAt(p, o), KeyAt(p, 1)))
    || (e == ItemOrder && o + 1 <= |p.items| && !idx.le(KeyAt(p, o), KeyAt(p, o + 1)))
    || (e == CrossPage && o == |p.items| && !BelowRight(idx, p, fuel) && RightSibling(idx, p.next, fuel).Ok?)
    || (o == |p.items| && p.next != NONE && RightSibling(idx, p.next, fuel) == Corrupt(e))
    || (e == Downlink && !p.leaf && !BoundsChild(idx, KeyAt(p, o), p.items[o - 1].child))
    || (!p.leaf && ReadError(idx, p.items[o - 1].child) == Some(e))
  }
}
