/** The checks of one target page: bt_target_page_check with its two helpers. */
module BtreePageCheck {
  import opened Wrappers
  import opened BtreePages

  /** _bt_compare(key, item) <= 0; the minus-infinity item is below every key. */
  predicate LeqOffset<K>(idx: Index<K>, key: K, p: Page<K>, off: nat)
    requires 1 <= off <= |p.items|
  {
    if !p.leaf && off == FirstData(p) then false else idx.le(key, KeyAt(p, off))
  }

  /** _bt_compare(key, item) >= 0. */
  predicate GeqOffset<K>(idx: Index<K>, key: K, p: Page<K>, off: nat)
    requires 1 <= off <= |p.items|
  {
    if !p.leaf && off == FirstData(p) then true else idx.le(KeyAt(p, off), key)
  }

  /** bt_right_page_check_scankey: the key to compare the last item with, if there is one. */
  method RightKey<K>(idx: Index<K>, p: Page<K>, fuel: nat) returns (r: Outcome<Option<K>>)
    ensures p.next == NONE ==> r == Ok(None)
    ensures p.next != NONE ==> match RightSibling(idx, p.next, fuel)
      case Corrupt(e) => r == Corrupt(e)
      case Unfinished => r == Unfinished
      case Ok(b) => var q := idx.pages[b];
        r == Ok(if FirstReal(q) <= |q.items| then Some(KeyAt(q, FirstReal(q))) else None)
  {
    if p.next == NONE {
      return Ok(None);
    }
    var targetnext, left: nat := p.next, fuel;
    while left > 0
      invariant left <= fuel
      invariant RightSibling(idx, p.next, fuel) == RightSibling(idx, targetnext, left)
    {
      var e := ReadError(idx, targetnext);
      if e.Some? {
        return Corrupt(e.value);
      }
      var q := idx.pages[targetnext];
      if !Ignorable(q) || q.next == NONE {
        var nline := |q.items|;
        if q.leaf && nline >= FirstData(q) {
          return Ok(Some(KeyAt(q, FirstData(q))));
        } else if !q.leaf && nline >= FirstData(q) + 1 {
          return Ok(Some(KeyAt(q, FirstData(q) + 1)));
        }
        return Ok(None);
      }
      targetnext, left := q.next, left - 1;
    }
    return Unfinished;
  }

  /** bt_downlink_check. */
  method DownlinkCheck<K>(idx: Index<K>, childblock: nat, key: K) returns (r: Option<Error>)
    ensures r.None? <==> BoundsChild(idx, key, childblock)
    ensures r == if ReadError(idx, childblock).Some? then ReadError(idx, childblock)
      else if BoundsChild(idx, key, childblock) then None else Some(Downlink)
  {
    r := ReadError(idx, childblock);
    if r.Some? {
      return;
    }
    var child := idx.pages[childblock];
    var offset := FirstData(child);
    while offset <= |child.items|
      invariant FirstData(child) <= offset
      invariant forall o: nat :: Real(child, o) && o < offset ==> idx.le(key, KeyAt(child, o))
    {
      if !child.leaf && offset == FirstData(child) {
        offset := offset + 1;
        continue;
      }
      if !LeqOffset(idx, key, child, offset) {
        assert Real(child, offset);
        return Some(Downlink);
      }
      offset := offset + 1;
    }
  }

  /** The checks of one real item. */
  method CheckItem<K>(idx: Index<K>, p: Page<K>, offset: nat, fuel: nat) returns (r: Outcome<()>)
    requires Real(p, offset)
    ensures r.Ok? <==> ItemPasses(idx, p, offset, fuel)
    ensures r.Corrupt? ==> Blames(idx, p, offset, fuel, r.error)
    ensures r.Unfinished? ==> p.next != NONE && RightSibling(idx, p.next, fuel).Unfinished?
  {
    var key, max := KeyAt(p, offset), |p.items|;
    if p.next != NONE && !LeqOffset(idx, key, p, 1) {
      return Corrupt(HighKey);
    }
    if offset + 1 <= max {
      if !LeqOffset(idx, key, p, offset + 1) {
        return Corrupt(ItemOrder);
      }
    } else {
      var right := RightKey(idx, p, fuel);
      match right {
        case Unfinished => return Unfinished;
        case Corrupt(e) => return Corrupt(e);
        case Ok(rightkey) =>
          if rightkey.Some? && !GeqOffset(idx, rightkey.value, p, max) {
            return Corrupt(CrossPage);
          }
      }
    }
    if !p.leaf {
      var e := DownlinkCheck(idx, p.items[offset - 1].child, key);
      if e.Some? {
        return Corrupt(e.value);
      }
    }
    return Ok(());
  }

  /** bt_target_page_check: silent exactly when the page is sound. The second result is the offset it stopped at. */
  method TargetPageCheck<K>(idx: Index<K>, p: Page<K>, fuel: nat) returns (r: Outcome<()>, ghost at: nat)
    ensures r.Ok? <==> PageSound(idx, p, fuel)
    ensures r.Corrupt? ==> Real(p, at) && Blames(idx, p, at, fuel, r.error)
    ensures r.Unfinished? ==> p.next != NONE && RightSibling(idx, p.next, fuel).Unfinished?
  {
    ItemsPass(idx, p, fuel);
    var offset := FirstData(p);
    while offset <= |p.items|
      invariant FirstData(p) <= offset
      invariant forall o: nat | Real(p, o) && o < offset :: ItemPasses(idx, p, o, fuel)
    {
      if p.leaf || offset != FirstData(p) {
        at := offset;
        r := CheckItem(idx, p, offset, fuel);
        if !r.Ok? {
          return;
        }
      }
      offset := offset + 1;
    }
    return Ok(()), 0;
  }
}
