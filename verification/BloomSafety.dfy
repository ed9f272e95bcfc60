/** What every interleaving keeps: conservation of the tuples, a well-formed queue, and complete scans. */
module BloomSafety {
  import opened BloomSignature
  import opened BloomPage
  import opened BloomStore
  import opened BloomMachine
  import opened Sequences
  import opened Wrappers

  /** Every tuple on a page is one that was inserted. */
  ghost predicate TuplesLogged(pages: seq<Page>, log: seq<Insertion>) {
    forall b, t :: 0 <= b < |pages| && t in TuplesOf(pages[b]) ==> t.serial < |log| && t == LogTuple(log, t.serial)
  }

  /** The tuples on the pages and the tuples removed are together exactly the tuples inserted. */
  ghost predicate Conserved(pages: seq<Page>, removed: multiset<Tuple>, log: seq<Insertion>) {
    Contents(pages) + removed == multiset(LogTuples(log))
  }

  /** Of the tuples inserted before the scan began, those still on a page are ahead of the scan or reported. */
  ghost predicate ScanCovers(pages: seq<Page>, sign: seq<Word>, blkno: nat, npages: nat, found: set<ItemPointer>,
      began: nat)
  {
    forall b, t :: 0 <= b < |pages| && t in TuplesOf(pages[b]) && t.serial < began ==>
      b < npages && (b >= blkno || (|t.sign| == |sign| && WordsMatch(t.sign, sign) ==> t.heapPtr in found))
  }

  /** Whatever a scan reports belongs to an insertion whose signature matches. */
  ghost predicate ScanSound(log: seq<Insertion>, sign: seq<Word>, found: set<ItemPointer>) {
    forall h | h in found :: exists i ::
      0 <= i < |log| && log[i].heapPtr == h && |log[i].sign| == |sign| && WordsMatch(log[i].sign, sign)
  }

  ghost predicate ProcOk(cfg: Config, m: Machine, pid: Pid)
    requires ValidConfig(cfg) && pid in m.procs
  {
    var blocks := |m.store.pages|;
    match m.procs[pid]
    case ReadingMeta(ins) => Formed(cfg, ins)
    case TryingFirst(ins, blkno) => Formed(cfg, ins) && 1 <= blkno < blocks
    case WaitingMeta(ins, tried) => Formed(cfg, ins)
    case TryingListed(ins, nStart) =>
      Formed(cfg, ins) && m.lock == Some(pid) && m.store.meta.nStart <= nStart <= m.store.meta.nEnd
    case Allocating(ins) => Formed(cfg, ins) && m.lock == Some(pid)
    case Vacuuming(dead, blkno, npages, notFull) =>
      1 <= blkno <= npages <= blocks && Ascending(notFull, blkno) && |notFull| <= META_BLOCKS
    case WritingList(notFull) => Ascending(notFull, blocks) && |notFull| <= META_BLOCKS
    case Scanning(keys, sign, blkno, npages, found, began) =>
      && 1 <= blkno <= npages <= blocks && began <= |m.log|
      && ValidKeys(keys) && |sign| == cfg.signLength && BitsOf(sign) == KeyBits(cfg.marks, keys, |keys|)
      && ScanCovers(m.store.pages, sign, blkno, npages, found, began)
      && ScanSound(m.log, sign, found)
  }

  /** The sections that run under the exclusive metapage lock. */
  predicate HoldsMeta(p: Proc) {
    p.TryingListed? || p.Allocating?
  }

  ghost predicate DataOk(cfg: Config, m: Machine)
    requires ValidConfig(cfg)
  {
    && StoreOk(m.store, Room(cfg.signLength))
    && (forall i :: 0 <= i < |m.log| ==> Formed(cfg, m.log[i]))
    && TuplesLogged(m.store.pages, m.log)
    && Conserved(m.store.pages, m.removed, m.log)
  }

  ghost predicate Inv(cfg: Config, m: Machine)
    requires ValidConfig(cfg)
  {
    && DataOk(cfg, m)
    && (m.lock.Some? ==> m.lock.value in m.procs && HoldsMeta(m.procs[m.lock.value]))
    && (forall pid | pid in m.procs :: ProcOk(cfg, m, pid))
  }

  /** No tuple inserted before appears on a block where it was not. */
  ghost predicate NothingMoves(pages: seq<Page>, pages': seq<Page>, n: nat) {
    && |pages| <= |pages'|
    && forall b, t ::
      0 <= b < |pages'| && t in TuplesOf(pages'[b]) && t.serial < n ==> b < |pages| && t in TuplesOf(pages[b])
  }

  /**
   * What a step of one process leaves alone: other processes, the past, and a metapage that somebody else has locked.
   */
  ghost predicate Frame(m: Machine, m': Machine, pid: Pid) {
    && NothingMoves(m.store.pages, m'.store.pages, |m.log|)
    && m.log <= m'.log
    && (m.lock.Some? && m.lock.value != pid ==> m'.lock == m.lock && m'.store.meta == m.store.meta)
    && (forall q :: q != pid ==> (q in m.procs <==> q in m'.procs))
    && (forall q :: q != pid && q in m.procs ==> m'.procs[q] == m.procs[q])
  }

  lemma CoversKept(pages: seq<Page>, pages': seq<Page>, n: nat, sign: seq<Word>, blkno: nat, npages: nat,
      found: set<ItemPointer>, began: nat)
    requires NothingMoves(pages, pages', n) && began <= n && ScanCovers(pages, sign, blkno, npages, found, began)
    ensures ScanCovers(pages', sign, blkno, npages, found, began)
  {
  }

  lemma SoundKept(log: seq<Insertion>, log': seq<Insertion>, sign: seq<Word>, found: set<ItemPointer>)
    requires log <= log' && ScanSound(log, sign, found)
    ensures ScanSound(log', sign, found)
  {
    forall h | h in found
      ensures exists i ::
        0 <= i < |log'| && log'[i].heapPtr == h && |log'[i].sign| == |sign| && WordsMatch(log'[i].sign, sign)
    {
      var i :| 0 <= i < |log| && log[i].heapPtr == h && |log[i].sign| == |sign| && WordsMatch(log[i].sign, sign);
      assert log'[i] == log[i];
    }
  }

  /** A process that does not act stays where it was, and everything known about it stays true. */
  lemma OthersKept(cfg: Config, m: Machine, m': Machine, pid: Pid, q: Pid)
    requires ValidConfig(cfg) && Frame(m, m', pid) && q != pid && q in m.procs && ProcOk(cfg, m, q)
    ensures q in m'.procs && ProcOk(cfg, m', q)
  {
    match m.procs[q] {
      case Scanning(keys, sign, blkno, npages, found, began) =>
        CoversKept(m.store.pages, m'.store.pages, |m.log|, sign, blkno, npages, found, began);
        SoundKept(m.log, m'.log, sign, found);
      case _ =>
    }
  }

  /** The invariant after a step, from what the step did to the data and to its own process. */
  lemma InvFrom(cfg: Config, m: Machine, m': Machine, pid: Pid)
    requires ValidConfig(cfg) && Inv(cfg, m) && Frame(m, m', pid) && DataOk(cfg, m')
    requires pid in m'.procs ==> ProcOk(cfg, m', pid)
    requires m'.lock == Some(pid) ==> pid in m'.procs && HoldsMeta(m'.procs[pid])
    requires m'.lock == m.lock || m'.lock == None || m'.lock == Some(pid)
    ensures Inv(cfg, m')
  {
    forall q | q in m'.procs
      ensures ProcOk(cfg, m', q)
    {
      if q != pid {
        OthersKept(cfg, m, m', pid, q);
      }
    }
  }

  /** A step that only moves its own process, possibly taking the metapage lock. */
  lemma ControlStep(cfg: Config, m: Machine, m': Machine, pid: Pid, p: Proc)
    requires ValidConfig(cfg) && Inv(cfg, m)
    requires m' == Goto(m, pid, p) || (m.lock.None? && m' == Goto(m, pid, p).(lock := Some(pid)))
    requires ProcOk(cfg, m', pid) && (m'.lock == Some(pid) ==> HoldsMeta(p))
    ensures Inv(cfg, m')
  {
    InvFrom(cfg, m, m', pid);
  }

  // ---- insertion ----

  lemma LogGrows(log: seq<Insertion>, ins: Insertion)
    ensures LogTuples(log + [ins]) == LogTuples(log) + [Tuple(|log|, ins.heapPtr, ins.sign)]
  {
  }

  /** Where an insertion may put its tuple: a new block, or one whose page accepts it. */
  predicate Target(pages: seq<Page>, b: nat, room: nat) {
    1 <= b <= |pages| && (b < |pages| ==> Accepts(pages[b], room))
  }

  /** The page that an insertion leaves behind: the old tuples and the new one. */
  lemma AddedPage(page: Page, t: Tuple, room: nat)
    requires !page.MetaPage? && PageOk(page, room) && Accepts(page, room)
    ensures PageOk(Added(page, t), room) && Added(page, t).DataPage? && !Added(page, t).deleted
    ensures multiset(TuplesOf(Added(page, t))) == multiset(TuplesOf(page)) + multiset{t}
    ensures forall u :: u in TuplesOf(Added(page, t)) <==> u == t || u in TuplesOf(page)
  {
    if Unused(page) {
      assert TuplesOf(page) == [];
    }
  }

  function TargetPage(pages: seq<Page>, b: nat): Page
    requires b <= |pages|
  {
    if b < |pages| then pages[b] else NewPage
  }

  /** Block by block, an insertion adds its tuple to one block. */
  lemma InsertedMembers(pages: seq<Page>, b: nat, t: Tuple, room: nat)
    requires PagesOk(pages, room) && Target(pages, b, room) && room > 0
    ensures var pages' := Put(pages, b, Added(TargetPage(pages, b), t));
      && PagesOk(pages', room)
      && forall c, u ::
        0 <= c < |pages'| && u in TuplesOf(pages'[c]) ==> u == t || (c < |pages| && u in TuplesOf(pages[c]))
  {
    AddedPage(TargetPage(pages, b), t, room);
  }

  lemma InsertedContents(pages: seq<Page>, b: nat, t: Tuple, room: nat)
    requires PagesOk(pages, room) && Target(pages, b, room) && room > 0
    ensures Contents(Put(pages, b, Added(TargetPage(pages, b), t))) == Contents(pages) + multiset{t}
  {
    var page := TargetPage(pages, b);
    AddedPage(page, t, room);
    if b < |pages| {
      ContentsPut(pages, b, Added(page, t));
      Cancel(Contents(pages[b := Added(page, t)]), Contents(pages) + multiset{t}, multiset(TuplesOf(page)));
    } else {
      ContentsLast(pages, Added(page, t));
      assert TuplesOf(NewPage) == [];
    }
  }

  lemma InsertedLogged(pages: seq<Page>, log: seq<Insertion>, ins: Insertion, b: nat, room: nat)
    requires PagesOk(pages, room) && Target(pages, b, room) && room > 0 && TuplesLogged(pages, log)
    ensures var pages' := Put(pages, b, Added(TargetPage(pages, b), Tuple(|log|, ins.heapPtr, ins.sign)));
      TuplesLogged(pages', log + [ins]) && NothingMoves(pages, pages', |log|)
  {
    InsertedMembers(pages, b, Tuple(|log|, ins.heapPtr, ins.sign), room);
  }

  lemma InsertedConserved(pages: seq<Page>, removed: multiset<Tuple>, log: seq<Insertion>, ins: Insertion, b: nat,
      room: nat)
    requires PagesOk(pages, room) && Target(pages, b, room) && room > 0 && Conserved(pages, removed, log)
    ensures var page := Added(TargetPage(pages, b), Tuple(|log|, ins.heapPtr, ins.sign));
      Conserved(Put(pages, b, page), removed, log + [ins])
  {
    var t := Tuple(|log|, ins.heapPtr, ins.sign);
    InsertedContents(pages, b, t, room);
    LogGrows(log, ins);
    assert multiset(LogTuples(log + [ins])) == multiset(LogTuples(log)) + multiset{t};
  }

  /** A successful insertion adds its tuple to the index and to the log, and nothing else. */
  lemma InsertedData(cfg: Config, m: Machine, pid: Pid, ins: Insertion, b: nat, meta: Meta, lock: Option<Pid>)
    requires ValidConfig(cfg) && DataOk(cfg, m) && Formed(cfg, ins) && Room(cfg.signLength) > 0
    requires Target(m.store.pages, b, Room(cfg.signLength))
    requires MetaOk(meta, |Put(m.store.pages, b, NewPage)|)
    ensures DataOk(cfg, Inserted(m, pid, ins, b, meta, lock))
    ensures NothingMoves(m.store.pages, Inserted(m, pid, ins, b, meta, lock).store.pages, |m.log|)
  {
    InsertedMembers(m.store.pages, b, Tuple(|m.log|, ins.heapPtr, ins.sign), Room(cfg.signLength));
    InsertedLogged(m.store.pages, m.log, ins, b, Room(cfg.signLength));
    InsertedConserved(m.store.pages, m.removed, m.log, ins, b, Room(cfg.signLength));
  }

  lemma InsertStep(cfg: Config, m: Machine, pid: Pid, ins: Insertion, b: nat, meta: Meta, lock: Option<Pid>)
    requires ValidConfig(cfg) && Inv(cfg, m) && pid in m.procs && Formed(cfg, ins) && Room(cfg.signLength) > 0
    requires Target(m.store.pages, b, Room(cfg.signLength))
    requires MetaOk(meta, |Put(m.store.pages, b, NewPage)|)
    requires (lock == m.lock && meta == m.store.meta && m.lock != Some(pid)) || (m.lock == Some(pid) && lock == None)
    ensures Inv(cfg, Inserted(m, pid, ins, b, meta, lock))
  {
    InsertedData(cfg, m, pid, ins, b, meta, lock);
    InvFrom(cfg, m, Inserted(m, pid, ins, b, meta, lock), pid);
  }

  // ---- vacuum ----

  /** A vacuum page step takes the dead tuples off its page, into the history, and touches nothing else. */
  lemma VacuumedContents(pages: seq<Page>, blkno: nat, dead: set<ItemPointer>)
    requires blkno < |pages|
    ensures Contents(pages[blkno := Vacuumed(pages[blkno], dead)]) + multiset(DeadOn(pages[blkno], dead))
      == Contents(pages)
  {
    VacuumSplits(pages[blkno], dead);
    var page := Vacuumed(pages[blkno], dead);
    ContentsPut(pages, blkno, page);
    Cancel(Contents(pages[blkno := page]) + multiset(DeadOn(pages[blkno], dead)), Contents(pages),
      multiset(TuplesOf(page)));
  }

  lemma VacuumedData(cfg: Config, m: Machine, m': Machine, blkno: nat, dead: set<ItemPointer>)
    requires ValidConfig(cfg) && DataOk(cfg, m) && 1 <= blkno < |m.store.pages|
    requires m'.store == m.store.(pages := m.store.pages[blkno := Vacuumed(m.store.pages[blkno], dead)])
    requires m'.log == m.log && m'.removed == m.removed + multiset(DeadOn(m.store.pages[blkno], dead))
    ensures DataOk(cfg, m') && NothingMoves(m.store.pages, m'.store.pages, |m.log|)
  {
    VacuumedMembers(m.store.pages, blkno, dead, Room(cfg.signLength));
    VacuumedContents(m.store.pages, blkno, dead);
  }

  lemma ListKept(notFull: seq<nat>, blkno: nat, page: Page, room: nat)
    requires Ascending(notFull, blkno) && 1 <= blkno && |notFull| <= META_BLOCKS
    ensures Ascending(ListPage(notFull, blkno, page, room), blkno + 1)
      && |ListPage(notFull, blkno, page, room)| <= META_BLOCKS
  {
  }

  lemma VacuumStep(cfg: Config, m: Machine, pid: Pid, fsm: FsmAnswer)
    requires ValidConfig(cfg) && Inv(cfg, m) && Ready(m, pid) && InBounds(m, pid) && m.procs[pid].Vacuuming?
    ensures Inv(cfg, Advance(cfg, m, pid, fsm))
  {
    assert ProcOk(cfg, m, pid);
    var p := m.procs[pid];
    var m' := Advance(cfg, m, pid, fsm);
    if p.blkno < p.npages {
      VacuumedData(cfg, m, m', p.blkno, p.dead);
      ListKept(p.notFull, p.blkno, Vacuumed(m.store.pages[p.blkno], p.dead), Room(cfg.signLength));
      InvFrom(cfg, m, m', pid);
    } else {
      ControlStep(cfg, m, m', pid, WritingList(p.notFull));
    }
  }

  lemma WriteListStep(cfg: Config, m: Machine, pid: Pid, fsm: FsmAnswer)
    requires ValidConfig(cfg) && Inv(cfg, m) && Ready(m, pid) && InBounds(m, pid) && m.procs[pid].WritingList?
    ensures Inv(cfg, Advance(cfg, m, pid, fsm))
  {
    assert ProcOk(cfg, m, pid);
    ListFits(m.store.meta, m.procs[pid].notFull, |m.store.pages|);
    InvFrom(cfg, m, Advance(cfg, m, pid, fsm), pid);
  }

  // ---- scan ----

  lemma ScannedPage(pages: seq<Page>, log: seq<Insertion>, sign: seq<Word>, blkno: nat, npages: nat,
      found: set<ItemPointer>, began: nat, room: nat)
    requires PagesOk(pages, room) && TuplesLogged(pages, log) && 1 <= blkno < |pages|
    requires ScanCovers(pages, sign, blkno, npages, found, began) && ScanSound(log, sign, found)
    ensures ScanCovers(pages, sign, blkno + 1, npages, found + Hits(pages[blkno], sign), began)
    ensures ScanSound(log, sign, found + Hits(pages[blkno], sign))
  {
    forall h | h in Hits(pages[blkno], sign)
      ensures exists i ::
        0 <= i < |log| && log[i].heapPtr == h && |log[i].sign| == |sign| && WordsMatch(log[i].sign, sign)
    {
      var t :| t in pages[blkno].tuples && |t.sign| == |sign| && WordsMatch(t.sign, sign) && t.heapPtr == h;
      assert t in TuplesOf(pages[blkno]);
      assert log[t.serial].heapPtr == h;
    }
  }

  lemma ScanStep(cfg: Config, m: Machine, pid: Pid, fsm: FsmAnswer)
    requires ValidConfig(cfg) && Inv(cfg, m) && Ready(m, pid) && InBounds(m, pid) && m.procs[pid].Scanning?
    ensures Inv(cfg, Advance(cfg, m, pid, fsm))
  {
    assert ProcOk(cfg, m, pid);
    var p := m.procs[pid];
    ScannedPage(m.store.pages, m.log, p.sign, p.blkno, p.npages, p.found, p.began, Room(cfg.signLength));
    ControlStep(cfg, m, Advance(cfg, m, pid, fsm), pid, Advance(cfg, m, pid, fsm).procs[pid]);
  }

  // ---- insertion, section by section ----

  lemma TryFirstStep(cfg: Config, m: Machine, pid: Pid, fsm: FsmAnswer)
    requires ValidConfig(cfg) && Inv(cfg, m) && Ready(m, pid) && InBounds(m, pid) && m.procs[pid].TryingFirst?
    ensures Inv(cfg, Advance(cfg, m, pid, fsm))
  {
    assert ProcOk(cfg, m, pid);
    CapacityAtLeast(cfg.signLength);
    var p := m.procs[pid];
    if Accepts(m.store.pages[p.blkno], Room(cfg.signLength)) {
      assert m.lock != Some(pid);
      InsertStep(cfg, m, pid, p.ins, p.blkno, m.store.meta, m.lock);
    } else {
      ControlStep(cfg, m, Advance(cfg, m, pid, fsm), pid, WaitingMeta(p.ins, Some(p.blkno)));
    }
  }

  lemma MetaAdvanced(meta: Meta, nStart: nat, blocks: nat)
    requires MetaOk(meta, blocks) && meta.nStart <= nStart <= meta.nEnd
    ensures MetaOk(meta.(nStart := nStart), blocks)
  {
  }

  lemma TryListedSucceeds(cfg: Config, m: Machine, pid: Pid, ins: Insertion, nStart: nat)
    requires ValidConfig(cfg) && Inv(cfg, m) && pid in m.procs && m.procs[pid] == TryingListed(ins, nStart)
    requires nStart < m.store.meta.nEnd <= |m.store.meta.notFullPage|
    requires var b := m.store.meta.notFullPage[nStart];
      b < |m.store.pages| && Accepts(m.store.pages[b], Room(cfg.signLength))
    ensures Inv(cfg, Inserted(m, pid, ins, m.store.meta.notFullPage[nStart], m.store.meta.(nStart := nStart), None))
  {
    assert ProcOk(cfg, m, pid);
    CapacityAtLeast(cfg.signLength);
    MetaAdvanced(m.store.meta, nStart, |m.store.pages|);
    InsertStep(cfg, m, pid, ins, m.store.meta.notFullPage[nStart], m.store.meta.(nStart := nStart), None);
  }

  /** An inserter that holds the metapage moves on to the next listed page. */
  lemma TryListedMovesOn(cfg: Config, m: Machine, pid: Pid, ins: Insertion, nStart: nat)
    requires ValidConfig(cfg) && Inv(cfg, m) && pid in m.procs && m.procs[pid] == TryingListed(ins, nStart)
    requires nStart < m.store.meta.nEnd
    ensures Inv(cfg, Goto(m, pid, TryingListed(ins, nStart + 1)))
  {
    assert ProcOk(cfg, m, pid);
    ControlStep(cfg, m, Goto(m, pid, TryingListed(ins, nStart + 1)), pid, TryingListed(ins, nStart + 1));
  }

  /** Or, at the end of the list, to allocating a page. */
  lemma TryListedGivesUp(cfg: Config, m: Machine, pid: Pid, ins: Insertion, nStart: nat)
    requires ValidConfig(cfg) && Inv(cfg, m) && pid in m.procs && m.procs[pid] == TryingListed(ins, nStart)
    ensures Inv(cfg, Goto(m, pid, Allocating(ins)))
  {
    assert ProcOk(cfg, m, pid);
    ControlStep(cfg, m, Goto(m, pid, Allocating(ins)), pid, Allocating(ins));
  }

  lemma ListExhausted(cfg: Config, m: Machine, pid: Pid, fsm: FsmAnswer)
    requires ValidConfig(cfg) && Inv(cfg, m) && Ready(m, pid) && InBounds(m, pid) && m.procs[pid].TryingListed?
    requires m.procs[pid].nStart >= m.store.meta.nEnd
    ensures Inv(cfg, Advance(cfg, m, pid, fsm))
  {
    TryListedGivesUp(cfg, m, pid, m.procs[pid].ins, m.procs[pid].nStart);
  }

  lemma ListedPageFull(cfg: Config, m: Machine, pid: Pid, fsm: FsmAnswer)
    requires ValidConfig(cfg) && Inv(cfg, m) && Ready(m, pid) && InBounds(m, pid) && m.procs[pid].TryingListed?
    requires m.procs[pid].nStart < m.store.meta.nEnd
    requires !Accepts(m.store.pages[m.store.meta.notFullPage[m.procs[pid].nStart]], Room(cfg.signLength))
    ensures Inv(cfg, Advance(cfg, m, pid, fsm))
  {
    TryListedMovesOn(cfg, m, pid, m.procs[pid].ins, m.procs[pid].nStart);
  }

  lemma ListedPageTakes(cfg: Config, m: Machine, pid: Pid, fsm: FsmAnswer)
    requires ValidConfig(cfg) && Inv(cfg, m) && Ready(m, pid) && InBounds(m, pid) && m.procs[pid].TryingListed?
    requires m.procs[pid].nStart < m.store.meta.nEnd
    requires Accepts(m.store.pages[m.store.meta.notFullPage[m.procs[pid].nStart]], Room(cfg.signLength))
    ensures Inv(cfg, Advance(cfg, m, pid, fsm))
  {
    TryListedSucceeds(cfg, m, pid, m.procs[pid].ins, m.procs[pid].nStart);
  }

  lemma TryListedStep(cfg: Config, m: Machine, pid: Pid, fsm: FsmAnswer)
    requires ValidConfig(cfg) && Inv(cfg, m) && Ready(m, pid) && InBounds(m, pid) && m.procs[pid].TryingListed?
    ensures Inv(cfg, Advance(cfg, m, pid, fsm))
  {
    if m.procs[pid].nStart >= m.store.meta.nEnd {
      ListExhausted(cfg, m, pid, fsm);
    } else if Accepts(m.store.pages[m.store.meta.notFullPage[m.procs[pid].nStart]], Room(cfg.signLength)) {
      ListedPageTakes(cfg, m, pid, fsm);
    } else {
      ListedPageFull(cfg, m, pid, fsm);
    }
  }

  lemma AllocateSucceeds(cfg: Config, m: Machine, pid: Pid, ins: Insertion, b: nat)
    requires ValidConfig(cfg) && Inv(cfg, m) && pid in m.procs && m.procs[pid] == Allocating(ins)
    requires b <= |m.store.pages| && (b < |m.store.pages| ==> Unused(m.store.pages[b]))
    ensures Inv(cfg, Inserted(m, pid, ins, b, WithOnly(m.store.meta, b), None))
  {
    assert ProcOk(cfg, m, pid);
    CapacityAtLeast(cfg.signLength);
    InsertStep(cfg, m, pid, ins, b, WithOnly(m.store.meta, b), None);
  }

  lemma AllocateStep(cfg: Config, m: Machine, pid: Pid, fsm: FsmAnswer)
    requires ValidConfig(cfg) && Inv(cfg, m) && Ready(m, pid) && InBounds(m, pid) && m.procs[pid].Allocating?
    ensures Inv(cfg, Advance(cfg, m, pid, fsm))
  {
    if fsm.Nothing? {
      AllocateSucceeds(cfg, m, pid, m.procs[pid].ins, |m.store.pages|);
    } else if fsm.lockable && fsm.blkno < |m.store.pages| && Unused(m.store.pages[fsm.blkno]) {
      AllocateSucceeds(cfg, m, pid, m.procs[pid].ins, fsm.blkno);
    }
  }

  lemma MetaStep(cfg: Config, m: Machine, pid: Pid, fsm: FsmAnswer)
    requires ValidConfig(cfg) && Inv(cfg, m) && Ready(m, pid) && InBounds(m, pid)
      && (m.procs[pid].ReadingMeta? || m.procs[pid].WaitingMeta?)
    ensures Inv(cfg, Advance(cfg, m, pid, fsm))
  {
    assert ProcOk(cfg, m, pid);
    var m' := Advance(cfg, m, pid, fsm);
    ControlStep(cfg, m, m', pid, m'.procs[pid]);
  }

  /** Every critical section of every process keeps the invariant. */
  lemma StepKeeps(cfg: Config, m: Machine, pid: Pid, fsm: FsmAnswer)
    requires ValidConfig(cfg) && Inv(cfg, m) && Ready(m, pid) && InBounds(m, pid)
    ensures Inv(cfg, Advance(cfg, m, pid, fsm))
  {
    match m.procs[pid] {
      case ReadingMeta(_) => MetaStep(cfg, m, pid, fsm);
      case WaitingMeta(_, _) => MetaStep(cfg, m, pid, fsm);
      case TryingFirst(_, _) => TryFirstStep(cfg, m, pid, fsm);
      case TryingListed(_, _) => TryListedStep(cfg, m, pid, fsm);
      case Allocating(_) => AllocateStep(cfg, m, pid, fsm);
      case Vacuuming(_, _, _, _) => VacuumStep(cfg, m, pid, fsm);
      case WritingList(_) => WriteListStep(cfg, m, pid, fsm);
      case Scanning(_, _, _, _, _, _) => ScanStep(cfg, m, pid, fsm);
    }
  }

  /** In a good state no process is about to touch an array entry or a block that does not exist. */
  lemma AlwaysInBounds(cfg: Config, m: Machine, pid: Pid)
    requires ValidConfig(cfg) && Inv(cfg, m) && pid in m.procs
    ensures InBounds(m, pid)
  {
    assert ProcOk(cfg, m, pid);
  }

  lemma BeginKeeps(cfg: Config, m: Machine, e: Event, m': Machine)
    requires ValidConfig(cfg) && Inv(cfg, m) && Next(cfg, m, e, m')
      && (e.BeginInsert? || e.BeginVacuum? || e.BeginScan?)
    ensures Inv(cfg, m')
  {
    ControlStep(cfg, m, m', e.pid, m'.procs[e.pid]);
  }

  lemma StrayKeeps(cfg: Config, m: Machine, m': Machine)
    requires ValidConfig(cfg) && Inv(cfg, m) && Next(cfg, m, StrayExtension, m')
    ensures Inv(cfg, m')
  {
    ContentsLast(m.store.pages, NewPage);
    forall q | q in m'.procs
      ensures ProcOk(cfg, m', q)
    {
      var other: Pid := q + 1;
      OthersKept(cfg, m, m', other, q);
    }
  }

  lemma NextKeeps(cfg: Config, m: Machine, e: Event, m': Machine)
    requires ValidConfig(cfg) && Inv(cfg, m) && Next(cfg, m, e, m')
    ensures Inv(cfg, m')
  {
    match e {
      case Step(pid, fsm) => StepKeeps(cfg, m, pid, fsm);
      case Abandon(pid) => InvFrom(cfg, m, m', pid);
      case StrayExtension => StrayKeeps(cfg, m, m');
      case _ => BeginKeeps(cfg, m, e, m');
    }
  }

  lemma StartIsGood(cfg: Config, m: Machine)
    requires ValidConfig(cfg) && Start(cfg, m)
    ensures Inv(cfg, m)
  {
    forall b, t | 0 <= b < |m.store.pages| && t in TuplesOf(m.store.pages[b])
      ensures t.serial < |m.log| && t == LogTuple(m.log, t.serial)
    {
      AllTuplesMember(m.store.pages, t);
    }
  }

  /** Every state of every run is good. */
  lemma {:induction false} RunKeeps(cfg: Config, ms: seq<Machine>, es: seq<Event>, i: nat)
    requires ValidConfig(cfg) && Run(cfg, ms, es) && i < |ms|
    ensures Inv(cfg, ms[i])
  {
    if i == 0 {
      StartIsGood(cfg, ms[0]);
    } else {
      RunKeeps(cfg, ms, es, i - 1);
      NextKeeps(cfg, ms[i - 1], es[i - 1], ms[i]);
    }
  }
}
