/** A process of the machine that nobody interrupts does what the routine does alone. */
module BloomSolo {
  import opened BloomSignature
  import opened BloomPage
  import opened BloomStore
  import opened BloomMachine
  import opened BloomIndex
  import opened Wrappers

  /** n steps of one process in a row, each with some answer of the free space map, lead from one state to another. */
  ghost predicate LeadsIn(cfg: Config, pid: Pid, m: Machine, m': Machine, n: nat)
    requires ValidConfig(cfg)
    decreases n
  {
    if n == 0 then m' == m
    else exists fsm, m1 :: Next(cfg, m, Step(pid, fsm), m1) && LeadsIn(cfg, pid, m1, m', n - 1)
  }

  ghost predicate Leads(cfg: Config, pid: Pid, m: Machine, m': Machine)
    requires ValidConfig(cfg)
  {
    exists n: nat :: LeadsIn(cfg, pid, m, m', n)
  }

  lemma NoStep(cfg: Config, pid: Pid, m: Machine)
    requires ValidConfig(cfg)
    ensures Leads(cfg, pid, m, m)
  {
    assert LeadsIn(cfg, pid, m, m, 0);
  }

  lemma FirstStep(cfg: Config, pid: Pid, m: Machine, fsm: FsmAnswer, m1: Machine, m': Machine)
    requires ValidConfig(cfg) && Next(cfg, m, Step(pid, fsm), m1) && Leads(cfg, pid, m1, m')
    ensures Leads(cfg, pid, m, m')
  {
    var n: nat :| LeadsIn(cfg, pid, m1, m', n);
    assert LeadsIn(cfg, pid, m, m', n + 1);
  }

  /** The machine once an insertion is over. */
  function Over(m: Machine, pid: Pid, ins: Insertion, store: Store): Machine {
    m.(store := store, lock := None, procs := m.procs - {pid}, log := m.log + [ins])
  }

  function NewTuple(m: Machine, ins: Insertion): Tuple {
    Tuple(|m.log|, ins.heapPtr, ins.sign)
  }

  /** The store once a new page has been taken. */
  function OnNewPage(store: Store, t: Tuple, b: nat): Store
    requires |store.meta.notFullPage| > 0 && b <= |store.pages|
  {
    Store(Put(store.pages, b, DataPage(false, [t])), WithOnly(store.meta, b))
  }

  lemma {:induction false} AllocatesAlone(cfg: Config, m: Machine, pid: Pid, ins: Insertion, answers: seq<FsmAnswer>)
    requires ValidConfig(cfg) && StoreOk(m.store, Room(cfg.signLength))
    requires pid in m.procs && m.procs[pid] == Allocating(ins)
    ensures var b := NewBlock(m.store.pages, answers);
      Leads(cfg, pid, m, Over(m, pid, ins, OnNewPage(m.store, NewTuple(m, ins), b)))
    decreases |answers|
  {
    var fsm := if answers == [] then Nothing else answers[0];
    var m1 := Advance(cfg, m, pid, fsm);
    if fsm.Offered? && !Usable(m.store.pages, fsm) {
      AllocatesAlone(cfg, m, pid, ins, answers[1..]);
    } else {
      assert [] + [NewTuple(m, ins)] == [NewTuple(m, ins)];
      NoStep(cfg, pid, m1);
      FirstStep(cfg, pid, m, fsm, m1, m1);
    }
  }

  lemma SameOver(m: Machine, pid: Pid, p: Proc, ins: Insertion, store: Store, lock: Option<Pid>)
    ensures Over(Goto(m, pid, p).(lock := lock), pid, ins, store) == Over(m, pid, ins, store)
  {
    assert m.procs[pid := p] - {pid} == m.procs - {pid};
  }

  /** The insertion stands at entry k of the queue, and no entry before it takes the tuple. */
  predicate AtEntry(store: Store, k: nat, room: nat) {
    && StoreOk(store, room) && store.meta.nStart <= k <= store.meta.nEnd
    && FirstFit(store.pages, store.meta, store.meta.nStart, room) == FirstFit(store.pages, store.meta, k, room)
  }

  lemma {:induction false} TriesAlone(cfg: Config, m: Machine, pid: Pid, ins: Insertion, k: nat,
      answers: seq<FsmAnswer>)
    requires ValidConfig(cfg) && AtEntry(m.store, k, Room(cfg.signLength))
    requires pid in m.procs && m.procs[pid] == TryingListed(ins, k)
    ensures var store := AfterInsert(m.store, NewTuple(m, ins), answers, Room(cfg.signLength));
      Leads(cfg, pid, m, Over(m, pid, ins, store))
    decreases m.store.meta.nEnd - k
  {
    var store := AfterInsert(m.store, NewTuple(m, ins), answers, Room(cfg.signLength));
    var m1 := Advance(cfg, m, pid, Nothing);
    if pid !in m1.procs {
      NoStep(cfg, pid, m1);
    } else {
      SameOver(m, pid, m1.procs[pid], ins, store, m.lock);
      if k == m.store.meta.nEnd {
        AllocatesAlone(cfg, m1, pid, ins, answers);
      } else {
        TriesAlone(cfg, m1, pid, ins, k + 1, answers);
      }
    }
    FirstStep(cfg, pid, m, Nothing, m1, Over(m, pid, ins, store));
  }

  /** The page tried without the lock is not tried again, unless the queue has moved on. */
  lemma WaitsAlone(cfg: Config, m: Machine, pid: Pid, ins: Insertion, tried: Option<nat>, answers: seq<FsmAnswer>)
    requires ValidConfig(cfg) && StoreOk(m.store, Room(cfg.signLength)) && m.lock.None?
    requires pid in m.procs && m.procs[pid] == WaitingMeta(ins, tried)
    requires tried.Some? ==> tried.value < |m.store.pages| && !Accepts(m.store.pages[tried.value], Room(cfg.signLength))
    ensures var store := AfterInsert(m.store, NewTuple(m, ins), answers, Room(cfg.signLength));
      Leads(cfg, pid, m, Over(m, pid, ins, store))
  {
    var store := AfterInsert(m.store, NewTuple(m, ins), answers, Room(cfg.signLength));
    var m1 := Advance(cfg, m, pid, Nothing);
    TriesAlone(cfg, m1, pid, ins, m1.procs[pid].nStart, answers);
    SameOver(m, pid, m1.procs[pid], ins, store, Some(pid));
    FirstStep(cfg, pid, m, Nothing, m1, Over(m, pid, ins, store));
  }

  lemma TriesFirstAlone(cfg: Config, m: Machine, pid: Pid, ins: Insertion, answers: seq<FsmAnswer>)
    requires ValidConfig(cfg) && StoreOk(m.store, Room(cfg.signLength)) && m.lock.None?
    requires m.store.meta.nStart < m.store.meta.nEnd
    requires pid in m.procs && m.procs[pid] == TryingFirst(ins, m.store.meta.notFullPage[m.store.meta.nStart])
    ensures var store := AfterInsert(m.store, NewTuple(m, ins), answers, Room(cfg.signLength));
      Leads(cfg, pid, m, Over(m, pid, ins, store))
  {
    var store := AfterInsert(m.store, NewTuple(m, ins), answers, Room(cfg.signLength));
    var blkno := m.store.meta.notFullPage[m.store.meta.nStart];
    var m1 := Advance(cfg, m, pid, Nothing);
    if Accepts(m.store.pages[blkno], Room(cfg.signLength)) {
      NoStep(cfg, pid, m1);
    } else {
      WaitsAlone(cfg, m1, pid, ins, Some(blkno), answers);
      SameOver(m, pid, m1.procs[pid], ins, store, None);
    }
    FirstStep(cfg, pid, m, Nothing, m1, Over(m, pid, ins, store));
  }

  /** Main result on insertions: the sections of an insertion that is not interrupted add up to blinsert alone. */
  lemma InsertsAlone(cfg: Config, m: Machine, pid: Pid, ins: Insertion, answers: seq<FsmAnswer>)
    requires ValidConfig(cfg) && StoreOk(m.store, Room(cfg.signLength)) && m.lock.None?
    requires pid in m.procs && m.procs[pid] == ReadingMeta(ins)
    ensures var store := AfterInsert(m.store, NewTuple(m, ins), answers, Room(cfg.signLength));
      Leads(cfg, pid, m, Over(m, pid, ins, store))
  {
    var store := AfterInsert(m.store, NewTuple(m, ins), answers, Room(cfg.signLength));
    var m1 := Advance(cfg, m, pid, Nothing);
    if m.store.meta.nStart < m.store.meta.nEnd {
      TriesFirstAlone(cfg, m1, pid, ins, answers);
    } else {
      WaitsAlone(cfg, m1, pid, ins, None, answers);
    }
    SameOver(m, pid, m1.procs[pid], ins, store, None);
    FirstStep(cfg, pid, m, Nothing, m1, Over(m, pid, ins, store));
  }

  /** While the first page of the queue has room, an insertion never takes the metapage and never changes it. */
  lemma InsertsWithoutLock(cfg: Config, m: Machine, pid: Pid, ins: Insertion, fsm: FsmAnswer, fsm': FsmAnswer)
    requires ValidConfig(cfg) && StoreOk(m.store, Room(cfg.signLength)) && m.lock.None?
    requires pid in m.procs && m.procs[pid] == ReadingMeta(ins) && m.store.meta.nStart < m.store.meta.nEnd
    requires Accepts(m.store.pages[m.store.meta.notFullPage[m.store.meta.nStart]], Room(cfg.signLength))
    ensures Ready(m, pid) && InBounds(m, pid)
    ensures var m1 := Advance(cfg, m, pid, fsm);
      && m1.lock.None? && Ready(m1, pid) && InBounds(m1, pid)
      && var m2 := Advance(cfg, m1, pid, fsm');
      && m2.lock.None? && pid !in m2.procs && m2.log == m.log + [ins] && m2.store.meta == m.store.meta
  {
  }

  /** The store after a vacuum that ran alone. */
  function AfterVacuum(store: Store, dead: set<ItemPointer>, room: nat): Store
    requires StoreOk(store, room)
  {
    var pages := VacuumedPages(store.pages, dead, |store.pages|);
    Store(pages, WithList(store.meta, ListedPages(pages, |pages|, room)))
  }

  /** Where a vacuum that is not interrupted stands before block b. */
  predicate HasVacuumed(cfg: Config, m: Machine, pid: Pid, store: Store, dead: set<ItemPointer>, b: nat) {
    && 1 <= b <= |store.pages| && pid in m.procs && m.store.meta == store.meta
    && m.store.pages == VacuumedPages(store.pages, dead, b)
    && m.procs[pid] == Vacuuming(dead, b, |store.pages|, ListedPages(m.store.pages, b, Room(cfg.signLength)))
  }

  lemma VacuumsNext(cfg: Config, m: Machine, pid: Pid, store: Store, dead: set<ItemPointer>, b: nat)
    requires ValidConfig(cfg) && HasVacuumed(cfg, m, pid, store, dead, b) && b < |store.pages|
    requires |store.meta.notFullPage| == META_BLOCKS
    ensures Ready(m, pid) && InBounds(m, pid)
    ensures HasVacuumed(cfg, Advance(cfg, m, pid, Nothing), pid, store, dead, b + 1)
    ensures var m1 := Advance(cfg, m, pid, Nothing); m1.lock == m.lock && m1.procs - {pid} == m.procs - {pid}
  {
    VacuumedNext(store.pages, m.store.pages, dead, b, Room(cfg.signLength));
  }

  lemma VacuumEnds(cfg: Config, m: Machine, pid: Pid, store: Store, dead: set<ItemPointer>) returns (m': Machine)
    requires ValidConfig(cfg) && StoreOk(store, Room(cfg.signLength)) && m.lock.None?
    requires HasVacuumed(cfg, m, pid, store, dead, |store.pages|)
    ensures Leads(cfg, pid, m, m') && m'.procs == m.procs - {pid}
    ensures m'.store == AfterVacuum(store, dead, Room(cfg.signLength))
  {
    var m1 := Advance(cfg, m, pid, Nothing);
    m' := Advance(cfg, m1, pid, Nothing);
    NoStep(cfg, pid, m');
    FirstStep(cfg, pid, m1, Nothing, m', m');
    FirstStep(cfg, pid, m, Nothing, m1, m');
    assert m'.procs == m.procs - {pid};
  }

  lemma {:induction false} VacuumsFrom(cfg: Config, m: Machine, pid: Pid, store: Store, dead: set<ItemPointer>, b: nat)
    returns (m': Machine)
    requires ValidConfig(cfg) && StoreOk(store, Room(cfg.signLength)) && m.lock.None?
    requires HasVacuumed(cfg, m, pid, store, dead, b)
    ensures Leads(cfg, pid, m, m') && m'.procs == m.procs - {pid}
    ensures m'.store == AfterVacuum(store, dead, Room(cfg.signLength))
    decreases |store.pages| - b
  {
    if b == |store.pages| {
      m' := VacuumEnds(cfg, m, pid, store, dead);
    } else {
      VacuumsNext(cfg, m, pid, store, dead, b);
      var m1 := Advance(cfg, m, pid, Nothing);
      m' := VacuumsFrom(cfg, m1, pid, store, dead, b + 1);
      FirstStep(cfg, pid, m, Nothing, m1, m');
    }
  }

  /** The same for vacuum: every page filtered, then the list written. */
  lemma VacuumsAlone(cfg: Config, m: Machine, pid: Pid, dead: set<ItemPointer>) returns (m': Machine)
    requires ValidConfig(cfg) && StoreOk(m.store, Room(cfg.signLength)) && m.lock.None?
    requires pid in m.procs && m.procs[pid] == Vacuuming(dead, 1, |m.store.pages|, [])
    ensures Leads(cfg, pid, m, m') && m'.procs == m.procs - {pid}
    ensures m'.store == AfterVacuum(m.store, dead, Room(cfg.signLength))
  {
    assert m.store.pages == VacuumedPages(m.store.pages, dead, 1);
    m' := VacuumsFrom(cfg, m, pid, m.store, dead, 1);
  }

  lemma {:induction false} ScansFrom(cfg: Config, m: Machine, pid: Pid, p: Proc)
    requires ValidConfig(cfg) && StoreOk(m.store, Room(cfg.signLength))
    requires pid in m.procs && p == m.procs[pid] && p.Scanning? && 1 <= p.blkno <= p.npages == |m.store.pages|
    requires p.found == HitsUpTo(m.store.pages, p.sign, p.blkno)
    ensures Leads(cfg, pid, m, Goto(m, pid, p.(blkno := p.npages, found := HitsUpTo(m.store.pages, p.sign, p.npages))))
    decreases p.npages - p.blkno
  {
    var last := Goto(m, pid, p.(blkno := p.npages, found := HitsUpTo(m.store.pages, p.sign, p.npages)));
    if p.blkno == p.npages {
      assert last == m;
      NoStep(cfg, pid, m);
    } else {
      var m1 := Advance(cfg, m, pid, Nothing);
      ScansFrom(cfg, m1, pid, m1.procs[pid]);
      assert Goto(m1, pid, last.procs[pid]) == last;
      FirstStep(cfg, pid, m, Nothing, m1, last);
    }
  }

  /** And for a scan: it ends with the hits of all pages. */
  lemma ScansAlone(cfg: Config, m: Machine, pid: Pid, keys: seq<ScanKey>, sign: seq<Word>, began: nat)
    requires ValidConfig(cfg) && StoreOk(m.store, Room(cfg.signLength))
    requires pid in m.procs && m.procs[pid] == Scanning(keys, sign, 1, |m.store.pages|, {}, began)
    ensures var n := |m.store.pages|;
      Leads(cfg, pid, m, Goto(m, pid, Scanning(keys, sign, n, n, HitsUpTo(m.store.pages, sign, n), began)))
  {
    ScansFrom(cfg, m, pid, m.procs[pid]);
  }
}
