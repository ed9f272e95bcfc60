/**
 * What processes of a bloom index achieve over whole runs: complete vacuums, single insertions, a metapage given back.
 */
module BloomProgress {
  import opened BloomRandom
  import opened BloomSignature
  import opened BloomPage
  import opened BloomStore
  import opened BloomMachine
  import opened BloomSafety
  import opened BloomBuild
  import opened BloomTheorems
  import opened Sequences
  import opened Wrappers

  // ---- vacuum ----

  lemma AddedMembers(page: Page, t: Tuple, u: Tuple)
    requires !page.MetaPage? && u in TuplesOf(Added(page, t))
    ensures u == t || u in TuplesOf(page)
  {
  }

  lemma VacuumedTuple(page: Page, dead: set<ItemPointer>, u: Tuple)
    requires u in TuplesOf(Vacuumed(page, dead))
    ensures u in TuplesOf(page)
    ensures page.DataPage? && !page.deleted ==> u.heapPtr !in dead
  {
    if page.DataPage? && !page.deleted {
      FilterMembers(page.tuples, Live(dead), u);
    }
  }

  lemma InsertedMovesNothing(m: Machine, pid: Pid, ins: Insertion, b: nat, meta: Meta, lock: Option<Pid>)
    requires b <= |m.store.pages| && (b < |m.store.pages| ==> !m.store.pages[b].MetaPage?)
    ensures NothingMoves(m.store.pages, Inserted(m, pid, ins, b, meta, lock).store.pages, |m.log|)
  {
    var page := if b < |m.store.pages| then m.store.pages[b] else NewPage;
    var t := Tuple(|m.log|, ins.heapPtr, ins.sign);
    forall u | u in TuplesOf(Added(page, t))
      ensures u == t || u in TuplesOf(page)
    {
      AddedMembers(page, t, u);
    }
  }

  lemma VacuumMovesNothing(pages: seq<Page>, blkno: nat, dead: set<ItemPointer>, n: nat)
    requires blkno < |pages|
    ensures NothingMoves(pages, pages[blkno := Vacuumed(pages[blkno], dead)], n)
  {
    forall u | u in TuplesOf(Vacuumed(pages[blkno], dead))
      ensures u in TuplesOf(pages[blkno])
    {
      VacuumedTuple(pages[blkno], dead, u);
    }
  }

  /** No event puts a tuple that was inserted before on a block where it was not. */
  lemma NextMovesNothing(cfg: Config, m: Machine, e: Event, m': Machine)
    requires ValidConfig(cfg) && Next(cfg, m, e, m')
    ensures NothingMoves(m.store.pages, m'.store.pages, |m.log|)
  {
    if e.Step? {
      var pages, meta := m.store.pages, m.store.meta;
      match m.procs[e.pid] {
        case TryingFirst(ins, blkno) => InsertedMovesNothing(m, e.pid, ins, blkno, meta, m.lock);
        case TryingListed(ins, nStart) =>
          if nStart < meta.nEnd {
            InsertedMovesNothing(m, e.pid, ins, meta.notFullPage[nStart], meta.(nStart := nStart), None);
          }
        case Allocating(ins) =>
          InsertedMovesNothing(m, e.pid, ins, |pages|, WithOnly(meta, |pages|), None);
          if e.fsm.Offered? && e.fsm.blkno < |pages| && !pages[e.fsm.blkno].MetaPage? {
            InsertedMovesNothing(m, e.pid, ins, e.fsm.blkno, WithOnly(meta, e.fsm.blkno), None);
          }
        case Vacuuming(dead, blkno, npages, _) =>
          if blkno < npages {
            VacuumMovesNothing(pages, blkno, dead, |m.log|);
          }
        case _ =>
      }
    }
  }

  /** Of the tuples inserted before the vacuum began, those still on a page it has passed are not dead. */
  ghost predicate VacuumCovers(pages: seq<Page>, dead: set<ItemPointer>, blkno: nat, npages: nat, began: nat) {
    forall b, t :: 0 <= b < |pages| && t in TuplesOf(pages[b]) && t.serial < began ==>
      b < npages && (b >= blkno || t.heapPtr !in dead)
  }

  /** No tuple inserted before is dead and still on a page. */
  ghost predicate NoneDead(pages: seq<Page>, dead: set<ItemPointer>, began: nat) {
    forall b, t :: 0 <= b < |pages| && t in TuplesOf(pages[b]) && t.serial < began ==> t.heapPtr !in dead
  }

  /** Where a vacuum stands. */
  ghost predicate VacuumOk(pages: seq<Page>, p: Proc, dead: set<ItemPointer>, began: nat) {
    match p
    case Vacuuming(d, blkno, npages, _) => d == dead && VacuumCovers(pages, dead, blkno, npages, began)
    case WritingList(_) => NoneDead(pages, dead, began)
    case _ => false
  }

  lemma VacuumKept(pages: seq<Page>, pages': seq<Page>, n: nat, p: Proc, dead: set<ItemPointer>, began: nat)
    requires NothingMoves(pages, pages', n) && began <= n && VacuumOk(pages, p, dead, began)
    ensures VacuumOk(pages', p, dead, began)
  {
  }

  lemma VacuumedCovers(pages: seq<Page>, dead: set<ItemPointer>, blkno: nat, npages: nat, began: nat, room: nat)
    requires PagesOk(pages, room) && 1 <= blkno < |pages| && VacuumCovers(pages, dead, blkno, npages, began)
    ensures VacuumCovers(pages[blkno := Vacuumed(pages[blkno], dead)], dead, blkno + 1, npages, began)
  {
    var page := pages[blkno];
    forall u | u in TuplesOf(Vacuumed(page, dead))
      ensures u in TuplesOf(page) && u.heapPtr !in dead
    {
      VacuumedTuple(page, dead, u);
    }
  }

  lemma VacuumOwnStep(cfg: Config, m: Machine, pid: Pid, fsm: FsmAnswer, dead: set<ItemPointer>, began: nat)
    requires ValidConfig(cfg) && Inv(cfg, m) && Ready(m, pid) && InBounds(m, pid) && m.procs[pid].Vacuuming?
    requires VacuumOk(m.store.pages, m.procs[pid], dead, began)
    ensures var m' := Advance(cfg, m, pid, fsm); pid in m'.procs && VacuumOk(m'.store.pages, m'.procs[pid], dead, began)
  {
    assert ProcOk(cfg, m, pid);
    var p := m.procs[pid];
    if p.blkno < p.npages {
      VacuumedCovers(m.store.pages, dead, p.blkno, p.npages, began, Room(cfg.signLength));
    }
  }

  lemma OthersWait(cfg: Config, m: Machine, q: Pid, fsm: FsmAnswer, pid: Pid)
    requires ValidConfig(cfg) && Ready(m, q) && InBounds(m, q) && pid in m.procs && pid != q
    ensures pid in Advance(cfg, m, q, fsm).procs && Advance(cfg, m, q, fsm).procs[pid] == m.procs[pid]
  {
  }

  lemma ProcessWaits(cfg: Config, m: Machine, e: Event, m': Machine, pid: Pid)
    requires ValidConfig(cfg) && Next(cfg, m, e, m') && pid in m.procs && pid in m'.procs && !(e.Step? && e.pid == pid)
    ensures m'.procs[pid] == m.procs[pid]
  {
    if e.Step? {
      OthersWait(cfg, m, e.pid, e.fsm, pid);
    }
  }

  /** Its own steps and everybody else's keep it so. */
  lemma VacuumGoesOn(cfg: Config, m: Machine, e: Event, m': Machine, pid: Pid, dead: set<ItemPointer>, began: nat)
    requires ValidConfig(cfg) && Inv(cfg, m) && Next(cfg, m, e, m') && pid in m.procs && pid in m'.procs
    requires began <= |m.log| && VacuumOk(m.store.pages, m.procs[pid], dead, began)
    ensures VacuumOk(m'.store.pages, m'.procs[pid], dead, began)
  {
    if e.Step? && e.pid == pid {
      VacuumOwnStep(cfg, m, pid, e.fsm, dead, began);
    } else {
      ProcessWaits(cfg, m, e, m', pid);
      NextMovesNothing(cfg, m, e, m');
      VacuumKept(m.store.pages, m'.store.pages, |m.log|, m.procs[pid], dead, began);
    }
  }

  lemma VacuumBegins(cfg: Config, m: Machine, pid: Pid, dead: set<ItemPointer>, m': Machine)
    requires ValidConfig(cfg) && Inv(cfg, m) && Next(cfg, m, BeginVacuum(pid, dead), m')
    ensures VacuumOk(m'.store.pages, m'.procs[pid], dead, |m.log|)
  {
    assert m.store.pages[0].MetaPage?;
  }

  lemma LogGrowsInRun(cfg: Config, ms: seq<Machine>, es: seq<Event>, i: nat)
    requires ValidConfig(cfg) && Run(cfg, ms, es) && 0 < i < |ms|
    ensures ms[i - 1].log <= ms[i].log
  {
    HistoryOfStep(cfg, ms[i - 1], es[i - 1], ms[i]);
  }

  lemma {:induction false} LogInduction(ms: seq<Machine>, k: nat, i: nat)
    requires k <= i < |ms| && forall l | k < l <= i :: ms[l - 1].log <= ms[l].log
    ensures ms[k].log <= ms[i].log
  {
    if k < i {
      LogInduction(ms, k, i - 1);
    }
  }

  lemma LogOnlyGrows(cfg: Config, ms: seq<Machine>, es: seq<Event>, k: nat, i: nat)
    requires ValidConfig(cfg) && Run(cfg, ms, es) && k <= i < |ms|
    ensures ms[k].log <= ms[i].log
  {
    forall l | k < l <= i
      ensures ms[l - 1].log <= ms[l].log
    {
      LogGrowsInRun(cfg, ms, es, l);
    }
    LogInduction(ms, k, i);
  }

  lemma RunMovesNothing(cfg: Config, ms: seq<Machine>, es: seq<Event>, i: nat)
    requires ValidConfig(cfg) && Run(cfg, ms, es) && 0 < i < |ms|
    ensures NothingMoves(ms[i - 1].store.pages, ms[i].store.pages, |ms[i - 1].log|)
  {
    NextMovesNothing(cfg, ms[i - 1], es[i - 1], ms[i]);
  }

  ghost predicate VacuumAt(m: Machine, pid: Pid, dead: set<ItemPointer>, began: nat) {
    pid in m.procs && began <= |m.log| && VacuumOk(m.store.pages, m.procs[pid], dead, began)
  }

  lemma VacuumBeginsInRun(cfg: Config, ms: seq<Machine>, es: seq<Event>, k: nat, pid: Pid, dead: set<ItemPointer>)
    requires ValidConfig(cfg) && Run(cfg, ms, es) && k + 1 < |ms| && es[k] == BeginVacuum(pid, dead)
    ensures VacuumAt(ms[k + 1], pid, dead, |ms[k].log|)
  {
    RunKeeps(cfg, ms, es, k);
    VacuumBegins(cfg, ms[k], pid, dead, ms[k + 1]);
  }

  lemma VacuumGoesOnInRun(cfg: Config, ms: seq<Machine>, es: seq<Event>, i: nat, pid: Pid, dead: set<ItemPointer>,
      began: nat)
    requires ValidConfig(cfg) && Run(cfg, ms, es) && 0 < i < |ms| && VacuumAt(ms[i - 1], pid, dead, began)
      && pid in ms[i].procs
    ensures VacuumAt(ms[i], pid, dead, began)
  {
    RunKeeps(cfg, ms, es, i - 1);
    LogOnlyGrows(cfg, ms, es, i - 1, i);
    VacuumGoesOn(cfg, ms[i - 1], es[i - 1], ms[i], pid, dead, began);
  }

  lemma {:induction false} VacuumInduction(ms: seq<Machine>, k: nat, i: nat, pid: Pid, dead: set<ItemPointer>,
      began: nat)
    requires k <= i < |ms| && VacuumAt(ms[k], pid, dead, began)
    requires forall l | k < l <= i :: VacuumAt(ms[l - 1], pid, dead, began) ==> VacuumAt(ms[l], pid, dead, began)
    ensures VacuumAt(ms[i], pid, dead, began)
  {
    if k < i {
      VacuumInduction(ms, k, i - 1, pid, dead, began);
    }
  }

  lemma VacuumOverRun(cfg: Config, ms: seq<Machine>, es: seq<Event>, k: nat, i: nat, pid: Pid, dead: set<ItemPointer>)
    requires ValidConfig(cfg) && Run(cfg, ms, es) && k < i < |ms| && es[k] == BeginVacuum(pid, dead)
    requires forall j :: k < j <= i ==> pid in ms[j].procs
    ensures VacuumAt(ms[i], pid, dead, |ms[k].log|)
  {
    var began := |ms[k].log|;
    VacuumBeginsInRun(cfg, ms, es, k, pid, dead);
    forall l | k + 1 < l <= i
      ensures VacuumAt(ms[l - 1], pid, dead, began) ==> VacuumAt(ms[l], pid, dead, began)
    {
      if VacuumAt(ms[l - 1], pid, dead, began) {
        VacuumGoesOnInRun(cfg, ms, es, l, pid, dead, began);
      }
    }
    VacuumInduction(ms, k + 1, i, pid, dead, began);
  }

  /** Nothing dead is left, as far as the log went. */
  ghost predicate CleanAt(m: Machine, dead: set<ItemPointer>, began: nat) {
    began <= |m.log| && NoneDead(m.store.pages, dead, began)
  }

  lemma CleanStays(cfg: Config, ms: seq<Machine>, es: seq<Event>, i: nat, dead: set<ItemPointer>, began: nat)
    requires ValidConfig(cfg) && Run(cfg, ms, es) && 0 < i < |ms| && CleanAt(ms[i - 1], dead, began)
    ensures CleanAt(ms[i], dead, began)
  {
    RunMovesNothing(cfg, ms, es, i);
    LogOnlyGrows(cfg, ms, es, i - 1, i);
  }

  lemma {:induction false} CleanInduction(ms: seq<Machine>, i: nat, j: nat, dead: set<ItemPointer>, began: nat)
    requires i <= j < |ms| && CleanAt(ms[i], dead, began)
    requires forall l | i < l <= j :: CleanAt(ms[l - 1], dead, began) ==> CleanAt(ms[l], dead, began)
    ensures CleanAt(ms[j], dead, began)
  {
    if i < j {
      CleanInduction(ms, i, j - 1, dead, began);
    }
  }

  lemma DeadStayGone(cfg: Config, ms: seq<Machine>, es: seq<Event>, i: nat, j: nat, dead: set<ItemPointer>, began: nat)
    requires ValidConfig(cfg) && Run(cfg, ms, es) && i <= j < |ms| && CleanAt(ms[i], dead, began)
    ensures CleanAt(ms[j], dead, began)
  {
    forall l | i < l <= j
      ensures CleanAt(ms[l - 1], dead, began) ==> CleanAt(ms[l], dead, began)
    {
      if CleanAt(ms[l - 1], dead, began) {
        CleanStays(cfg, ms, es, l, dead, began);
      }
    }
    CleanInduction(ms, i, j, dead, began);
  }

  /**
   * Main result on vacuum: once it has passed all its pages, however insertions, scans and other vacuums were
   * interleaved with it, no tuple inserted before it began and called dead is on any page, then or at any later time.
   */
  lemma VacuumIsComplete(cfg: Config, ms: seq<Machine>, es: seq<Event>, k: nat, i: nat, j: nat, pid: Pid,
      dead: set<ItemPointer>)
    requires ValidConfig(cfg) && Run(cfg, ms, es) && k < i <= j < |ms| && es[k] == BeginVacuum(pid, dead)
    requires (forall l :: k < l <= i ==> pid in ms[l].procs) && ms[i].procs[pid].WritingList?
    ensures NoneDead(ms[j].store.pages, dead, |ms[k].log|)
  {
    VacuumOverRun(cfg, ms, es, k, i, pid, dead);
    DeadStayGone(cfg, ms, es, i, j, dead, |ms[k].log|);
  }

  // ---- insertion ----

  predicate InsertsFor(p: Proc, ins: Insertion) {
    Inserting(p) && p.ins == ins
  }

  lemma InsertStays(cfg: Config, m: Machine, e: Event, m': Machine, pid: Pid, ins: Insertion)
    requires ValidConfig(cfg) && Next(cfg, m, e, m') && pid in m.procs && pid in m'.procs
      && InsertsFor(m.procs[pid], ins)
    ensures InsertsFor(m'.procs[pid], ins) && (e.Step? && e.pid == pid ==> m'.log == m.log)
  {
    if e.Step? && e.pid == pid {
      InsertsExactlyOnce(cfg, m, pid, e.fsm);
    } else {
      ProcessWaits(cfg, m, e, m', pid);
    }
  }

  ghost predicate InsertAt(m: Machine, pid: Pid, ins: Insertion) {
    pid in m.procs && InsertsFor(m.procs[pid], ins)
  }

  /** Event j is not a step of this process that adds to the log. */
  predicate Quiet(ms: seq<Machine>, es: seq<Event>, j: nat, pid: Pid)
    requires j < |es| < |ms|
  {
    es[j].Step? && es[j].pid == pid ==> ms[j + 1].log == ms[j].log
  }

  lemma InsertGoesOnInRun(cfg: Config, ms: seq<Machine>, es: seq<Event>, i: nat, pid: Pid, ins: Insertion)
    requires ValidConfig(cfg) && Run(cfg, ms, es) && 0 < i < |ms| && InsertAt(ms[i - 1], pid, ins) && pid in ms[i].procs
    ensures InsertAt(ms[i], pid, ins) && Quiet(ms, es, i - 1, pid)
  {
    InsertStays(cfg, ms[i - 1], es[i - 1], ms[i], pid, ins);
  }

  lemma InsertBeginsInRun(cfg: Config, ms: seq<Machine>, es: seq<Event>, k: nat, pid: Pid, ins: Insertion)
    requires ValidConfig(cfg) && Run(cfg, ms, es) && k < |es| && es[k] == BeginInsert(pid, ins)
    ensures InsertAt(ms[k + 1], pid, ins) && Quiet(ms, es, k, pid)
  {
  }

  lemma {:induction false} InsertInduction(ms: seq<Machine>, k: nat, i: nat, pid: Pid, ins: Insertion)
    requires k <= i < |ms| && InsertAt(ms[k], pid, ins)
    requires forall l | k < l <= i :: InsertAt(ms[l - 1], pid, ins) ==> InsertAt(ms[l], pid, ins)
    ensures forall l | k <= l <= i :: InsertAt(ms[l], pid, ins)
  {
    if k < i {
      InsertInduction(ms, k, i - 1, pid, ins);
      assert InsertAt(ms[i - 1], pid, ins);
    }
  }

  lemma InsertOverRun(cfg: Config, ms: seq<Machine>, es: seq<Event>, k: nat, i: nat, pid: Pid, ins: Insertion)
    requires ValidConfig(cfg) && Run(cfg, ms, es) && k < i < |ms| && es[k] == BeginInsert(pid, ins)
    requires forall j :: k < j <= i ==> pid in ms[j].procs
    ensures forall j | k < j <= i :: InsertAt(ms[j], pid, ins)
  {
    InsertBeginsInRun(cfg, ms, es, k, pid, ins);
    forall l | k + 1 < l <= i
      ensures InsertAt(ms[l - 1], pid, ins) ==> InsertAt(ms[l], pid, ins)
    {
      if InsertAt(ms[l - 1], pid, ins) {
        InsertGoesOnInRun(cfg, ms, es, l, pid, ins);
      }
    }
    InsertInduction(ms, k + 1, i, pid, ins);
  }

  lemma InsertEnds(cfg: Config, ms: seq<Machine>, es: seq<Event>, i: nat, pid: Pid, ins: Insertion)
    requires ValidConfig(cfg) && Run(cfg, ms, es) && 0 < i < |ms| && InsertAt(ms[i - 1], pid, ins)
    requires pid !in ms[i].procs && es[i - 1] != Abandon(pid)
    ensures ms[i].log == ms[i - 1].log + [ins]
  {
    var e := es[i - 1];
    assert Next(cfg, ms[i - 1], e, ms[i]);
    if e.Step? && e.pid != pid {
      OthersWait(cfg, ms[i - 1], e.pid, e.fsm, pid);
    }
    InsertsExactlyOnce(cfg, ms[i - 1], pid, e.fsm);
  }

  lemma InsertQuiet(cfg: Config, ms: seq<Machine>, es: seq<Event>, k: nat, i: nat, pid: Pid, ins: Insertion)
    requires ValidConfig(cfg) && Run(cfg, ms, es) && k < i < |ms| && es[k] == BeginInsert(pid, ins)
    requires forall j | k < j <= i :: InsertAt(ms[j], pid, ins)
    ensures forall j | k <= j < i :: Quiet(ms, es, j, pid)
  {
    forall j | k <= j < i
      ensures Quiet(ms, es, j, pid)
    {
      if j == k {
        InsertBeginsInRun(cfg, ms, es, k, pid, ins);
      } else {
        assert InsertAt(ms[j], pid, ins) && InsertAt(ms[j + 1], pid, ins);
        InsertGoesOnInRun(cfg, ms, es, j + 1, pid, ins);
      }
    }
  }

  /**
   * Over a whole run an insertion that was not abandoned is logged exactly once: by its last step, and by none before.
   */
  lemma InsertionIsLogged(cfg: Config, ms: seq<Machine>, es: seq<Event>, k: nat, i: nat, pid: Pid, ins: Insertion)
    requires ValidConfig(cfg) && Run(cfg, ms, es) && k + 1 < i < |ms| && es[k] == BeginInsert(pid, ins)
    requires (forall j :: k < j < i ==> pid in ms[j].procs) && pid !in ms[i].procs && es[i - 1] != Abandon(pid)
    ensures ms[i].log == ms[i - 1].log + [ins]
    ensures forall j | k <= j < i - 1 :: Quiet(ms, es, j, pid)
  {
    InsertOverRun(cfg, ms, es, k, i - 1, pid, ins);
    InsertQuiet(cfg, ms, es, k, i - 1, pid, ins);
    InsertEnds(cfg, ms, es, i, pid, ins);
  }

  // ---- the queue ----

  /** An insertion that takes a new page leaves it, with the tuple on it, as the only one in the queue. */
  lemma AllocationFillsQueue(cfg: Config, m: Machine, pid: Pid, fsm: FsmAnswer)
    requires ValidConfig(cfg) && Ready(m, pid) && InBounds(m, pid) && m.procs[pid].Allocating?
    requires pid !in Advance(cfg, m, pid, fsm).procs
    ensures var ins, m' := m.procs[pid].ins, Advance(cfg, m, pid, fsm); var meta := m'.store.meta;
      && meta.nStart == 0 && meta.nEnd == 1 <= |meta.notFullPage| && Window(meta) == [meta.notFullPage[0]]
      && meta.notFullPage[0] < |m'.store.pages|
      && m'.store.pages[meta.notFullPage[0]] == DataPage(false, [Tuple(|m.log|, ins.heapPtr, ins.sign)])
  {
  }

  /** One that finds room on a page of the queue makes the queue start there and changes nothing else of it. */
  lemma ListedPageHeadsQueue(cfg: Config, m: Machine, pid: Pid, fsm: FsmAnswer)
    requires ValidConfig(cfg) && Ready(m, pid) && InBounds(m, pid) && m.procs[pid].TryingListed?
    requires pid !in Advance(cfg, m, pid, fsm).procs
    ensures var before, after, k := m.store.meta, Advance(cfg, m, pid, fsm).store.meta, m.procs[pid].nStart;
      && k < before.nEnd && after.nStart == k && after.nEnd == before.nEnd && after.notFullPage == before.notFullPage
      && Accepts(m.store.pages[before.notFullPage[k]], Room(cfg.signLength))
  {
  }

  // ---- the holder of the metapage ----

  /** n steps of one process in a row, while the free space map has nothing to offer. */
  ghost predicate SoloRun(cfg: Config, pid: Pid, ms: seq<Machine>)
    requires ValidConfig(cfg)
  {
    forall j :: 0 <= j < |ms| - 1 ==> Next(cfg, ms[j], Step(pid, Nothing), ms[j + 1])
  }

  /** A block that cannot be used leaves everything as it was. */
  lemma UselessOffer(cfg: Config, m: Machine, pid: Pid, fsm: FsmAnswer)
    requires ValidConfig(cfg) && Ready(m, pid) && InBounds(m, pid) && m.procs[pid].Allocating?
    requires fsm.Offered? && !(fsm.lockable && fsm.blkno < |m.store.pages| && Unused(m.store.pages[fsm.blkno]))
    ensures Advance(cfg, m, pid, fsm) == m
  {
  }

  /** The steps that the holder still has to take: one for each page of the queue, then one to allocate. */
  function StepsLeft(m: Machine, pid: Pid): nat
    requires pid in m.procs
  {
    var p := m.procs[pid];
    if p.TryingListed? && p.nStart < m.store.meta.nEnd then m.store.meta.nEnd - p.nStart + 2
      else if p.TryingListed? then 2 else 1
  }

  lemma HolderSteps(cfg: Config, m: Machine, pid: Pid)
    requires ValidConfig(cfg) && Inv(cfg, m) && m.lock == Some(pid)
    ensures Ready(m, pid) && InBounds(m, pid)
    ensures var m' := Advance(cfg, m, pid, Nothing);
      if pid in m'.procs then m'.lock == Some(pid) && StepsLeft(m', pid) < StepsLeft(m, pid)
      else m'.lock.None? && m'.log == m.log + [m.procs[pid].ins]
  {
    AlwaysInBounds(cfg, m, pid);
    assert ProcOk(cfg, m, pid);
  }

  lemma HolderStepsBound(cfg: Config, m: Machine, pid: Pid)
    requires ValidConfig(cfg) && Inv(cfg, m) && m.lock == Some(pid)
    ensures pid in m.procs && StepsLeft(m, pid) <= META_BLOCKS + 2
  {
    assert ProcOk(cfg, m, pid);
  }

  lemma SoloPrepend(cfg: Config, pid: Pid, m: Machine, ms: seq<Machine>)
    requires ValidConfig(cfg) && ms != [] && SoloRun(cfg, pid, ms) && Next(cfg, m, Step(pid, Nothing), ms[0])
    ensures SoloRun(cfg, pid, [m] + ms)
  {
    var all := [m] + ms;
    forall j | 0 <= j < |all| - 1
      ensures Next(cfg, all[j], Step(pid, Nothing), all[j + 1])
    {
      assert j > 0 ==> all[j] == ms[j - 1] && all[j + 1] == ms[j];
    }
  }

  /** What a holder is to reach: the metapage given back and its tuple inserted. */
  predicate Released(m: Machine, pid: Pid, log: seq<Insertion>) {
    m.lock.None? && pid !in m.procs && m.log == log
  }

  /** One step of the holder: it is done, or closer. */
  lemma HolderStep(cfg: Config, m: Machine, pid: Pid) returns (m': Machine)
    requires ValidConfig(cfg) && Inv(cfg, m) && m.lock == Some(pid)
    ensures Next(cfg, m, Step(pid, Nothing), m') && Inv(cfg, m') && pid in m.procs && Inserting(m.procs[pid])
    ensures if pid in m'.procs
      then m'.lock == Some(pid) && StepsLeft(m', pid) < StepsLeft(m, pid) && Inserting(m'.procs[pid])
        && m'.log + [m'.procs[pid].ins] == m.log + [m.procs[pid].ins]
      else Released(m', pid, m.log + [m.procs[pid].ins])
  {
    HolderSteps(cfg, m, pid);
    StepKeeps(cfg, m, pid, Nothing);
    InsertsExactlyOnce(cfg, m, pid, Nothing);
    m' := Advance(cfg, m, pid, Nothing);
  }

  /**
   * The holder gives the metapage back, its tuple inserted, within as many steps as the queue has entries and two more;
   * offers of blocks that cannot be used only repeat its last step.
   */
  lemma {:induction false} HolderReleases(cfg: Config, m: Machine, pid: Pid) returns (ms: seq<Machine>)
    requires ValidConfig(cfg) && Inv(cfg, m) && m.lock == Some(pid)
    ensures pid in m.procs && Inserting(m.procs[pid])
    ensures ms != [] && ms[0] == m && SoloRun(cfg, pid, ms) && |ms| <= StepsLeft(m, pid) + 1 <= META_BLOCKS + 3
    ensures Released(ms[|ms| - 1], pid, m.log + [m.procs[pid].ins])
    decreases if pid in m.procs then StepsLeft(m, pid) else 0
  {
    HolderStepsBound(cfg, m, pid);
    var m' := HolderStep(cfg, m, pid);
    if pid in m'.procs {
      var rest := HolderReleases(cfg, m', pid);
      SoloPrepend(cfg, pid, m, rest);
      ms := [m] + rest;
    } else {
      SoloPrepend(cfg, pid, m, [m']);
      ms := [m] + [m'];
    }
  }

  // ---- from the build on ----

  /** The machine around an index fresh from a build. */
  function BuiltMachine(pages: seq<Page>, log: seq<Insertion>): Machine {
    Machine(Store(pages, Meta(0, 0, seq(META_BLOCKS, _ => 0))), None, map[], log, multiset{})
  }

  /** A run, wherever it starts. */
  predicate Steps(cfg: Config, ms: seq<Machine>, es: seq<Event>)
    requires ValidConfig(cfg)
  {
    |ms| == |es| + 1 && forall i :: 0 <= i < |es| ==> Next(cfg, ms[i], es[i], ms[i + 1])
  }

  /** The rows that a build over the given heap rows has indexed. */
  function IndexedRows(rows: seq<Insertion>, room: nat): (log: seq<Insertion>)
    requires room > 1
    ensures log <= rows && |rows| <= |log| + 1
  {
    if |rows| > 1 && |rows| % room == 1 then rows[..|rows| - 1] else rows
  }

  /** What the build leaves is a state that runs may start from. */
  lemma BuiltIndexStarts(cfg: Config, pages: seq<Page>, rows: seq<Insertion>)
    requires ValidConfig(cfg) && Packed(pages, Room(cfg.signLength))
    requires AllTuples(pages) == Indexed(LogTuples(rows), Room(cfg.signLength))
    requires forall i :: 0 <= i < |rows| ==> Formed(cfg, rows[i])
    ensures Start(cfg, BuiltMachine(pages, IndexedRows(rows, Room(cfg.signLength))))
  {
    var log := IndexedRows(rows, Room(cfg.signLength));
    assert LogTuples(log) == LogTuples(rows)[..|log|];
  }

  /** BloomFormTuple makes what a build or an insertion takes, with the bits of signValue. */
  method FormTuple(gen: Generator, opts: Options, heapPtr: ItemPointer, row: seq<Column>) returns (ins: Insertion)
    requires ValidOptions(opts) && |row| <= MAX_COLUMNS
    modifies gen
    ensures Formed(ConfigOf(opts), ins) && ins.heapPtr == heapPtr && ins.row == row
  {
    var sign := FormSignature(gen, opts, row);
    ins := Insertion(heapPtr, row, sign[..]);
  }

  /**
   * From the heap to the answer: in any run on an index built over the rows, a finished scan has returned every indexed
   * row that was not removed and answers its keys. With ConfigOf(opts) the bits are those that signValue sets.
   */
  lemma BuiltIndexIsSearched(cfg: Config, rows: seq<Insertion>, pages: seq<Page>, ms: seq<Machine>, es: seq<Event>,
                             k: nat, i: nat, pid: Pid, keys: seq<ScanKey>, sign: seq<Word>, s: nat)
    requires ValidConfig(cfg) && forall j :: 0 <= j < |rows| ==> Formed(cfg, rows[j])
    requires Packed(pages, Room(cfg.signLength))
    requires AllTuples(pages) == Indexed(LogTuples(rows), Room(cfg.signLength))
    requires Steps(cfg, ms, es) && ms[0] == BuiltMachine(pages, IndexedRows(rows, Room(cfg.signLength)))
    requires k < i < |ms| && es[k] == BeginScan(pid, keys, sign) && forall j :: k < j <= i ==> pid in ms[j].procs
    requires ms[i].procs[pid].Scanning? ==> ms[i].procs[pid].blkno == ms[i].procs[pid].npages
    requires s < |IndexedRows(rows, Room(cfg.signLength))|
    requires Tuple(s, rows[s].heapPtr, rows[s].sign) !in ms[i].removed && Answers(rows[s].row, keys)
    ensures ms[i].procs[pid].Scanning? && rows[s].heapPtr in ms[i].procs[pid].found
  {
    BuiltIndexStarts(cfg, pages, rows);
    LogOnlyGrows(cfg, ms, es, 0, k);
    LogOnlyGrows(cfg, ms, es, 0, i);
    ScanFindsEverything(cfg, ms, es, k, i, pid, keys, sign, s);
  }
}
