/** Any number of insertions, vacuums and scans on one bloom index, interleaved one critical section at a time. */
module BloomMachine {
  import opened BloomSignature
  import opened BloomPage
  import opened BloomStore
  import opened Wrappers

  type Pid = nat

  /** What blinsert is asked to insert, and the signature BloomFormTuple made for it. */
  datatype Insertion = Insertion(heapPtr: ItemPointer, row: seq<Column>, sign: seq<Word>)

  /** Where a process stands: each constructor is the critical section it enters next. */
  datatype Proc =
    | ReadingMeta(ins: Insertion)
    | TryingFirst(ins: Insertion, blkno: nat)
    | WaitingMeta(ins: Insertion, tried: Option<nat>)
    | TryingListed(ins: Insertion, nStart: nat)
    | Allocating(ins: Insertion)
    | Vacuuming(dead: set<ItemPointer>, blkno: nat, npages: nat, notFull: seq<nat>)
    | WritingList(notFull: seq<nat>)
    | Scanning(keys: seq<ScanKey>, sign: seq<Word>, blkno: nat, npages: nat, found: set<ItemPointer>, began: nat)

  /** The index, the holder of the exclusive metapage lock, the running processes, and the history:
      every insertion that succeeded, in order, and every tuple that vacuum removed. */
  datatype Machine = Machine(store: Store, lock: Option<Pid>, procs: map<Pid, Proc>, log: seq<Insertion>,
      removed: multiset<Tuple>)

  /** What the free space map offers: nothing, or a block, stale or not, that can be locked at once or cannot. */
  datatype FsmAnswer = Nothing | Offered(blkno: nat, lockable: bool)

  /** What the machine needs of an index: the signature length in words, and which bits a column value sets. */
  datatype Config = Config(signLength: nat, marks: Marks)

  predicate ValidConfig(cfg: Config) {
    1 <= cfg.signLength <= 256
  }

  function ConfigOf(opts: Options): (cfg: Config)
    requires ValidOptions(opts)
    ensures ValidConfig(cfg)
  {
    Config(opts.bloomLength, MarksOf(opts))
  }

  /** How many tuples a page takes. */
  function Room(signLength: nat): (room: nat)
    ensures 1 <= signLength <= 256 ==> room > 1
  {
    if 1 <= signLength <= 256 then CapacityAtLeast(signLength); Capacity(TupleSize(signLength))
    else Capacity(TupleSize(signLength))
  }

  predicate Formed(cfg: Config, ins: Insertion)
    requires ValidConfig(cfg)
  {
    && |ins.row| <= MAX_COLUMNS && |ins.sign| == cfg.signLength
    && BitsOf(ins.sign) == RowBits(cfg.marks, ins.row, |ins.row|)
  }

  function LogTuple(log: seq<Insertion>, i: nat): Tuple
    requires i < |log|
  {
    Tuple(i, log[i].heapPtr, log[i].sign)
  }

  function LogTuples(log: seq<Insertion>): (r: seq<Tuple>)
    ensures |r| == |log|
    ensures forall i :: 0 <= i < |log| ==> r[i] == LogTuple(log, i)
  {
    seq(|log|, i requires 0 <= i < |log| => LogTuple(log, i))
  }

  /** The process goes on, nothing else changes. */
  function Goto(m: Machine, pid: Pid, p: Proc): Machine {
    m.(procs := m.procs[pid := p])
  }

  /** The tuple goes on block b, which is initialised first if it is unused or added to the file; the process ends. */
  function Inserted(m: Machine, pid: Pid, ins: Insertion, b: nat, meta: Meta, lock: Option<Pid>): Machine
    requires b <= |m.store.pages| && (b < |m.store.pages| ==> !m.store.pages[b].MetaPage?)
  {
    var page := if b < |m.store.pages| then m.store.pages[b] else NewPage;
    m.(store := Store(Put(m.store.pages, b, Added(page, Tuple(|m.log|, ins.heapPtr, ins.sign))), meta),
       lock := lock, procs := m.procs - {pid}, log := m.log + [ins])
  }

  /** A process that waits for the metapage can go on only while nobody holds it; a scan ends at its last page. */
  predicate Ready(m: Machine, pid: Pid) {
    && pid in m.procs
    && (m.procs[pid].ReadingMeta? || m.procs[pid].WaitingMeta? || m.procs[pid].WritingList? ==> m.lock.None?)
    && (m.procs[pid].Scanning? ==> m.procs[pid].blkno < m.procs[pid].npages)
  }

  /**
   * The array entries and blocks that the next section of a process touches exist, and no data access hits the
   * metapage.
   */
  predicate InBounds(m: Machine, pid: Pid)
    requires pid in m.procs
  {
    var pages, meta := m.store.pages, m.store.meta;
    && |meta.notFullPage| == META_BLOCKS
    && match m.procs[pid]
       case ReadingMeta(_) => meta.nEnd > meta.nStart ==> meta.nStart < META_BLOCKS
       case TryingFirst(_, blkno) => blkno < |pages| && !pages[blkno].MetaPage?
       case WaitingMeta(_, _) => meta.nStart < meta.nEnd ==> meta.nStart < META_BLOCKS
       case TryingListed(_, nStart) =>
         nStart < meta.nEnd ==>
           nStart < META_BLOCKS && meta.notFullPage[nStart] < |pages| && !pages[meta.notFullPage[nStart]].MetaPage?
       case Allocating(_) => true
       case Vacuuming(_, blkno, npages, _) => blkno < npages ==> blkno < |pages|
       case WritingList(notFull) => |notFull| <= META_BLOCKS
       case Scanning(_, _, blkno, npages, _, _) => blkno < npages ==> blkno < |pages|
  }

  /** The next critical section of a process. */
  function Advance(cfg: Config, m: Machine, pid: Pid, fsm: FsmAnswer): Machine
    requires ValidConfig(cfg) && Ready(m, pid) && InBounds(m, pid)
  {
    var pages, meta := m.store.pages, m.store.meta;
    match m.procs[pid]
    case ReadingMeta(ins) =>
      Goto(m, pid, if meta.nEnd > meta.nStart then TryingFirst(ins, meta.notFullPage[meta.nStart])
        else WaitingMeta(ins, None))
    case TryingFirst(ins, blkno) =>
      if Accepts(pages[blkno], Room(cfg.signLength)) then Inserted(m, pid, ins, blkno, meta, m.lock)
      else Goto(m, pid, WaitingMeta(ins, Some(blkno)))
    case WaitingMeta(ins, tried) =>
      var skip := meta.nStart < meta.nEnd && tried == Some(meta.notFullPage[meta.nStart]);
      Goto(m, pid, TryingListed(ins, if skip then meta.nStart + 1 else meta.nStart)).(lock := Some(pid))
    case TryingListed(ins, nStart) =>
      if nStart >= meta.nEnd then Goto(m, pid, Allocating(ins))
      else
        var blkno := meta.notFullPage[nStart];
        if Accepts(pages[blkno], Room(cfg.signLength)) then Inserted(m, pid, ins, blkno, meta.(nStart := nStart), None)
        else Goto(m, pid, TryingListed(ins, nStart + 1))
    case Allocating(ins) =>
      (match fsm
       case Nothing => Inserted(m, pid, ins, |pages|, WithOnly(meta, |pages|), None)
       case Offered(blkno, lockable) =>
         if lockable && blkno < |pages| && Unused(pages[blkno])
         then Inserted(m, pid, ins, blkno, WithOnly(meta, blkno), None)
         else m)
    case Vacuuming(dead, blkno, npages, notFull) =>
      if blkno < npages then
        var page := Vacuumed(pages[blkno], dead);
        Goto(m, pid, Vacuuming(dead, blkno + 1, npages, ListPage(notFull, blkno, page, Room(cfg.signLength))))
          .(store := m.store.(pages := pages[blkno := page]),
            removed := m.removed + multiset(DeadOn(pages[blkno], dead)))
      else Goto(m, pid, WritingList(notFull))
    case WritingList(notFull) =>
      m.(store := m.store.(meta := WithList(meta, notFull)), procs := m.procs - {pid})
    case Scanning(keys, sign, blkno, npages, found, began) =>
      Goto(m, pid, Scanning(keys, sign, blkno + 1, npages, found + Hits(pages[blkno], sign), began))
  }

  datatype Event =
    | BeginInsert(pid: Pid, ins: Insertion)
    | BeginVacuum(pid: Pid, dead: set<ItemPointer>)
    | BeginScan(pid: Pid, keys: seq<ScanKey>, sign: seq<Word>)
    | Step(pid: Pid, fsm: FsmAnswer)
    | Abandon(pid: Pid)
    | StrayExtension

  /** One event of a run. A process may also fail between critical sections, and an extension may be left unused. */
  predicate Next(cfg: Config, m: Machine, e: Event, m': Machine)
    requires ValidConfig(cfg)
  {
    match e
    case BeginInsert(pid, ins) => pid !in m.procs && Formed(cfg, ins) && m' == Goto(m, pid, ReadingMeta(ins))
    case BeginVacuum(pid, dead) => pid !in m.procs && m' == Goto(m, pid, Vacuuming(dead, 1, |m.store.pages|, []))
    case BeginScan(pid, keys, sign) =>
      && pid !in m.procs && ValidKeys(keys) && |sign| == cfg.signLength
      && BitsOf(sign) == KeyBits(cfg.marks, keys, |keys|)
      && m' == Goto(m, pid, Scanning(keys, sign, 1, |m.store.pages|, {}, |m.log|))
    case Step(pid, fsm) => Ready(m, pid) && InBounds(m, pid) && m' == Advance(cfg, m, pid, fsm)
    case Abandon(pid) =>
      pid in m.procs && m' == m.(procs := m.procs - {pid}, lock := if m.lock == Some(pid) then None else m.lock)
    case StrayExtension => m' == m.(store := m.store.(pages := m.store.pages + [NewPage]))
  }

  /** A settled index: no process, and the pages hold exactly the tuples of the log in order. An empty index is one,
      and so is an index fresh from a build. */
  predicate Start(cfg: Config, m: Machine)
    requires ValidConfig(cfg)
  {
    && StoreOk(m.store, Room(cfg.signLength))
    && m.lock == None && m.procs == map[] && m.removed == multiset{}
    && (forall i :: 0 <= i < |m.log| ==> Formed(cfg, m.log[i]))
    && AllTuples(m.store.pages) == LogTuples(m.log)
  }

  /** Any finite run, in any interleaving. */
  predicate Run(cfg: Config, ms: seq<Machine>, es: seq<Event>)
    requires ValidConfig(cfg)
  {
    && |ms| == |es| + 1
    && Start(cfg, ms[0])
    && forall i :: 0 <= i < |es| ==> Next(cfg, ms[i], es[i], ms[i + 1])
  }
}
