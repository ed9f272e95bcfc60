/** The properties of a bloom index over whole runs. */
module BloomTheorems {
  import opened BloomSignature
  import opened BloomPage
  import opened BloomStore
  import opened BloomMachine
  import opened BloomSafety
  import opened Wrappers

  /** Logged tuples are all different. */
  lemma {:induction false} LoggedOnce(log: seq<Insertion>, t: Tuple)
    ensures multiset(LogTuples(log))[t] <= 1
    ensures multiset(LogTuples(log))[t] == 1 <==> t.serial < |log| && t == LogTuple(log, t.serial)
  {
    if log == [] {
      assert LogTuples(log) == [];
    } else {
      var n := |log| - 1;
      assert log == log[..n] + [log[n]];
      LogGrows(log[..n], log[n]);
      LoggedOnce(log[..n], t);
    }
  }

  lemma ConservedExactly(pages: seq<Page>, removed: multiset<Tuple>, log: seq<Insertion>)
    requires Conserved(pages, removed, log)
    ensures removed <= multiset(LogTuples(log))
    ensures Contents(pages) == multiset(LogTuples(log)) - removed
    ensures forall t :: Contents(pages)[t] <= 1
  {
    forall t
      ensures Contents(pages)[t] <= 1
    {
      LoggedOnce(log, t);
    }
  }

  /** Conservation: at every point of every run the index holds exactly what was inserted and not removed, each tuple
      once. */
  lemma IndexIsConserved(cfg: Config, ms: seq<Machine>, es: seq<Event>, i: nat)
    requires ValidConfig(cfg) && Run(cfg, ms, es) && i < |ms|
    ensures ms[i].removed <= multiset(LogTuples(ms[i].log))
    ensures Contents(ms[i].store.pages) == multiset(LogTuples(ms[i].log)) - ms[i].removed
    ensures forall t :: Contents(ms[i].store.pages)[t] <= 1
  {
    RunKeeps(cfg, ms, es, i);
    ConservedExactly(ms[i].store.pages, ms[i].removed, ms[i].log);
  }

  lemma FitsBlock(count: nat, size: nat)
    requires size > 0 && count <= Capacity(size)
    ensures PAGE_HEADER + count * size <= BLOCK_SIZE - SPECIAL_SIZE
  {
    PiecesBounds(BLOCK_SIZE - PAGE_HEADER - SPECIAL_SIZE, size);
    MultiplyMonotone(count, Capacity(size), size);
  }

  /** At every point of every run: nothing sits on a deleted page, no page outgrows its block, and the queue of not-full
      pages is in bounds and lists distinct data blocks. */
  lemma StoreStaysWellFormed(cfg: Config, ms: seq<Machine>, es: seq<Event>, i: nat, b: nat)
    requires ValidConfig(cfg) && Run(cfg, ms, es) && i < |ms| && b < |ms[i].store.pages|
    ensures var page := ms[i].store.pages[b];
      && (page.DataPage? && page.deleted ==> page.tuples == [])
      && PAGE_HEADER + |TuplesOf(page)| * TupleSize(cfg.signLength) <= BLOCK_SIZE - SPECIAL_SIZE
      && MetaOk(ms[i].store.meta, |ms[i].store.pages|)
  {
    RunKeeps(cfg, ms, es, i);
    FitsBlock(|TuplesOf(ms[i].store.pages[b])|, TupleSize(cfg.signLength));
  }

  /** Each event adds at most its own insertion to the log, and removes only tuples that its vacuum calls dead. */
  lemma HistoryOfStep(cfg: Config, m: Machine, e: Event, m': Machine)
    requires ValidConfig(cfg) && Next(cfg, m, e, m')
    ensures m'.log == m.log || (e.Step? && (exists ins :: m'.log == m.log + [ins]) && m'.removed == m.removed)
    ensures m'.removed == m.removed
      || (e.Step? && e.pid in m.procs && m.procs[e.pid].Vacuuming? && m.removed <= m'.removed)
    ensures m'.removed != m.removed ==> forall t | t in m'.removed - m.removed :: t.heapPtr in m.procs[e.pid].dead
  {
    if e.Step? && m.procs[e.pid].Vacuuming? && m.procs[e.pid].blkno < m.procs[e.pid].npages {
      var p := m.procs[e.pid];
      var page := m.store.pages[p.blkno];
      forall t | t in m'.removed - m.removed
        ensures t.heapPtr in p.dead
      {
        assert t in multiset(DeadOn(page, p.dead));
        FilterMembersOf(page, p.dead, t);
      }
    }
  }

  lemma FilterMembersOf(page: Page, dead: set<ItemPointer>, t: Tuple)
    requires t in DeadOn(page, dead)
    ensures t.heapPtr in dead
  {
    Sequences.FilterMembers(page.tuples, Dead(dead), t);
  }

  predicate Inserting(p: Proc) {
    p.ReadingMeta? || p.TryingFirst? || p.WaitingMeta? || p.TryingListed? || p.Allocating?
  }

  /** An insertion ends by adding its tuple, and before that adds nothing: it happens exactly once. */
  lemma InsertsExactlyOnce(cfg: Config, m: Machine, pid: Pid, fsm: FsmAnswer)
    requires ValidConfig(cfg) && Ready(m, pid) && InBounds(m, pid) && Inserting(m.procs[pid])
    ensures var m' := Advance(cfg, m, pid, fsm);
      if pid in m'.procs then m'.log == m.log && Inserting(m'.procs[pid]) && m'.procs[pid].ins == m.procs[pid].ins
      else m'.log == m.log + [m.procs[pid].ins]
  {
  }

  /** No state is stuck on the metapage: its holder can always take a step, and while it is free every process can. */
  lemma NoDeadlock(cfg: Config, ms: seq<Machine>, es: seq<Event>, i: nat)
    requires ValidConfig(cfg) && Run(cfg, ms, es) && i < |ms|
    ensures var m := ms[i];
      if m.lock.Some? then Ready(m, m.lock.value) && InBounds(m, m.lock.value)
      else forall pid | pid in m.procs ::
        InBounds(m, pid) && (Ready(m, pid) || (m.procs[pid].Scanning? && m.procs[pid].blkno == m.procs[pid].npages))
  {
    RunKeeps(cfg, ms, es, i);
    var m := ms[i];
    forall pid | pid in m.procs
      ensures InBounds(m, pid) && ProcOk(cfg, m, pid)
    {
      AlwaysInBounds(cfg, m, pid);
    }
  }

  predicate ScansFor(p: Proc, keys: seq<ScanKey>, sign: seq<Word>, began: nat) {
    p.Scanning? && p.keys == keys && p.sign == sign && p.began == began
  }

  /** No event, its own steps included, changes what a scan is after. */
  lemma ScanStays(cfg: Config, m: Machine, e: Event, m': Machine, pid: Pid, keys: seq<ScanKey>, sign: seq<Word>,
      began: nat)
    requires ValidConfig(cfg) && Next(cfg, m, e, m') && pid in m.procs && pid in m'.procs
    requires ScansFor(m.procs[pid], keys, sign, began)
    ensures ScansFor(m'.procs[pid], keys, sign, began)
  {
  }

  /** A scan keeps its keys, its signature and its starting point from beginning to end. */
  lemma {:induction false} ScanIdentity(cfg: Config, ms: seq<Machine>, es: seq<Event>, k: nat, i: nat, pid: Pid,
      keys: seq<ScanKey>, sign: seq<Word>)
    requires ValidConfig(cfg) && Run(cfg, ms, es) && k < i < |ms| && es[k] == BeginScan(pid, keys, sign)
    requires forall j :: k < j <= i ==> pid in ms[j].procs
    ensures ms[k].log <= ms[i].log && ScansFor(ms[i].procs[pid], keys, sign, |ms[k].log|)
  {
    assert Next(cfg, ms[i - 1], es[i - 1], ms[i]);
    if i > k + 1 {
      ScanIdentity(cfg, ms, es, k, i - 1, pid, keys, sign);
      HistoryOfStep(cfg, ms[i - 1], es[i - 1], ms[i]);
      ScanStays(cfg, ms[i - 1], es[i - 1], ms[i], pid, keys, sign, |ms[k].log|);
    }
  }

  /** A tuple on a page whose row answers the keys is one that the finished scan reported. */
  lemma FinishedScanReports(cfg: Config, m: Machine, pid: Pid, s: nat)
    requires ValidConfig(cfg) && Inv(cfg, m) && pid in m.procs && m.procs[pid].Scanning?
    requires m.procs[pid].blkno == m.procs[pid].npages && s < m.procs[pid].began
    requires s < |m.log| && LogTuple(m.log, s) in AllTuples(m.store.pages)
    requires Answers(m.log[s].row, m.procs[pid].keys)
    ensures m.log[s].heapPtr in m.procs[pid].found
  {
    var p, t := m.procs[pid], LogTuple(m.log, s);
    assert ProcOk(cfg, m, pid);
    AllTuplesMember(m.store.pages, t);
    var b :| 0 <= b < |m.store.pages| && t in TuplesOf(m.store.pages[b]);
    assert Formed(cfg, m.log[s]);
    AnsweringRowMatches(cfg.marks, m.log[s].row, p.keys, |p.keys|);
    WordsMatchExact(t.sign, p.sign);
  }

  /** Main result: whatever was inserted before a scan began, has not been removed when it ends, and answers its keys,
      the scan returns, however insertions, vacuums and other scans were interleaved with it. */
  lemma ScanFindsEverything(cfg: Config, ms: seq<Machine>, es: seq<Event>, k: nat, i: nat, pid: Pid,
                            keys: seq<ScanKey>, sign: seq<Word>, s: nat)
    requires ValidConfig(cfg) && Run(cfg, ms, es) && k < i < |ms| && es[k] == BeginScan(pid, keys, sign)
    requires forall j :: k < j <= i ==> pid in ms[j].procs
    requires ms[i].procs[pid].Scanning? ==> ms[i].procs[pid].blkno == ms[i].procs[pid].npages
    requires s < |ms[k].log| && s < |ms[i].log| && LogTuple(ms[i].log, s) !in ms[i].removed
    requires Answers(ms[k].log[s].row, keys)
    ensures ms[i].procs[pid].Scanning? && ms[k].log[s].heapPtr in ms[i].procs[pid].found
  {
    ScanIdentity(cfg, ms, es, k, i, pid, keys, sign);
    RunKeeps(cfg, ms, es, i);
    var m, t := ms[i], LogTuple(ms[i].log, s);
    LoggedOnce(m.log, t);
    assert t in Contents(m.store.pages);
    assert m.log[s] == ms[k].log[s];
    FinishedScanReports(cfg, m, pid, s);
  }

  /** The bits of each key that is not null. */
  ghost predicate HasKeys(marks: Marks, keys: seq<ScanKey>, bits: set<nat>) {
    forall k | 0 <= k < |keys| && keys[k].value.Hashed? :: marks(keys[k].col, keys[k].value.hash) <= bits
  }

  lemma SignatureHasKeys(marks: Marks, keys: seq<ScanKey>, bits: set<nat>)
    requires KeyBits(marks, keys, |keys|) <= bits
    ensures HasKeys(marks, keys, bits)
  {
    KeyBitsAre(marks, keys);
    forall k, i: nat | 0 <= k < |keys| && keys[k].value.Hashed? && i in marks(keys[k].col, keys[k].value.hash)
      ensures i in bits
    {
      assert SetByKey(marks, keys, k, i);
    }
  }

  /** And whatever a scan returns belongs to an insertion whose signature has every bit of each of its keys. */
  lemma ScanReturnsMatches(cfg: Config, ms: seq<Machine>, es: seq<Event>, i: nat, pid: Pid, h: ItemPointer)
    requires ValidConfig(cfg) && Run(cfg, ms, es) && i < |ms|
    requires pid in ms[i].procs && ms[i].procs[pid].Scanning? && h in ms[i].procs[pid].found
    ensures exists s ::
      && 0 <= s < |ms[i].log| && ms[i].log[s].heapPtr == h
      && BitsOf(ms[i].procs[pid].sign) <= BitsOf(ms[i].log[s].sign)
      && HasKeys(cfg.marks, ms[i].procs[pid].keys, BitsOf(ms[i].log[s].sign))
  {
    RunKeeps(cfg, ms, es, i);
    var m := ms[i];
    assert ProcOk(cfg, m, pid);
    var s :| 0 <= s < |m.log| && m.log[s].heapPtr == h && |m.log[s].sign| == |m.procs[pid].sign|
      && WordsMatch(m.log[s].sign, m.procs[pid].sign);
    WordsMatchExact(m.log[s].sign, m.procs[pid].sign);
    SignatureHasKeys(cfg.marks, m.procs[pid].keys, BitsOf(m.log[s].sign));
  }
}
