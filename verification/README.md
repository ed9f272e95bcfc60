# Verification of the GreenPipelineDB cores

GreenPipelineDB is PostgreSQL 10.3 with a power-aware planner, a Java application that shows query plans, and a driver for
the Watts Up power meter. This project models the logic of its most intricate parts in Dafny and proves what they promise,
for all inputs, all runs and all reachable states. `dafny verify dfyconfig.toml` checks everything.

| part | source | modules |
|---|---|---|
| Bloom index | `postgresql10.3/contrib/bloom` | `BloomRandom`, `BloomSignature`, `BloomPage`, `BloomBuild`, `BloomStore`, `BloomMachine`, `BloomSafety`, `BloomTheorems`, `BloomProgress`, `BloomIndex`, `BloomSolo` |
| GiST keys of variable size | `postgresql10.3/contrib/btree_gist/btree_utils_var.c` | `ByteOrder`, `GistVarKey`, `GistVarSplit`, `GistVarLayout` |
| GiST keys of fixed size | `postgresql10.3/contrib/btree_gist/btree_utils_num.c` | `GistNumKey` |
| B-tree checker | `postgresql10.3/contrib/amcheck/verify_nbtree.c` | `BtreePages`, `BtreePageCheck`, `BtreeLevelCheck`, `BtreeTreeCheck`, `BtreeTheorems`, `BtreeTermination`, `BtreeMeaning` |
| N-dimensional boxes | `postgresql10.3/contrib/cube/cube.c` | `CubeBox`, `CubeOrder`, `CubeSearch`, `CubeDistance`, `CubeSplit` |
| Watts Up packets | `watts-up-linux/util.c` | `WattsUpText`, `WattsUpPacket` |
| EXPLAIN plan documents | `JavaApp/src/godpostgresql/CProcess.java` | `PlanTree`, `PlanFields` |

`Wrappers`, `Sequences` and `Sorting` hold what several parts share.

## How the parts are modelled

- **Bloom, concurrently.** `BloomMachine` is a state machine: any number of inserters, vacuums and scans, each a process that
  advances by one critical section at a time; a section under buffer locks is one step. A step is defined only while the
  array entries and blocks that it touches exist, and `BloomSafety.AlwaysInBounds` shows that this always holds. The free
  space map is an adversary that may offer any block, stale or not, lockable or not. Processes may fail between sections and
  leave a page that was added to the file unused. The machine works with any way of turning a column and a hash into bits;
  `BloomSignature` shows that signValue is one. Every insertion carries the number of its place in the history, so that
  tuples with equal contents can be told apart.
- **Bloom, alone.** `BloomIndex.Index` is a class whose methods change pages and metapage in place, as the routines do when
  nothing else runs; `BloomIndex.Scan` is a scan that keeps its signature between calls, and `BloomPage.PageBuffer` is the
  page image with its slots. `BloomSolo` shows that a process of the machine that nobody interrupts does just the same.
- **Trees.** GiST trees are arbitrary trees of keys. For variable-size keys each inner key is the truncated union of the keys
  below it, and a page of leaf values may have the longer key that a split gives it; for the other two it is any key that
  encloses those below it, which the union routines are shown to give.
- **B-tree pages** are arbitrary: any contents, any links, any flags. The number of steps that a walk may take is a
  parameter, because a walk need not end. `BtreeTermination` says exactly when it does not, and that any number above the number of
  blocks gives the same verdicts (`StepsDoNotMatter`, `NoVerdictMeansRing`).
- **Numbers.** The generator uses 32-bit types with C's truncating division and wrap-around conversions written out.
  Coordinates and costs are real numbers.

## Where the code does not do what one would expect

Each of these is proved, with the exact condition under which the expected property does hold.

- The generator has two seeds, 0xFFFFFFFF and 0x80000001, from which the state is zero for ever and every bit index drawn is
  -1. In C such an index is a shift by -1 in the first word of the signature, which is undefined; the model lets it set
  no bit.
- A Bloom index built over N tuples misses the last one exactly when N > 1 and N mod capacity = 1: the counter that decides
  whether the cached page is flushed stays behind by one after the first flush.
- Splitting a page of inner variable-size keys can hide values from searches: both sides are cut at the longer of the two
  common prefixes, which can be behind the place where an entry of the other side was already cut.
- The B-tree checker is silent without having seen every level exactly when, on the way down the first downlinks from the
  root, one names block 0.
- It walks a level for ever exactly when the right links come back, before any error, to a block of the level. The block
  where they come back is an ignorable page; others in the ring may be live. Its search for the next live page to the right
  runs for ever exactly on a ring of ignorable pages.
- The comparison of boxes is not transitive over boxes of two different positive numbers of dimensions.
- A contained-by search over boxes may miss boxes with fewer dimensions than the query.
- The union of a single box entry has no datum.
- Plans are linked to wrong parents exactly when a plan has its children in two containers. EXPLAIN writes one container
  per plan, so this takes a document from elsewhere.
- A meter packet is not recovered when its command or sub-command is a comma or NUL, or when a field holds a comma or a
  semicolon or starts with white space.

## Model

| member | source | states |
|---|---|---|
| `BloomRandom.Generator.Rand` | postgresql10.3/contrib/bloom/blutils.c:213-237 | From every 32-bit state no intermediate value leaves int32, and the new state is exactly 16807 times the old one modulo 2^31 - 1. |
| `BloomRandom.Generator.Srand` | postgresql10.3/contrib/bloom/blutils.c:240-245 | The new state depends on the seed alone; the former state leaves no trace. |
| `BloomRandom.SchrageExact` | postgresql10.3/contrib/bloom/blutils.c:213-237 | Schrage's two products, with C's truncating division and remainder, stay below 2^31 in size and their difference is congruent to 16807 n, for every int32 n. |
| `BloomRandom.Permutation` | postgresql10.3/contrib/bloom/blutils.c:213-237 | The generator permutes [1, 2^31 - 2]: it stays there and has a two-sided inverse. |
| `BloomRandom.FirstDraw` | postgresql10.3/contrib/bloom/blutils.c:210-245 | Over all uint32 seeds exactly 0xFFFFFFFF and 0x80000001 leave state zero; after any other the first draw lands in [1, 2^31 - 2]. |
| `BloomRandom.EveryDraw` | postgresql10.3/contrib/bloom/blutils.c:210-245 | The same for every later draw: zero for ever from those two seeds, otherwise always within [1, 2^31 - 2]. |
| `BloomRandom.SeededIs` | postgresql10.3/contrib/bloom/blutils.c:240-245 | The state after seeding, for every uint32 seed: the seed plus one, except at both ends of int32. |
| `BloomRandom.AfterPower` | postgresql10.3/contrib/bloom/blutils.c:213-237 | In closed form: after n calls the state is 16807^n times the first one, modulo 2^31 - 1. |
| `BloomSignature.SetBit` | postgresql10.3/contrib/bloom/blutils.c:31-34 | Setting a bit in the word array adds exactly that bit to the signature's bit set. |
| `BloomSignature.WordsMatchExact` | postgresql10.3/contrib/bloom/blscan.c:148-156 | The word-by-word test holds exactly when the scan's bit set is a subset of the tuple's. |
| `BloomSignature.SignatureMatches` | postgresql10.3/contrib/bloom/blscan.c:148-156 | The loop with its early exit decides that subset relation. |
| `BloomSignature.DrawsInRange` | postgresql10.3/contrib/bloom/blutils.c:251-278 | Every index drawn for a value lies in [0, bits) unless the seed is one of the two stuck ones, and then every index is -1. |
| `BloomSignature.DrawBits` | postgresql10.3/contrib/bloom/blutils.c:265-277 | The draw loop adds exactly the bits of the seed's draw sequence, and says whether every index was in range. |
| `BloomSignature.SignValue` | postgresql10.3/contrib/bloom/blutils.c:251-278 | The bits added are those drawn from a seed whose every bit is that of the hash exclusive-or that of 16807 (column + 1) - 1, as many as the column asks for, whatever the generator held before. |
| `BloomSignature.ColumnMaskIs` | postgresql10.3/contrib/bloom/blutils.c:262-270 | Seeding with a column number and drawing once gives 16807 (column + 1) - 1. |
| `BloomSignature.XorBits` | postgresql10.3/contrib/bloom/blutils.c:270-270 | A bit of the exclusive or is set just when exactly one of the numbers has it. |
| `BloomSignature.SeedBitsExact` | postgresql10.3/contrib/bloom/blutils.c:270-277 | Bit i is set if and only if the seed is not stuck and i is (16807^(j+1) times the first state, modulo 2^31 - 1, less one) modulo the number of bits, for some draw j. |
| `BloomSignature.FormSignature` | postgresql10.3/contrib/bloom/blutils.c:284-302 | A bit of the signature of a row is set if and only if it is one of some column that is not null. |
| `BloomSignature.ScanSignature` | postgresql10.3/contrib/bloom/blscan.c:91-117 | A bit of the scan signature is set if and only if it is one of some key; a null key means that there is nothing to search for. |
| `BloomSignature.KeyBitsExact` | postgresql10.3/contrib/bloom/blscan.c:91-117 | The bits of a scan are, both ways, those of its keys that are not null. |
| `BloomSignature.RowBitsExact` | postgresql10.3/contrib/bloom/blutils.c:284-302 | The bits of a row are, both ways, those of its columns that are not null. |
| `BloomSignature.KeyBitsBelow` | postgresql10.3/contrib/bloom/blscan.c:91-117 | A set holds the scan signature just when it holds the bits of every key. |
| `BloomSignature.AnsweringRowMatches` | postgresql10.3/contrib/bloom/blscan.c:91-156 | The signature of every row that answers the keys contains the scan signature. |
| `BloomPage.FitsExactly` | postgresql10.3/contrib/bloom/blutils.c:309-336 | The free-space test of an insertion is the comparison of the tuple count with the page's capacity. |
| `BloomPage.CapacityAtLeast` | postgresql10.3/contrib/bloom/bloom.h:83-97 | Every allowed signature length leaves room for at least fifteen tuples on a page. |
| `BloomPage.DefaultCapacity` | postgresql10.3/contrib/bloom/bloom.h:83-97 | With the default signature a page takes 510 tuples of sixteen bytes. |
| `BloomPage.PageBuffer.Init` | postgresql10.3/contrib/bloom/blutils.c:398-408 | An initialised page is an empty, live data page. |
| `BloomPage.PageBuffer.AddItem` | postgresql10.3/contrib/bloom/blutils.c:309-336 | The tuple goes to the end exactly when the page is below capacity; otherwise nothing changes. |
| `BloomPage.PageBuffer.LowerInBounds` | postgresql10.3/contrib/bloom/blutils.c:309-336 | The end of the tuple data never reaches the special area. |
| `BloomPage.PageBuffer.Compact` | postgresql10.3/contrib/bloom/blvacuum.c:85-111 | The two-position walk, with maxoff shrinking inside it, leaves exactly the live tuples in order, and both counts agree at the end. |
| `BloomPage.PageBuffer.Vacuum` | postgresql10.3/contrib/bloom/blvacuum.c:85-137 | Page before against page after: the tuples left are those not called dead, in order, and the page is marked deleted if and only if it held some and all of them are dead. |
| `BloomPage.VacuumedSweeps` | postgresql10.3/contrib/bloom/blvacuum.c:66-137 | The same of the page step as a function; pages already unused stay as they are. |
| `BloomBuild.BuildState.FlushCachedPage` | postgresql10.3/contrib/bloom/blinsert.c:46-57 | The cached page becomes the next block of the file. |
| `BloomBuild.BuildState.Callback` | postgresql10.3/contrib/bloom/blinsert.c:74-109 | Full pages followed by the cached page hold the tuples seen so far, in order; the counter is one short after the first flush. |
| `BloomBuild.BuildState.HeapScan` | postgresql10.3/contrib/bloom/blinsert.c:134-137 | The same after every heap tuple. |
| `BloomBuild.FullPages` | postgresql10.3/contrib/bloom/blinsert.c:74-109 | Full pages hold a multiple of the capacity. |
| `BloomBuild.Build` | postgresql10.3/contrib/bloom/blinsert.c:115-153 | The finished index holds all N tuples if and only if not (N > 1 and N mod capacity = 1); in that case exactly the last one is missing. |
| `BloomStore.VacuumSplits` | postgresql10.3/contrib/bloom/blvacuum.c:85-137 | A vacuum page step splits the page's tuples into kept and removed ones, none lost and none doubled. |
| `BloomStore.ListFits` | postgresql10.3/contrib/bloom/blvacuum.c:141-158 | The list that vacuum writes keeps the queue in bounds with distinct data blocks. |
| `BloomSafety.StepKeeps` | postgresql10.3/contrib/bloom/blinsert.c:192-360 | Every critical section of every process keeps the invariant of the whole machine, for any answer of the free space map. |
| `BloomSafety.AlwaysInBounds` | postgresql10.3/contrib/bloom/blinsert.c:225-349 | In every such state the array entries and blocks touched next exist, and no data access hits the metapage. |
| `BloomSafety.NextKeeps` | postgresql10.3/contrib/bloom/blvacuum.c:57-158 | Every event, starting and failing processes included, keeps the invariant. |
| `BloomSafety.RunKeeps` | postgresql10.3/contrib/bloom/blscan.c:82-173 | The invariant holds after every finite run in every interleaving. |
| `BloomTheorems.IndexIsConserved` | postgresql10.3/contrib/bloom/blinsert.c:192-360 | In every reachable state the tuples on pages are exactly those inserted minus those vacuumed, each once, even with stale queue and free-space entries. |
| `BloomTheorems.StoreStaysWellFormed` | postgresql10.3/contrib/bloom/blvacuum.c:57-158 | In every reachable state deleted pages are empty, tuples fit their block, and nStart <= nEnd <= BloomMetaBlockN over distinct data blocks. |
| `BloomTheorems.HistoryOfStep` | postgresql10.3/contrib/bloom/blvacuum.c:88-107 | An event logs at most its own insertion, and removes only tuples that its own vacuum was told are dead. |
| `BloomTheorems.InsertsExactlyOnce` | postgresql10.3/contrib/bloom/blinsert.c:225-349 | One step of an insertion adds its tuple exactly when it is the last one, and otherwise nothing. |
| `BloomTheorems.NoDeadlock` | postgresql10.3/contrib/bloom/blinsert.c:225-349 | The holder of the metapage is always able to step, and while nobody holds it every process is. |
| `BloomTheorems.ScanIdentity` | postgresql10.3/contrib/bloom/blscan.c:91-117 | A scan keeps its keys, signature and starting point from beginning to end. |
| `BloomTheorems.ScanFindsEverything` | postgresql10.3/contrib/bloom/blscan.c:91-169 | A finished scan has returned every entry that was inserted before it began, was not removed before it ended and answers its keys, in every interleaving. |
| `BloomTheorems.ScanReturnsMatches` | postgresql10.3/contrib/bloom/blscan.c:138-164 | Whatever a scan returns belongs to an insertion whose signature has all bits of every key of the scan. |
| `BloomProgress.VacuumIsComplete` | postgresql10.3/contrib/bloom/blvacuum.c:57-139 | In every interleaving: once a vacuum has passed its pages, no tuple inserted before it began and called dead is on any page, then or later. |
| `BloomProgress.AllocationFillsQueue` | postgresql10.3/contrib/bloom/blinsert.c:330-348 | An insertion that takes a new page leaves it as the only one in the queue, with its tuple alone on it. |
| `BloomProgress.ListedPageHeadsQueue` | postgresql10.3/contrib/bloom/blinsert.c:290-328 | An insertion that finds room on a page of the queue makes the queue start there and changes nothing else of it. |
| `BloomProgress.InsertionIsLogged` | postgresql10.3/contrib/bloom/blinsert.c:192-360 | Over a whole run an insertion that was not abandoned logs its tuple in its last step and in none before. |
| `BloomProgress.UselessOffer` | postgresql10.3/contrib/bloom/blutils.c:344-392 | Any other offer that cannot be used leaves everything as it was. |
| `BloomProgress.HolderReleases` | postgresql10.3/contrib/bloom/blinsert.c:290-349 | While the free space map has nothing to offer, the holder of the metapage inserts its tuple and lets go within two steps more than the queue has entries. |
| `BloomProgress.BuiltIndexStarts` | postgresql10.3/contrib/bloom/blinsert.c:115-153 | What a build leaves is a state that runs may start from. |
| `BloomProgress.FormTuple` | postgresql10.3/contrib/bloom/blutils.c:284-302 | The tuple formed for a heap row is one that builds, insertions and the machine take, with the bits of signValue. |
| `BloomProgress.BuiltIndexIsSearched` | postgresql10.3/contrib/bloom/blinsert.c:115-153 | From heap rows to the answer: in every run on an index that a build made of them, a finished scan has returned every row that answers its keys and was not removed, except the last row when the build leaves it out; for every way of signing, that of signValue included. |
| `BloomIndex.Index.constructor` | postgresql10.3/contrib/bloom/blutils.c:446-467 | An empty index: the metapage alone and an empty queue. |
| `BloomIndex.Index.TryPage` | postgresql10.3/contrib/bloom/blinsert.c:237-263 | One attempt succeeds exactly when the page, reinitialised if unused, is below capacity; a failed attempt changes nothing. |
| `BloomIndex.Index.NewBuffer` | postgresql10.3/contrib/bloom/blutils.c:344-392 | The block found is the first unused and lockable one offered, or one more at the end of the file. |
| `BloomIndex.FirstFit` | postgresql10.3/contrib/bloom/blinsert.c:290-328 | The queue entry chosen takes the tuple and no earlier one would. |
| `BloomIndex.Index.TryQueue` | postgresql10.3/contrib/bloom/blinsert.c:290-328 | The loop over the queue ends at that entry with the tuple on its page, or at the end of the queue with nothing changed. |
| `BloomIndex.Index.Allocate` | postgresql10.3/contrib/bloom/blinsert.c:330-348 | The tuple starts a fresh page, and the entries of the queue that count are just that page. |
| `BloomIndex.Index.Insert` | postgresql10.3/contrib/bloom/blinsert.c:192-360 | An insertion that runs alone puts its tuple last on one block and leaves all others; the queue drops the entries in front of the first page with room, or becomes the new page when there is none. |
| `BloomIndex.InsertAddsTuple` | postgresql10.3/contrib/bloom/blinsert.c:192-360 | That state holds the new tuple and otherwise what it held before. |
| `BloomIndex.NewBlockMeans` | postgresql10.3/contrib/bloom/blutils.c:344-392 | A block of the file is taken if and only if some offer can be used, and then that of the first usable one. |
| `BloomIndex.InsertMovesQueue` | postgresql10.3/contrib/bloom/blinsert.c:290-348 | What an insertion does to the queue and to the pages, told by the entries and by which pages have room. |
| `BloomIndex.NextInsertJoins` | postgresql10.3/contrib/bloom/blinsert.c:290-348 | After an insertion that took a new page the next one goes to the same page, and the file does not grow. |
| `BloomIndex.Index.VacuumPage` | postgresql10.3/contrib/bloom/blvacuum.c:66-138 | One page swept in place, marked deleted just when all of its tuples were dead, all others untouched, and the removed tuples counted. |
| `BloomIndex.Index.BulkDelete` | postgresql10.3/contrib/bloom/blvacuum.c:34-161 | Every page is swept, the queue is the list of pages with room, and the report it was given grows by the exact number of tuples removed. |
| `BloomIndex.Index.Vacuum` | postgresql10.3/contrib/bloom/blvacuum.c:34-217 | Both vacuum calls together: a block is free afterwards if and only if it was unused before or held tuples that are all dead; the live tuples are left in order and the report is exact. |
| `BloomIndex.VacuumLeavesLive` | postgresql10.3/contrib/bloom/blvacuum.c:57-139 | After a vacuum that ran alone exactly the live tuples are left. |
| `BloomIndex.ListIsExact` | postgresql10.3/contrib/bloom/blvacuum.c:113-120 | Unless the list is full, it holds exactly the live pages with at least one tuple and fewer than the capacity. |
| `BloomIndex.Index.ScanPage` | postgresql10.3/contrib/bloom/blscan.c:138-165 | Hits and count of one page are those of the tuples whose signature contains the scan's. |
| `BloomIndex.Scan.GetBitmap` | postgresql10.3/contrib/bloom/blscan.c:82-173 | Whatever was scanned and changed before: a heap pointer is returned if and only if an index tuple for it has the bits of every present key, and nothing for a null key; a signature kept from an earlier call is that of the present keys. |
| `BloomIndex.Scan.Rescan` | postgresql10.3/contrib/bloom/blscan.c:48-62 | The kept signature is dropped and the keys are replaced if there are new ones. |
| `BloomIndex.HitsExactly` | postgresql10.3/contrib/bloom/blscan.c:126-169 | The pages scanned give exactly those pointers. |
| `BloomIndex.Index.VacuumCleanup` | postgresql10.3/contrib/bloom/blvacuum.c:169-217 | The blocks given to the free space map are the unused ones, and the report counts pages, free pages and tuples exactly; when only analysing, neither changes. |
| `BloomSolo.InsertsAlone` | postgresql10.3/contrib/bloom/blinsert.c:192-360 | The sections of an insertion that is not interrupted add up to the insertion alone, for any answers of the free space map. |
| `BloomSolo.InsertsWithoutLock` | postgresql10.3/contrib/bloom/blinsert.c:225-268 | While the first page of the queue has room, an insertion never takes the metapage and never changes it. |
| `BloomSolo.VacuumsAlone` | postgresql10.3/contrib/bloom/blvacuum.c:57-158 | A vacuum of the machine that is not interrupted leaves the pages and the queue that blbulkdelete alone leaves. |
| `BloomSolo.ScansAlone` | postgresql10.3/contrib/bloom/blscan.c:119-173 | A scan of the machine that is not interrupted ends with the hits of all pages. |
| `GistVarKey.NodeCommonPrefix` | postgresql10.3/contrib/btree_gist/btree_utils_var.c:122-163 | The loop finds the length of the longest common prefix of the two bounds. |
| `ByteOrder.LeMeans` | postgresql10.3/contrib/btree_gist/btree_utils_var.c:235-279 | A byte string is at most another just when it begins it or is smaller at the first difference. |
| `GistVarKey.UnionOf` | postgresql10.3/contrib/btree_gist/btree_utils_var.c:235-279 | Taking the entries one by one gives the raw union, each bound moved only by an entry beyond it. |
| `GistVarKey.ComputeUnion` | postgresql10.3/contrib/btree_gist/btree_utils_var.c:324-359 | The union holds the least lower and the greatest upper bound of the entries, each cut two bytes past what these two have in common. |
| `GistVarKey.RawUnionEncloses` | postgresql10.3/contrib/btree_gist/btree_utils_var.c:235-279 | The raw union encloses every entry. |
| `GistVarKey.UnionSpan` | postgresql10.3/contrib/btree_gist/btree_utils_var.c:235-279 | The raw union has the least lower and the greatest upper bound of the entries. |
| `GistVarKey.UnionShape` | postgresql10.3/contrib/btree_gist/btree_utils_var.c:324-359 | A union, cut there or later, has ordered bounds whose common prefix survived the cut, and equal bounds only when the raw bounds were equal. |
| `GistVarKey.KeysAreSound` | postgresql10.3/contrib/btree_gist/btree_utils_var.c:324-359 | By induction over the tree: however often a key was truncated on the way up, each value below is bounded by it up to the cut. |
| `GistVarKey.InnerKeyNeverLosesValue` | postgresql10.3/contrib/btree_gist/btree_utils_var.c:556-614 | For all six strategies, not-equal included, an inner key passes the test whenever some value below it, at any depth, satisfies the operator. |
| `GistVarKey.SearchIsExact` | postgresql10.3/contrib/btree_gist/btree_utils_var.c:556-614 | The descent returns exactly the indexed values that satisfy the operator, each once and in order, also over leaf pages whose key comes from a split. |
| `GistVarSplit.SplitCoversExactly` | postgresql10.3/contrib/btree_gist/btree_utils_var.c:514-546 | The key that a split gives to a side serves an entry, for every value and operator, if and only if the entry is not overcut: a condition on the entry, the least lower and greatest upper bound of its side, and the cut. |
| `GistVarSplit.InnerTestExactly` | postgresql10.3/contrib/btree_gist/btree_utils_var.c:556-614 | The inner test passes if and only if a value that the key may stand for satisfies the operator, or the query begins with a bound, or equals the bound of a strict comparison. |
| `GistVarSplit.OvercutLoses` | postgresql10.3/contrib/btree_gist/btree_utils_var.c:514-546 | For an overcut entry: a value that it stands for and that an equality search no longer reaches. |
| `GistVarSplit.LeafSplitCovers` | postgresql10.3/contrib/btree_gist/btree_utils_var.c:460-549 | Splitting a leaf page never loses a value. |
| `GistVarSplit.LeafSplitIsNode` | postgresql10.3/contrib/btree_gist/btree_utils_var.c:460-549 | The page that a leaf split makes of a half is a node of the tree over which searches are exact. |
| `GistVarSplit.KeyOrder` | postgresql10.3/contrib/btree_gist/btree_utils_var.c:445-457 | The comparison that sorts the entries is a total order. |
| `GistVarSplit.PickSplit` | postgresql10.3/contrib/btree_gist/btree_utils_var.c:460-549 | The halves have sizes floor(m/2) and ceil(m/2), every offset is on exactly one side, no left entry is behind a right one by lower and then by upper bound, and both keys hold their least and greatest bound cut two bytes past the longer common prefix. |
| `GistVarSplit.LosingPageKeys` | postgresql10.3/contrib/btree_gist/btree_utils_var.c:324-359 | The entries of the page below are the keys that unions of its leaf values give. |
| `GistVarSplit.LosingKeysSorted` | postgresql10.3/contrib/btree_gist/btree_utils_var.c:445-457 | Those entries are strictly ascending, so the split puts the first two on the left. |
| `GistVarSplit.InnerSplitLosesValue` | postgresql10.3/contrib/btree_gist/btree_utils_var.c:460-549 | On that page of inner entries the value [2, 9, 9] is below the left half and an equality search no longer enters it. |
| `GistVarLayout.NodeRoundTrip` | postgresql10.3/contrib/btree_gist/btree_utils_var.c:57-103 | Reading an encoded inner key gives back both bounds, for all lengths and alignments, and never takes it for a leaf. |
| `GistVarLayout.SizeBytesMean` | postgresql10.3/contrib/btree_gist/btree_utils_var.c:91-103 | A header is four times the size, least significant byte first. |
| `GistVarLayout.NodeLayout` | postgresql10.3/contrib/btree_gist/btree_utils_var.c:91-103 | Where the parts of an inner key stand: the lower bound behind the header, the upper one at the next multiple of four. |
| `GistVarLayout.LeafRoundTrip` | postgresql10.3/contrib/btree_gist/btree_utils_var.c:57-85 | Reading a leaf key gives its datum as both bounds and recognises the leaf. |
| `GistVarLayout.TruncateRoundTrip` | postgresql10.3/contrib/btree_gist/btree_utils_var.c:205-230 | A truncated key reads back as both bounds cut to one byte past the prefix length, and is no larger than the key. |
| `GistVarLayout.KeyCopy` | postgresql10.3/contrib/btree_gist/btree_utils_var.c:91-103 | The copied bytes are the encoding of the two bounds; no memory is given exactly when the size is over the limit. |
| `GistVarLayout.NodeTruncate` | postgresql10.3/contrib/btree_gist/btree_utils_var.c:206-230 | The bytes written are the encoding of the truncated bounds. |
| `GistNumKey.NumUnion` | postgresql10.3/contrib/btree_gist/btree_utils_num.c:164-195 | The union is the tightest interval around the entries, and each of its bounds is a bound of an entry. |
| `GistNumKey.BinUnionWithin` | postgresql10.3/contrib/btree_gist/btree_utils_num.c:220-244 | An interval encloses the widened key exactly when it encloses both. |
| `GistNumKey.KeyEncloses` | postgresql10.3/contrib/btree_gist/btree_utils_num.c:164-195 | Every key of a tree encloses all values below it. |
| `GistNumKey.NothingPruned` | postgresql10.3/contrib/btree_gist/btree_utils_num.c:255-300 | An inner key is consistent whenever a value that it encloses satisfies the operator. |
| `GistNumKey.InnerTestExactly` | postgresql10.3/contrib/btree_gist/btree_utils_num.c:255-300 | The inner test passes if and only if a value within the key satisfies the operator, or the query equals the bound of a strict comparison. |
| `GistNumKey.LeafTest` | postgresql10.3/contrib/btree_gist/btree_utils_num.c:255-300 | At a leaf the test is the operator. |
| `GistNumKey.SearchIsExact` | postgresql10.3/contrib/btree_gist/btree_utils_num.c:255-300 | For every total order the descent returns exactly the stored values that satisfy the operator, each once and in order. |
| `GistNumKey.KeyNeverFurther` | postgresql10.3/contrib/btree_gist/btree_utils_num.c:308-327 | The distance of an entry is a lower bound for every value below it and exact for a stored value, for every monotone distance. |
| `GistNumKey.KeyDistanceAttained` | postgresql10.3/contrib/btree_gist/btree_utils_num.c:308-327 | The bound is tight: some value within the key is exactly that far from the query. |
| `GistNumKey.DifferenceIsMonotone` | postgresql10.3/contrib/btree_gist/btree_utils_num.c:308-327 | The absolute difference of exact numbers is such a distance. |
| `GistNumKey.KeyOrderIsTotal` | postgresql10.3/contrib/btree_gist/btree_utils_num.c:331-376 | Comparing keys by lower, then by upper bound is a total order. |
| `GistNumKey.PickSplit` | postgresql10.3/contrib/btree_gist/btree_utils_num.c:331-376 | Sizes floor(m/2) and ceil(m/2), a partition of the offsets, no left key behind a right one by lower and then by upper bound, and the tightest interval on each side; a side without entries gets no datum. |
| `BtreePageCheck.RightKey` | postgresql10.3/contrib/amcheck/verify_nbtree.c:772-965 | The key compared with the last item is the first real key of the first live or rightmost page to the right, if it has one. |
| `BtreePageCheck.DownlinkCheck` | postgresql10.3/contrib/amcheck/verify_nbtree.c:977-1062 | Silent exactly when the key is at most every real key of a readable child; otherwise the read error or the downlink error. |
| `BtreePageCheck.TargetPageCheck` | postgresql10.3/contrib/amcheck/verify_nbtree.c:553-753 | Silent exactly when the page's real items are in order, bounded by its high key, below the next page, and bound their children; an error names the test that the item at a given offset fails. |
| `BtreeLevelCheck.CheckStep` | postgresql10.3/contrib/amcheck/verify_nbtree.c:396-520 | One turn of the level walk passes exactly when the page is readable, linked both ways, on its level and sound; an error names the test that fails. |
| `BtreeLevelCheck.WalkDetermined` | postgresql10.3/contrib/amcheck/verify_nbtree.c:396-520 | A sound level continues a walk in exactly one way. |
| `BtreeLevelCheck.CheckLevel` | postgresql10.3/contrib/amcheck/verify_nbtree.c:373-526 | A level passes exactly when it is sound, whatever the links say; an error means that the next page of an error-free walk fails a test and that the level is not sound, and no verdict means that the steps ran out on the level or on a search to the right. |
| `BtreeTreeCheck.LevelHandsDown` | postgresql10.3/contrib/amcheck/verify_nbtree.c:446-476 | A sound level hands down the first downlink of its first page, one level lower. |
| `BtreeTreeCheck.CheckEveryLevel` | postgresql10.3/contrib/amcheck/verify_nbtree.c:275-352 | On an arbitrary page store: silence means a sound tree, a reported corruption means that there is none and names a page and the test it fails, and no verdict means that the levels above the one given up on were sound and its steps ran out. |
| `BtreeTheorems.SilentCheckMeans` | postgresql10.3/contrib/amcheck/verify_nbtree.c:275-352 | After a silent check every live page of every level is on its level, in order, below its high key, linked to its left neighbour, and bounds its children. |
| `BtreeMeaning.ItemsAre` | postgresql10.3/contrib/amcheck/verify_nbtree.c:553-753 | What the page check asks of offsets is what the four kinds of pages need of their item arrays. |
| `BtreeMeaning.SilentMeansSorted` | postgresql10.3/contrib/amcheck/verify_nbtree.c:553-753 | By item index: after a silent check all items of a rightmost leaf are sorted; on other leaves those behind item 0, which none exceeds; on internal pages the same without the next item, and every child bounded. |
| `BtreeMeaning.LevelExactly` | postgresql10.3/contrib/amcheck/verify_nbtree.c:373-526 | The same for one level. |
| `BtreeMeaning.SilentExactly` | postgresql10.3/contrib/amcheck/verify_nbtree.c:275-352 | With more steps than blocks the check is silent if and only if the page store is a tree described without it: by flags, links, level numbers and the item arrays of its pages. |
| `BtreeMeaning.CheckTree` | postgresql10.3/contrib/amcheck/verify_nbtree.c:275-352 | The whole check, with its verdict told by the pages: silent on such a tree, an error where there is none, no end only where right links run in a ring. |
| `BtreeTheorems.PagesInOrder` | postgresql10.3/contrib/amcheck/verify_nbtree.c:681-735 | The last key of a live page is at most the first key of the next live page. |
| `BtreeTheorems.LevelGloballySorted` | postgresql10.3/contrib/amcheck/verify_nbtree.c:373-526 | If every live page of a sound level has a real item, all keys of the level in right-link order, read from the items behind the high key and the minus-infinity item, are sorted. |
| `BtreeTheorems.LevelsConnect` | postgresql10.3/contrib/amcheck/verify_nbtree.c:329-348 | Each level starts at the first downlink of the first page above it. |
| `BtreeTheorems.LevelNumbers` | postgresql10.3/contrib/amcheck/verify_nbtree.c:329-348 | The level number falls by one from level to level. |
| `BtreeTheorems.TreeHeight` | postgresql10.3/contrib/amcheck/verify_nbtree.c:329-348 | A silent check has seen every level down to the leaves if and only if no block reached from the root by at most as many first downlinks as there are levels below it is block 0; equivalently, the first page of its last level is a leaf. |
| `BtreeTheorems.SilentAboveLeaves` | postgresql10.3/contrib/amcheck/verify_nbtree.c:329-348 | An index where the check is silent without having seen a leaf. |
| `BtreeTermination.RepeatIsIgnorable` | postgresql10.3/contrib/amcheck/verify_nbtree.c:396-520 | The first block that a walk meets twice is an ignorable one. |
| `BtreeTermination.WalkDistinct` | postgresql10.3/contrib/amcheck/verify_nbtree.c:396-520 | Without ignorable pages no walk targets a block twice. |
| `BtreeTermination.StepsSuffice` | postgresql10.3/contrib/amcheck/verify_nbtree.c:275-352 | Without ignorable pages as many steps as there are blocks are enough for every walk of the check. |
| `BtreeTermination.WalkWithoutEnd` | postgresql10.3/contrib/amcheck/verify_nbtree.c:396-520 | An index where a walk goes on without an error past any number of steps. |
| `BtreeTermination.EndlessExactly` | postgresql10.3/contrib/amcheck/verify_nbtree.c:396-520 | A level has error-free walks of every length if and only if its right links come back to an earlier block after at most as many error-free pages as the file has blocks. |
| `BtreeTermination.RingClosesIgnorable` | postgresql10.3/contrib/amcheck/verify_nbtree.c:396-520 | The block where the right links come back is an ignorable one. |
| `BtreeTermination.MixedRing` | postgresql10.3/contrib/amcheck/verify_nbtree.c:396-520 | An index whose ring holds a live page. |
| `BtreeTermination.EndlessNoVerdict` | postgresql10.3/contrib/amcheck/verify_nbtree.c:373-526 | A level walked for ever is neither passed nor reported. |
| `BtreeTermination.SearchEndlessExactly` | postgresql10.3/contrib/amcheck/verify_nbtree.c:811-825 | The search for a live page to the right never ends if and only if the right links run into a ring of ignorable pages. |
| `BtreeTermination.NoVerdictMeansRing` | postgresql10.3/contrib/amcheck/verify_nbtree.c:373-526 | With more steps than blocks a level is given up on only when its own right links, or those to the right of its next page, run into such a ring. |
| `BtreeTermination.StepsDoNotMatter` | postgresql10.3/contrib/amcheck/verify_nbtree.c:373-526 | Which trees pass is the same for all numbers of steps above the number of blocks. |
| `CubeBox.IsPoint` | postgresql10.3/contrib/cube/cube.c:1444-1464 | True exactly when the point flag is set or all corners agree. |
| `CubeBox.UnionV0` | postgresql10.3/contrib/cube/cube.c:672-733 | The buffer filled dimension by dimension, the missing ones against zero, is the union box, stored as a point when its corners agree; one and the same box is returned as it stands. |
| `CubeBox.CubeInter` | postgresql10.3/contrib/cube/cube.c:751-827 | The same for the common part. |
| `CubeBox.CubeSize` | postgresql10.3/contrib/cube/cube.c:842-864 | The product of the side lengths, and zero for points and for no dimensions. |
| `CubeBox.ProductConcat` | postgresql10.3/contrib/cube/cube.c:842-864 | Sizes multiply: the product over two groups of sides is the product of the two. |
| `CubeBox.UnionBounds` | postgresql10.3/contrib/cube/cube.c:672-733 | In every dimension, present or padded, the union spans exactly the two intervals. |
| `CubeBox.UnionCovers` | postgresql10.3/contrib/cube/cube.c:672-733 | A box encloses the union exactly when it encloses both boxes. |
| `CubeOrder.CmpV0` | postgresql10.3/contrib/cube/cube.c:869-946 | The result is decided by the first difference in the list of lower, then upper bounds of the common dimensions, then those of the others, and by the number of dimensions if there is none. |
| `CubeOrder.CmpMeans` | postgresql10.3/contrib/cube/cube.c:869-946 | The same of the comparison as a function. |
| `CubeOrder.CmpAntisymmetric` | postgresql10.3/contrib/cube/cube.c:869-946 | Exchanging the boxes negates the comparison. |
| `CubeOrder.CmpEqual` | postgresql10.3/contrib/cube/cube.c:869-946 | Zero exactly when both boxes have the same dimensions and span the same intervals. |
| `CubeOrder.MixedCircle` | postgresql10.3/contrib/cube/cube.c:869-946 | For any two different positive numbers of dimensions: three boxes a <= b <= c with a > c. |
| `CubeOrder.TransitiveExactly` | postgresql10.3/contrib/cube/cube.c:869-946 | Over boxes with dimensions from a given set the comparison is transitive if and only if the set has at most one positive member. |
| `CubeSearch.OverlapV0` | postgresql10.3/contrib/cube/cube.c:1126-1161 | The loops decide overlap in every padded dimension. |
| `CubeSearch.OverlapMeans` | postgresql10.3/contrib/cube/cube.c:1123-1161 | That is: the boxes share a point. |
| `CubeSearch.InterMeans` | postgresql10.3/contrib/cube/cube.c:751-827 | The intersection of overlapping boxes holds exactly the points that both hold. |
| `CubeSearch.ContainsV0` | postgresql10.3/contrib/cube/cube.c:1056-1091 | The loops decide containment in the dimensions of the contained box. |
| `CubeSearch.ContainsMeans` | postgresql10.3/contrib/cube/cube.c:1053-1091 | That is: every point of the contained box, in its dimensions, lies in the other. |
| `CubeSearch.CubeUnion` | postgresql10.3/contrib/cube/cube.c:350-374 | The least box around all entries; no datum exactly for a single entry. |
| `CubeSearch.KeyCovers` | postgresql10.3/contrib/cube/cube.c:350-374 | Every key of a tree encloses all boxes below it. |
| `CubeSearch.NothingPruned` | postgresql10.3/contrib/cube/cube.c:603-656 | A box that passes the leaf test for overlap, same or contains makes every key above it pass the internal test; so does contained-by when the query reaches zero in the dimensions that the box lacks. |
| `CubeSearch.InternalTestExactly` | postgresql10.3/contrib/cube/cube.c:632-656 | The internal test passes if and only if some box within the key may qualify; for equality only without looking at the dimensions that the query lacks. |
| `CubeSearch.SearchIsExact` | postgresql10.3/contrib/cube/cube.c:603-656 | The descent returns exactly the stored boxes that satisfy the operator, under that condition for contained-by only. |
| `CubeSearch.ContainedByExactly` | postgresql10.3/contrib/cube/cube.c:603-656 | Over boxes of at least n dimensions contained-by searches are exact for every tree if and only if the query reaches zero in all its dimensions from n on. |
| `CubeSearch.StubLost` | postgresql10.3/contrib/cube/cube.c:632-656 | Otherwise: a one-box page that the search does not enter although its box qualifies. |
| `CubeDistance.Distance1DIs` | postgresql10.3/contrib/cube/cube.c:1417-1429 | The three cases give the non-negative gap between the intervals, for corners in any order. |
| `CubeDistance.BoxDistance` | postgresql10.3/contrib/cube/cube.c:1185-1327 | Over the gaps of all padded dimensions: their sum, the sum of their squares, or the greatest of them. |
| `CubeDistance.TotalMeasures` | postgresql10.3/contrib/cube/cube.c:1185-1327 | For any non-negative gaps the running totals are that sum, sum of squares or maximum. |
| `CubeDistance.DistanceBelow` | postgresql10.3/contrib/cube/cube.c:1178-1327 | The distance of two boxes is a lower bound for the distances of their points. |
| `CubeDistance.DistanceAttained` | postgresql10.3/contrib/cube/cube.c:1178-1327 | Two of their points are exactly that far apart. |
| `CubeDistance.KeyNeverFurther` | postgresql10.3/contrib/cube/cube.c:1330-1414 | For all three metrics and mixed dimensions a key is never further from the query than a box that it encloses. |
| `CubeDistance.EntryNeverFurther` | postgresql10.3/contrib/cube/cube.c:1330-1414 | So an entry's distance is a lower bound for everything stored below it. |
| `CubeDistance.LeafCoordinate` | postgresql10.3/contrib/cube/cube.c:1338-1384 | At a leaf an odd coordinate is the lower and an even one the upper bound of its dimension, zero beyond the last. |
| `CubeDistance.CoordinateNeverFurther` | postgresql10.3/contrib/cube/cube.c:1338-1384 | An inner entry never overestimates a coordinate of a box below it; the two fail for the same coordinates. |
| `CubeSplit.PickSeeds` | postgresql10.3/contrib/cube/cube.c:474-502 | The seeds are the first pair, in loop order, that maximises union size minus intersection size, the last entry left aside. |
| `CubeSplit.PickSplit` | postgresql10.3/contrib/cube/cube.c:436-579 | The seeds are the first pair, in loop order and without the last entry, whose union exceeds their intersection most in size; every other entry goes left just when that enlarges the left key less; the lists are ascending, non-empty and partition the offsets, and each key is the least box around its entries. |
| `CubeSplit.OffsetsPartition` | postgresql10.3/contrib/cube/cube.c:529-571 | Each list is strictly ascending and holds exactly the offsets that go to its side. |
| `CubeSplit.SplitIsSound` | postgresql10.3/contrib/cube/cube.c:436-579 | Both lists are non-empty, disjoint and cover all offsets, and each key is the least box around its entries. |
| `WattsUpPacket.PacketBuffer.Write` | watts-up-linux/util.c:270-291 | Succeeds exactly when every field passes the length test; the buffer then holds the packet's text and nothing but NULs behind it. |
| `WattsUpPacket.PacketBuffer.CutFields` | watts-up-linux/util.c:385-411 | The in-place field loop leaves NUL-terminated fields at its offsets, rejects or runs out of room exactly as the split of the text does, and later cuts never disturb earlier fields. |
| `WattsUpPacket.PacketBuffer.ParsePacket` | watts-up-linux/util.c:314-414 | Command, sub-command, count and every field are those of the parse of the text up to its first NUL, for any buffer, a full one included. |
| `WattsUpText.FieldsAreClean` | watts-up-linux/util.c:385-411 | No field that is ever read back holds a delimiter or starts with white space. |
| `WattsUpText.AtoiDecimal` | watts-up-linux/util.c:278-278 | A printed count is read back. |
| `WattsUpText.WrittenShape` | watts-up-linux/util.c:270-291 | A packet is the marker, command, sub-command and count, then the fields each behind a comma, then a semicolon. |
| `WattsUpText.RoundTripExactly` | watts-up-linux/util.c:270-411 | For 1 to 18 fields, parsing what was written recovers command, sub-command, count and all fields if and only if neither character is a comma or NUL and every field is clean. |
| `WattsUpPacket.PacketBuffer.RoundTrip` | watts-up-linux/util.c:270-411 | Writing and then parsing in the same buffer: the write succeeds exactly when all fields pass the length test, and then the reading has the command, sub-command, count and every field if and only if neither character is a comma or NUL and every field is clean. |
| `PlanTree.FirstChildFollows` | JavaApp/src/godpostgresql/CProcess.java:716-722 | In document order a parent precedes its children and its first child comes right after it. |
| `PlanTree.LinkNodes` | JavaApp/src/godpostgresql/CProcess.java:706-725 | Each plan gets one less than the number of the first plan in its container. |
| `PlanTree.LinkExactly` | JavaApp/src/godpostgresql/CProcess.java:706-725 | These are the numbers of the parents, and -1 for the root, if and only if no plan has its children in two containers. |
| `PlanTree.TwoContainers` | JavaApp/src/godpostgresql/CProcess.java:706-725 | A document with two containers in one plan, where the second child gets a wrong parent. |
| `PlanFields.SizesFit` | JavaApp/src/godpostgresql/CProcess.java:480-482 | The plans below a plan come right after it in document order. |
| `PlanFields.Document.FindTag` | JavaApp/src/godpostgresql/CProcess.java:486-488 | The field found is the first one in document order at or below the plan, whether the plan's own stands in front of the plans below or behind them. |
| `PlanFields.Document.Take` | JavaApp/src/godpostgresql/CProcess.java:486-489 | The field is removed and recorded when it is the plan's own; the removal fails exactly when a plan below has it and the plan's own, if any, stands behind. |
| `PlanFields.Document.ExtractNode` | JavaApp/src/godpostgresql/CProcess.java:483-552 | A plan whose descendants were read before gets exactly its own fields, and no removal fails. |
| `PlanFields.Document.Extract` | JavaApp/src/godpostgresql/CProcess.java:480-552 | Reading last plan first, every plan gets exactly its own fields, never a descendant's, wherever they stand, and the totals are sums of own costs. |
| `PlanFields.SumReversed` | JavaApp/src/godpostgresql/CProcess.java:664-672 | Reversing the list leaves every total unchanged. |

## Left out

- User interface, charts, R calls, JDBC, the meter's worker thread and the whole query planner: foreign calls and I/O.
- Pipeline colouring in the Java frames (`NFrame.java:1494-1540`): its relabelling loop tests the wrong index, so there is no
  partition to prove.
- The write-ahead log, buffer pins, memory contexts, toast and function-manager plumbing: a section under buffer locks is one
  atomic step, and a failed process leaves no half-written page.
- The non-readonly mode of the B-tree checker: its argument about races rests on deletion and split code outside this module.
- Multibyte characters, collations and key types without truncation in variable-size keys: bytes are compared as bytes and
  truncation is on. The bit type and all penalty functions are not modelled either.
- Rounding, infinities and NaN: coordinates, distances and costs are real numbers.
- qsort_arg is modelled by an insertion sort; `GistVarSplit.PickSplit` and `GistNumKey.PickSplit` promise only what every
  sorting routine gives.
- Hash functions: columns carry their hash, and equal values are taken to hash equally. Operator class validation, cost
  estimates, reloption parsing and metapage version checks of the Bloom index are not part of this model.
- cube text input and output, enlarging, subsets and coordinate access by SQL functions: they would only add easy members.
- dblink, citext, earthdistance, dictionaries and the other contrib modules: thin, or mostly calls into code that is not there.
- Option parsing, serial device set-up and printing of the Watts Up driver.
- BloomSignature.DrawBits: a bit index of -1 sets no bit here; in C its effect is undefined.
- BloomSignature.SignValue: a bit index of -1, from the two stuck seeds, sets no bit here; in C its effect is undefined.
- BloomMachine: buffer locks are taken in the order of the source and released at the end of a section; lock queues and
  fairness are not modelled.
- BtreeLevelCheck.CheckLevel: takes a number of steps after which it is given up without a verdict, where the code has none;
  with more steps than blocks this happens only where the code never ends.
- BtreeTreeCheck.CheckEveryLevel: takes that number too; errors are told apart by kind, not by message.
- BtreePages: an internal page without any item hands down an arbitrary block, since the code reads behind the item array.
- CubeDistance.BoxDistance: for the Euclidean metric it gives the square of the distance; the square root, which is monotone,
  is not taken. The three routines differ only in how they combine dimensions and share one method.
- CubeOrder.CmpV0: the two mirrored branches for the extra dimensions share one method.
- WattsUpPacket.PacketBuffer.ParsePacket: the NUL behind a full buffer is a byte of the model's array, not whatever C has
  there. A count above 18 ends the parse where the code would store behind its field array. Command and sub-command are
  characters, so the sign extension of bytes above 127 is not modelled.
- WattsUpText.RoundTripExactly: starts at one field; for none the parser wants a comma that the writer does not write.
- PlanTree.LinkNodes: the containers have no attributes before the call, and each plan stands in a container element.
- PlanFields.Document.Extract: each field occurs at most once in a plan, as EXPLAIN writes them; text that is not a number,
  which stops the Java code, is not modelled.
