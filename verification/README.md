# MiniDB verification model

A Dafny model of the storage engine, lock manager, SQL front end and query executors of MiniDB, with proofs about it.
The code's classes are Dafny classes with the same fields, its loops are loops; each method is tied by its contract to
a value-level specification, and the theorems are about those specifications and over whole runs.

`dafny verify dfyconfig.toml` checks the project.

## How it is organised

* Buffer pool: `PageStore.dfy` is the plain map from page id to bytes, with pins and a capacity, that clients should
  see. `FrameModel.dfy` is the pool as a value (frames, page table, replacer bits, disk) with its structural invariant
  and the effect of each change on what clients see. `Page.dfy`, `LayeredClock.dfy` and `BufferPool.dfy` are the
  classes. `PoolClient.dfy` runs arbitrary client programs and shows that they observe the plain map.
* Replacers: `LayeredClock.dfy` gives the clock order by positions counted from the hand and proves the two sweeps
  against it; `Clock.dfy` does the same for the one-sweep replacer and relates the two over all runs.
* Deadlocks: `WaitGraph.dfy` holds walks, cycles and finishing orders, `DeadlockDetector.dfy` the search.
* SQL: `Tokens.dfy` is the token language, `SQLGrammar.dfy` the token lists the statement parsers accept,
  `SQLParser.dfy` the scanner and the parsers, `SQLStatements.dfy` statements, their printing and the round trips.
* Executors: `Plans.dfy` says which list each tree denotes and which trees denote the same rows; `Executors.dfy` holds
  the operators. `Permutations.dfy` is about lists with the same elements.
* Index and heap: `IndexPages.dfy` and `BPlusTree.dfy` (lookup), `TablePages.dfy` and `TableHeap.dfy` (insertion), both
  on top of the modelled pool. `Bytes.dfy` has page bytes and 32-bit integers in them,
  `Common.dfy` record ids and optional values.
* `LayerManager.dfy` is the migration limiter over timed runs, `LockManager.dfy` the lock table, `HashSets.dfy` the
  unspecified order in which hash containers are walked.

Each public method of the original that takes a latch is one atomic step here.

## Where the code differs from its documentation

The model follows the code.

* FlushPage writes a page only if it is dirty.
* DeletePage returns false for a page that is not resident, and a deleted page stays readable on disk under its id.
* NewPage takes its id only once a frame is found, so a refused call consumes no id.
* A victim is never pinned, so the early exits for pinned victims in FetchPage and NewPage are never taken.
* A page changed and then released as clean on its last unpin can lose the change; `FrameModel.UnpinSyncs` says exactly
  when, `BufferPool.LoseUpdate` shows it on the pool.
* FetchPage accepts ids that were never allocated. `BufferPool.BufferPoolManager.FetchPage` says exactly when that breaks
  the pool, `FrameModel.TwoFramesOnePage` how.
* SortExecutor, unlike the other operators, does not initialize itself: before `Init` it yields nothing.
* LockExclusive rejects only readers, so exclusive mode can have several holders, and asking for an upgrade succeeds
  without changing anything. What holds is that the modes never mix.
* In GetValue the loop from the upper bound on never adds a record id.
* When FetchPage refuses the last page of a table heap, the pool is full, so the attempt to use a new page fails too.
* The limiter lets a batch in whenever the counter is below the limit, so between two resets limit + batch - 1 rows can
  move, and a span can touch two counters more than it has seconds. `LayerManagement.RateBoundIsTight` reaches this for
  every limit and batch size; `LayerManagement.LimitKept` says exactly when the limit itself is kept.

## Model

| member | source | states |
|---|---|---|
| `PoolClient.Client.RunAll` | MiniDB/src/buffer/BufferPoolManager.cpp:37-206 | Main result for the pool: over every run of fetch, new, write, unpin, flush, flush-all and delete calls by clients that release changed pages as dirty, the bytes, ids, pins and refusals observed are those of the plain page store, whatever is evicted when, and nothing evictable is ever at risk |
| `PoolClient.Client.Perform` | MiniDB/src/buffer/BufferPoolManager.cpp:37-206 | One client call moves the store the client sees exactly as the plain store moves, with the same answer |
| `PoolClient.Client.Fetch` | MiniDB/src/buffer/BufferPoolManager.cpp:37-91 | A fetch answers with the bytes last written to the page, or refuses when the plain store is full |
| `PoolClient.Client.New` | MiniDB/src/buffer/BufferPoolManager.cpp:133-177 | A new page is zeroed, has the next id, and is refused exactly when the plain store is full |
| `PoolClient.Client.Write` | MiniDB/src/buffer/BufferPoolManager.cpp:37-47 | Changing the bytes of a held page changes the seen bytes of that page and no other |
| `PoolClient.Client.Unpin` | MiniDB/src/buffer/BufferPoolManager.cpp:93-113 | Releasing a pin lowers one count, and a last clean release needs the page to be unchanged since its last dirty release |
| `PageStore.ReadYourWrites` | MiniDB/src/buffer/BufferPoolManager.cpp:37-206 | In every disciplined run a fetch after a write returns the bytes written, however many calls come between, unless the pool is full |
| `PageStore.BytesPersist` | MiniDB/src/buffer/BufferPoolManager.cpp:37-206 | No fetch, unpin, flush, delete or new page changes the bytes of any page |
| `PageStore.NewIdsDistinct` | MiniDB/src/buffer/BufferPoolManager.cpp:133-177 | Two new pages of a run never share an id |
| `PageStore.NewIdsGrow` | MiniDB/src/buffer/BufferPoolManager.cpp:164-172 | A new page of a run gets an id no earlier page had |
| `PageStore.RunAppend` | MiniDB/src/buffer/BufferPoolManager.cpp:37-206 | A run splits at its last call: what the first calls observe does not depend on the last one |
| `PageStore.PinUnpin` | MiniDB/src/buffer/BufferPoolManager.cpp:93-113 | Unpin undoes the pin of a fetch |
| `FrameModel.EvictKeeps` | MiniDB/src/buffer/BufferPoolManager.cpp:65-76 | Evicting an unpinned frame keeps what clients see if and only if its bytes are dirty or already on disk; it keeps the invariant and all pins |
| `FrameModel.UnpinSyncs` | MiniDB/src/buffer/BufferPoolManager.cpp:93-113 | An unpin leaves nothing at risk if and only if it is dirty, or the page holds nothing unsaved, or another pin remains |
| `FrameModel.LostUpdate` | MiniDB/src/buffer/BufferPoolManager.cpp:93-113 | The failing family has a concrete run: create, change, release as clean, evict; the page then reads as zeros |
| `BufferPool.LoseUpdate` | MiniDB/src/buffer/BufferPoolManager.cpp:37-177 | The same on the pool itself: after these calls FetchPage hands out zeros, whatever was written |
| `FrameModel.LoadInv` | MiniDB/src/buffer/BufferPoolManager.cpp:79-90 | Loading a page keeps the structure if and only if its id has been allocated |
| `FrameModel.TwoFramesOnePage` | MiniDB/src/buffer/BufferPoolManager.cpp:79-90 | The failing input: a page fetched before its id is handed out ends up in two frames, one of them out of reach for good |
| `FrameModel.FetchMissKeeps` | MiniDB/src/buffer/BufferPoolManager.cpp:79-90 | Loading a page into an unpinned frame keeps the invariant, adds one pin, changes no seen bytes, and the frame holds the seen bytes of the page |
| `FrameModel.NewPageKeeps` | MiniDB/src/buffer/BufferPoolManager.cpp:164-176 | Placing a new page adds one zeroed page under the next id and one pin, and changes nothing else |
| `FrameModel.DropKeeps` | MiniDB/src/buffer/BufferPoolManager.cpp:186-199 | Dropping an unpinned page changes no seen bytes, no pins and no frame of a pinned page |
| `FrameModel.FlushKeeps` | MiniDB/src/buffer/BufferPoolManager.cpp:120-131 | Writing a page back changes neither the bytes seen nor the pins, and leaves the page clean |
| `FrameModel.PinKeeps` | MiniDB/src/buffer/BufferPoolManager.cpp:42-46 | Pinning a resident page is the plain store's pin |
| `FrameModel.UnpinKeeps` | MiniDB/src/buffer/BufferPoolManager.cpp:99-112 | Releasing a pin is the plain store's unpin, and a dirty release takes the page off the list of pages at risk |
| `FrameModel.OverwriteKeeps` | MiniDB/src/buffer/BufferPoolManager.cpp:42-46 | Writing to a pinned page is the plain store's write and can put only that page at risk |
| `FrameModel.AllocateKeeps` | MiniDB/src/buffer/BufferPoolManager.cpp:164 | A fresh id is neither resident nor written, so the page it names reads as zeros |
| `FrameModel.FullIffAllPinned` | MiniDB/src/buffer/BufferPoolManager.cpp:48-64 | The pool is full as its clients see it if and only if every frame is occupied and pinned |
| `FrameModel.PinnedPagesFillFrames` | MiniDB/src/buffer/BufferPoolManager.cpp:48-64 | There are at most as many pinned pages as frames, and as many exactly when every frame is pinned |
| `FrameModel.PinnedStay` | MiniDB/src/buffer/BufferPoolManager.cpp:65-76 | Vacating an unpinned frame moves no pinned page |
| `BufferPool.BufferPoolManager.FetchPage` | MiniDB/src/buffer/BufferPoolManager.cpp:37-91 | For every id: returns null exactly when the page is not pinned and every frame is pinned. For an allocated id it adds a pin, hands out the page object with the seen bytes, keeps the structural invariant, and in every state says what the victim falls back to. The invariant survives exactly if the id was allocated or the call refused. A resident page leaves the use bits, the hot bits and the hand alone; another one goes to the first free frame, else to the victim's, in the page object left there with its temperature |
| `BufferPool.BufferPoolManager.NewPage` | MiniDB/src/buffer/BufferPoolManager.cpp:133-177 | Returns null exactly when every frame is pinned, then consuming no id; otherwise adds a zeroed page under the next id in the first free frame, else the victim's, the victim falling back to the disk if it was at risk, and leaves the replacer as the sweep did |
| `BufferPool.BufferPoolManager.UnpinPage` | MiniDB/src/buffer/BufferPoolManager.cpp:93-113 | True exactly for pinned pages; lowers the count and records dirtiness. The last unpin puts the page's frame into the replacer, referenced, and hot exactly if the page's temperature is HOT, and changes no other bit there nor the hand; any other call leaves the replacer as it was. Bytes and temperatures never change |
| `BufferPool.BufferPoolManager.UsedFrameSpared` | MiniDB/src/buffer/BufferPoolManager.cpp:107-111 | In a full pool, while some frame is not pinned, not referenced since the last sweep and not hot, the frame taken next is not one released since the last sweep |
| `BufferPool.ReleaseAndCreate` | MiniDB/src/buffer/BufferPoolManager.cpp:93-177 | A page just released stays in its frame when a new page has to find room in a full pool, as long as some other frame is cold and unreferenced |
| `BufferPool.ReleaseUsed` | MiniDB/src/buffer/BufferPoolManager.cpp:93-113 | Releasing a page marks its frame referenced and leaves every frame that is ready to go ready to go |
| `BufferPool.StaysResident` | MiniDB/src/buffer/BufferPoolManager.cpp:65-90 | Loading a page into one frame leaves the pages of all other frames resident where they are |
| `BufferPool.BufferPoolManager.FlushPage` | MiniDB/src/buffer/BufferPoolManager.cpp:115-131 | True exactly for resident pages; writes the page if dirty, clears the bit, changes nothing else |
| `BufferPool.BufferPoolManager.FlushAllPages` | MiniDB/src/buffer/BufferPoolManager.cpp:202-206 | In any walk order of the page table, every resident page ends clean and no client sees a change |
| `BufferPool.BufferPoolManager.DeletePage` | MiniDB/src/buffer/BufferPoolManager.cpp:178-200 | True exactly for resident unpinned pages, which leave the pool; their bytes stay readable from disk |
| `BufferPool.BufferPoolManager.TakeFrame` | MiniDB/src/buffer/BufferPoolManager.cpp:48-77 | Succeeds exactly when some frame is not pinned, and gives the first free frame if there is one, else the replacer's victim, written back if dirty and unmapped |
| `BufferPool.BufferPoolManager.EvictVictim` | MiniDB/src/buffer/BufferPoolManager.cpp:58-77 | The victim is never pinned, so the exits for pinned victims are not taken, and a victim exists whenever a frame is unpinned |
| `BufferPool.BufferPoolManager.NextFrameExists` | MiniDB/src/buffer/BufferPoolManager.cpp:48-77 | Unless every page that fits is pinned, the next frame is one that nobody has pinned |
| `BufferPool.BufferPoolManager.Missed` | MiniDB/src/buffer/BufferPoolManager.cpp:79-90 | What a fetch of a page that is not resident has made of the pool, its page objects and the seen bytes |
| `BufferPool.BufferPoolManager.Created` | MiniDB/src/buffer/BufferPoolManager.cpp:164-176 | What a new page has made of the pool, its page objects and the seen bytes |
| `BufferPool.BufferPoolManager.Install` | MiniDB/src/buffer/BufferPoolManager.cpp:79-90 | The frame ends up holding the page, pinned once, clean, mapped and out of the replacer; the page object left in the frame is reused |
| `BufferPool.BufferPoolManager.PagesDistinct` | MiniDB/src/buffer/BufferPoolManager.cpp:37-200 | No page object sits in two frames |
| `BufferPool.BufferPoolManager.WriteBytes` | MiniDB/src/buffer/BufferPoolManager.cpp:42-46 | A client writing through a page object it holds changes the seen bytes of that page only |
| `BufferPool.BufferPoolManager.constructor` | MiniDB/src/buffer/BufferPoolManager.cpp:19-24 | A new pool satisfies the structural invariant with all frames empty |
| `Pages.Page.Unpin` | MiniDB/src/buffer/Page.cpp:41-45 | The pin count never goes below zero |
| `Pages.Page.Reset` | MiniDB/src/buffer/Page.cpp:11-15 | Bytes, dirty bit and pin count are cleared; id and temperature are not |
| `Disk.DiskManager.ReadPage` | MiniDB/src/storage/DiskManager.cpp:48-53 | What was last written to the page, zeros if nothing was |
| `Disk.DiskManager.WritePage` | MiniDB/src/storage/DiskManager.cpp:55-63 | Changes one page on disk |
| `Disk.DiskManager.AllocPage` | MiniDB/src/storage/DiskManager.cpp:65-71 | Ids are handed out in increasing order, each once |
| `LayeredReplacer.LayeredClock.Victim` | MiniDB/src/buffer/LayeredClock.cpp:18-67 | Both sweeps together evict at the position the clock-order definition names and leave hand, use bits and membership as it says; failure changes nothing |
| `LayeredReplacer.LayeredClock.SweepCold` | MiniDB/src/buffer/LayeredClock.cpp:24-49 | The first sweep stops at the first unreferenced candidate that is cold or the fifth unreferenced hot one, and takes the use bits of the candidates it passes |
| `LayeredReplacer.LayeredClock.SweepAny` | MiniDB/src/buffer/LayeredClock.cpp:51-66 | After a first sweep that stops nowhere, the second takes the first candidate from the hand |
| `LayeredReplacer.LayeredClock.Pin` | MiniDB/src/buffer/LayeredClock.cpp:69-74 | A frame leaves the replacer and nothing else changes; ids out of range change nothing |
| `LayeredReplacer.LayeredClock.Unpin` | MiniDB/src/buffer/LayeredClock.cpp:80-89 | A frame enters with its use bit set and the given temperature, and nothing else changes; a frame already in or out of range changes nothing |
| `LayeredReplacer.LayeredClock.Size` | MiniDB/src/buffer/LayeredClock.cpp:91-98 | Counts the candidates |
| `LayeredReplacer.VictimExists` | MiniDB/src/buffer/LayeredClock.cpp:18-67 | A victim is found if and only if there is a candidate, and exactly that candidate leaves the replacer |
| `LayeredReplacer.ClockOrder` | MiniDB/src/buffer/LayeredClock.cpp:24-66 | With distances from the hand modulo the number of frames: the victim is the nearest unreferenced candidate that is cold or has four unreferenced hot candidates before it, and if there is no such frame the nearest candidate of all |
| `LayeredReplacer.ClockAfter` | MiniDB/src/buffer/LayeredClock.cpp:24-66 | Afterwards the victim is out and the hand just past it; the first sweep has taken the use bits of the candidates before the victim, the second those of all candidates and of every frame before it |
| `LayeredReplacer.VictimOrder` | MiniDB/src/buffer/LayeredClock.cpp:24-49 | Every candidate passed over before the victim was referenced or one of the first four unreferenced hot ones, and is unreferenced afterwards |
| `LayeredReplacer.SecondChance` | MiniDB/src/buffer/LayeredClock.cpp:24-66 | A referenced frame is evicted only when the first sweep can stop nowhere; a hot one evicted by the first sweep is the fifth it met |
| `LayeredReplacer.HotPassedBelow` | MiniDB/src/buffer/LayeredClock.cpp:35-43 | The first sweep never passes five unreferenced hot candidates |
| `LayeredReplacer.DrainIsComplete` | MiniDB/src/buffer/LayeredClock.cpp:18-67 | As many calls as there are candidates hand out every candidate exactly once, and further calls hand out nothing |
| `ClockReplacer.Clock.Victim` | MiniDB/src/buffer/Clock.cpp:20-47 | Evicts the first unreferenced candidate from the hand; a failing call has taken every candidate's use bit and left the hand in place |
| `ClockReplacer.Clock.Size` | MiniDB/src/buffer/Clock.cpp:74-83 | Counts the candidates |
| `ClockReplacer.Clock.Pin` | MiniDB/src/buffer/Clock.cpp:49-57 | A frame leaves the replacer; ids out of range change nothing |
| `ClockReplacer.Clock.Unpin` | MiniDB/src/buffer/Clock.cpp:63-72 | A frame enters with its use bit set, and nothing else changes; a frame already in or out of range changes nothing |
| `ClockReplacer.RetrySucceeds` | MiniDB/src/buffer/Clock.cpp:20-47 | A call that failed although there were candidates succeeds when repeated |
| `ClockReplacer.SweepOrder` | MiniDB/src/buffer/Clock.cpp:20-47 | The victim is the nearest unreferenced candidate by distance from the hand; candidates before it, or all of them if there is none, lose their use bits |
| `ClockSimulation.RunsAgree` | MiniDB/src/buffer/Clock.cpp:20-72 | Over every run of pin, unpin and victim calls, the layered replacer with cold pages and the plain clock with one retry give the same victims and the same hand after each call |
| `ClockSimulation.RunBoth` | MiniDB/src/buffer/LayeredClock.cpp:18-89 | The same on the two replacer objects, from new ones on |
| `ClockSimulation.FirstSweepVictimsAgree` | MiniDB/src/buffer/LayeredClock.cpp:24-49 | When the plain clock finds a victim at once, the layered one finds the same |
| `ClockSimulation.RetriedVictimsAgree` | MiniDB/src/buffer/LayeredClock.cpp:51-66 | When the plain clock fails, its retry and the layered second sweep find the same victim or both fail |
| `ClockSimulation.AllUnreferenced` | MiniDB/src/buffer/LayeredClock.cpp:24-66 | A call that goes past its first sweep leaves no candidate referenced |
| `DeadlockDetection.DeadlockDetector.DetectCycle` | MiniDB/src/concurrency/DeadLockDector.cpp:109-123 | For every finite graph and every hash order: true if and only if the graph has a directed cycle, and then a closed walk of real edges, repeating only its end, is handed out |
| `DeadlockDetection.DeadlockDetector.DFSCycle` | MiniDB/src/concurrency/DeadLockDector.cpp:75-107 | The search terminates by the unvisited nodes; on failure recursion stack and path are restored and every visited node off the stack waits only for nodes finished before it |
| `DeadlockDetection.DeadlockDetector.CutCycle` | MiniDB/src/concurrency/DeadLockDector.cpp:90-97 | The path from the repeated node on, closed by that node, is a cycle |
| `DeadlockDetection.DeadlockDetector.HasDeadlock` | MiniDB/src/concurrency/DeadLockDector.cpp:56-73 | The same verdict as DetectCycle: true if and only if there is a cycle |
| `DeadlockDetection.DeadlockDetector.GetVictim` | MiniDB/src/concurrency/DeadLockDector.cpp:125-135 | Found if and only if there is a cycle; the victim is the largest id of a cycle that is really there |
| `DeadlockDetection.DeadlockDetector.ResolveDeadlocks` | MiniDB/src/concurrency/DeadLockDector.cpp:37-54 | Repeating GetVictim and RemoveTxn terminates; what remains is acyclic and is exactly the graph without the distinct victims |
| `DeadlockDetection.DeadlockDetector.RemoveTxn` | MiniDB/src/concurrency/DeadLockDector.cpp:37-54 | Leaves exactly the edges that do not touch the transaction and no empty adjacency set |
| `DeadlockDetection.DeadlockDetector.RemoveEdge` | MiniDB/src/concurrency/DeadLockDector.cpp:26-35 | Removes one edge, and the entry with its last edge |
| `DeadlockDetection.DeadlockDetector.AddEdge` | MiniDB/src/concurrency/DeadLockDector.cpp:21-24 | Afterwards one transaction waits for another if and only if it did before or the two are the ones given: no earlier wait is lost |
| `WaitGraph.EdgesWithEdge` | MiniDB/src/concurrency/DeadLockDector.cpp:21-24 | The edges of the extended graph are the old ones and the new one |
| `WaitGraph.AddEdgeAcyclic` | MiniDB/src/concurrency/DeadLockDector.cpp:21-24 | Adding an edge to an acyclic graph makes a cycle if and only if its target already reaches its source |
| `WaitGraph.FinishedIsAcyclic` | MiniDB/src/concurrency/DeadLockDector.cpp:104-122 | A search that finished every waiting node without finding a cycle proves there is none |
| `WaitGraph.WalkDescends` | MiniDB/src/concurrency/DeadLockDector.cpp:83-105 | Walks out of a finished node end at nodes finished strictly earlier |
| `SQLParsing.Tokenize` | MiniDB/src/parser/SQLParser.cpp:37-125 | The scanner computes the token language: its output is well formed, put end to end it is the text without unquoted white space, and it is what the words, operators and quotations spell that the text is made of |
| `Tokens.RoundTripExact` | MiniDB/src/parser/SQLParser.cpp:37-125 | A list of strings joined by single spaces is read back unchanged if and only if it is a well-formed token list |
| `Tokens.LexText` | MiniDB/src/parser/SQLParser.cpp:37-125 | However words, operators, quotations and white space touch in a text, it is read as exactly those words, operators and quotations: longest operators first, a quotation closed by an undoubled quote of its kind, six kinds of white space and nothing else dropped |
| `Tokens.EveryText` | MiniDB/src/parser/SQLParser.cpp:37-125 | Every text is made of such pieces, so the law above covers all texts |
| `Tokens.TokensOfText` | MiniDB/src/parser/SQLParser.cpp:37-125 | The tokens of any text are what its pieces spell |
| `Tokens.RoundTrip` | MiniDB/src/parser/SQLParser.cpp:37-125 | Every well-formed token list survives printing and tokenizing |
| `Tokens.LexWellFormed` | MiniDB/src/parser/SQLParser.cpp:37-125 | Every output consists of words, operators and complete quotations with doubled quotes, an unterminated quotation only in last place |
| `Tokens.LexJoinLex` | MiniDB/src/parser/SQLParser.cpp:37-125 | Tokenizing, joining with spaces and tokenizing again gives the first tokens, for every text |
| `Tokens.Conservation` | MiniDB/src/parser/SQLParser.cpp:37-125 | Apart from unquoted white space no character is lost, added or moved |
| `Tokens.LexDoubled` | MiniDB/src/parser/SQLParser.cpp:56-60 | A doubled quote inside a quotation does not end it |
| `Tokens.LexQuotation` | MiniDB/src/parser/SQLParser.cpp:47-77 | A quotation without its end swallows the rest of the text into one token |
| `Tokens.LexToken` | MiniDB/src/parser/SQLParser.cpp:43-117 | A complete token followed by a space or the end is read as exactly one token |
| `SQLStatements.StatementRoundTrip` | MiniDB/src/parser/SQLParser.cpp:273-640 | Printing any statement with admissible names and values, keywords in any mixture of cases, DELETE with or without FROM, INSERT with or without VALUES and brackets, and reading the text back gives its tokens, its type, its table, columns, values, SET pair and WHERE triple |
| `SQLStatements.ParsePrinted` | MiniDB/src/parser/SQLParser.cpp:598-640 | The same through the parser itself: it succeeds with the statement's type and meaning |
| `SQLStatements.MeaningDecides` | MiniDB/src/parser/SQLParser.cpp:288-594 | Two admissible statements of one type are reported alike if and only if they are the same up to the types of their columns: joining lists with commas loses nothing, quoted commas included |
| `SQLStatements.SplitBack` | MiniDB/src/parser/SQLParser.cpp:288-294 | Tokenizing a joined list takes it apart into its items again |
| `SQLStatements.ItemsUnique` | MiniDB/src/parser/SQLParser.cpp:288-294 | Two lists that join to the same text are the same list |
| `SQLStatements.ListReadBack` | MiniDB/src/parser/SQLParser.cpp:157-188 | A printed list between its brackets or before a clause word is read back item by item, and the cursor stops right behind it |
| `SQLStatements.DefinitionsReadBack` | MiniDB/src/parser/SQLParser.cpp:542-579 | CREATE TABLE keeps exactly the column names, whatever names outside the nine type words, and drops the type words, given as nine cases with their spelling, and their bracket groups |
| `SQLStatements.PartsSkipped` | MiniDB/src/parser/SQLParser.cpp:555-570 | Type words and bracket groups contribute no column |
| `SQLStatements.SelectReadBack` | MiniDB/src/parser/SQLParser.cpp:273-327 | A printed SELECT is accepted with its columns, table and condition |
| `SQLStatements.PlainInsertReadBack` | MiniDB/src/parser/SQLParser.cpp:330-395 | A printed INSERT without column names, with or without the word VALUES and brackets, is accepted with its table and values |
| `SQLStatements.NamedInsertReadBack` | MiniDB/src/parser/SQLParser.cpp:330-395 | A printed INSERT with column names is accepted with its table, columns and values |
| `SQLStatements.UpdateReadBack` | MiniDB/src/parser/SQLParser.cpp:398-463 | A printed UPDATE is accepted with its table, SET pair and condition |
| `SQLStatements.DeleteReadBack` | MiniDB/src/parser/SQLParser.cpp:466-500 | A printed DELETE, with or without FROM, is accepted with its table and condition |
| `SQLStatements.CreateReadBack` | MiniDB/src/parser/SQLParser.cpp:503-595 | A printed CREATE TABLE is accepted with its table and column names |
| `SQLStatements.QueryReadBack` | MiniDB/src/parser/SQLParser.cpp:598-640 | Each printed statement is recognised as its own type |
| `SQLParsing.ParseQuery` | MiniDB/src/parser/SQLParser.cpp:598-640 | Type, verdict, error message and attributes are those of the token grammar for every text, refused ones included, and the tokens are kept |
| `SQLParsing.ParseColumnList` | MiniDB/src/parser/SQLParser.cpp:138-189 | Reads the columns up to the closing bracket or the first clause word, commas dropped, and where the cursor ends; no column but a lone star is FROM, WHERE, VALUES or SET in any case |
| `SQLParsing.ParseValueList` | MiniDB/src/parser/SQLParser.cpp:192-228 | Reads the values up to the closing bracket, commas dropped, and where the cursor ends |
| `SQLParsing.ParseWhereClause` | MiniDB/src/parser/SQLParser.cpp:231-270 | Absent, complete or one of three failures, decided by the tokens left, with the parts read so far |
| `SQLParsing.ParseSelect` | MiniDB/src/parser/SQLParser.cpp:273-327 | Accepts exactly the SELECT token lists of the grammar and reports the first error of any other, with what was read before it |
| `SQLParsing.ParseInsert` | MiniDB/src/parser/SQLParser.cpp:330-395 | Accepts exactly the INSERT token lists of the grammar and reports the first error of any other, with what was read before it |
| `SQLParsing.ParseUpdate` | MiniDB/src/parser/SQLParser.cpp:398-463 | Accepts exactly the UPDATE token lists of the grammar and reports the first error of any other, with what was read before it |
| `SQLParsing.ParseDelete` | MiniDB/src/parser/SQLParser.cpp:466-500 | Accepts exactly the DELETE token lists of the grammar and reports the first error of any other, with what was read before it |
| `SQLParsing.ParseCreateTable` | MiniDB/src/parser/SQLParser.cpp:503-595 | Accepts exactly the CREATE TABLE token lists of the grammar and reports the first error of any other, with what was read before it |
| `SQLParsing.ParseColumnDefinitions` | MiniDB/src/parser/SQLParser.cpp:544-575 | The loop collects the column names and skips types and bracket groups; no name it reports is one of the nine type words in any case |
| `SQLGrammar.TypeWords` | MiniDB/src/parser/SQLParser.cpp:553-557 | The words skipped are exactly INT, VARCHAR, TEXT, CHAR, INTEGER, PRIMARY, KEY, NOT and NULL in any case |
| `SQLGrammar.NamesAreNoTypes` | MiniDB/src/parser/SQLParser.cpp:544-575 | No reported column is a type word |
| `SQLGrammar.NameKept` | MiniDB/src/parser/SQLParser.cpp:572-573 | Any other token in the place of a name is reported |
| `SQLGrammar.ClauseWords` | MiniDB/src/parser/SQLParser.cpp:168-173 | The words that end a column list are exactly FROM, WHERE, VALUES and SET in any case |
| `SQLGrammar.ColumnsAreNoClauses` | MiniDB/src/parser/SQLParser.cpp:157-188 | No column of a list is a word that ends one |
| `SQLGrammar.UpperMeans` | MiniDB/src/parser/SQLParser.cpp:19-24 | The 26 small letters of ASCII become capitals, every other character stays |
| `SQLGrammar.SelectRefused` | MiniDB/src/parser/SQLParser.cpp:280-318 | SELECT statements cut off or broken before their condition: the message each is told and what had been read |
| `SQLGrammar.InsertRefused` | MiniDB/src/parser/SQLParser.cpp:337-359 | The same for INSERT up to the table name |
| `SQLGrammar.InsertValuesRefused` | MiniDB/src/parser/SQLParser.cpp:373-385 | The same for INSERT without values |
| `SQLGrammar.UpdateRefused` | MiniDB/src/parser/SQLParser.cpp:405-436 | The same for UPDATE up to the SET column |
| `SQLGrammar.UpdateSetRefused` | MiniDB/src/parser/SQLParser.cpp:438-455 | The same for UPDATE from the SET column on |
| `SQLGrammar.DeleteRefused` | MiniDB/src/parser/SQLParser.cpp:473-490 | The same for DELETE |
| `SQLGrammar.CreateRefused` | MiniDB/src/parser/SQLParser.cpp:624-629 | CREATE of anything but a table is not supported, for every such statement |
| `SQLGrammar.CreateTableRefused` | MiniDB/src/parser/SQLParser.cpp:526-585 | CREATE TABLE without name, without definitions or without columns: the message each is told and what had been read |
| `SQLGrammar.CreateCutShort` | MiniDB/src/parser/SQLParser.cpp:510-523 | What the CREATE TABLE parser says when called on something else |
| `SQLGrammar.OtherRefused` | MiniDB/src/parser/SQLParser.cpp:604-632 | An empty statement and one that starts with any other word |
| `SQLGrammar.WhereRefused` | MiniDB/src/parser/SQLParser.cpp:243-269 | A condition cut off after each of its parts: the message and the parts read |
| `SQLGrammar.SelectWhere` | MiniDB/src/parser/SQLParser.cpp:320-325 | What is wrong with a SELECT complete up to its condition is what is wrong with the condition |
| `SQLGrammar.UpdateWhere` | MiniDB/src/parser/SQLParser.cpp:457-460 | The same for UPDATE |
| `SQLGrammar.DeleteWhere` | MiniDB/src/parser/SQLParser.cpp:494-497 | The same for DELETE |
| `Executors.Collect` | MiniDB/src/executor/JoinExecutor.cpp:13-46 | For every tree of scans, merges, joins, sorts and aggregates, in whatever state, Init and then Next until it fails terminates and yields exactly the list the tree denotes |
| `Executors.Execute` | MiniDB/src/executor/JoinExecutor.cpp:42-43 | Running any tree twice gives the same list both times: the next Init restarts the whole stream |
| `Executors.Build` | MiniDB/src/executor/JoinExecutor.cpp:10-11 | Every tree can be built; unless it is a sort, even a tree never initialized produces its payloads |
| `Executors.JoinExecutor.Init` | MiniDB/src/executor/JoinExecutor.cpp:13-18 | Puts the whole cross product ahead |
| `Executors.JoinExecutor.Next` | MiniDB/src/executor/JoinExecutor.cpp:20-46 | Takes the next pair of the row-major cross product, rewinding the right input for each left row; false exactly at the end |
| `Executors.JoinExecutor.Fill` | MiniDB/src/executor/JoinExecutor.cpp:25-38 | Both payloads end to end, cut at 2048 bytes |
| `Executors.MergeExecutor.Init` | MiniDB/src/executor/MergeExecutor.cpp:18-25 | Puts the whole hot and cold streams ahead |
| `Executors.MergeExecutor.Next` | MiniDB/src/executor/MergeExecutor.cpp:27-45 | Takes the next payload of the hot stream followed by the cold stream, either of which may be missing |
| `Executors.SeqScanExecutor.Init` | MiniDB/src/executor/SeqScanExecutor.cpp:23-26 | Rewinds to the first row |
| `Executors.SeqScanExecutor.Next` | MiniDB/src/executor/SeqScanExecutor.cpp:28-48 | Takes the next row whose page the layer manager puts in the wanted layer; false exactly when none is left |
| `Executors.SortExecutor.Init` | MiniDB/src/executor/SortExecutor.cpp:12-24 | Drains the child and puts a sorted permutation of its payloads ahead |
| `Executors.SortExecutor.Next` | MiniDB/src/executor/SortExecutor.cpp:26-32 | Takes the next sorted payload; false exactly at the end |
| `Executors.AggregationExecutor.Init` | MiniDB/src/executor/AggregationExecutor.cpp:13-33 | Folds count, sum, least and greatest key of exactly the child's payloads |
| `Executors.AggregationExecutor.Next` | MiniDB/src/executor/AggregationExecutor.cpp:35-52 | Yields one row of four bytes, then nothing. Read as a little-endian number it is zero over no rows; else the row count, the sum where it fits, a key of the child that no key is below (MIN) or above (MAX), or the average, which leaves a rest smaller than the row count and with the sign of the sum (AVG) |
| `Plans.LayeredSameRows` | MiniDB/src/executor/MergeExecutor.cpp:27-45 | For every tree and every set of hot pages, replacing each unfiltered scan by the merge of its hot and cold scans only reorders the rows |
| `Plans.LayeredPlanEquivalence` | MiniDB/src/executor/MergeExecutor.cpp:27-45 | So COUNT, SUM, AVG, MIN and MAX are equal, and sorting shows the same key sequence, for every tree |
| `Plans.LayersPartition` | MiniDB/src/executor/SeqScanExecutor.cpp:38-42 | The HOT and COLD scans of a table together hold exactly the rows of the BOTH scan |
| `Executors.ScanByLayers` | MiniDB/src/storage/LayerManager.cpp:36-49 | After any marks of pages as hot or cold, the merge of the hot and the cold scan of a table, asking one layer manager, yields first the rows of the hot pages, then the others, and loses and repeats none |
| `Plans.AggregatedSameElements` | MiniDB/src/executor/AggregationExecutor.cpp:20-48 | No aggregate depends on the order of its rows |
| `Plans.AggregatedMeans` | MiniDB/src/executor/AggregationExecutor.cpp:20-48 | The same of every list of 32-bit keys |
| `Plans.QuotientMeans` | MiniDB/src/executor/AggregationExecutor.cpp:45 | Division drops the fraction towards zero |
| `Plans.KeyMeans` | MiniDB/include/common/types.h:85-92 | The key of a row is the little-endian number at the offset, or zero where fewer than four bytes are left |
| `Plans.ScannedMeans` | MiniDB/src/executor/SeqScanExecutor.cpp:38-42 | A HOT scan yields the rows of the hot pages, a COLD scan those of the others, any other scan all rows, each in table order |
| `Plans.SortMeans` | MiniDB/src/executor/SortExecutor.cpp:20-22 | A sort yields its child's rows, none lost or repeated, and no key is greater than a later one |
| `Plans.CrossJoinAt` | MiniDB/src/executor/JoinExecutor.cpp:20-46 | Row j of the right input for row i of the left stands at place i * n + j of the join and is the two payloads end to end, the first 2048 bytes of them |
| `Plans.SortedKeysEqual` | MiniDB/src/executor/SortExecutor.cpp:20-22 | Any two sorts of the same rows show the same key sequence, however ties fall |
| `Plans.InsertionSorts` | MiniDB/src/executor/SortExecutor.cpp:20-22 | There are sorts as the theorems assume them: insertion sort is one |
| `Plans.CrossJoinAssociative` | MiniDB/src/executor/JoinExecutor.cpp:20-46 | (A join B) join C and A join (B join C) yield the same byte strings in the same order, cut tuples included |
| `Plans.CombineAssociative` | MiniDB/src/executor/JoinExecutor.cpp:25-38 | Cutting at 2048 bytes twice is cutting once |
| `Plans.CrossJoinSameLeft` | MiniDB/src/executor/JoinExecutor.cpp:20-46 | Reordering the left input only reorders the join |
| `Plans.CrossJoinSameRight` | MiniDB/src/executor/JoinExecutor.cpp:20-46 | Reordering the right input only reorders the join |
| `Plans.CrossJoinLength` | MiniDB/src/executor/JoinExecutor.cpp:20-46 | A join has as many rows as the product of its inputs |
| `Plans.SumFits` | MiniDB/src/executor/AggregationExecutor.cpp:20-24 | The running sum stays within the row count times the 32-bit range |
| `Permutations.AscendingUnique` | MiniDB/src/executor/SortExecutor.cpp:20-22 | A list of keys has one ascending arrangement |
| `BPlusTreeLookup.BPlusTree.GetValue` | MiniDB/src/index/BPlusTree.cpp:99-144 | On any stored ordered tree: exactly all record ids of the key in order, true exactly if there are some, and store and pin counts as before; refused only when the pool is full and a page of the descent is not pinned |
| `BPlusTreeLookup.BPlusTree.FindLeafPage` | MiniDB/src/index/BPlusTree.cpp:57-88 | Terminates by the height and reaches the leaf at the end of the lookup path, which for a key is the only one that can hold it and for leftmost is the first of all; only that leaf is left pinned |
| `BPlusTreeLookup.BPlusTree.VisitPage` | MiniDB/src/index/BPlusTree.cpp:65-86 | An inner page is released before its child is fetched, so one available frame suffices |
| `BPlusTreeLookup.BPlusTree.NextChild` | MiniDB/src/index/BPlusTree.cpp:74-83 | The child at the upper bound of the key among the separators, or the leftmost one |
| `BPlusTreeLookup.BPlusTree.BinarySearch` | MiniDB/src/index/BPlusTree.cpp:36-55 | The first position whose key is greater; zero without a page |
| `BPlusTreeLookup.BPlusTree.CollectMatches` | MiniDB/src/index/BPlusTree.cpp:115-140 | The record ids of the key in this leaf, in order; the forward loop from the upper bound adds none |
| `BPlusTreeLookup.BPlusTree.RunBefore` | MiniDB/src/index/BPlusTree.cpp:118-128 | The backward loop collects the maximal run of equal keys that ends at the upper bound |
| `BPlusTreeLookup.BPlusTree.IsLeaf` | MiniDB/src/index/BPlusTree.cpp:28-34 | A page is a leaf if its first integer is one |
| `IndexPages.LeafBytes` | MiniDB/src/index/BPlusTree.cpp:111-139 | A leaf as stored: kind 1, number of keys, the keys, then page id and slot of each record id, each integer at its byte offset |
| `IndexPages.NodeBytes` | MiniDB/src/index/BPlusTree.cpp:81-83 | An inner page as stored: another kind, number of separators, the separators, one unused integer, the child page ids |
| `IndexPages.DescendKeepsRids` | MiniDB/src/index/BPlusTree.cpp:74-86 | In an ordered tree only the child at the upper bound holds record ids of the key |
| `IndexPages.OnlyLeaf` | MiniDB/src/index/BPlusTree.cpp:57-88 | No leaf of an ordered tree but the one a lookup reaches has the key |
| `IndexPages.LeafHasKey` | MiniDB/src/index/BPlusTree.cpp:57-88 | The leaf a lookup reaches has the key whenever the tree does |
| `IndexPages.LookupEnds` | MiniDB/src/index/BPlusTree.cpp:57-88 | A lookup ends at a leaf of the tree, the last page of its path; the leftmost lookup at the first leaf |
| `BPlusTreeLookup.BPlusTree.RunFrom` | MiniDB/src/index/BPlusTree.cpp:130-139 | The forward loop collects the maximal run of equal keys that starts at the upper bound |
| `IndexPages.RunIsAll` | MiniDB/src/index/BPlusTree.cpp:118-139 | In a leaf in order the run before the upper bound is everything, and the one after it is empty |
| `IndexPages.MatchingRange` | MiniDB/src/index/BPlusTree.cpp:118-139 | The record ids of a key are those of one contiguous range of entries |
| `IndexPages.UpperBoundUnique` | MiniDB/src/index/BPlusTree.cpp:45-54 | There is only one upper bound |
| `TableHeaps.TableHeap.InsertTuple` | MiniDB/src/storage/table_heap.cpp:61-112 | A heap with one more tuple under a new record id, all pins as before; fails, changing nothing, exactly when the pool is full and the last page is missing, not pinned or without room. The tuple stays on the last page, in its next slot, if and only if fewer than 102 tuples are there and 12 plus their sizes plus its own plus 8 is at most 4096; else it is slot 0 of a fresh page |
| `TableHeaps.TableHeap.InsertAll` | MiniDB/src/storage/table_heap.cpp:61-112 | Over any run of insertions through the evicting pool all record ids are distinct and new, pins balance, and unless the pool is full none fails |
| `TableHeaps.TableHeap.FetchMissingPage` | MiniDB/src/storage/table_heap.cpp:66 | Looking for page -1 breaks the pool if and only if a frame can be had for it |
| `TablePages.InsertedKeeps` | MiniDB/src/storage/table_heap.cpp:100-108 | One more tuple keeps every page header accounting for its tuples and adds one record id, never handed out before |
| `TablePages.InsertedMeans` | MiniDB/src/storage/table_heap.cpp:82-108 | Where an insertion puts a tuple, by the sizes of the last page |
| `TablePages.RoomMeans` | MiniDB/src/storage/table_heap.cpp:85 | A page that accounts for tuples has room for another if and only if they are fewer than 102 and 12 plus their sizes plus its size plus 8 is at most 4096 |
| `TablePages.HeaderMeans` | MiniDB/src/storage/table_heap.cpp:82-84 | Bytes 4 to 7 hold 12 plus the sizes and bytes 8 to 11 the number of tuples, least significant byte first |
| `TablePages.FormatMeans` | MiniDB/src/storage/table_heap.cpp:91-96 | A formatted page is zero but for the 12 in byte 4 |
| `TablePages.StoredSlot` | MiniDB/src/storage/table_heap.cpp:56-59 | Entry n of the slot array, 8 bytes each from byte 12 on, names the payload and its size, unless the payload itself was written over it |
| `Bytes.LittleEndian` | MiniDB/src/storage/table_heap.cpp:41-55 | Four bytes are read as a two's complement number, least significant byte first |
| `TableHeaps.TableHeap.PageFor` | MiniDB/src/storage/table_heap.cpp:66-98 | The last page if the tuple fits, else a fresh formatted one; a page refused by a full pool cannot be replaced by a new one |
| `TableHeaps.TableHeap.StoreOn` | MiniDB/src/storage/table_heap.cpp:100-110 | Bytes, dirty release and slot number of one insertion |
| `TableHeaps.TableHeap.StartPage` | MiniDB/src/storage/table_heap.cpp:86-97 | A fresh page with an empty header, held once |
| `TableHeaps.TableHeap.constructor` | MiniDB/src/storage/table_heap.cpp:25-40 | One formatted page, released again, or none exactly if the pool is full |
| `TablePages.StoredAccounts` | MiniDB/src/storage/table_heap.cpp:100-103 | The header keeps next_free at 12 plus the stored sizes and n_slots at their number, at most 102, with every write inside the page |
| `TablePages.FormatAccounts` | MiniDB/src/storage/table_heap.cpp:91-96 | A formatted page accounts for no tuples |
| `TablePages.StoredElsewhere` | MiniDB/src/storage/table_heap.cpp:100-103 | Nothing on the page changes but the slot entry, the payload and the two counters |
| `TablePages.StoredPayload` | MiniDB/src/storage/table_heap.cpp:101 | The payload stands where the free pointer was |
| `TablePages.AddTuple` | MiniDB/src/storage/table_heap.cpp:105-108 | One more tuple on a page of the heap adds exactly one record id, never handed out before |
| `LayerManagement.RateBound` | MiniDB/src/storage/LayerManager.cpp:51-71 | In any timed run, the events of a span of T seconds move at most (floor(T) + 2) * (limit + batch - 1) rows, also when announcements interleave |
| `LayerManagement.LimitKept` | MiniDB/src/storage/LayerManager.cpp:51-71 | The counter stays within the limit between resets if and only if every batch let in fits in what the limit leaves |
| `LayerManagement.FittingRate` | MiniDB/src/storage/LayerManager.cpp:51-71 | With batches that fit, a span of T seconds moves at most (floor(T) + 2) * limit rows |
| `LayerManagement.MigrateBusily` | MiniDB/src/storage/LayerManager.cpp:27-71 | The overshoot on the limiter itself, for every limit, batch size and number of seconds |
| `LayerManagement.CappedRate` | MiniDB/src/storage/LayerManager.cpp:51-71 | Whatever cap the counter keeps, a span of T seconds moves at most (floor(T) + 2) times the cap |
| `LayerManagement.RateBoundIsTight` | MiniDB/src/storage/LayerManager.cpp:51-71 | For every limit, batch size and number of seconds T there is a run whose span of T whole seconds moves exactly (T + 2) * (limit + batch - 1) rows, so no smaller bound holds |
| `LayerManagement.ResetsApart` | MiniDB/src/storage/LayerManager.cpp:51-66 | Two counter resets are at least a second apart, whatever happens between them |
| `LayerManagement.LastMarkDecides` | MiniDB/src/storage/LayerManager.cpp:36-49 | The last mark of a page decides its layer, whatever was marked before and besides |
| `LayerManagement.UnmarkedStays` | MiniDB/src/storage/LayerManager.cpp:36-49 | A page that is not marked keeps its layer |
| `LayerManagement.LayerManager.ApplyMarks` | MiniDB/src/storage/LayerManager.cpp:41-49 | Marks on the manager put each page where its last mark says |
| `LayerManagement.BoundSinceLast` | MiniDB/src/storage/LayerManager.cpp:51-71 | Each further second allows one more reset, each reset one more full counter |
| `LayerManagement.BoundFrom` | MiniDB/src/storage/LayerManager.cpp:51-71 | The same from any time on, with one reset that may come at once |
| `LayerManagement.LayerManager.RunMigrations` | MiniDB/src/storage/LayerManager.cpp:51-71 | Driving the limiter moves exactly the rows of the timed run |
| `LayerManagement.LayerManager.CanMigrateMore` | MiniDB/src/storage/LayerManager.cpp:51-61 | If a second or more has passed on the nanosecond clock, the counter becomes 0 and the clock value now, else nothing changes; then answers whether the counter is below the limit |
| `LayerManagement.LayerManager.RecordMigrationStart` | MiniDB/src/storage/LayerManager.cpp:63-66 | Moves the clock value without resetting the counter |
| `LayerManagement.LayerManager.RecordMigrationRows` | MiniDB/src/storage/LayerManager.cpp:68-71 | Adds rows to the counter, whatever the limit |
| `Locking.LockManager.LockShared` | MiniDB/src/concurrency/LockManager.cpp:35-64 | Granted if and only if already held or not held exclusively; keeps holder sets, mode NONE and the transactions' own lock sets consistent |
| `Locking.LockManager.LockExclusive` | MiniDB/src/concurrency/LockManager.cpp:66-94 | Granted if and only if already held or not held shared; the caller ends up as the single exclusive holder if and only if the record was free or already its own |
| `Locking.LockManager.Unlock` | MiniDB/src/concurrency/LockManager.cpp:96-110 | The transaction leaves holders and lock set together, and the last one out resets the mode |
| `Locking.LockManager.Holds` | MiniDB/include/concurrency/Transaction.h:36-38 | A transaction knows itself to hold a record exactly when it is among its holders |
| `Locking.LockManager.HeldByOthers` | MiniDB/src/concurrency/LockManager.cpp:46-53 | Whether somebody else holds the record |
| `Locking.ModesSeparate` | MiniDB/src/concurrency/LockManager.cpp:35-110 | In every reachable table the holders of one record were all let in in the same mode |
| `Locking.TwoWriters` | MiniDB/src/concurrency/LockManager.cpp:66-94 | Exclusive mode is not single-holder: two transactions get it on one record |
| `Locking.UpgradeIgnored` | MiniDB/src/concurrency/LockManager.cpp:74-76 | A reader asking for exclusive access is told yes and stays one of several readers |

## Left out

- File opening, seeking, stream error state and the 32-bit file offset of DiskManager: the disk is a map from page id to
  4096 bytes in which pages never written read as zeros, and the id counter starts at any value above the stored pages.
- Latches and threads: public methods are atomic; the size count taken inside Victim is a plain count.
- PoolClient.Client.Fetch: only for allocated ids, the only ones the plain page store has. What a fetch of any other id
  does, and that it breaks the structure, is part of `FetchPage`, `LoadInv` and `TwoFramesOnePage`; what a pool does
  after that is not modelled.
- TableHeaps.TableHeap.InsertTuple: not for a heap that has no first page while a frame is free. Its first step then is
  the fetch of page -1, which `FetchMissingPage` shows to break the pool; the rest of the insertion is not modelled.
- TableHeaps.TableHeap.InsertAll: the same.
- TableHeaps.TableHeap.PageFor: the same.
- Disk.DiskManager.ReadPage: the state of the stream and the 32-bit offset are not modelled; a read gives what was last
  written.
- Disk.DiskManager.WritePage: reopening the stream, which fails when it is open already, is not modelled; a write
  succeeds.
- Page temperatures: the pool reads them, nothing sets them; every value is allowed. Access counts and times.
- Pin counts, row counters and slot numbers are unbounded integers; 32-bit overflow of the first two is not modelled.
- The destructor of the pool and the page objects DeletePage forgets to free.
- B+ tree Insert, Remove, splits, coalescing and the iterator: trees are given as laid-out pages, and nothing is claimed
  about trees the insertion builds.
- TableHeap GetTuple, UpdateTuple, DeleteTuple and the iterator: slot entries and payloads both grow from byte 12, so
  stored tuples are not readable in general. Scans take an abstract list of rows.
- Tuples whose recorded size exceeds their 2048-byte buffer; `InsertTuple` treats the size as the length of the bytes.
- The four header bytes at offset 0 stay zero and are not mentioned by the header accounts.
- TableHeap sets the dirty bit on the page and then releases it as dirty; the model has the release only, and the writes
  of one insertion are one step.
- Record ids carried by executor tuples, null output pointers, and bytes of a tuple buffer beyond its size.
- The inside of std::sort: a sorter is any function that returns its input in ascending key order; it is the same
  function each time a tree is run.
- The hot set does not change while a query runs, although between two queries it may.
- The 64-bit sum and count of an aggregate are unbounded; `Plans.SumFits` shows the sum cannot overflow below 2^32 rows.
- Migration logs, the hot threshold and the write-ahead log in LayerManager.
- Only ASCII letters have an upper case.
- Wait queues, lock upgrade, two-phase locking and BuildWaitGraph, which the code does not use.
- ServerManager, MetricsManager, WALManager, CheckpointManager, LockTable, QueryPlanCache, CatalogManager,
  BenchmarkRunner, InsertExecutor, IndexScanExecutor, LogBuffer and QueryOptimizer: sockets, counters, stubs or regular
  expressions.
- Some loops and branches of long methods are methods of their own (for example the two sweeps of Victim and the two
  halves of the scanner), and the scanner tests whether it is inside a quotation before it looks at the character.
