# NovaVisor: protocols, walks and formats

NovaVisor is an EL2 hypervisor and a Python bridge that watches it. This project models the
parts of both whose correctness no single function shows: the lock-free protocols between cores,
guests and the host, and the walks, rings and formats whose fast form must agree with a plain one.
`dafny verify dfyconfig.toml` checks it.

- **Publishing.** `SpinLock`, `LockProgress`, `MonotonicCounter`, `Telemetry`, `TelemetrySafety`,
  `TelemetryTail`, `TelemetryTurns`, `Rounds`, `TelemetryPublisher`, `Freshness`, `FreshRuns`: the
  ticket lock, the seqlock whose sequence returns to its old value when nothing moved, its readers,
  what one call publishes, and how stale the budgeted round-robin over it lets a value get.
- **Translation.** `Bits`, `Translation`, `Descriptors`, `PageTree`, `PageWalks`, `TreeContents`,
  `Geometries`, `CapturedTables`, `Windows`: the single-address probe and what it reads in plain
  arithmetic, the whole-tree walk that folds runs, nested stages, the sparse copy of the tables, and the intervals two translations differ in. Geometry follows section
  D8.2 of the Arm Architecture Reference Manual, DDI 0487.
- **History.** `Histories`: the overwriting ring kept in time order.
- **Rings.** `CommandRing`, `CommandUntrusted`, `CommandRecovery`, `CommandPage`, `OpTables`,
  `GuestRing`, `GuestRingPage`, `PingPong`: the host's command ring against honest and arbitrary producers, the
  guests' ring, and a protocol of two guests over two of them.
- **Device trees.** `Fdt`, `FdtRoundTrip`, `FdtGuest`, `GuestDtb`, `GuestRecovery`, `DeviceTree`,
  `GuestTree`, `Placement`: the Python writer, the guest's C parser, what any reader finds in a
  guest's tree, and the memory layout. Formats follow sections 5.2, 5.4 and
  5.5 of the Devicetree Specification v0.4.
- **The rest of the bridge.** `Trace`, `Recordings`, `Dispatchers`, `Symbols`: ring placement,
  checkpointed seeks, the life of a query, and mangled-name lookup after section 5.1 of the Itanium
  C++ ABI.

A protocol is a state machine with one memory access per step; its theorems hold over every finite
sequence of steps. Fields marked as history record what happened and no step depends on them. Code
that updates fields or buffers is a class or a method over an array, proved against a function of
its state, and the theorems are about that function. Machine words wrap where the source's do.

## Where the code does less than it says

Each is kept as the code has it, with the exact condition proved.

- `copy_changed` reads a byte tail twice. A tail that changes in between reaches readers under an
  unmoved sequence, so the layer's promise needs spans of whole aligned words
  (`TelemetryTail.SoundIffWholeWords`).
- The tree walk has no counterpart of the probe's input check. Under a root with more slots than
  the input needs, as EL2's own Stage 1 has, it lists addresses the probe refuses
  (`Geometries.AgreeIffFull`).
- The decoder takes every type but 00 and 01 for a table or a page. A word ending in binary 10 is
  nothing to the hardware, whose low bit says whether there is a descriptor at all
  (`Descriptors.HardwareIff`).
- A captured copy reads an aligned word as zero when only an extent with an unaligned base holds it
  (`CapturedTables.FaithfulIffStrided`).
- A producer that keeps the protocol again while a drain is under way can lose commands, in two
  ways: the drain is on its way to an index past the one the page now shows, or it is about to
  store an index it refused over a ring with room. From every other state nothing is lost
  (`CommandRecovery.Recovers`, `LostInDrain`, `LostInResync`).
- Dispatch loads the opcode twice from a page the producer can write, so an opcode nobody claims
  can run its truncation; only if it is wide and the first load was not (`OpTables.OpTable.Dispatch`).
- A name holding a NUL is written whole and reads back cut at it (`FdtRoundTrip.WritesReadBack`).
- A device called "memory" replaces the guest's memory size (`GuestRecovery.ToldExactly`).
- A seek answers with every frame before the checkpoint it resumes at, in time or not, and then
  with frames up to the first later one. Those are the frames up to the timestamp, at any interval,
  only when none of them comes after a later one (`Recordings.SeekIsRightIff`); otherwise the
  interval can show in the answer (`Recordings.IntervalShows`).
- `address_of` says no shorter name can be a prefix of a mangled one. One-component names are not
  mangled, and each begins some other name (`Symbols.OneNameIff`); names spelling out the anonymous
  namespace's marker meet others (`Symbols.MarkerCollides`).

## Model

| member | source | states |
|---|---|---|
| SpinLock.ExclusiveIff | src/nova/sync.hpp:18-39 | Over every run of the lock's atomic accesses, two threads are never both inside **iff** at most 2^32 threads use it; the other half is a run that draws every ticket once round and lets two in |
| SpinLock.FifoGrants | src/nova/sync.hpp:20-32 | In every run the order of entry is a prefix of the order tickets were drawn in, and at most one entry is unreleased, with both 32-bit counters wrapping |
| SpinLock.OldestEntersNext | src/nova/sync.hpp:21-26 | When the lock is free and someone waits, a poll by thread t gets in exactly when t drew the oldest ticket outstanding |
| SpinLock.RunInv | src/nova/sync.hpp:18-39 | The invariant behind the three: outstanding tickets are the last ones drawn, all distinct although they wrap, and every step keeps it |
| LockProgress.UnlockPassesOn | src/nova/sync.hpp:29-31 | From every reachable state with a thread inside, its own next accesses are enabled and end with it out, the next ticket served and nothing else moved |
| LockProgress.LockAlone | src/nova/sync.hpp:20-27 | On a lock that is free and unwanted, however it got there, drawing and one look get in |
| LockProgress.NeverStuck | src/nova/sync.hpp:18-39 | In every reachable state where some thread is in the lock or waiting, the thread with the oldest unreleased ticket has a step to make that is not a fruitless look |
| LockProgress.EachStepCounts | src/nova/sync.hpp:20-32 | The measure of a wait: draws and fruitless looks leave it, every other access of any thread lowers it by one |
| LockProgress.EntersInTime | src/nova/sync.hpp:20-32 | From every reachable state the owner of the i-th ticket is the i-th to enter, after three fruitful accesses for each ticket from the one served to its own and one more, whatever later threads do |
| MonotonicCounter.DistinctUntilLap | src/nova/sync.hpp:55-70 | Whatever way callers interleave and retry, no value handed out is 0, and the i-th and j-th are equal exactly when whole laps of 2^64 - 1 separate them |
| MonotonicCounter.LosesOnlyToAnother | src/nova/sync.hpp:55-70 | A caller in its loop fails to exchange only if a value was handed out since it last looked; otherwise its exchange hands out the next one and it is done |
| MonotonicCounter.CallAlone | src/nova/sync.hpp:55-70 | A call with nobody else about hands out the next value with one load and one exchange |
| TelemetrySafety.StillRunsAreFaithful | src/nova/telemetry.hpp:248-321 | In every interleaving of publishing cores and readers where the byte loop's second read agrees with its first, each accepted reading has the sequence, bytes and stamp of the one closing store before it; and closes with one even sequence show one content although an unchanged window puts the sequence back |
| TelemetrySafety.WholeWordRunsAreStill | src/nova/telemetry.hpp:107-114 | That premise holds of itself when every span is copied in whole words: the word loop reads its source once |
| TelemetryTail.SoundIffWholeWords | src/nova/telemetry.hpp:101-120 | The promise holds over every run **iff** every declared span is word aligned and a whole number of words |
| TelemetryTail.TornTail | src/nova/telemetry.hpp:115-118 | For any span with a byte tail, in any configuration, a run in which the tail changes between the comparison and the store, and one reader before and after it: both readings are accepted, under one sequence, with different bytes |
| TelemetrySafety.SingleWriter | src/nova/telemetry.hpp:270-277 | Two cores are never both inside a turn, whichever mix of budgeted and full turns they make |
| TelemetrySafety.ClosesNameValues | src/nova/telemetry.hpp:260-266 | Along one slot's closes, the sequence stays where it is exactly when the payload does, and equal sequences (nearer than 2^63 closes) mean equal content |
| TelemetrySafety.SkipOk | novakit/services/workbench/snapshot.py:455-465 | A reader that skips because its cursor equals the sequence holds the very payload and stamp the slot has now |
| TelemetrySafety.RunInv | src/nova/telemetry.hpp:209-268 | Every step of every run with a still source keeps the protocol's invariant |
| TelemetryTurns.TurnsAreAsAsked | src/nova/telemetry.hpp:209-240 | In every reachable state a core in a turn is in the kind of turn of its own last call, with the stamp of that call; it opens a slot only with budget and slots left; and a slot it is about to close that moved already shows that stamp |
| TelemetryTurns.CallAlonePublishes | src/nova/telemetry.hpp:209-268 | From every reachable state with no core in a turn, a call whose core then runs alone gets back out, its own accesses enabled one after another. A budgeted call leaves the cells, cursor and count the budget rule says, a full one every slot published; changed slots carry the stamp of the call |
| TelemetryTurns.CloseCarriesStamp | src/nova/telemetry.hpp:248-268 | In every run, whatever else goes on: a step that closes a slot appends one close, and if the content moved it carries the stamp of the last call of the core that closed it |
| TelemetryPublisher.CopyChanged | src/nova/telemetry.hpp:101-120 | The destination becomes the source over exactly the span, nothing else moves, and the answer is whether any byte differed |
| TelemetryPublisher.Publisher.Bind | src/nova/telemetry.hpp:137-156 | Binding empties the table, the watermarks and the cursor, and leaves the region unfindable |
| TelemetryPublisher.Publisher.Declare | src/nova/telemetry.hpp:166-185 | A span is accepted exactly when placed, non-empty, a row is left and its padded size fits; a refusal changes nothing and a new payload starts at the old watermark. `Valid()` keeps payloads disjoint |
| TelemetryPublisher.Publisher.Open | src/nova/telemetry.hpp:189-197 | Opening puts the slot count and the total a full sweep moves into the header, and only on a placed region |
| TelemetryPublisher.Publisher.WriteSlot | src/nova/telemetry.hpp:248-268 | In the bytes themselves: one slot's payload and descriptor change, by 2 in the sequence iff the payload moved; every other byte and row is as it was |
| TelemetryPublisher.Publisher.PublishSlot | src/nova/telemetry.hpp:248-268 | The same on the abstract cells, given that the region shows them |
| TelemetryPublisher.Publisher.Publish | src/nova/telemetry.hpp:209-221 | A budgeted turn visits exactly the slots the budget rule says from the cursor on, spends their total and leaves the cursor after them |
| TelemetryPublisher.Publisher.PublishAll | src/nova/telemetry.hpp:230-240 | A full turn publishes every slot once, in order, whatever the budget; the cursor is not in its frame |
| TelemetryPublisher.VisitedSlot | src/nova/telemetry.hpp:216-219 | What the visiting loop leaves of slot i: published once if the turn reaches it, else untouched |
| TelemetryPublisher.CursorIsMod | src/nova/telemetry.hpp:218-218 | Stepping the cursor `visited` times is adding modulo the number of slots |
| Rounds.TurnsComeRound | novakit/services/workbench/snapshot.py:400-407 | Freshness: with a nonzero budget, ceil(total / budget) turns from any cursor visit at least as many slots as there are |
| Rounds.TurnOverrun | src/nova/telemetry.hpp:199-208 | A turn spends less than the budget plus the slot it ends on |
| Rounds.ZeroBudgetStalls | novakit/services/workbench/snapshot.py:398-399 | With a zero budget no number of turns visits anything |
| Rounds.SweptAround | src/nova/telemetry.hpp:211-221 | One whole round from any cursor spends exactly the published total |
| FreshRuns.StaleNoLonger | novakit/services/workbench/snapshot.py:400-407 | Over interleaved runs, with full turns of other cores, readers and writes of other globals in between: from any reachable moment, once ceil(total / budget) budgeted turns have ended, and one more if a turn was under way, every slot has been closed again, and one whose global was left alone meanwhile shows it |
| FreshRuns.RunTracks | src/nova/telemetry.hpp:248-268 | Along any run that leaves one global alone, whoever copies it holds it as it is, and from its first close on the slot shows it |
| FreshRuns.RunAccounts | src/nova/telemetry.hpp:209-221 | Along any run, either the cursor has been all the way round or each budgeted turn that ended spent its whole budget |
| Freshness.EveryoneUpToDate | novakit/services/workbench/snapshot.py:400-407 | The same for turns one after another over still globals, with the sequence: it moved iff the payload did |
| TelemetryTurns.CloseIsPublish | src/nova/telemetry.hpp:248-268 | In every interleaved run with a still source that close is to the one before it what the sequential publish, with the stamp the core called with, makes of a cell |
| PageWalks.TreeIsProbe | novakit/services/workbench/translation.py:475-552 | For a fully readable, untruncated tree of a zero-fill regime and every input address, the outputs of the leaf runs covering the address are exactly the probe's output: one run if it maps, none if it does not |
| PageWalks.ProbeLookup | novakit/services/workbench/translation.py:475-509 | The probe's output is that of a recursive lookup of the address, level by level |
| PageWalks.DescendHits | novakit/services/workbench/translation.py:519-537 | At any depth a table's nodes cover an address exactly as the lookup in that table does, and cover nothing outside the table's range |
| PageWalks.FoldHits | novakit/services/workbench/translation.py:532-552 | Folding a slot into the run before it covers the slot's addresses with its own outputs and leaves all others alone |
| PageWalks.RunGrows | novakit/services/workbench/translation.py:540-552 | A run extended by one slot maps what it mapped and the new span |
| PageWalks.IndexInSlot | novakit/services/workbench/translation.py:102-108 | In slot i's range the walk selects slot i, and the masked offset is the distance into the slot |
| PageWalks.LeafJoin | novakit/services/workbench/translation.py:313-315 | A leaf's output field has nothing below its span, so the bitwise join is addition |
| Translation.FollowDown | novakit/services/workbench/translation.py:475-509 | The walk's loop records the steps, output, level and fault of the recursive probe |
| Descriptors.KindIs | novakit/services/workbench/translation.py:288-309 | What a word is, by its two low bits and the level: with the builder's constants, nothing iff they are 00 or 01 at the last level, a block iff 01 above it, a table iff 10 or 11 above it, a page iff 10 or 11 at it |
| Descriptors.HardwareIff | src/components/core/core_mmu/include/core_mmu/stage2_descriptor.hpp:41-47 | The decoder agrees with what the two bits mean to the hardware **iff** they are not 10 |
| Descriptors.OutputIs | novakit/services/workbench/translation.py:310-315 | For an output field of bits lo up to hi: a table's output is the word's bits lo up to hi, a leaf's the bits from its span up to hi, as differences of remainders |
| Descriptors.HeaderField | src/components/core/core_mmu/include/core_mmu/stage2_descriptor.hpp:72-73 | The builder's mask is bits 12 to 47 |
| Descriptors.LittleEndian | novakit/services/workbench/translation.py:472-472 | A word's i-th byte is the i-th byte read |
| Descriptors.ProbeIsWalked | novakit/services/workbench/translation.py:475-509 | A probe's output is that of a walk in plain arithmetic: at each level the address divided by the span picks an eight-byte little-endian word, whose low bits say whether to stop, go on at its bits lo up to hi, or answer; at every address, taken or refused |
| Descriptors.GuestReads | novakit/services/workbench/translation.py:355-372 | A read of a guest's space is a read of what is under it at the address the Stage 2 walk, in the same arithmetic, puts it at; a Stage 2 fault iff that walk ends nowhere |
| Descriptors.RamReads | novakit/services/workbench/translation.py:475-509 | A walk's read of mapped memory gives the bytes at those addresses iff all of them are mapped |
| Descriptors.ProbeTraced | novakit/services/workbench/translation.py:475-509 | Each step a probe shows was read in the table the one before gave, at the slot the address picks, and the level it names is the one it ended at |
| Descriptors.GuestRegister | novakit/services/workbench/translation.py:169-205 | From the bits of the register: a half has a geometry iff its granule is not reserved and lies below its input width, and that below the bits read; a page is then a granule and a table a granule of words |
| PageTree.Walk.Table | novakit/services/workbench/translation.py:459-472 | Fetching a table unpacks it or counts it unreadable or over the limit, as the specification counts it |
| PageTree.Walk.DescendTable | novakit/services/workbench/translation.py:519-537 | The recursive descent over mutable counters is the functional descent, nodes and tallies |
| PageTree.BuildTree | novakit/services/workbench/translation.py:512-516 | A whole tree is that descent from the root with fresh counters |
| TreeContents.TableAlike | novakit/services/workbench/translation.py:519-552 | In every table read, each slot a node stands for has the node's kind and non-address bits, and the output so many spans on: no run joins slots that differ |
| TreeContents.RunShowsAttributes | novakit/services/workbench/translation.py:540-552 | So a run's attributes are those of each slot in it |
| TreeContents.TreeCounts | novakit/services/workbench/translation.py:459-516 | A tree reads no more tables than the limit, is cut short only at the limit, and if whole has read the root and one for each table descriptor in it |
| Geometries.AgreeIffFull | novakit/services/workbench/translation.py:512-537 | For any format in which some top-level descriptor maps: over every reader, root, limit and address the tree and the probe agree **iff** the root table is exactly as wide as the regime's input; a root with slots beyond the input maps addresses no probe accepts |
| Geometries.DisagreeIfPartial | novakit/services/workbench/translation.py:475-537 | One table of leaves and the first address past a partial root's input show it |
| Geometries.AgreeIfFull | novakit/services/workbench/translation.py:475-552 | With a full root they agree at every 64-bit address, in the input or not |
| Geometries.GuestGeometryExists | novakit/services/workbench/translation.py:175-205 | A guest's register value has a geometry exactly when its granule is defined and its width lies strictly between the granule and the bits read; when it has, the levels cover exactly that width |
| Geometries.MadeGeometry | novakit/services/workbench/translation.py:111-146 | Which shifts, widths and halves a built geometry has, and exactly when it is refused |
| Geometries.HoldsIsHalf | novakit/services/workbench/translation.py:85-88 | An address is held by a low-half regime iff it is below 2^width, and by a high-half one iff it is in the top 2^width of what the hardware reads |
| Geometries.S1ptwIsStage2 | novakit/services/workbench/translation.py:341-372 | A nested walk's outcome blames the right stage: a stage-2 abort exactly where stage 2 has no output for the descriptor address, and each other fault for its own reason |
| CapturedTables.CopyTables | novakit/services/workbench/regimes.py:237-261 | The copy is refused exactly when some present table cannot be read, and otherwise holds exactly the nonzero words on the tables' strides |
| CapturedTables.CopyReadsBack | novakit/services/workbench/regimes.py:329-347 | An 8-aligned range in one extent reads back as the original bytes; any other range is refused |
| CapturedTables.FaithfulIffStrided | novakit/services/workbench/regimes.py:329-347 | That holds for every copy and every memory **iff** the extents reach every aligned word they contain on an extent's own stride |
| CapturedTables.AlignedIsStrided | novakit/services/workbench/regimes.py:329-347 | Which every list of extents with bases on eight bytes meets, whatever their sizes |
| CapturedTables.MissedWord | novakit/services/workbench/regimes.py:254-259 | For any word not so reached, a memory and a copy of it that read back differently |
| CapturedTables.ProbeOfCopy | novakit/services/workbench/regimes.py:329-347 | A probe of the copy that met nothing missing is the probe of the memory, steps and fault included |
| CapturedTables.TreeOfCopy | novakit/services/workbench/regimes.py:471-476 | A tree of the copy with nothing unreadable is the tree of the memory, node for node |
| Windows.CollectWindows | novakit/services/workbench/regimes.py:482-502 | The windows are sorted, pairwise separated, and their union is exactly the addresses the tree maps |
| Sorting.Sort | novakit/services/workbench/regimes.py:495-495 | For any total order: sorted and a permutation, as the tuples of windows and of drains are |
| Windows.Merge | novakit/services/workbench/regimes.py:496-502 | Separated, and the same addresses |
| Windows.Minus | novakit/services/workbench/regimes.py:505-518 | The difference of two separated lists: separated, and exactly the addresses of the first not in the second |
| Windows.Isolation | novakit/services/workbench/regimes.py:532-554 | Both differences of the two regimes' windows, or nothing unless both sides exist |
| Windows.OneListPerSet | novakit/services/workbench/regimes.py:482-502 | Two separated lists of one set of addresses are the same list, so the windows are canonical |
| Windows.IsolationOf | novakit/services/workbench/regimes.py:532-554 | Both trees built, each under its own limit, and both lists taken: where the trees are whole, an address is in `cpu_only` iff the CPU's probe has an output and the DMA's has none, and in `dma_only` the other way round; for every input address, and for every 64-bit one where the root table ends with the input |
| Histories.HoldsTheNewest | novakit/services/workbench/history.py:105-134 | After any log since a reset the ring holds, in order, exactly the last `capacity` records of the log stably sorted by time |
| Histories.SortedIsStable | novakit/services/workbench/history.py:119-127 | The sort meant: ordered by timestamp and then arrival, every record once |
| Histories.History.Insert | novakit/services/workbench/history.py:119-134 | In the ring itself, for any timestamp: the new contents are the newest `capacity` of the old ones with the record inserted, and the head goes up by one |
| Histories.History.InsertUnder | novakit/services/workbench/history.py:128-134 | The slow path: records unwound and pushed back over the wrapping buffer, including laps through stale slots |
| Histories.History.Lift | novakit/services/workbench/history.py:128-131 | Which records the unwinding loop takes off, where it stops, and that it ends |
| Histories.UnwoundPlace | novakit/services/workbench/history.py:119-134 | Reading the buffer as a periodic sequence, laying the record where the unwinding stopped inserts it among the retained ones, however far below them the loop went |
| Histories.NothingOlder | novakit/services/workbench/history.py:129-131 | Below the retained records the loop re-reads ones it already found newer, so it can only stop at zero |
| Histories.ForgetFirst | novakit/services/workbench/history.py:119-134 | Dropping the oldest before an insertion loses nothing that dropping it after would keep |
| Histories.History.Push | novakit/services/workbench/history.py:115-117 | One slot overwritten, the head up by one |
| Histories.History.Append | novakit/services/workbench/history.py:105-113 | A batch is its records one at a time |
| Histories.BatchesJoin | novakit/services/workbench/history.py:105-113 | How a log is cut into batches does not matter |
| Histories.History.Reset | novakit/services/workbench/history.py:85-96 | Empty again |
| Histories.History.Bisect | novakit/services/workbench/history.py:159-173 | The index splits the retained records into those before and those from the timestamp on |
| Histories.BisectIsScan | novakit/services/workbench/history.py:159-173 | Such an index is what a linear scan counts |
| Histories.History.Slice | novakit/services/workbench/history.py:175-200 | Exactly the retained records with first <= ts <= last, in order, at every rotation |
| Histories.WindowIs | novakit/services/workbench/history.py:175-192 | The filter is the run between two bisections, and empty when they cross |
| Histories.History.CopyOut | novakit/services/workbench/history.py:193-200 | A retained run copied in one piece or two is that run |
| Histories.TwoPieces | novakit/services/workbench/history.py:193-200 | A run is contiguous in the buffer or crosses the seam once |
| Histories.History.Span | novakit/services/workbench/history.py:136-140 | First and last timestamp, count and fullness of what is retained |
| Histories.History.At | novakit/services/workbench/history.py:142-157 | The index-th retained record, through the wrapping slot arithmetic |
| CommandRing.DeliversInOrder | src/nova/command.hpp:211-260 | Over every interleaving with an honest producer, across index wrap, the commands handed over are a prefix of those accepted, at most a ring's depth behind, and what waited at the start comes first; a half-written record is never handed over |
| CommandRing.EachCallAnswers | src/nova/command.hpp:211-260 | A drain returns the number it handed over, at most the depth; a push refuses exactly when full at its sample or not placed |
| CommandRing.RunInv | src/nova/command.hpp:187-266 | The ring's invariant, kept by every honest step |
| CommandUntrusted.DrainIsBounded | src/nova/command.hpp:228-260 | Whatever the producer stores and whenever, a drain takes at most the depth, returns what it took, and leaves the read index at the value it sampled; a resynchronisation hands nothing over |
| CommandUntrusted.DrainEnds | src/nova/command.hpp:231-235 | Each of the drain's own steps brings it nearer its end and nobody else's steps delay it |
| CommandRecovery.Recovers | src/nova/command.hpp:241-260 | After any misbehaviour, from whatever moment the producer keeps the protocol: every later push is handed over exactly once and in order, over every continuation, **iff** no drain is on its way to an index past the one the page shows, nor about to resynchronise over a ring with room |
| CommandRecovery.GoodRun | src/nova/command.hpp:211-260 | From such a moment, along any honest run: what is handed over and still owed is what was owed and pushed, through a drain already under way |
| CommandRecovery.LostInDrain | src/nova/command.hpp:253-258 | From every state with a drain on its way past the write index: a run in which one pushed command is published and jumped over |
| CommandRecovery.LostInResync | src/nova/command.hpp:249-252 | From every state with a drain about to resynchronise over a ring with room: a run in which every command pushed until the ring is full is jumped over |
| CommandPage.DrainAlone | src/nova/command.hpp:242-260 | An uninterrupted drain hands over everything that waits and nothing else |
| CommandPage.Ring.Enqueue | src/nova/command.hpp:211-226 | The page after a push: refused iff full or unplaced; accepted, the queue is one longer and the state is that of the interleaved protocol's own steps |
| CommandPage.Ring.Collect | src/nova/command.hpp:242-260 | The page after a drain: everything waiting handed over in order, both indices equal; page, count and commands are those of the interleaved protocol's own steps |
| CommandPage.Ring.Place | src/nova/command.hpp:300-329 | Placing empties the ring |
| OpTables.OpTable.Declare | src/nova/command.hpp:145-151 | Accepted exactly when there is room, a nonzero opcode nobody claims, and code to run; appended last |
| OpTables.OpTable.Find | src/nova/command.hpp:164-171 | Found iff claimed |
| OpTables.OpTable.Dispatch | src/nova/command.hpp:153-159 | With the opcode loaded twice from the writable page: runs iff the first load is narrow and the second, truncated, is claimed, by the handler declared for that; where the loads agree, iff the full-width opcode is claimed; an unclaimed opcode runs something only when the second load is wide |
| OpTables.OpTable.Rows | src/nova/command.hpp:283-298 | The rows are the declared ops, field by field, in order |
| OpTables.AdvertisedIsAccepted | src/nova/command.hpp:138-140 | An opcode is in the page's rows iff dispatch carries it out, in one row only, and never 0 or wider than the answer mask |
| GuestRing.RefinesFifo | demo/common/include/guest_ring.h:44-65 | After any interleaving, each access is a bounded FIFO's enqueue, dequeue, refusal or nothing; occupancy stays within the slots across 32-bit wrap |
| GuestRing.StepRefines | demo/common/include/guest_ring.h:44-65 | The same from any state the invariant admits |
| GuestRingPage.SharedRing.Push | demo/common/include/guest_ring.h:44-53 | 0 iff full; else the value is last, and the state is what the four interleaved accesses make it |
| GuestRingPage.SharedRing.Pop | demo/common/include/guest_ring.h:56-65 | 0 iff empty; else the oldest value, removed; and the state is what the interleaved accesses make it, either way |
| PingPong.NeverMismatched | demo/08_smp_pingpong/main_ping.c:84-131 | For any round count below the markers, from every start and in every interleaving: no bad ready, echo or done; both rings together hold at most one message; the initiator ends only after three resets with the responder retired |
| PingPong.SaidEverything | demo/08_smp_pingpong/main_ping.c:84-131 | When the initiator is over, however the accesses interleaved and across its resets: it has sent each round once in order and then DONE, the responder READY, each round and DONE, and all of it was taken |
| PingPong.FailsIffRefused | demo/08_smp_pingpong/main_ping.c:89-92 | The exchange fails exactly when starting the responder was refused |
| PingPong.NeverStuck | demo/08_smp_pingpong/main_pong.c:19-40 | Until the initiator is over, some core has an access to make that is not a fruitless poll |
| PingPong.FinishesInTime | demo/08_smp_pingpong/main_ping.c:84-131 | At most 20 * rounds + 70 accesses do anything but poll, so a run that keeps making them completes the DONE exchange |
| PingPong.StepNearer | demo/08_smp_pingpong/main_ping.c:84-131 | The measure behind it: a poll that finds nothing keeps it, every other step lowers it |
| Fdt.FdtWriter.Pad4 | novakit/image/dtb.py:95-97 | Zero bytes to the next multiple of four |
| Fdt.FdtWriter.StringOffset | novakit/image/dtb.py:99-103 | A name is stored once; its offset is answered ever after |
| Fdt.FdtWriter.BeginNode | novakit/image/dtb.py:105-109 | The writer after one call is the state its call list describes |
| Fdt.FdtWriter.EndNode | novakit/image/dtb.py:111-113 | The same for a closing token |
| Fdt.FdtWriter.Property | novakit/image/dtb.py:115-118 | The same for a property, its name interned first |
| Fdt.FdtWriter.Finish | novakit/image/dtb.py:129-141 | The blob: header, empty reservation map, structure and strings at the offsets the header gives, or refused |
| FdtRoundTrip.WritesReadBack | novakit/image/dtb.py:86-141 | Every call sequence is refused iff unbalanced or too large for 32-bit sizes; otherwise the structure block is 4-aligned and an independent reader recovers the very calls from the blob **iff** no name in them holds a NUL |
| FdtRoundTrip.WrittenIs | novakit/image/dtb.py:99-118 | What the accumulated buffers hold: the tokens of the calls under one final table of names |
| FdtRoundTrip.ReadTokens | novakit/image/dtb.py:105-118 | A reader gets the calls back from their tokens |
| FdtRoundTrip.StringsAreNames | novakit/image/dtb.py:99-103 | Each distinct name is stored exactly once, and nothing else |
| FdtGuest.ParseGuest | demo/common/include/fdt_el1.h:52-101 | On any blob an independent reader understands, the C walk yields what the guest is told by its calls; a wrong magic or no blob yields nothing |
| FdtGuest.ParseBlocks | demo/common/include/fdt_el1.h:59-99 | The same from the two blocks the header locates |
| FdtGuest.ParseTokens | demo/common/include/fdt_el1.h:63-98 | The token loop against the token marks of the blob |
| FdtGuest.MarksOf | demo/common/include/fdt_el1.h:63-98 | The calls an independent reader finds are each where the C walk looks for them |
| FdtGuest.NameMatches | demo/common/include/fdt_el1.h:35-43 | True iff the name is the wanted one up to an optional unit address |
| FdtGuest.StringIs | demo/common/include/fdt_el1.h:45-50 | True iff the two strings are equal, when the stored one ends in the blob |
| FdtGuest.OnBegin | demo/common/include/fdt_el1.h:69-81 | How a node moves the walk |
| FdtGuest.OnProp | demo/common/include/fdt_el1.h:87-94 | How a property moves the walk |
| GuestDtb.BuildGuestDtb | novakit/image/dtb.py:153-264 | The whole builder is the serialisation of one call list, whose tree `GuestTree` describes |
| GuestDtb.EmitEach | novakit/image/dtb.py:182-189 | The loops over cpus and devices emit their nodes in order |
| GuestTree.BlobDescribesGuest | novakit/image/dtb.py:153-264 | Read back from the blob by an independent reader of nodes, names and big-endian cells, the tree has exactly these nodes with exactly these properties: memory at its base; the n-th cpu named and numbered n; the distributor then one redistributor frame for each vCPU; timer, clock and uart; each device at the address in its name, its interrupt, trigger, window and coherence; and what was chosen |
| GuestTree.WrittenReads | novakit/image/dtb.py:115-127 | Each way of writing a value is undone by one way of reading it: cells of 32 or 64 bits, one string or two, nothing |
| GuestTree.NumberBack | novakit/image/dtb.py:182-183 | A number written in digits reads back, in decimal and in hexadecimal |
| DeviceTree.NodeAdds | novakit/image/dtb.py:105-113 | A node's calls add one node to the tree being read: its name, its properties, its children |
| GuestRecovery.HandOver | demo/common/include/fdt_el1.h:52-101 | Built, handed over and parsed: the guest is told ok, its memory size and its vCPU count **iff** it has a vCPU and memory and the last device called "memory", if any, is as large; no blob iff too large |
| GuestRecovery.GuestReadsItself | novakit/image/dtb.py:153-264 | The blob reads back as the tree built, and what it tells the guest |
| GuestRecovery.ToldExactly | novakit/image/dtb.py:244-254 | Exactly when the guest is told its own numbers, for every configuration |
| GuestRecovery.TreeIsBalanced | novakit/image/dtb.py:129-130 | The builder never trips its own balance assertion |
| GuestRecovery.DeviceName | demo/common/include/fdt_el1.h:33-43 | Among legal device ids only "memory" is taken for the memory node |
| Trace.DeepestThatFits | src/nova/trace.hpp:88-114 | The depth is the largest power of two whose region fits, and 0 iff not even one record per ring does |
| Trace.RingsApart | src/nova/trace.hpp:180-183 | Placed rings follow one another inside the reservation without overlap |
| Trace.Place | src/nova/trace.hpp:240-256 | Nothing is published iff there is no room; otherwise the header agrees with the rings, each in the reservation and apart |
| Trace.Ring.Emit | src/nova/trace.hpp:149-165 | A placed ring gains one record and still holds its log's tail; an unplaced one only counts |
| Trace.Ring.Place | src/nova/trace.hpp:192-210 | Heads back to zero, records left alone |
| Trace.WindowIsTheLast | src/nova/trace.hpp:201-209 | The window from head - capacity on is exactly the last min(n, capacity) records emitted, oldest first |
| Trace.HeadSlot | src/nova/trace.hpp:155-156 | Masking the wrapped head selects the slot of the unwrapped count |
| Recordings.SeekIsRightIff | novakit/services/workbench/recording.py:344-379 | At every interval alike: the answer is the fold of exactly the frames up to the timestamp, whatever they carry, **iff** none of them comes after a later one |
| Recordings.Seek | novakit/services/workbench/recording.py:344-379 | Fold then seek, on any frames: the answer whose correctness that decides; and wherever the clock has not run backwards as of the timestamp, each topic's last reading by then and no other topic |
| Recordings.Fold | novakit/services/workbench/recording.py:365-379 | Every checkpoint is the fold of the frames before it, in order, with one at each multiple of the interval |
| Recordings.At | novakit/services/workbench/recording.py:344-362 | From any checkpoints that agree with the frames, on any frames: all those before the checkpoint resumed at and those scanned from it; where no frame in time comes after a later one, each topic's last reading by the timestamp |
| Recordings.LatestIs | novakit/services/workbench/recording.py:360-361 | A topic is in the fold iff some snapshot frame of it is, the topology apart, and its value is then the last such frame |
| Recordings.LatestIsAsOf | novakit/services/workbench/recording.py:344-362 | The right answer in these terms: each topic's last reading by the timestamp, and no other topic |
| Recordings.Nearest | novakit/services/workbench/recording.py:344-356 | Where the seek starts: the fold of all frames before the last leading checkpoint in time, none of them too late where no frame in time comes after a later one |
| Recordings.IntervalShows | novakit/services/workbench/recording.py:344-379 | Three readings, the middle one later than the timestamp: interval 2 answers all three topics, interval 1 only the first, and the frames in time have the first and the third |
| Recordings.DrainsOf | novakit/services/workbench/recording.py:250-262 | The drains are sorted and a permutation of the stream's own |
| Recordings.DrainsAre | novakit/services/workbench/recording.py:250-262 | There is a drain for each trace event and for no other frame, with its span's end and its own timestamp, or zero where it has none |
| Recordings.WireTs | novakit/services/workbench/recording.py:330-342 | The timestamp of the first drain, by counter and then timestamp, to reach the record; of the last frame when none does |
| Recordings.FirstToReach | novakit/services/workbench/recording.py:330-342 | On a stream that moves forward, no drain that reaches the record is earlier than the one chosen |
| Dispatchers.EveryQueryEndsOnce | novakit/services/workbench/dispatcher.py:143-199 | Over every schedule on live connections each request is in exactly one place (running, waiting or ended once), one runs per key, and a superseded request was superseded by a newer one |
| Dispatchers.AllAnswered | novakit/services/workbench/dispatcher.py:164-199 | When nothing runs any more, each request of a live connection has ended exactly once, so none waits for ever |
| Dispatchers.OutcomesHappened | novakit/services/workbench/dispatcher.py:143-181 | Over every schedule each outcome on the log is how that request's own run ended, or stands for one that a later request for its key displaced |
| Dispatchers.EndTells | novakit/services/workbench/dispatcher.py:164-199 | A run that ends for a connection still there puts its own outcome on the log, leaves, and the live request waiting behind it runs |
| Dispatchers.SlotsAreLive | novakit/services/workbench/dispatcher.py:91-93 | Over every schedule a slot is held for a connection still there, so nothing that waited for one gone ever runs |
| Dispatchers.RunInv | novakit/services/workbench/dispatcher.py:143-199 | The invariant, kept by every event |
| Dispatchers.Dispatcher.ScheduleQuery | novakit/services/workbench/dispatcher.py:143-162 | The dictionary after a request: started, or waiting with the previous waiter superseded |
| Dispatchers.Dispatcher.EndQuery | novakit/services/workbench/dispatcher.py:164-181 | The dictionary and the outcome after a query ends in any of its ways |
| Dispatchers.Dispatcher.FinishQuery | novakit/services/workbench/dispatcher.py:183-199 | The slot is freed by its own query alone and its replacement started if still wanted |
| Dispatchers.Dispatcher.DisconnectQueries | novakit/services/workbench/dispatcher.py:91-93 | Only that connection's slots go |
| Symbols.PrefixFree | novakit/image/elfsym.py:42-58 | For names of two or more components, one mangles to a prefix of another plus any suffix **iff** they read the same: no name begins another |
| Symbols.DemanglesBack | novakit/image/elfsym.py:42-58 | A demangler that knows only lengths, the local mark and the closing `E` reads the scopes, the name and whether it is local back out of a mangled name with anything after it |
| Symbols.AsSpelt | novakit/image/elfsym.py:45-47 | One symbol as the compiler spells it |
| Symbols.Injective | novakit/image/elfsym.py:42-58 | Names that do not spell the anonymous marker out mangle apart |
| Symbols.MarkerCollides | novakit/image/elfsym.py:52-58 | Two names that do, and mangle alike |
| Symbols.OneNameIff | novakit/image/elfsym.py:50-51 | A name begins no other name's symbol **iff** it has two components or more, the guard of `mangle`; for every one-component name there is another it begins |
| Symbols.AddressOf | novakit/image/elfsym.py:97-114 | Missing iff no entry begins with the name; an address iff all that do agree on it; else overloaded |
| Symbols.LookupIsExact | novakit/image/elfsym.py:97-114 | For ordinary qualified names the prefix lookup meets a function's symbol, whatever its parameters, iff it is that function's name |
| Placement.PackGuests | novakit/image/dtb.py:413-444 | Packing succeeds iff every window is large enough and fits, and then places each at the cursor rule's address |
| Placement.PackedApart | novakit/image/dtb.py:410-444 | From any region base, packed windows follow one another apart inside the region, each after the first aligned and less than one alignment past its neighbour's end |
| Placement.RoundUpIsMasked | novakit/image/dtb.py:444-444 | The mask expression is rounding up |
| Placement.CheckPhysical | novakit/image/dtb.py:458-470 | Accepted iff every range is valid and in board RAM, no two overlap and no device overlaps one |
| Placement.OverlapIsSharing | novakit/image/dtb.py:286-287 | For non-empty ranges the comparison says whether an address is shared |
| Placement.ValidIsAddressed | novakit/image/dtb.py:282-283 | A valid range holds an address, and none that 64 bits cannot |
| Placement.NoAddressTwice | novakit/image/dtb.py:458-466 | After those checks no address of board RAM belongs to two ranges |

## Left out

- Weak memory: acquire, release and fences are sequentially consistent steps.
- TelemetrySafety.StillRunsAreFaithful: does not cover a reading that 2^63 closes of its slot fit
  into, after which the 64-bit sequence can come round; nor, for spans with a byte tail, a source
  that changes inside the copy, which TelemetryTail.SoundIffWholeWords shows is false.
- TelemetrySafety.SkipOk: same bound of 2^63 closes since the reading was taken.
- The reader's capacity check in `read_slot`: the caller's buffer is taken to be large enough.
- FreshRuns.StaleNoLonger: of a global written meanwhile it says that the slot was published again
  and not which of its values it shows.
- Freshness.EveryoneUpToDate: turns one after another over still globals; FreshRuns.StaleNoLonger is
  the bound over interleaved runs.
- CommandRecovery.Recovers: a pushed command that waits is handed over once a later drain runs to its
  end; that the timer starts one is not part of this model.
- CommandRing.DeliversInOrder: a record is three fields, each one access; the argument bytes of a
  field are not split further.
- CapturedTables.CopyTables: every table's size is a whole number of words, as the linker's are; the
  topology hash and the regime roster the capture also carries are not part of this model.
- PageWalks.TreeIsProbe: zero-fill regimes, the only ones a tree is built for; high halves are
  covered by Geometries.HoldsIsHalf and Geometries.GuestGeometryExists.
- PageWalks.DescendHits: as PageWalks.TreeIsProbe, for zero-fill regimes.
- Permission bits and attribute names of descriptors: carried along by the decoder, not interpreted;
  TreeContents.RunShowsAttributes asks only that they come from the bits outside the address.
- The live banks, `Capture`'s cache and the answers to wire requests in `regimes.py`: lookups over
  what is proved here.
- Histories.HoldsTheNewest: a record is a timestamp and an opaque payload; its 32-byte packing is
  not modelled.
- FdtRoundTrip.WritesReadBack: `struct.pack` refuses a property too long for 32 bits at once; the
  model refuses the blob when it is finished.
- FdtGuest.ParseGuest: a read outside the blob, which in the guest is whatever memory lies there, is
  the outcome `Escapes`; for blobs no reader understands only the missing and the wrong magic are
  described.
- GuestRecovery.HandOver: device ids are the identifiers the configuration's own check admits.
- GuestTree.BlobDescribesGuest: for the same device ids.
- Placement.ValidIsAddressed: bases and sizes are naturals; the code also refuses negative ones.
- Placement.PackGuests: the other YAML field checks of the configuration are left out, together with
  device assignment and payload lists.
- Trace.Ring.Emit: the reader of the trace rings, and a reader racing a lapping writer, are not part
  of this model.
- PingPong.FinishesInTime: the guests' console lines, their waits in wall time and the hypervisor's
  handling of the deliberate faults are one warm reset each.
- Dispatchers.EveryQueryEndsOnce: promises nothing while the bridge closes, when queries are dropped
  unanswered; and the `closing` a query was scheduled under is always false, since nothing is
  scheduled later.
- Rejections by phase or replay before a query is scheduled: table lookups.
- Recorder's files, frames' JSON and the run index: input and output.
- Symbols.PrefixFree: components are non-empty and start with no digit, and a name does not end in the
  anonymous namespace; for Symbols.OneNameIff a name of one component does not begin with `_ZN`, which
  is reserved; splitting a string at `::`, ELF and DWARF reading are left out.
- `SnapshotPoller`, `changed_mask` and `spoken_to`: scheduling and comparisons with no invariant
  across calls.
- The constants of the `nova/abi` headers are taken with the relations their assertions state.
- vCPU scheduling, the vGIC, SMMU and drivers, sockets, QMP, GDB, clocks, YAML, Typer and CMake:
  hardware effects and plumbing.
