# A verified model of the virtual machine's stateful core

This project models, in Dafny, the parts of the runtime where state, loops and arithmetic meet, and proves
what each of them promises:

- **Heap and mark-compact collector** (`HeapLayout`, `Sliding`, `Collection`, `Marking`, `Collector`,
  `ProcessHeaps`, `HeapGrowth`, `StaleRoots`, `HeapRuns`). A heap is an array of 64-bit words. What a term denotes is what
  every access path from it finds. `Collection` says what one collection does to memory using reachability
  and ranks only, and proves that meaning and sharing survive; `Marking` and `Collector` hold the five
  passes over mutable arrays and mark bits, proved to do exactly that. `HeapRuns` composes them: over whole
  runs of building, reading, growing and collecting, a register nobody writes keeps its meaning.
- **Heap clients** (`Nifs`, `NifAnswers`, `HeapMaps`, `MapMeaning`, `MapAnswers`). `tuple_to_list`,
  `list_to_tuple` and `setelement`, with the termination argument of the list walks, and the map instructions,
  which refine persistent finite maps.
- **Process table** (`Processes`, `TableSpec`, `TableRuns`, `TableHandles`, `TableEffects`,
  `TableSymmetry`, `TableLinks`, `ProcessTables`). The table and its control blocks are mutable objects; each
  operation is tied to a function on table values, and partition of the PID space, symmetry of links, exact fan-out, irrevocable exits and
  selective receive are proved about those, over every run.
- **Scheduler** (`RunQueues`, `Rebalancing`, `Schedulers`). Four queues refine one list; stealing and
  rebalancing conserve work and keep every load within the old bounds.
- **Atom table** (`AtomTables`, `AtomInterleaving`, `AtomProgress`). Double-checked interning under three
  read-write locks, as an interleaving of thread steps that refines one atomic step per call.
- **Codecs** (`Bytes`, `Etf`, `ControlMessages`, `Iff`). Encoders and decoders with their exact round trips.

Beside these laws the main operations have lemmas that say slot by slot, word by word or case by case what they do and when they
fail, without naming the function that computes it.

A method that changes state ends in an `ensures` that gives its whole new state as a function of the old one;
the lemmas are about those functions.

## Where the code does less than it says

Each of these is proved as an if-and-only-if, with a failing input or run beside it where that helps:

- `MapPut` on a bound key returns a copy with the old value (`MapMeaning.PutMatchesIff`, `PutKeepsOldValue`).
- `MapCreate` accepts a repeated key, after which `MapSize` is too large and `MapRemove` brings the second value
  up (`MapMeaning.CreateMeansIff`, `RemoveMatchesIff`, `RepeatedKeyShows`).
- `setelement` cuts its index to 32 bits before the range test (`Nifs.SetElementIndexIff`, `SetElementTruncates`).
- `list_to_tuple` does not return on a list that runs into itself (`Nifs.WalkEndsIff`, `WalkEndsIffAcyclic`,
  `SelfTailNeverEnds`).
- Process handles are documented as stable, but `cleanup` moves slots and lookups by handle ignore the PID
  (`TableHandles.HandleStableIff`, `CleanupMovesHandles`).
- Serials have 13 bits, so after 2^13 recyclings of an id a stale link names a new process
  (`TableSymmetry.RunSoundIff`, `TableLinks.SerialWrapBreaksSymmetry`).
- The id counter wraps at 2^32 and does not look whether the next id is in use, so two live processes can get
  one PID (`TableRuns.SpawnApartIff`, `RunApartIff`, `WrappedCounterReissues`).
- A receive that skips signals puts them behind those that came later (`Processes.ReceiveKeepsOrderIff`,
  `ReceiveReorders`), and a failed receive gives back the mailbox it scanned only if nothing had been saved
  before (`FailedReceiveRestoresIff`, `FailedReceiveAddsSaved`).
- Stealing drops an entry whose PID the thief already queues (`Rebalancing.StealKeepsWorkIff`, `StolenEntryLost`).
- A tuple header holds only 24 bits of size (`HeapGrowth.TupleHeaderSize`, `LargeTupleLosesSize`).
- The atom table reserves 18 indices but 30 atom constants are predefined, so atoms interned later take the values of
  the other constants (`AtomTables.PredefinedIff`, `FirstInternTakesConstant`).
- Control messages: seven of the thirteen types cannot be decoded, and node names over 255 bytes do not fit
  (`ControlMessages.RoundTripIff`, `OtherTypesRejected`, `LongNameLost`).
- IFF chunks of 2^32 bytes or more do not survive (`Iff.RoundTripIff`, `LongChunkLost`).
- The relocated roots of a major collection stay in a local vector, so a caller goes on with the words it had.
  Such a word is still right exactly when no dead word lies below its object (`StaleRoots.OldWordRightIff`,
  `OldWordGoesStale`). In the model the relocated roots are the result of `MajorGcImpl`; `HeapRuns` has both a
  collection that hands them back and one that does not (`HeapRuns.InPlaceIsCollectIff`).

## Model

| member | source | states |
|---|---|---|
| `Words.PointerParts` | crates/chimera_erlang_beam_term/src/lib.rs:154-158 | A cons or tuple word built from an address below 2^61 gives back its address and its kind. |
| `Words.SmallRoundTrip` | crates/chimera_erlang_beam_term/src/lib.rs:48-59 | Shift-left and arithmetic shift-right are inverse on the small integers the constructor accepts, and every word with the integer tag is the encoding of its own value. |
| `HeapLayout.LayoutIffWalk` | crates/chimera_erlang_beam_heap/src/lib.rs:477-499 | An assignment of words to objects that tiles `[0, hp)` exists exactly when walking from header to header by object size lands on `hp`. |
| `Marking.GcMarkBits.constructor` | crates/chimera_erlang_beam_heap/src/gc.rs:88-93 | As many bits as asked for, all clear. |
| `Marking.GcMarkBits.Set` | crates/chimera_erlang_beam_heap/src/gc.rs:105-110 | Changes one bit, and nothing when the index is out of range. |
| `Marking.MarkTermGc` | crates/chimera_erlang_beam_heap/src/lib.rs:625-719 | From any marks, one traced term: marks only grow, by whole objects; the term and every field of a newly marked object point at marked objects; everything new is reachable from the term. Terminates on cycles because the set of unmarked object starts shrinks. |
| `Marking.MarkCons` | crates/chimera_erlang_beam_heap/src/lib.rs:631-648 | The cons arm: the same contract for one cell, header, head and tail marked before the two recursive calls. |
| `Marking.MarkTuple` | crates/chimera_erlang_beam_heap/src/lib.rs:649-666 | The tuple arm: the same contract, elements marked and traced one by one. |
| `Marking.FewerUnmarked` | crates/chimera_erlang_beam_heap/src/lib.rs:633-635 | The termination measure: marking an object start strictly shrinks the set of unmarked starts. |
| `Collector.ClosedUnderPaths` | crates/chimera_erlang_beam_heap/src/lib.rs:466-471 | Once the roots are traced, everything an access path of any length reaches from a marked term is marked. |
| `Collector.TracedIsLive` | crates/chimera_erlang_beam_heap/src/lib.rs:466-471 | After all roots are traced a word is marked if and only if it belongs to an object reachable from a root. |
| `Collector.MarkRoots` | crates/chimera_erlang_beam_heap/src/lib.rs:466-471 | The root loop leaves exactly the live bits, defined by reachability alone. |
| `Collector.CountLive` | crates/chimera_erlang_beam_heap/src/lib.rs:474 | The count of marked words is the rank of the heap end, so it equals the later `new_hp`. |
| `Collector.BuildForward` | crates/chimera_erlang_beam_heap/src/lib.rs:480-505 | The forwarding table is defined on exactly the live object starts, each with its rank; `new_hp` is the number of live words. The walk never starts inside an object. |
| `Collector.ForwardedIsRelocated` | crates/chimera_erlang_beam_heap/src/lib.rs:588-623 | Rewriting a word through the table gives the word the specification asks for; immediates and terms of other kinds stay. |
| `Collector.UpdateWord` | crates/chimera_erlang_beam_heap/src/lib.rs:527-532 | Updates one field in place and leaves every other word of the space alone. |
| `Collector.UpdateReferences` | crates/chimera_erlang_beam_heap/src/lib.rs:513-549 | Every field of every live object is forwarded once; headers, dead words and words past `hp` keep their value. |
| `Collector.UpdateRoots` | crates/chimera_erlang_beam_heap/src/lib.rs:507-511 | Every root is replaced by its relocation, in place. |
| `Collector.Compact` | crates/chimera_erlang_beam_heap/src/lib.rs:551-572 | The second size walk agrees with the first: every live word is copied to its rank, all slices in bounds. |
| `Collector.Slide` | crates/chimera_erlang_beam_heap/src/lib.rs:476-572 | Passes two to four together: to-space holds each live word at its rank with its fields relocated. |
| `Collector.SlideIsCollection` | crates/chimera_erlang_beam_heap/src/lib.rs:574-580 | Copying to-space back over the low words makes exactly the specified collection; words above `new_hp` are not touched. |
| `ProcessHeaps.ProcessHeap.MajorGcImpl` | crates/chimera_erlang_beam_heap/src/lib.rs:445-586 | On every well-formed cons/tuple heap, and on every heap when there are no roots, the collector does what `Collection.Collected` specifies with reachability and ranks, returns the relocated roots, and adds exactly the words freed to `words_collected`, which cannot underflow. |
| `Collection.SlidingLayout` | crates/chimera_erlang_beam_heap/src/lib.rs:476-505 | Forwarding addresses never rise, keep the order of objects and never overlap; neighbouring live objects become adjacent, the first lands at 0 and the last ends at `new_hp`: together the images tile `[0, new_hp)`. |
| `Collection.FollowMoved` | crates/chimera_erlang_beam_heap/src/lib.rs:507-580 | Following any path commutes with relocating the term. |
| `Collection.MeaningPreserved` | crates/chimera_erlang_beam_heap/src/lib.rs:445-586 | Any access path, of any length, from a relocated root reads the same header or immediate as from the original root, and fails exactly where the original fails; cycles and sharing included. |
| `Collection.SharingPreserved` | crates/chimera_erlang_beam_heap/src/lib.rs:445-586 | Two paths end at one object after the collection if and only if they did before. |
| `Collection.CollectedWellFormed` | crates/chimera_erlang_beam_heap/src/lib.rs:445-586 | The collected heap with the relocated roots is well formed and no larger. |
| `Collection.CollectedDownward` | crates/chimera_erlang_beam_heap/src/lib.rs:445-586 | If every pointer went to a lower address before, it still does. |
| `Collection.CollectTwice` | crates/chimera_erlang_beam_heap/src/lib.rs:454-580 | A second collection from the relocated roots changes no word, not `hp` and no root: nothing unreachable was kept. |
| `Collection.NoRootsNothingKept` | crates/chimera_erlang_beam_heap/src/lib.rs:437-439 | Without roots, as the public entry point calls it, nothing is kept and no word is touched. |
| `ProcessHeaps.ProcessHeap.MajorGc` | crates/chimera_erlang_beam_heap/src/lib.rs:437-439 | The public entry point empties any heap, leaves its words as they were and counts nothing as collected. |
| `StaleRoots.OldWordRightIff` | crates/chimera_erlang_beam_heap/src/lib.rs:462-511 | The relocated roots stay in a local vector; the word the caller goes on holding equals the relocated one if and only if no dead word lies below its object. |
| `StaleRoots.OldWordKeepsMeaning` | crates/chimera_erlang_beam_heap/src/lib.rs:462-511 | Under that condition every access path from the word the caller holds reads what it read before the collection. |
| `StaleRoots.OldWordGoesStale` | crates/chimera_erlang_beam_heap/src/lib.rs:462-511 | A heap of two cells, the second a root, after whose collection the word the caller holds points at the new heap pointer. |
| `ProcessHeaps.ProcessHeap.constructor` | crates/chimera_erlang_beam_heap/src/lib.rs:132-149 | Two zeroed spaces of the given size, nothing allocated. |
| `ProcessHeaps.ProcessHeap.GetWord` | crates/chimera_erlang_beam_heap/src/lib.rs:267-269 | The word of the active space, or none past its end. |
| `ProcessHeaps.ProcessHeap.SetWord` | crates/chimera_erlang_beam_heap/src/lib.rs:272-276 | Writes one word of the active space; out of range it changes nothing. |
| `ProcessHeaps.ProcessHeap.Alloc` | crates/chimera_erlang_beam_heap/src/lib.rs:187-198 | Bumps `hp` exactly when the words fit, and otherwise changes nothing. |
| `ProcessHeaps.ProcessHeap.MakeCons` | crates/chimera_erlang_beam_heap/src/lib.rs:818-824 | Header, head and tail at the old `hp`, or nothing changed. |
| `ProcessHeaps.ProcessHeap.MakeTuple` | crates/chimera_erlang_beam_heap/src/lib.rs:803-813 | Header and elements at the old `hp`, arity and element indices cut to 32 bits, or nothing changed. |
| `ProcessHeaps.TupleElementOverwritten` | crates/chimera_erlang_beam_heap/src/lib.rs:807-810 | With 2^32 + 1 elements the last one overwrites the first. |
| `ProcessHeaps.ProcessHeap.Grow` | crates/chimera_erlang_beam_heap/src/lib.rs:354-369 | Old words keep their place and value, new ones are zero; refused above the maximum size. |
| `HeapGrowth.TermsKeepMeaning` | crates/chimera_erlang_beam_heap/src/lib.rs:187-198 | Writing above `hp` changes what no path from an existing term finds. |
| `HeapGrowth.ObjectKeepsHeap` | crates/chimera_erlang_beam_heap/src/lib.rs:803-824 | A new object over existing terms keeps the heap well formed, and downward-pointing if it was. |
| `HeapGrowth.ConsAdded` | crates/chimera_erlang_beam_heap/src/lib.rs:730-737 | What `make_cons` writes is exactly one cons object. |
| `HeapGrowth.TupleAdded` | crates/chimera_erlang_beam_heap/src/lib.rs:766-770 | What `make_tuple` writes is exactly one tuple object, for every arity that fits 24 bits. |
| `HeapGrowth.TupleHeaderSize` | crates/chimera_erlang_beam_heap/src/lib.rs:766-770 | The size stored in a tuple header is the true one if and only if it fits the 24-bit field. |
| `HeapGrowth.LargeTupleLosesSize` | crates/chimera_erlang_beam_heap/src/lib.rs:766-770 | A tuple of 2^24 - 1 elements is stored with size zero. |
| `HeapRuns.InPlaceIsCollectIff` | crates/chimera_erlang_beam_heap/src/lib.rs:445-586 | A collection that leaves the registers as they were, as the code does, does the same as one that hands back `root_terms` if and only if no dead word lies below an object a register points at. |
| `HeapRuns.StepKeeps` | crates/chimera_erlang_beam_heap/src/lib.rs:445-586 | Every operation of a process over its heap keeps heap and registers well formed, and downward-pointing heaps downward: building, reading, growing, a collection that hands back `root_terms`, and one that leaves the registers alone under the condition above. |
| `HeapRuns.RunKeeps` | crates/chimera_erlang_beam_heap/src/lib.rs:445-586 | The same over runs of any length. |
| `HeapRuns.RunReads` | crates/chimera_erlang_beam_heap/src/lib.rs:445-586 | Over such a run a register nobody writes shows the same along every path at the end as at the start, where `Collect` hands back `root_terms` and `CollectInPlace` leaves the registers alone with no dead word below their objects. |
| `HeapRuns.RunMeets` | crates/chimera_erlang_beam_heap/src/lib.rs:445-586 | Over such a run two registers nobody writes share an object at the end if and only if they shared it at the start. |
| `HeapRuns.FreshRunGoesDown` | crates/chimera_erlang_beam_heap/src/lib.rs:818-824 | Starting from an empty heap every heap such a run reaches only points down, which is what makes list walks end. |
| `Nifs.ReadElements` | crates/chimera_erlang_beam_nif/src/lib.rs:283-290 | Reads the elements one by one, failing exactly when one lies outside the buffer. |
| `Nifs.TupleToList` | crates/chimera_erlang_beam_nif/src/lib.rs:308-355 | All argument and bounds errors; on success the list built back to front; on `SystemLimit` the cells built so far stay allocated. |
| `Nifs.BuildListSpec` | crates/chimera_erlang_beam_nif/src/lib.rs:341-354 | The cells built are a proper list of the elements in order, use three words each, change nothing below the old `hp`, and fail exactly when they do not fit. |
| `Nifs.CountCells` | crates/chimera_erlang_beam_nif/src/lib.rs:393-408 | The first pass returns exactly when the walk ends, with the number of cells, or rejects an improper tail. |
| `Nifs.CollectHeads` | crates/chimera_erlang_beam_nif/src/lib.rs:410-424 | The second pass collects the heads in order. |
| `Nifs.ListToTuple` | crates/chimera_erlang_beam_nif/src/lib.rs:362-432 | All error cases leave the heap unchanged; on success a tuple of the list elements is allocated. |
| `Nifs.TupleListRoundTrip` | crates/chimera_erlang_beam_nif/src/lib.rs:308-432 | `list_to_tuple(tuple_to_list(t))` has exactly the elements of `t` for every arity, each call succeeds exactly when its words fit, and no word below the old `hp` changes. |
| `NifAnswers.TupleElementsIff` | crates/chimera_erlang_beam_nif/src/lib.rs:323-339 | A tuple is read exactly if header and announced elements lie in the buffer, and then word by word. |
| `NifAnswers.TupleTermRead` | crates/chimera_erlang_beam_nif/src/lib.rs:323-339 | Every tuple term of a well-formed heap is read in full: element `i` is what the access path through field `i + 1` finds. |
| `NifAnswers.ListElementsIff` | crates/chimera_erlang_beam_nif/src/lib.rs:393-424 | The walk collects some elements exactly if the term is a proper list of them. |
| `NifAnswers.ListRejectedIff` | crates/chimera_erlang_beam_nif/src/lib.rs:393-408 | The first pass rejects exactly the terms that are no proper list of anything. |
| `NifAnswers.BuildTupleAnswers` | crates/chimera_erlang_beam_nif/src/lib.rs:426-431 | Building a tuple fails exactly when header and elements do not fit, and then nothing has changed; otherwise only the new words change. |
| `Nifs.DownwardWalkEnds` | crates/chimera_erlang_beam_nif/src/lib.rs:393-408 | On a heap whose pointers go down every tail walk ends, after at most one more cell than its first address. |
| `Nifs.ListWalkTerminates` | crates/chimera_erlang_beam_nif/src/lib.rs:393-424 | So both walks end from every root of such a heap. |
| `Nifs.ListWalkTerminatesAfterGc` | crates/chimera_erlang_beam_nif/src/lib.rs:393-424 | And still do from the relocated roots after a major collection. |
| `Nifs.WalkEndsIff` | crates/chimera_erlang_beam_nif/src/lib.rs:393-408 | Without that assumption: a walk ends if and only if it is over within as many cells as the heap has words. |
| `Nifs.WalkEndsIffAcyclic` | crates/chimera_erlang_beam_nif/src/lib.rs:393-408 | The same by shape: a walk ends if and only if its tail chain never comes back to one of its cells. |
| `Nifs.SelfTailNeverEnds` | crates/chimera_erlang_beam_nif/src/lib.rs:393-408 | A cell that is its own tail is walked for ever. |
| `Nifs.SetElement` | crates/chimera_erlang_beam_nif/src/lib.rs:240-301 | All error cases leave the heap unchanged; on success a copy with one element replaced is allocated, at the index cut to 32 bits. |
| `NifAnswers.SetElementAnswers` | crates/chimera_erlang_beam_nif/src/lib.rs:240-301 | Ok exactly if the tuple lies in the buffer, the index cut to 32 bits names an element and the copy fits; SystemLimit exactly if the space alone is missing; any error leaves the heap as it was; the copy, element for element. |
| `Nifs.SetElementCopies` | crates/chimera_erlang_beam_nif/src/lib.rs:283-300 | When it succeeds the new tuple has the old elements but for the one replaced, and no word below the old `hp` changes. |
| `Nifs.SetElementIndexIff` | crates/chimera_erlang_beam_nif/src/lib.rs:259-281 | The index rule is that of `erlang:setelement/3` if and only if the index is not a multiple of 2^32 above a valid one. |
| `Nifs.SetElementTruncates` | crates/chimera_erlang_beam_nif/src/lib.rs:277-281 | On a heap with a pair, index 2^32 + 1 is accepted and replaces the first element. |
| `HeapMaps.ExecContext.SetX` | crates/chimera_erlang_beam_instr/src/lib.rs:539-543 | Writes one register; out of range it changes nothing. |
| `HeapMaps.ExecContext.AllocAndWrite` | crates/chimera_erlang_beam_instr/src/lib.rs:460-477 | Header and all pairs above `hp`, or nil with nothing changed. |
| `HeapMaps.ExecContext.ReadPairs` | crates/chimera_erlang_beam_instr/src/lib.rs:1554-1577 | Reads the pairs of an existing map; keys outside the buffer are skipped, values outside read as zero. |
| `HeapMaps.ExecContext.MapCreate` | crates/chimera_erlang_beam_instr/src/lib.rs:1517-1541 | Builds the map of the register pairs; only the destination register changes. |
| `HeapMaps.ExecContext.MapPut` | crates/chimera_erlang_beam_instr/src/lib.rs:1542-1615 | A copy with the pair added if the key is absent, a plain copy if it is present, a one-pair map for a non-map; with a header below 0x100 the subtraction overflows and nothing has changed. |
| `HeapMaps.ExecContext.MapGet` | crates/chimera_erlang_beam_instr/src/lib.rs:1616-1667 | The value of the first equal key, `undefined` when absent or not a map, nil when the header is outside the buffer, overflow on a header below 0x100. |
| `HeapMaps.ExecContext.MapRemove` | crates/chimera_erlang_beam_instr/src/lib.rs:1668-1741 | A copy without the first equal key; a non-map is returned as it is; overflow on a header below 0x100, with nothing changed. |
| `HeapMaps.ExecContext.MapSize` | crates/chimera_erlang_beam_instr/src/lib.rs:1742-1770 | The pair count of the header, zero for a non-map, overflow on a header below 0x100. |
| `MapMeaning.NewMapIsMap` | crates/chimera_erlang_beam_instr/src/lib.rs:460-477 | A map that fits is a map term for exactly its pairs, fails exactly when it does not fit, and changes nothing below the old `hp`. |
| `MapMeaning.ReadsMatch` | crates/chimera_erlang_beam_instr/src/lib.rs:1616-1770 | MapGet on every key and MapSize read exactly the finite map a term denotes; an absent key gives `undefined`. |
| `MapMeaning.CreateMeansIff` | crates/chimera_erlang_beam_instr/src/lib.rs:1517-1541 | Whatever pairs a map is created from, MapGet reads the first value of every key; MapSize is that of the finite map if and only if no key is repeated. |
| `MapMeaning.PutMatchesIff` | crates/chimera_erlang_beam_instr/src/lib.rs:1579-1602 | MapPut is the mathematical update if and only if the key is absent or already bound to that value. |
| `MapMeaning.PutOnBoundKey` | crates/chimera_erlang_beam_instr/src/lib.rs:1579-1602 | A put on a bound key that finds space gives a term for the old map, where getting the key gives the old value. |
| `MapMeaning.PutKeepsOldValue` | crates/chimera_erlang_beam_instr/src/lib.rs:1579-1602 | A heap with a one-pair map where a get after a put of 1 still gives 0. |
| `MapMeaning.RemoveMatchesIff` | crates/chimera_erlang_beam_instr/src/lib.rs:1702-1735 | MapRemove deletes exactly the key if and only if the key is not stored twice. |
| `MapMeaning.RepeatedKeyShows` | crates/chimera_erlang_beam_instr/src/lib.rs:1517-1541 | A map created with one key twice: size 2, and removing the key brings up the second value. |
| `MapMeaning.RemoveMatches` | crates/chimera_erlang_beam_instr/src/lib.rs:1702-1735 | On distinct keys it does, and keys stay distinct. |
| `MapMeaning.MapUnchanged` | crates/chimera_erlang_beam_instr/src/lib.rs:460-477 | Later allocation does not change what an earlier map term denotes. |
| `MapMeaning.RunRefines` | crates/chimera_erlang_beam_instr/src/lib.rs:1517-1741 | Over any run of map instructions, repeated keys and failed allocations included, every term ever handed out goes on standing for the finite map it was handed out for. |
| `MapMeaning.HandedReads` | crates/chimera_erlang_beam_instr/src/lib.rs:1616-1770 | Such a term reads that map on every key, and its size if no key is stored twice. |
| `MapAnswers.PutAnswers` | crates/chimera_erlang_beam_instr/src/lib.rs:1579-1615 | On a map term MapPut answers nil exactly if the words of the new map do not fit, with nothing changed; otherwise the new term represents the map with an absent key added, or the old map for a bound key. |
| `MapAnswers.RemoveAnswers` | crates/chimera_erlang_beam_instr/src/lib.rs:1702-1735 | MapRemove answers nil exactly if the words of what remains do not fit; otherwise the new term represents the map without the key. |
| `MapAnswers.CreateAnswers` | crates/chimera_erlang_beam_instr/src/lib.rs:1517-1541 | MapCreate answers nil exactly if its words do not fit; with distinct keys every key reads its own value. |
| `MapAnswers.NoMapAnswers` | crates/chimera_erlang_beam_instr/src/lib.rs:1603-1770 | On a term that is no map: a put makes a one-pair map if it fits, a removal gives the term back, the size is 0, a get gives `undefined`, or nil for a map term out of range. |
| `MapAnswers.PairsReadInside` | crates/chimera_erlang_beam_instr/src/lib.rs:1558-1570 | Of a map that reaches over the end of the buffer the keys inside are read in order, and a value outside reads as zero. |
| `MapAnswers.SearchFinds` | crates/chimera_erlang_beam_instr/src/lib.rs:1632-1651 | MapGet answers the value of the first equal key in the buffer, and `undefined` when there is none or its value lies outside. |
| `Processes.ProcessControlBlock.SetState` | crates/chimera_erlang_beam_process/src/lib.rs:641-674 | The transition table, and the refusal of every other request. |
| `Processes.EnteredFrom` | crates/chimera_erlang_beam_process/src/lib.rs:641-674 | The transition table read backwards: from which states each state can be entered. |
| `Processes.ExitIsIrrevocable` | crates/chimera_erlang_beam_process/src/lib.rs:641-674 | Whatever is requested afterwards, Exiting stays Exiting or becomes Dead, the latter exactly when Dead is requested, and Dead is final. |
| `Processes.ProcessControlBlock.ExitWith` | crates/chimera_erlang_beam_process/src/lib.rs:883-886 | The reason is recorded always, the state changes only where the table allows it. |
| `Processes.ProcessControlBlock.Push` | crates/chimera_erlang_beam_process/src/lib.rs:187-189 | Appends one signal and changes nothing else. |
| `Processes.ProcessControlBlock.Pop` | crates/chimera_erlang_beam_process/src/lib.rs:194-200 | Takes the first signal, if there is one. |
| `Processes.ProcessControlBlock.ReceiveMatching` | crates/chimera_erlang_beam_process/src/lib.rs:814-838 | The scan of the mailbox, message by message, is the recursive scan of the specification. |
| `Processes.ReceiveTakes` | crates/chimera_erlang_beam_process/src/lib.rs:814-838 | A receive takes the first signal that is neither a DOWN notice nor an unwanted message; an exit signal answers `normal`; what was passed over is saved in order. |
| `Processes.ProcessControlBlock.RestoreSaveQueue` | crates/chimera_erlang_beam_process/src/lib.rs:845-849 | Saved signals go behind the mailbox in order and the save queue is empty. |
| `Processes.ScanSplits` | crates/chimera_erlang_beam_process/src/lib.rs:814-838 | A scan that stops at the first matching message or exit signal saves exactly the prefix before it, consumes that one signal and leaves the rest; otherwise it saves everything. |
| `Processes.ReceiveThenRestore` | crates/chimera_erlang_beam_process/src/lib.rs:814-849 | A match at `i` and a restore leave `s[i+1..] + S + s[..i]`; a failed scan leaves `S + s`. |
| `Processes.FailedReceiveRestoresIff` | crates/chimera_erlang_beam_process/src/lib.rs:814-849 | A failed receive and a restore give back the mailbox if and only if nothing had been saved before. |
| `Processes.FailedReceiveAddsSaved` | crates/chimera_erlang_beam_process/src/lib.rs:814-849 | A receive that skips a signal, then a failed receive and a restore that give back one signal more than was in the mailbox. |
| `Processes.ReceiveKeepsOrderIff` | crates/chimera_erlang_beam_process/src/lib.rs:814-849 | A receive followed by a restore keeps the signals that remain in the order of arrival if and only if nothing was skipped or saved before the one it took, or nothing came after it. |
| `Processes.ReceiveReorders` | crates/chimera_erlang_beam_process/src/lib.rs:814-849 | A match in the middle of three messages that puts the first of them last. |
| `Processes.NoSignalLost` | crates/chimera_erlang_beam_process/src/lib.rs:187-200 | Over any run of deliveries, receives and restores the signals delivered are, as a multiset, those consumed plus those queued or saved. |
| `Processes.ProcessControlBlock.Link` | crates/chimera_erlang_beam_process/src/lib.rs:861-865 | Adds a link once. |
| `Processes.ProcessControlBlock.Unlink` | crates/chimera_erlang_beam_process/src/lib.rs:867-869 | Removes every occurrence of a link and keeps the order of the others. |
| `Processes.RemoveKeepsDistinct` | crates/chimera_erlang_beam_process/src/lib.rs:867-869 | Unlinking keeps a duplicate-free list duplicate-free. |
| `Processes.ProcessControlBlock.MonitorFor` | crates/chimera_erlang_beam_process/src/lib.rs:1483-1485 | The first monitor of a target. |
| `ProcessTables.ProcessTable.constructor` | crates/chimera_erlang_beam_process/src/lib.rs:1583-1594 | An empty table whose first id is 1. |
| `ProcessTables.ProcessTable.NextPidFor` | crates/chimera_erlang_beam_process/src/lib.rs:1620-1630 | The newest dead PID with its serial advanced, or a fresh id from the wrapping counter. |
| `ProcessTables.ProcessTable.Spawn` | crates/chimera_erlang_beam_process/src/lib.rs:1635-1649 | The whole new table; the new control block is a fresh object. |
| `ProcessTables.ProcessTable.GetIndexByPid` | crates/chimera_erlang_beam_process/src/lib.rs:1654-1684 | Both PID lookups: the first slot holding the PID. |
| `ProcessTables.ProcessTable.GetByHandle` | crates/chimera_erlang_beam_process/src/lib.rs:1666-1670 | Finds a process by slot alone. |
| `ProcessTables.ProcessTable.Terminate` | crates/chimera_erlang_beam_process/src/lib.rs:1709-1720 | Empties the slot and queues the PID for reuse, or changes nothing for an unknown PID. |
| `ProcessTables.ProcessTable.Cleanup` | crates/chimera_erlang_beam_process/src/lib.rs:1812-1816 | Keeps the occupied slots in order and resets the slot count. |
| `ProcessTables.LinkWithTable` | crates/chimera_erlang_beam_process/src/lib.rs:1338-1365 | Both ends are linked, or nothing changes when either process is missing. |
| `ProcessTables.UnlinkWithTable` | crates/chimera_erlang_beam_process/src/lib.rs:1370-1391 | Both ends are unlinked, or nothing changes when either process is missing. |
| `ProcessTables.PropagateExit` | crates/chimera_erlang_beam_process/src/lib.rs:1497-1521 | The loop over the cloned link list does what the specification folds over the slots. |
| `ProcessTables.MonitoringPids` | crates/chimera_erlang_beam_process/src/lib.rs:1467-1477 | The PIDs, in slot order, of the processes that monitor the target. |
| `ProcessTables.PropagateMonitors` | crates/chimera_erlang_beam_process/src/lib.rs:1465-1487 | One DOWN sent per monitoring PID, as the specification folds it over the slots. |
| `ProcessTables.MarkExited` | crates/chimera_erlang_beam_process/src/lib.rs:1694-1702 | Records the reason and asks for Exiting; tells whether the process exists. |
| `ProcessTables.Send` | crates/chimera_erlang_beam_process/src/lib.rs:1822-1833 | Delivers only to a process that exists and is alive, and says so. |
| `TableSpec.ExitFanOut` | crates/chimera_erlang_beam_process/src/lib.rs:1497-1521 | Exactly one Exit to each linked trapping process; each other linked process gets the reason and leaves Running or Waiting for Exiting; every unlinked process, every empty slot and the rest of the table stay. |
| `TableSpec.MonitorFanOut` | crates/chimera_erlang_beam_process/src/lib.rs:1465-1487 | Exactly one DOWN, with the reference of its first monitor, to each process that monitors the target, and nothing else changes. |
| `TableEffects.LinkEffect` | crates/chimera_erlang_beam_process/src/lib.rs:1338-1365 | Slot by slot: after a link of two processes that exist each has its old links plus the other, once, and nothing else has changed anywhere; otherwise nothing has. |
| `TableEffects.UnlinkEffect` | crates/chimera_erlang_beam_process/src/lib.rs:1370-1391 | Slot by slot: after an unlink of two processes that exist each has its old links minus the other, and nothing else has changed anywhere; otherwise nothing has. |
| `TableEffects.UnlinkUndoesLink` | crates/chimera_erlang_beam_process/src/lib.rs:1338-1391 | After a link and an unlink neither process holds the other. |
| `TableEffects.AddressedEffect` | crates/chimera_erlang_beam_process/src/lib.rs:1694-1833 | Slot by slot: termination, exit marking, state requests, trap flag, new monitors and sends change the addressed process as stated and no other. |
| `TableEffects.AcceptsIff` | crates/chimera_erlang_beam_process/src/lib.rs:1822-1833 | A message is accepted exactly if the process is running, waiting or suspended. |
| `TableEffects.AcceptsNobody` | crates/chimera_erlang_beam_process/src/lib.rs:1822-1833 | A message to a PID that is not there is not accepted. |
| `TableEffects.SpawnEffect` | crates/chimera_erlang_beam_process/src/lib.rs:1635-1649 | A new process runs, traps nothing, has no links, monitors or mail; all other slots stay. |
| `TableEffects.LastEndedFirstReused` | crates/chimera_erlang_beam_process/src/lib.rs:1620-1630 | The PID of the process that ended last is reused first, with the next of 2^13 serials. |
| `TableEffects.CleanupEffect` | crates/chimera_erlang_beam_process/src/lib.rs:1812-1816 | Cleanup keeps the processes as they are and in their order, and nothing else. |
| `TableEffects.ExitOfNobody` | crates/chimera_erlang_beam_process/src/lib.rs:1497-1501 | The exit of a process that is not there changes nothing. |
| `TableRuns.PartitionMeans` | crates/chimera_erlang_beam_process/src/lib.rs:1620-1649 | What the partition says: live ids are distinct, reusable ids are distinct, the two are disjoint, and together they are exactly the ids issued. |
| `TableRuns.ApartMeans` | crates/chimera_erlang_beam_process/src/lib.rs:1620-1649 | What `Apart` says: live ids are distinct, reusable ids are distinct and the two are disjoint; PIDs are unique. |
| `TableRuns.SpawnApartIff` | crates/chimera_erlang_beam_process/src/lib.rs:1620-1649 | A spawn keeps ids distinct and disjoint if and only if it reuses one, or the counter is not an id held by a live process or queued for reuse, wrapped or not. |
| `TableRuns.StepApartIff` | crates/chimera_erlang_beam_process/src/lib.rs:1620-1816 | Every other operation keeps them so without condition. |
| `TableRuns.RunApartIff` | crates/chimera_erlang_beam_process/src/lib.rs:1620-1816 | Ids stay distinct and disjoint at every point of a run if and only if every fresh id it gives out is free at that moment. |
| `TableRuns.SpawnsApartIff` | crates/chimera_erlang_beam_process/src/lib.rs:1620-1649 | Of the runs that only spawn, exactly those of at most 2^32 processes keep ids distinct. |
| `TableRuns.WrappedCounterReissues` | crates/chimera_erlang_beam_process/src/lib.rs:1620-1649 | After 2^32 + 1 spawns two live processes have one PID, and lookups find only the older. |
| `TableRuns.PartitionStep` | crates/chimera_erlang_beam_process/src/lib.rs:1620-1816 | Every table operation keeps the partition, a spawn of a fresh id as long as the 32-bit counter does not wrap. |
| `TableRuns.PartitionRun` | crates/chimera_erlang_beam_process/src/lib.rs:1620-1816 | The same over whole runs, guarded by the counter alone: ids may be recycled any number of times. |
| `TableRuns.LocalStep` | crates/chimera_erlang_beam_process/src/lib.rs:1338-1521 | Every operation except spawn, terminate and cleanup keeps all PIDs, brings no exited process back, and only link and unlink change link lists. |
| `TableHandles.HandleStableIff` | crates/chimera_erlang_beam_process/src/lib.rs:1528-1536 | With distinct PIDs a handle goes on finding its process if and only if the operation is not the termination of that process nor a cleanup with an empty slot below it. |
| `TableHandles.CleanupMovesHandles` | crates/chimera_erlang_beam_process/src/lib.rs:1812-1816 | Three spawns, one termination and a cleanup after which the handle of the second process finds the third, although handles are documented as stable. |
| `TableLinks.NewPidIsNew` | crates/chimera_erlang_beam_process/src/lib.rs:61-68 | No PID handed out earlier equals the next one, while no id has been recycled 2^13 times. |
| `TableSymmetry.SpawnSymmetricIff` | crates/chimera_erlang_beam_process/src/lib.rs:1620-1649 | A spawn keeps links symmetric if and only if no live process already has the new PID in its links. |
| `TableSymmetry.StepSymmetricIff` | crates/chimera_erlang_beam_process/src/lib.rs:1338-1391 | With distinct PIDs every other operation keeps links symmetric without condition. |
| `TableSymmetry.StepSoundIff` | crates/chimera_erlang_beam_process/src/lib.rs:1620-1649 | A step keeps PIDs distinct and links symmetric if and only if the PID it gives out, if any, is neither live nor in the links of a live process. |
| `TableSymmetry.RunSoundIff` | crates/chimera_erlang_beam_process/src/lib.rs:1338-1391 | PIDs stay distinct and links symmetric at every point of a run if and only if every PID it gives out is unused at that moment. |
| `TableLinks.StepKeeps` | crates/chimera_erlang_beam_process/src/lib.rs:1338-1391 | Every guarded operation keeps links symmetric and duplicate-free, serials equal to incarnation numbers modulo 8192, and the partition. |
| `TableLinks.RunKeeps` | crates/chimera_erlang_beam_process/src/lib.rs:1338-1391 | The same over every run of operations in any order. |
| `TableLinks.ExitedStaysExited` | crates/chimera_erlang_beam_process/src/lib.rs:641-674 | Over every guarded run a process that reached Exiting never runs again under its PID, reuse of its id included. |
| `TableLinks.SerialWrapBreaksSymmetry` | crates/chimera_erlang_beam_process/src/lib.rs:61-63 | A run that recycles one id 2^13 times after which a stale link names a new process that has no link back. |
| `RunQueues.PriorityRunQueues.Enqueue` | crates/chimera_erlang_beam_scheduler/src/lib.rs:92-96 | Appends at the priority level, and does nothing when the PID is queued anywhere. |
| `RunQueues.PriorityRunQueues.Dequeue` | crates/chimera_erlang_beam_scheduler/src/lib.rs:102-117 | Takes the front of the highest non-empty queue. |
| `RunQueues.PriorityRunQueues.RetainOthers` | crates/chimera_erlang_beam_scheduler/src/lib.rs:132-139 | One `retain`: keeps the other entries in order and tells whether it dropped one. |
| `RunQueues.PriorityRunQueues.RemoveByPid` | crates/chimera_erlang_beam_scheduler/src/lib.rs:130-174 | Stops at the lowest queue that holds the PID. |
| `RunQueues.EnqueueRefines` | crates/chimera_erlang_beam_scheduler/src/lib.rs:92-96 | Enqueueing refines appending to one list in which no PID occurs twice. |
| `RunQueues.DequeueRefines` | crates/chimera_erlang_beam_scheduler/src/lib.rs:102-117 | Dequeueing takes from that list the earliest entry among those of highest priority. |
| `RunQueues.RemoveRefines` | crates/chimera_erlang_beam_scheduler/src/lib.rs:130-174 | The early return is enough: the PID is removed everywhere, and the answer is true if and only if it was there. |
| `RunQueues.QueuesRefineList` | crates/chimera_erlang_beam_scheduler/src/lib.rs:92-174 | Over every run the four queues give the same answers as the one list. |
| `RunQueues.FreshQueuesRefineList` | crates/chimera_erlang_beam_scheduler/src/lib.rs:77-174 | In particular from four empty queues and the empty list. |
| `RunQueues.EnqueueEffect` | crates/chimera_erlang_beam_scheduler/src/lib.rs:92-96 | A PID that is queued nowhere goes to the back of the queue of its priority; any other changes no queue. |
| `RunQueues.DequeueEffect` | crates/chimera_erlang_beam_scheduler/src/lib.rs:102-117 | The entry dequeued is the front of its queue and every queue of a higher priority is empty; none comes out only when all are empty. |
| `Schedulers.Scheduler.StealFrom` | crates/chimera_erlang_beam_scheduler/src/lib.rs:609-631 | Half of the longer queue, rounded up, moved entry by entry; the two new queues and the count are exactly determined. |
| `Rebalancing.StealNConserves` | crates/chimera_erlang_beam_scheduler/src/lib.rs:616-628 | With no PID on both sides stealing moves exactly `n` entries and loses, doubles or alters none. |
| `Rebalancing.StealKeepsWorkIff` | crates/chimera_erlang_beam_scheduler/src/lib.rs:609-631 | With PIDs on both sides: no work is lost if and only if none of the entries to be stolen is queued at the thief already. |
| `Rebalancing.StolenEntryLost` | crates/chimera_erlang_beam_scheduler/src/lib.rs:616-628 | A PID queued at both schedulers: the victim gives its entry up and the thief refuses it. |
| `Rebalancing.StealTakesHalf` | crates/chimera_erlang_beam_scheduler/src/lib.rs:609-631 | With no PID on both sides a steal moves exactly half of the longer queue, rounded up, from its front, and nothing if the victim is not longer. |
| `Schedulers.SchedulerRegistry.StealFromIdx` | crates/chimera_erlang_beam_scheduler/src/lib.rs:804-858 | Nothing happens to equal indices, missing schedulers or a victim that is not longer; otherwise one steal, and all other schedulers stay. |
| `Schedulers.SchedulerRegistry.MostLoaded` | crates/chimera_erlang_beam_scheduler/src/lib.rs:873-883 | The first scheduler with the largest load. |
| `Schedulers.SchedulerRegistry.CollectBelow` | crates/chimera_erlang_beam_scheduler/src/lib.rs:891-895 | The schedulers other than the fullest that are below the average, in order. |
| `Schedulers.SchedulerRegistry.Turn` | crates/chimera_erlang_beam_scheduler/src/lib.rs:898-914 | One turn of the loop, with the cached maximum kept equal to the true load. |
| `Schedulers.SchedulerRegistry.Rebalance` | crates/chimera_erlang_beam_scheduler/src/lib.rs:864-916 | The loop over mutable schedulers does what the specification folds over the loads. |
| `Rebalancing.StepWithin` | crates/chimera_erlang_beam_scheduler/src/lib.rs:898-914 | Stealing ceil(n/2) only when n > 2m leaves every load between the old least and the old largest. |
| `Rebalancing.RebalanceConserves` | crates/chimera_erlang_beam_scheduler/src/lib.rs:864-916 | When no PID is queued twice, the multiset of (PID, handle, priority) entries and that property survive, no queue ends longer than the longest was and none shorter than the shortest was. |
| `Rebalancing.BelowAverageIs` | crates/chimera_erlang_beam_scheduler/src/lib.rs:891-895 | Exactly the schedulers below the average, the fullest apart, in order. |
| `Rebalancing.TurnEffect` | crates/chimera_erlang_beam_scheduler/src/lib.rs:898-911 | One turn: a present target with less than half the load of the fullest gets half of that load, rounded up, the fullest keeps the other half and all others stay; otherwise nothing moves. |
| `Rebalancing.RebalanceBalances` | crates/chimera_erlang_beam_scheduler/src/lib.rs:864-916 | Every present scheduler that was below the average ends with at least half the load the fullest is left with; those at or above it keep their queues. |
| `AtomTables.InitialBijection` | crates/chimera_erlang_beam_term/src/atom.rs:42-76 | The reserved atoms make the two maps inverse on `0..18`. |
| `AtomTables.AtomTable.constructor` | crates/chimera_erlang_beam_term/src/atom.rs:42-76 | Registers the reserved names one by one. |
| `AtomTables.AtomTable.Intern` | crates/chimera_erlang_beam_term/src/atom.rs:89-120 | Run alone: the known index, or the next one recorded in both maps, or the limit error with nothing changed. |
| `AtomTables.AtomTable.Lookup` | crates/chimera_erlang_beam_term/src/atom.rs:124-127 | The name recorded for an index; on a bijective table it is the one name interned at that index. |
| `AtomTables.AtomTable.LookupName` | crates/chimera_erlang_beam_term/src/atom.rs:131-134 | The index recorded for a name; on a bijective table it is the inverse of the other lookup. |
| `AtomTables.InternKeepsBijection` | crates/chimera_erlang_beam_term/src/atom.rs:107-119 | Interning keeps the two maps mutual inverses on exactly `0..next_index`. |
| `AtomTables.InternEffect` | crates/chimera_erlang_beam_term/src/atom.rs:89-120 | An intern fails exactly for a new name on a full table; otherwise the name is in the table at the index it answers, a new one at the next index, and all other names are as before. |
| `AtomTables.PredefinedIff` | crates/chimera_erlang_beam_term/src/atom.rs:12-76 | A new table knows a predefined atom constant by its name exactly if the constant is below 18. |
| `AtomTables.FirstInternTakesConstant` | crates/chimera_erlang_beam_term/src/lib.rs:658-660 | The first new name interned gets 18, the value of the constant for `garbage_collecting`. |
| `AtomTables.UsedConstants` | crates/chimera_erlang_beam_term/src/atom.rs:50-72 | The constants for `nil`, `undefined` and `normal` are the indices of those names. |
| `AtomInterleaving.LocksKept` | crates/chimera_erlang_beam_term/src/atom.rs:89-120 | In every interleaving the state of the three locks is exactly what the positions of the threads say: one writer and no readers, or readers only. |
| `AtomInterleaving.StepRefines` | crates/chimera_erlang_beam_term/src/atom.rs:89-120 | Each step of a thread leaves the committed table alone, except the one step that settles a call, which acts as one atomic intern with the same answer. |
| `AtomInterleaving.InterningIsBijective` | crates/chimera_erlang_beam_term/src/atom.rs:89-134 | In every interleaving the maps are mutual inverses on `0..next_index` whenever no insertion is in progress, the limit holds, all answers ever given, by interns and by lookups, have equal indices if and only if the names are equal, and a limit error means the table is full. |
| `AtomInterleaving.LookupFindsAnswered` | crates/chimera_erlang_beam_term/src/atom.rs:124-134 | In every interleaving a lookup that reads after a call has been answered finds what that call was told, by name and by index. |
| `AtomInterleaving.NoDeadlock` | crates/chimera_erlang_beam_term/src/atom.rs:100-101 | In every reachable state in which a call is running some thread can take a step. |
| `AtomProgress.BeginStarts` | crates/chimera_erlang_beam_term/src/atom.rs:89-96 | An intern begun by an idle thread is under way. |
| `AtomProgress.StepFalls` | crates/chimera_erlang_beam_term/src/atom.rs:89-134 | Every own step of a call strictly lowers the steps it has left, at most 12, and leaves the other threads where they are. |
| `AtomProgress.InternEndsAnswered` | crates/chimera_erlang_beam_term/src/atom.rs:89-120 | In every reachable state the step that ends an intern records an answer for its name: the committed index, or the limit error on a full table; every other step stays in the call. |
| `AtomProgress.InternIsAnswered` | crates/chimera_erlang_beam_term/src/atom.rs:89-120 | Whatever the other threads do, an intern that has made twelve of its own steps has been answered. |
| `AtomProgress.LookupAlone` | crates/chimera_erlang_beam_term/src/atom.rs:124-127 | An undisturbed lookup by index records the name, if there is one, and leaves everything else alone. |
| `AtomProgress.LookupNameAlone` | crates/chimera_erlang_beam_term/src/atom.rs:131-134 | The same by name. |
| `AtomProgress.CallsCanFinish` | crates/chimera_erlang_beam_term/src/atom.rs:89-134 | From every reachable state some continuation without new calls ends them all. |
| `Iff.Writer.WriteChunk` | crates/chimera_beam_term/src/iff.rs:41-55 | Appends kind, length modulo 2^32, data and the padding byte. |
| `Iff.ToBytes` | crates/chimera_beam_term/src/iff.rs:109-121 | Magic and all chunks in order. |
| `Iff.Cursor.ReadExact` | crates/chimera_beam_term/src/iff.rs:59 | Takes exactly the bytes asked for, or fails at the end of the data. |
| `Iff.Cursor.ReadChunk` | crates/chimera_beam_term/src/iff.rs:57-71 | One chunk with its padding skipped, or an error. |
| `Iff.Parse` | crates/chimera_beam_term/src/iff.rs:86-106 | All error cases; on success the cursor stands exactly at the end. |
| `Iff.RoundTripIff` | crates/chimera_beam_term/src/iff.rs:41-121 | `parse(to_bytes(f))` gives the same chunks in order if and only if every chunk is shorter than 2^32 bytes, for odd and even lengths. |
| `Iff.ParsedWritesBack` | crates/chimera_beam_term/src/iff.rs:86-121 | Whatever parses is written back at the same length and parses to the same chunks. |
| `Iff.LongChunkLost` | crates/chimera_beam_term/src/iff.rs:41-55 | A chunk of 2^32 bytes does not survive. |
| `Iff.PrefixParsesIff` | crates/chimera_beam_term/src/iff.rs:86-106 | A file cut short parses exactly if it is cut between two chunks, and then to the chunks before the cut; anywhere else it is an end-of-file error. |
| `Iff.BadMagic` | crates/chimera_beam_term/src/iff.rs:90-97 | Fewer than four bytes are an end-of-file error; invalid data is exactly another magic. |
| `Iff.WireExample` | crates/chimera_beam_term/src/iff.rs:41-55 | The bytes of a file with one chunk of odd length. |
| `ControlMessages.Encode` | crates/chimera_erlang_beam_dist/src/lib.rs:1300-1352 | Type, sender, receiver, reference and reason, each with its presence byte. |
| `ControlMessages.DecodePid` | crates/chimera_erlang_beam_dist/src/lib.rs:1373-1415 | All truncation and UTF-8 errors of an optional PID, and no index out of range. |
| `ControlMessages.DecodeRef` | crates/chimera_erlang_beam_dist/src/lib.rs:1463-1504 | The same for an optional reference. |
| `ControlMessages.Decode` | crates/chimera_erlang_beam_dist/src/lib.rs:1357-1534 | Total on every byte string; no index out of range. |
| `ControlMessages.PidReadBackIff` | crates/chimera_erlang_beam_dist/src/lib.rs:1304-1316 | An optional PID comes back in any context if and only if its node name fits the length byte. |
| `ControlMessages.RefReadBackIff` | crates/chimera_erlang_beam_dist/src/lib.rs:1331-1341 | An optional reference comes back in any context if and only if its node name fits the length byte. |
| `ControlMessages.RoundTripIff` | crates/chimera_erlang_beam_dist/src/lib.rs:1300-1534 | `decode(encode(m)) = Some(m)` if and only if the type is one of the six decodable ones and every node name present has at most 255 bytes, for every combination of present and absent parts. |
| `ControlMessages.LongNameLost` | crates/chimera_erlang_beam_dist/src/lib.rs:1304-1316 | A link from a node with a name of 256 letters does not come back. |
| `ControlMessages.EncodeInjective` | crates/chimera_erlang_beam_dist/src/lib.rs:1300-1352 | On those messages the encoding is injective. |
| `ControlMessages.DecodedReencodes` | crates/chimera_erlang_beam_dist/src/lib.rs:1357-1534 | Every byte string that decodes gives a message that encodes and decodes to itself. |
| `ControlMessages.OtherTypesRejected` | crates/chimera_erlang_beam_dist/src/lib.rs:1362-1370 | What `encode` produces for the seven other types, Send among them, is rejected. |
| `ControlMessages.PrefixDecodes` | crates/chimera_erlang_beam_dist/src/lib.rs:1357-1534 | A message cut short is rejected, except when cut right before its reason: then it is taken for one without. |
| `ControlMessages.NameAtIff` | crates/chimera_erlang_beam_dist/src/lib.rs:1395-1405 | A name is read exactly if its bytes are there and are UTF-8. |
| `ControlMessages.PidAtIff` | crates/chimera_erlang_beam_dist/src/lib.rs:1373-1417 | A part whose presence byte is not 1 is absent; a present PID is read exactly if its twelve number bytes are there and its name is read. |
| `ControlMessages.RefAtIff` | crates/chimera_erlang_beam_dist/src/lib.rs:1463-1504 | The same for a reference. |
| `ControlMessages.TypesNumbered` | crates/chimera_erlang_beam_dist/src/lib.rs:1186-1213 | The thirteen types are numbered from one; decode knows 1 and 3 to 7. |
| `ControlMessages.TypesComplete` | crates/chimera_erlang_beam_dist/src/lib.rs:1186-1213 | Every type is among those thirteen. |
| `ControlMessages.WireExample` | crates/chimera_erlang_beam_dist/src/lib.rs:1300-1352 | The bytes of an exit message, least significant byte first. |
| `ControlMessages.WireRef` | crates/chimera_erlang_beam_dist/src/lib.rs:1332-1341 | The bytes of a reference. |
| `Etf.MagnitudeBytes` | crates/chimera_erlang_beam_term/src/etf.rs:201-212 | The loop produces the base-256 digits, least significant first, at least one. |
| `Etf.EncodeBigInteger` | crates/chimera_erlang_beam_term/src/etf.rs:200-230 | Tag, length, sign and digits, most significant first. |
| `Etf.EncodeTerm` | crates/chimera_erlang_beam_term/src/etf.rs:132-154 | The three integer forms and the atom form. |
| `Etf.Encode` | crates/chimera_erlang_beam_term/src/etf.rs:117-129 | With and without the version byte. |
| `Etf.ParseU32` | crates/chimera_erlang_beam_term/src/etf.rs:295-296 | Decimal parsing with the optional plus sign and exact overflow. |
| `Etf.DecodeAtom` | crates/chimera_erlang_beam_term/src/etf.rs:279-304 | All errors; `atom_N` gives N and every other name its hash. |
| `Etf.DecodeBig` | crates/chimera_erlang_beam_term/src/etf.rs:479-532 | Both big forms: digits accumulated in 64 bits, then the sign. |
| `Etf.Decode` | crates/chimera_erlang_beam_term/src/etf.rs:233-275 | Total on every byte string over the modelled tags. |
| `Etf.DecimalRoundTrip` | crates/chimera_erlang_beam_term/src/etf.rs:150-151 | Printing and parsing a decimal numeral are inverse. |
| `Etf.DigitsReadBack` | crates/chimera_erlang_beam_term/src/etf.rs:200-212 | Base-256 digits below 2^64 accumulate back to the number. |
| `Etf.IntegerReadBack` | crates/chimera_erlang_beam_term/src/etf.rs:132-145 | Every integer form reads back its value in any context, with all bytes consumed. |
| `Etf.AtomNameIndex` | crates/chimera_erlang_beam_term/src/etf.rs:146-153 | The printed name of every 32-bit index is UTF-8, fits the length and gives back the index. |
| `Etf.RoundTripIff` | crates/chimera_erlang_beam_term/src/etf.rs:117-330 | `decode(encode(t)) = t` and `decode(encode_with_version(t)) = t` with all bytes consumed, if and only if `t` is a word the term constructors make: every 60-bit integer and every 32-bit atom index. |
| `Etf.DecodedReencodes` | crates/chimera_erlang_beam_term/src/etf.rs:233-330 | Every byte string that decodes to an immediate gives one that encodes and decodes to itself. |
| `Etf.PrefixFails` | crates/chimera_erlang_beam_term/src/etf.rs:233-330 | Every encoding cut short anywhere, version byte included, decodes to the end-of-input error. |
| `Etf.WireExamples` | crates/chimera_erlang_beam_term/src/etf.rs:132-230 | The bytes of each form, most significant byte first. |
| `Etf.OneByteTerms` | crates/chimera_erlang_beam_term/src/etf.rs:248-275 | What each single tag byte decodes to; the empty list is the atom `nil`. |
| `Etf.ParsedU32Is` | crates/chimera_erlang_beam_term/src/etf.rs:295-296 | Numerals with or without a plus sign parse to their value below 2^32; no digits, other bytes and larger values do not parse. |
| `Etf.OtherNameIndex` | crates/chimera_erlang_beam_term/src/etf.rs:301-303 | A name that is not `atom_N` gets its polynomial in 31, modulo 2^64 and then modulo 0xFFFF. |
| `Etf.HashIs` | crates/chimera_erlang_beam_term/src/etf.rs:650-656 | The wrapping hash is that polynomial modulo 2^64. |
| `Etf.AccumulatedIs` | crates/chimera_erlang_beam_term/src/etf.rs:490-493 | Digits beyond 64 bits are lost: the base-256 number modulo 2^64 is left. |
| `Etf.BigSign` | crates/chimera_erlang_beam_term/src/etf.rs:479-502 | Any sign byte but zero makes a big integer negative. |

## Left out

- MajorGcImpl: with roots, heaps of cons cells and tuples only. Float, binary, map and fun objects are marked or forwarded differently by the passes, so no preservation is claimed for them, and the arms for them are not in `UpdateReferences`; heap sizes stay below 2^56 words, where no address overflows; of the statistics only `words_collected` is kept; the debugging check after the collection is not modelled.
- MarkTermGc: the arms for float, binary, map and fun terms, as above; the depth of the Rust stack.
- Grow: the new size, a floating-point product in the original, is an input that is at least the old size.
- HeapRuns.StepKeeps: in-place collections only under the condition of `InPlaceIsCollectIff`; the operations are those that find space and tuples whose arity fits the header; one that does not find space changes nothing and is not a step.
- Minor and yieldable collection, off-heap binaries, write barriers and the remaining heap statistics.
- MakeTuple: the overflow check of `1 + arity` on 32 bits in debug builds; the model wraps.
- TupleAdded: for arities of 2^24 - 1 and more the header does not hold the size, see `TupleHeaderSize`.
- ListToTuple: takes a ghost bound on its walk as a precondition, since the original does not return without one; `WalkEndsIffAcyclic` says when there is one.
- TupleListRoundTrip: stated about the functions that the two methods compute; arities are those a 24-bit size field can hold.
- MapPut: an overflowing subtraction on a header below 0x100 is a panic, as in checked builds, for MapGet, MapRemove and MapSize too; contexts without a heap, instruction decoding and reductions are not modelled.
- ReceiveMatching: the pattern is a function of the term; closures with state of their own are not modelled.
- MonitorFanOut: a process with several monitors of one target gets one DOWN, as in the code.
- AddMonitor: the reference number comes from a global counter and is an input; demonitor, monitors by name, the process registry, the process dictionary, the node list and the atom table inside the process table are left out.
- Spawn: heap and registers of a new process, reduction budgets, and the unused field of handles.
- TableLinks.StepKeeps: guarded by the two wrap-arounds of `Guard`; without them see `TableSymmetry.RunSoundIff` and `TableRuns.RunApartIff`.
- RebalanceConserves: asks that no PID is queued on two schedulers; `StealKeepsWorkIff` says when a single steal needs it.
- Scheduler threads, timers, dirty schedulers, affinity, the run-queue mutex and the current process of a scheduler.
- NoDeadlock: progress of some thread; fairness, writer preference and poisoning of the locks are not modelled, nor are `len` and `is_valid`. The read and the release of a lookup are one step.
- Etf.Decode: answers `OtherTag` for tags other than small and 32-bit integers, both big forms, atoms and nil; tuples, lists, maps, floats and binaries have placeholders in the code. No conformance to the public format is claimed.
- EncodeTerm: small integers and atoms only.
- DecodeBig: the large form reads the same fields in the same order and shares the small form's function; negating the least 64-bit integer is a panic either way.
- ToBytes: writing to memory cannot fail, so I/O errors of the writer are left out.
- Distribution handshake, sockets, node discovery, clocks, the native kernels, the just-in-time compiler, command line and metrics.
- Simple accessors, flag masks, opcode tables, the remaining instructions and code versions would only add easy members.
