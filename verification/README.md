# A verified model of the matching engine and its transport

This project models a single-threaded price-time matching engine, the indexes it relies on, and
the lock-free transport, risk gate, journal and gateways around it, and proves that they do what
they are for. Verify it with `dafny verify dfyconfig.toml`.

## What is modelled

**The book.** `BookSpec` is the obvious book: two ladders of FIFO queues, filled one resting order
at a time, an exhausted iceberg reloaded and moved to the back of its queue at once. `OrderBook` is
the engine: one array of levels shared by both sides, intrusive doubly linked FIFOs in a slot arena,
two occupancy bitmaps, cached best indices, generation-stamped ids, and a sweep that walks a local
pointer, collects reloaded icebergs in a side chain and splices once. Each method of the engine is
proved to move the naive book exactly as `BookSpec` says, ids and trades included, and to keep the
whole representation invariant `Valid` (links, totals, bitmaps, cached bests, free list). What holds
of the naive book (`BookInvariant`, `BookIds`, `BookTheorems`, `BookLots`, `BookPriority`, `BookPlaces`) therefore holds
of the engine: never crossed, price and time priority, where an order rests and what it shows, conservation of lots for the whole book
and for each single order, "0 means nothing happened", and the life of an id.

**The indexes.** `LevelBitmap` is the three-tier bitmap over 64-bit words; `MemoryPool` the LIFO
arena with the free list threaded through dead cells; `FlatHash` the linear-probing map with
backward-shift deletion. For the map, `Valid` ties the slots to the *history* of live keys, and the
table is proved equal, in its keys and live values, to the one built by inserting that history and
nothing else, so no later lookup, insert or erase can tell that an erased key was ever there.

**The transport.** `SpscRing` and `ArenaRing` are step machines: every operation is split into its
index loads, slot accesses, fences and publications. A load of the peer's index may return any value
between the cached one and the current one; each published index carries how much of the peer's work
is ordered before it; a slot read that is not so ordered, or that meets a write, sets `race` and
returns an arbitrary value. The theorems hold for every interleaving and show that this never
happens. The classes of the two files are whole calls, each proved to be a run of micro-steps. A
reader tailing the journal is a machine of the same kind (`JournalReader`).

**Around them.** `Risk` is the pre-trade gate, `Wire` and `Itch` the encoder and parser, `Journal`
the append-only file with its commit watermark, `GatewaySpec`, `GatewayEquiv` and `Gateways` the two
reference-translating gateways, `GatewayLedger` what their messages do and their counters count, and
`Replay` the pipelines from wire bytes to book. `WriteAhead` runs
the arena and the journal side by side, tied together by the feed thread's program order: the live
gateway is at every moment the replay of a watermark that is already published.

## Where the code and its comments disagree

- The comment at `include/lob/order_book.hpp:214-216` says a forged id mismatches the generation
  compare. An id that carries the current even generation of a free slot passes it
  (`BookIds.ForgedIdPasses`). `BookIds.CheckExact` gives the exact condition under which the compare
  decides whether an order rests; ids the book issued, 0 and ~0 all meet it, and `Cancel` and
  `Reduce` require it.
- The comment at `include/lob/risk.hpp:41-46` says the rate limit is exact. It is exact unless fewer
  than W orders were accepted and the clock reads less than the window, because stamps start at 0
  (`Risk.RateExact` in both directions, `Risk.StartupRejects`).
- The comment at `include/lob/flat_hash.hpp:112-114` calls a refused `insert` a provisioning failure;
  the cap is tested before the key is looked for, so an overwrite at the cap, which needs no room, is
  refused as well (`FlatHash.FlatHashMap.Insert`).
- The comment at `include/lob/flat_hash.hpp:45-47` says erase restores the exact state. Keys and the
  values of occupied slots are restored; the slot emptied last keeps its old value, because only its
  key is cleared (`FlatHash.DeadValueStays`). From a table whose empty slots hold 0 the restored state
  is literal exactly when the value in that slot is 0; from any other table it never is
  (`FlatHash.FlatHashMap.Erase`).
- The comment at `include/lob/journal.hpp:18` calls the journal a byte-identical copy of the stream. It
  is one, nothing having been dropped, exactly when the offered bytes fit its capacity
  (`Journals.BytesAccounted`). Otherwise a later shorter frame may still fit behind a dropped one; the
  accepted frames are a prefix of the offered ones exactly when no frame fits behind some fitting
  prefix (`Journals.KeepsAPrefix`, with `Journals.NotAPrefix` as the failing shape).

## Modelling decisions

- Prices, quantities and counters are mathematical integers; generations do not wrap at 32 bits and
  sequence numbers do not wrap at 64 bits. Where 64-bit wrap-around matters it is explicit: the hash
  multiplication, the scattering of references, the unsigned age of a stamp, and the id 0 - 1.
- A 64-bit word of the bitmap is a sequence of 64 booleans, and the masks, `countr_zero` and `bsr` are
  functions on it.
- A pointer to an order is its slot, `NULL` is -1; an arena cell is either a live object or a free-list node.
- `on_trade` does not re-enter the book; the trades of a call are its result, in order.
- Ring capacities are powers of two, so masking an index is the remainder. The rings are proved for
  every positive capacity.
- A peer-index load is a parameter `seen` of the call, any value the memory model allows.
- `memcpy` into the journal is a loop over bytes, so that a reader may look at any moment.
- A slot of the arena counts as applied when the engine first reads it, before it is released; further
  reads of the same slot see the same bytes.
- A zero-length frame stops the parser: its type byte lies outside the frame and no arm accepts length 0.

## Model

| member | source | states |
|---|---|---|
| `OrderBooks.OrderBook.constructor` | include/lob/order_book.hpp:103-118 | a new engine is Valid and stands for the empty book with all slots free, slot 0 on top |
| `OrderBooks.OrderBook.NewOrder` | include/lob/order_book.hpp:148-176 | id, trade sequence and resulting book are those of the naive one-fill-at-a-time book, post-only included; Valid is kept |
| `OrderBooks.OrderBook.NewIcebergOrder` | include/lob/order_book.hpp:186-206 | the same refinement for a reserve order, whose remainder rests as a clip plus hidden lots |
| `OrderBooks.OrderBook.MatchAgainst` | include/lob/order_book.hpp:159-161 | repeated sweeps of the best level equal naive matching up to the limit; what is left no longer crosses |
| `OrderBooks.OrderBook.SweepLevel` | include/lob/order_book.hpp:327-402 | one batched sweep with its side chain and single splice is a non-empty prefix of naive matching and keeps Valid; the open quantity strictly shrinks |
| `OrderBooks.OrderBook.WalkLevel` | include/lob/order_book.hpp:330-368 | the walk: the naive queue of the level is at each moment the untouched orders followed by the reload chain |
| `OrderBooks.OrderBook.FillMaker` | include/lob/order_book.hpp:338-366 | one turn of the walk is one naive fill: charge, reload to the chain, or release of the slot |
| `OrderBooks.OrderBook.CloseSweep` | include/lob/order_book.hpp:370-391 | both splice cases and the plain end re-establish a well linked level; it is empty exactly when walk and chain are |
| `OrderBooks.OrderBook.Cancel` | include/lob/order_book.hpp:211-222 | returns whether the order rests, and removes exactly it from the book |
| `OrderBooks.OrderBook.Reduce` | include/lob/order_book.hpp:230-245 | returns the lots removed, a positive number for q > 0 exactly when the order rests; a partial reduction keeps the place in the queue, a full one removes the order with its reserve |
| `OrderBooks.OrderBook.UnlinkAndRelease` | include/lob/order_book.hpp:283-306 | unlinks from any position of the FIFO, retires the id, and keeps totals, bitmap, cached best and free list right |
| `OrderBooks.OrderBook.Admit` | include/lob/order_book.hpp:408-472 | resting mints a new id on the top free slot, appends at the tail and updates bitmap and cached best; 0 on an exhausted arena, nothing changed |
| `OrderBooks.OrderBook.BestBidPrice` | include/lob/order_book.hpp:264-266 | the highest price with a resting bid, or -1 |
| `OrderBooks.OrderBook.BestAskPrice` | include/lob/order_book.hpp:267-269 | the lowest price with a resting ask, or -1 |
| `OrderBooks.OrderBook.LevelQty` | include/lob/order_book.hpp:270-273 | the visible lots resting at a price on either side, 0 outside the ladder; positive exactly when the level is occupied |
| `BookRep.VisibleOne` | include/lob/order_book.hpp:270-273 | the aggregate of one order is its visible size, without the reserve |
| `BookRep.VisibleAppend` | include/lob/order_book.hpp:270-273 | the aggregate of a queue is the sum over its parts |
| `BookSweep.ReloadStep` | include/lob/order_book.hpp:346-360 | moving an exhausted iceberg to the side chain is the naive reload at the back of the queue |
| `BookSweep.SweepEnd` | include/lob/order_book.hpp:370-391 | splicing the side chain yields one acyclic doubly linked FIFO of untouched orders followed by reloads |
| `BookRep.AdmitRep` | include/lob/order_book.hpp:421-425 | appending at the tail represents the queue with the new order at its end; all other levels are undisturbed |
| `BookRep.UnlinkRep` | include/lob/order_book.hpp:288-290 | bypassing the k-th order represents the queue without it, for head, middle, tail and sole order |
| `BookInvariant.RunSound` | include/lob/order_book.hpp:148-245 | every run of the four operations keeps the invariant: uncrossed, live slots and free list partition the arena, resting slots carry their order's odd generation, free ones an even one |
| `BookInvariant.MatchSound` | include/lob/order_book.hpp:159-161 | matching keeps the invariant, and a remainder means the far side no longer reaches the limit |
| `BookTheorems.NeverCrossed` | include/lob/order_book.hpp:476 | in every reachable book every bid level is below every ask level, so the shared ladder never holds both sides |
| `BookTheorems.PricePriority` | include/lob/order_book.hpp:134 | trades happen best price first, never improve for later trades, and never pass the limit |
| `BookPriority.TimePriority` | include/lob/order_book.hpp:323-324 | at every level orders are served strictly from the front: a prefix lost its clips, at most the next one is hit in part, the rest is untouched, and only reloads of the prefix stand behind |
| `BookPriority.TradesNameMakers` | include/lob/order_book.hpp:338-342 | every trade names an order that rested at the trade's price on the maker side before the taker came, and moves a positive number of lots |
| `BookPlaces.TakerEats` | include/lob/order_book.hpp:155-175 | an incoming order of either kind eats the far side from the best price down to its own limit and no further, each level from the front, names its makers and no taker, and leaves nothing within its limit if it rests |
| `BookPlaces.ReachesMeans` | include/lob/order_book.hpp:156-170 | an order crosses if and only if someone on the far side rests within its limit |
| `BookPlaces.OrderPlaced` | include/lob/order_book.hpp:162-174 | an order that rests stands at its own limit price behind everyone there, openly, with what it did not trade; its side is otherwise as it was |
| `BookPlaces.IcebergPlaced` | include/lob/order_book.hpp:198-204 | likewise an iceberg, which keeps its display size and shows that much or all that is left |
| `BookPlaces.ReloadShows` | include/lob/order_book.hpp:346-360 | a reload shows one display size, or the whole reserve when that is less, at the back of the queue, and hides the rest |
| `BookPlaces.StepCapped` | include/lob/order_book.hpp:148-245 | each operation keeps every clip with a reserve within its display size, if and only if it is not a negative reduction that lifts one above it |
| `BookPlaces.ClipWithinDisplay` | include/lob/order_book.hpp:186-206 | over every run without a negative reduction an order with lots hidden shows some and at most its display size |
| `BookPlaces.CancelExact` | include/lob/order_book.hpp:211-222 | a cancel takes out exactly the order under the id: those ahead stay, those behind move up, its slot is the next handed out, under a new generation |
| `BookPlaces.ReduceExact` | include/lob/order_book.hpp:230-245 | a reduction below the clip takes its lots off the clip alone and changes nothing else; any other takes the order out and answers its clip |
| `BookLots.RunLots` | include/lob/order_book.hpp:148-245 | over every run accepted lots = 2 x traded + removed (discarded reserve included) + growth of what rests |
| `BookLots.StepBalance` | include/lob/order_book.hpp:148-245 | one operation of any kind, for the whole book and for each single id: what rests grows by what the operation rested and shrinks by what it traded and removed |
| `BookLots.OrderLife` | include/lob/order_book.hpp:148-245 | for every order that ever rested, after any later run: its quantity is its fills on arrival, its fills as a maker, what was taken off it, and what still rests of it |
| `BookLots.LotsUnder` | include/lob/order_book.hpp:211-245 | the lots counted under an id are the visible and hidden lots of the one order it names, 0 when none rests |
| `BookLots.MatchLots` | include/lob/order_book.hpp:337-366 | matching takes exactly the traded lots out of the book, from each maker its own, and traded plus left is the taker's quantity |
| `BookPriority.OrderAccounted` | include/lob/order_book.hpp:148-176 | an accepted plain order's quantity is its fills plus what rests visibly; a filled taker rests nothing |
| `BookPriority.IcebergAccounted` | include/lob/order_book.hpp:443-456 | an accepted iceberg's total is fills plus visible plus hidden; it shows at most its display size, and all of it while lots are hidden |
| `BookTheorems.ZeroChangesNothing` | include/lob/order_book.hpp:151-176 | id 0 leaves book and trades unchanged, and is returned exactly for a bad price or size, a crossing post-only order, or an exhausted arena with nothing to cross; a post-only order never trades |
| `BookTheorems.ZeroIcebergChangesNothing` | include/lob/order_book.hpp:186-206 | the same, in both directions, for iceberg orders |
| `BookTheorems.LeftoverFreesSlot` | include/lob/order_book.hpp:361-364 | a remainder left after any trade implies a freed slot, so the arena cannot reject it |
| `BookTheorems.IssuedIds` | include/lob/order_book.hpp:214-218 | over every run no id is issued twice, and the generation compare decides for every issued id whether it still rests |
| `BookTheorems.StepMints` | include/lob/order_book.hpp:413-419 | a minted id rests at once and was never known before |
| `BookTheorems.DeadStaysDead` | include/lob/order_book.hpp:304 | an issued id that no longer rests never rests again, over every run |
| `BookTheorems.LiveIdsDiffer` | include/lob/order_book.hpp:416-418 | no two resting orders share an id |
| `BookTheorems.ReloadKeepsId` | include/lob/order_book.hpp:346-360 | an iceberg that reloads keeps its id and rests at the back of the same level |
| `BookIds.CheckExact` | include/lob/order_book.hpp:211-218 | for every id: compare and truth agree if and only if the id does not carry the even current generation of a free slot |
| `BookIds.ForgedIdPasses` | include/lob/order_book.hpp:214-218 | counterexample to the claim for forged ids: id 1 passes the compare on every fresh book |
| `BookIds.SentinelsNeverRest` | include/lob/order_book.hpp:277 | neither 0 nor ~0 is ever the id of a resting order |
| `Types.IdRoundTrip` | include/lob/order_book.hpp:414-418 | generation and slot can be read back from a minted id |
| `MemoryPools.MemoryPool.constructor` | include/lob/memory_pool.hpp:41-70 | the free list is threaded with slot 0 on top and covers the arena |
| `MemoryPools.MemoryPool.Acquire` | include/lob/memory_pool.hpp:87-94 | pops the top of the LIFO free list and constructs there; null exactly when exhausted |
| `MemoryPools.MemoryPool.Release` | include/lob/memory_pool.hpp:100-103 | pushes the slot: the next acquire hands it out again; no other object is touched |
| `LevelBitmaps.LevelBitmap.Set` | include/lob/level_bitmap.hpp:51-55 | adds the index to the set and keeps both summary tiers |
| `LevelBitmaps.LevelBitmap.Reset` | include/lob/level_bitmap.hpp:58-64 | removes the index, propagating emptiness upwards exactly when a word becomes zero |
| `LevelBitmaps.LevelBitmap.Test` | include/lob/level_bitmap.hpp:66-68 | membership |
| `LevelBitmaps.LevelBitmap.NextSet` | include/lob/level_bitmap.hpp:71-88 | the least member >= i, or NPOS when there is none, for every legal number of bits |
| `LevelBitmaps.LevelBitmap.PrevSet` | include/lob/level_bitmap.hpp:91-104 | the greatest member <= i, or NPOS when there is none |
| `FlatHash.FlatHashMap.Insert` | include/lob/flat_hash.hpp:116-127 | map update, refused exactly at the load cap with the table unchanged; the table is the one built from the history of live keys |
| `FlatHash.FlatHashMap.Find` | include/lob/flat_hash.hpp:133-140 | the mapped value, or 0; the probe loop terminates because the cap leaves an empty slot |
| `FlatHash.FlatHashMap.Erase` | include/lob/flat_hash.hpp:146-168 | map removal; keys and live values equal the table built by inserting the remaining history; the whole table does if and only if no dead value stood in it before and the one slot that became empty, the one occupied in the table built before and empty in the one built after, held value 0 |
| `FlatHash.DeadValueStays` | include/lob/flat_hash.hpp:165 | counterexample to the exact state: one insert and erase with a non-zero value leave a table other than the empty one |
| `FlatHash.FlatHashMap.CloseGap` | include/lob/flat_hash.hpp:155-166 | the backward shift, cyclic wrap-around included, keeps every remaining entry reachable and forgets exactly the erased one |
| `FlatHash.FlatHashMap.NeverFull` | include/lob/flat_hash.hpp:66 | for every legal percentage the load cap is below the capacity |
| `FlatHash.MapUpdate` | include/lob/flat_hash.hpp:116-127 | inserting into a history maps the key to the value and leaves every other key alone |
| `FlatHash.MapRemoval` | include/lob/flat_hash.hpp:146-168 | erasing from a history unmaps the key and leaves every other key alone |
| `ProbeTable.HomeIsTopBits` | include/lob/flat_hash.hpp:107-109 | the home slot is the top bits of the 64-bit product |
| `FlatHash.FlatHashMap.RoomLeft` | include/lob/flat_hash.hpp:117 | below the cap means that one more entry keeps the table within its percentage |
| `ProbeTable.Canonical` | include/lob/flat_hash.hpp:41-49 | any layout that satisfies the history invariant is the table built by inserting that history, slot by slot |
| `ProbeTable.ShiftMove` | include/lob/flat_hash.hpp:160-162 | moving an entry back into a hole on its probe path keeps the scanning invariant with the new hole |
| `ProbeTable.ShiftSkip` | include/lob/flat_hash.hpp:159-160 | an entry whose path does not cross the hole stays, and the scan goes on |
| `ProbeTable.ShiftEnd` | include/lob/flat_hash.hpp:158-165 | when the chain ends no remaining path crosses the hole |
| `SpscRings.FifoUnderEveryInterleaving` | include/lob/spsc_ring.hpp:58-89 | under every interleaving and every stale load: no racing slot access, popped is a prefix of pushed, tail <= head <= tail + capacity |
| `SpscRings.SpscRing.TryPush` | include/lob/spsc_ring.hpp:58-73 | one call is a run of micro-steps that appends the item or leaves the contents alone; with an up-to-date load it succeeds if and only if the ring is not full |
| `SpscRings.SpscRing.TryPop` | include/lob/spsc_ring.hpp:76-89 | one call is a run of micro-steps that takes the oldest item, or answers nothing; with an up-to-date load it succeeds if and only if the ring is not empty |
| `SpscRings.StepInv` | include/lob/spsc_ring.hpp:58-89 | every micro-step of either side keeps the invariant that ties slots, views and caches together |
| `ArenaRings.StationaryPayload` | include/lob/arena_ring.hpp:73-109 | under every interleaving each read of a fronted slot yields the bytes published as that frame, with no race and no shared slot |
| `ArenaRings.FrontedBytesFixed` | include/lob/arena_ring.hpp:103-106 | no step of the producer changes the bytes between try_front and release |
| `ArenaRings.MoveGood` | include/lob/arena_ring.hpp:90-101 | one acquire fence at a refresh covers every slot below the cached head, also for later fence-free peeks |
| `ArenaRings.SpscArenaRing.TryAcquire` | include/lob/arena_ring.hpp:73-79 | one call is a run of moves that touches no slot: the slot of the next frame, or null; with an up-to-date load null if and only if the ring is full |
| `ArenaRings.SpscArenaRing.Write` | bench/bench_journal.cpp:76-78 | the feed's store goes to the slot it acquired and is one move of the run |
| `ArenaRings.SpscArenaRing.Publish` | include/lob/arena_ring.hpp:84-87 | one call is a run of moves that publishes exactly the bytes the client left in its slot |
| `ArenaRings.SpscArenaRing.TryFront` | include/lob/arena_ring.hpp:94-101 | one call is a run of moves that touches no slot: the slot holding the oldest unreleased frame, or null; with an up-to-date load null if and only if the ring is empty |
| `ArenaRings.SpscArenaRing.Read` | bench/bench_journal.cpp:88-91 | the engine's read of the slot it fronted is one move and yields the bytes published as that frame |
| `ArenaRings.SpscArenaRing.ReleaseFront` | include/lob/arena_ring.hpp:107-109 | one move that hands the slot back, advances to the next frame and leaves every slot's bytes alone |
| `Risk.RateExact` | include/lob/risk.hpp:119-121 | the O(1) test agrees with the true sliding window if and only if W orders were accepted or the clock reads at least the window |
| `Risk.StartupRejects` | include/lob/risk.hpp:94 | counterexample to exactness: a fresh gate with a clock below the window rejects its first order |
| `Risk.NoWindowOverfull` | include/lob/risk.hpp:41-46 | in every session with a monotone clock no window holds more than W accepts |
| `Risk.MaskExact` | include/lob/risk.hpp:106-131 | every reject bit says exactly which check failed: size, price band, exposure, or the window with its start-up case; the order is taken in if and only if none did |
| `Risk.Ledger` | include/lob/risk.hpp:134-149 | over every session the position is bought less sold lots, and each side's open lots are accepted less pulled less filled |
| `Risk.WorstCaseAlways` | include/lob/risk.hpp:110-117 | over every session open buys plus position and open sells minus position stay within the limit |
| `Risk.PositionBounded` | include/lob/risk.hpp:50-57 | if cancels and fills never exceed open lots, the net position never leaves [-limit, limit] |
| `Risk.RiskGateway.Check` | include/lob/risk.hpp:103-132 | the mask of all violated checks; state moves exactly on acceptance; the stamp ring is the log of accepts seen through the last W |
| `Risk.RiskGateway.OnCancel` | include/lob/risk.hpp:138-142 | open lots of one side shrink, nothing else moves |
| `Risk.RiskGateway.OnFill` | include/lob/risk.hpp:144-149 | open lots turn into position of the right sign |
| `Wire.PutBigEndian` | bench/pipeline_common.hpp:100-111 | the encoder loop appends the big-endian bytes of the number |
| `Wire.ValueOfBigEndian` | bench/pipeline_common.hpp:100-111 | writing and loading a number that fits gives it back |
| `Wire.BigEndianOfValue` | include/lob/itch.hpp:75-77 | loading and writing bytes gives them back |
| `Wire.SwappedLoad` | include/lob/itch.hpp:52-77 | a byte-swapped host load is the big-endian value of the wire bytes |
| `Itch.WireLayout` | include/lob/itch.hpp:83-124 | exactly four pairs of type byte and length are accepted, and each field is the base-256 number at its offset in the packed struct |
| `Itch.FrameLayout` | include/lob/itch.hpp:162-191 | a frame is its length, high byte first, and that many bytes of accepted payload |
| `Replay.SinkReads` | bench/pipeline_common.hpp:285-317 | the type byte decides what reaches the gateway, with reference, size, price and side read at their offsets; side byte 'B' buys, any other sells |
| `Itch.ParsesFrame` | include/lob/itch.hpp:161-193 | one call on an encoded frame delivers its message and consumes exactly the frame, whatever follows |
| `Itch.ParsesStream` | include/lob/itch.hpp:161-193 | parsing the concatenated frames of any list of well-formed messages yields the list and exhausts the stream |
| `Itch.ParsesTruncated` | include/lob/itch.hpp:163-166 | any truncation yields exactly the messages whose frames fit whole |
| `Itch.Reencodes` | include/lob/itch.hpp:83-136 | the parser accepts nothing but encodings: what it decodes re-encodes to the same bytes |
| `Itch.NothingSkipped` | include/lob/itch.hpp:161-193 | for every byte string the parsed messages re-encoded plus the unread rest are the input |
| `Itch.ItchParser.Next` | include/lob/itch.hpp:161-193 | delivers one message and moves past its frame, or stops without moving |
| `Itch.ItchParser.Drain` | include/lob/itch.hpp:142-144 | the loop over next yields all messages and stops at the first frame it cannot take |
| `Journals.JStepInv` | include/lob/journal.hpp:140-151 | every micro-step of the writer keeps the journal invariant |
| `Journals.WatermarkSafe` | include/lob/journal.hpp:147-150 | below any published watermark lie whole accepted frames and nothing else |
| `Journals.CommittedNeverChanges` | include/lob/journal.hpp:224-227 | bytes below a watermark never change at any later step of the writer |
| `Journals.BytesAccounted` | include/lob/journal.hpp:140-151 | committed plus dropped bytes are the offered ones and the accepted frames are those that fit in their turn; nothing is dropped, and the journal is a byte-identical copy, if and only if the offered bytes fit the capacity |
| `Journals.KeepsAll` | include/lob/journal.hpp:141-144 | every frame is kept if and only if the offered bytes fit the capacity |
| `Journals.KeepsAPrefix` | include/lob/journal.hpp:141-144 | the kept frames are a prefix of the offered ones if and only if some prefix fits and no later frame fits behind it |
| `Journals.NotAPrefix` | include/lob/journal.hpp:141-144 | counterexample: a frame longer than the file is dropped and the next one kept |
| `Journals.ReplayYieldsAccepted` | include/lob/journal.hpp:193-197 | parsing up to any watermark yields exactly the messages accepted by then |
| `JournalReaders.TailReadsCommitted` | include/lob/journal.hpp:147-150 | a reader tailing the journal never races with the writer, whatever watermarks its loads return, and reads only the accepted frames, whole up to the watermark |
| `JournalReaders.TailParses` | include/lob/journal.hpp:224-227 | wherever such a reader stops, what it has read parses to the accepted messages whose frames it read whole |
| `Journals.Journal.Append` | include/lob/journal.hpp:140-151 | a frame that fits is committed behind the earlier bytes; one that does not is dropped whole and counted |
| `GatewaySpec.Gathered` | bench/bench_flat_hash.cpp:53-55 | multiplying by the inverse constant modulo 2^64 recovers every reference |
| `GatewaySpec.ScatterInjective` | bench/bench_flat_hash.cpp:41-42 | different references scatter to different keys |
| `GatewaySpec.ScatterNonZero` | bench/bench_flat_hash.cpp:41-42 | a non-zero reference never scatters to the empty key 0 |
| `Gateways.DenseGateway.Apply` | bench/pipeline_common.hpp:258-280 | the gateway in place moves engine, array and counters as its value form says, and only ever stores ids safe to cancel |
| `Gateways.HashGateway.Apply` | bench/bench_flat_hash.cpp:57-79 | the same for the gateway over the sparse map |
| `GatewayLedger.MessageDoes` | bench/pipeline_common.hpp:258-280 | each kind of message changes book and references as it should: a new order joins its level under its reference, a cancel removes the order there, an execution or reduction takes its lots off it |
| `GatewayLedger.ReduceAnswers` | include/lob/order_book.hpp:230-245 | the answer is what the order shows less; the book loses that much, and the reserve too when the order goes |
| `GatewayLedger.SessionCounts` | bench/pipeline_common.hpp:265-271 | over every session the counters are the lots that executions took off the book and the number of executions that took any |
| `GatewayLedger.SparseCounts` | bench/bench_flat_hash.cpp:64-69 | the sparse gateway counts the same |
| `GatewayEquiv.CancelMakesInert` | include/lob/order_book.hpp:211-222 | after a cancel the stale id behaves like an absent one |
| `GatewayEquiv.StepAgrees` | bench/bench_flat_hash.cpp:57-79 | one message, a new order being accepted by the map or refused harmlessly, keeps the two gateways in agreement: same book, trades and lots, and the tables differ only in references that rest nowhere |
| `GatewayEquiv.SameSession` | bench/bench_flat_hash.cpp:37-43 | on every message sequence with non-zero references in which every insert is accepted or refused harmlessly the two gateways end alike |
| `GatewayEquiv.SessionDiverges` | bench/bench_flat_hash.cpp:57-79 | on every other sequence they do not stay alike: after the first harmful refusal one cancel gives different books |
| `GatewayEquiv.RefusedInsert` | bench/bench_flat_hash.cpp:59-62 | a new order whose insert is refused keeps the gateways in agreement if and only if neither that order nor what the map still holds under its reference rests |
| `GatewayEquiv.RefusedThenCancelled` | bench/bench_flat_hash.cpp:57-79 | in every other case cancelling the reference makes the books differ |
| `GatewayEquiv.RoomIsProvision` | include/lob/flat_hash.hpp:112-117 | room for every new order of the session is enough: no insert is refused |
| `GatewayEquiv.SameFromStart` | bench/bench_flat_hash.cpp:44-79 | from fresh gateways: same book, trade count and traded lots after any provisioned session |
| `Replay.WireCarries` | bench/pipeline_common.hpp:208-243 | an engine message put on the wire by the feed reaches the gateway unchanged |
| `Replay.PipelineRefines` | bench/pipeline_common.hpp:205-215 | under every interleaving of the message ring the engine has applied exactly a prefix of the feed, and the rest would complete the single-threaded session |
| `Replay.SessionIsSequential` | bench/bench_journal.cpp:86-95 | under every interleaving of the arena the gateway has applied exactly the published frames, in order, up to the one read last |
| `Replay.FinalWatermark` | include/lob/journal.hpp:224-232 | the final watermark replays to the whole feed if and only if the feed fits the journal |
| `WriteAhead.JournalFirst` | bench/bench_journal.cpp:75-82 | at every moment of every interleaving a journal with room has accepted every frame the engine can see |
| `WriteAhead.ReplayIsTheLiveState` | bench/bench_journal.cpp:75-95 | with room for the feed in the journal, at every moment of every interleaving the live gateway is the replay of a watermark already published |
| `WriteAhead.ReplayIsAPastState` | include/lob/journal.hpp:224-227 | with room for the feed in the journal, the replay of any earlier watermark is a state the live gateway went through |
| `WriteAhead.ReplayRebuildsLive` | bench/bench_journal.cpp:148-228 | with room for the feed in the journal, a fresh gateway fed the final watermark of a drained session ends exactly where the live one did |
| `Replay.ReplayInto` | bench/bench_journal.cpp:195-200 | the replay loop applies exactly the parsed messages and counts them |

## Left out

- Generations: no 32-bit wrap, because an id would then name two orders of different lifetimes; the arena is assumed smaller than 2^32 - 1 slots so that a slot fits the low half of an id.
- OrderBooks.OrderBook.Cancel: requires an id that does not carry the even current generation of a free slot; what the code does to dead storage otherwise is not modelled.
- OrderBooks.OrderBook.Reduce: has the same requirement on the id; the quantity is unrestricted, negative ones included.
- FlatHash.FlatHashMap.Insert: requires a non-zero key, the source's own convention for references; so does Erase.
- GatewayEquiv.SameFromStart: assumes room for every new order, as a provisioned map has; GatewayEquiv.SameSession and GatewayEquiv.SessionDiverges say exactly which other sessions stay alike.
- WriteAhead.ReplayRebuildsLive: equates books, trade counts and lots; the fingerprint the benchmark compares is a hash of best prices and level quantities, which the book determines, and is not computed.
- Placement-new lifetimes, allocation failure, cache-line placement, pre-touching and branch hints: not functional behaviour.
- Object addresses: slots stand for pointers, so index_of and at are the identity.
- File creation, mapping, flushing and the journal header's magic number: the journal is a byte array with a watermark.
- Thread pinning, timing, pacing and percentile reports of the benchmarks, and the random feed generator: scaffolding.
- Liveness of the spin loops around try_push, try_pop, try_acquire and try_front: only safety of the steps is proved.
- OrderBook::apply, the direct-id dispatcher: one call to an operation that is proved.
- LevelBitmap::clear after construction, size_approx of the rings, and the counters read by supervision: easy members.
- include/lob/bbo.hpp and include/lob/signals.hpp: local arithmetic on top-of-book snapshots.
- The clock of the risk gate: a parameter of each check, assumed not to run backwards where a lemma says so.
