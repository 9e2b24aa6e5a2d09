/**
 The price-time matching engine: a flat ladder of intrusive FIFOs over a slot arena, two
 occupancy bitmaps, cached best indices and generation-stamped ids. `model` is the naive
 book the engine stands for; every method is proved to move it as BookSpec says.
 */
module OrderBooks {
  import opened Types
  import opened BookSpec
  import opened BookInvariant
  import opened BookIds
  import opened BookRep
  import opened BookSweep
  import opened MemoryPools
  import opened LevelBitmaps

  class OrderBook {
    const base: Price
    const numTicks: nat
    const pool: MemoryPool<Order>
    const levels: array<PriceLevel>
    const bids: LevelBitmap
    const asks: LevelBitmap
    const generations: array<nat>
    var bestBid: nat
    var bestAsk: nat
    ghost var model: Book

    // The parts are distinct objects of matching sizes.
    ghost predicate Wired() {
      && numTicks == levels.Length == bids.numBits == asks.numBits
      && pool.storage.Length == generations.Length < 0xFFFF_FFFF
      && bids != asks
      && bids.l0 != asks.l0 && bids.l0 != asks.l1 && bids.l1 != asks.l0 && bids.l1 != asks.l1
    }

    // Arena, levels and generations represent b, but for the level `skip`.
    ghost predicate Stored(b: Book, skip: int)
      reads pool, pool.storage, levels, generations
    {
      && pool.Valid() && pool.free == b.free
      && generations[..] == b.gens
      && LadderRep(pool.storage[..], levels[..], b, skip)
    }

    // Bitmaps and cached bests describe b.
    ghost predicate Indexed(b: Book)
      reads this`bestBid, this`bestAsk, bids, bids.l0, bids.l1, asks, asks.l0, asks.l1
    {
      && bids.Valid() && asks.Valid()
      && BitsRep(bids.bits, b.bids) && BitsRep(asks.bits, b.asks)
      && bestBid == (if Highest(b.bids) < 0 then NPOS else Highest(b.bids))
      && bestAsk == Lowest(b.asks)
    }

    ghost predicate Valid()
      reads this, pool, pool.storage, levels, generations
      reads bids, bids.l0, bids.l1, asks, asks.l0, asks.l1
    {
      && Wired()
      && Sound(model) && model.base == base && |model.bids| == |model.asks| == numTicks
      && Stored(model, -1)
      && Indexed(model)
    }

    // Everything a call may write.
    function Footprint(): set<object> {
      {this, pool, pool.storage, levels, generations, bids, bids.l0, bids.l1, asks, asks.l0, asks.l1}
    }

    constructor (base: Price, numTicks: nat, poolCap: nat)
      requires numTicks % 64 == 0 && 0 < numTicks <= 0x4_0000 && poolCap < 0xFFFF_FFFF
      ensures Valid() && this.base == base && this.numTicks == numTicks
      ensures model == EmptyBook(base, numTicks, poolCap)
      ensures fresh(Footprint())
    {
      hide Sound, Stored, Indexed, EmptyBook, MemoryPool.Valid, LevelBitmap.Valid;
      this.base := base;
      this.numTicks := numTicks;
      pool := new MemoryPool<Order>(poolCap);
      levels := new PriceLevel[numTicks](_ => PriceLevel(NULL, NULL, 0));
      bids := new LevelBitmap(numTicks);
      asks := new LevelBitmap(numTicks);
      generations := new nat[poolCap](_ => 0);
      bestBid := NPOS;
      bestAsk := numTicks;
      model := EmptyBook(base, numTicks, poolCap);
      new;
      EmptySound(base, numTicks, poolCap);
      EmptyShape(base, numTicks, poolCap);
      StartsStored(poolCap);
      StartsIndexed(poolCap);
    }

    static lemma EmptyShape(base: Price, ticks: nat, cap: nat)
      ensures var b := EmptyBook(base, ticks, cap); b.base == base && |b.bids| == |b.asks| == ticks
    {
    }

    // Fresh parts represent the empty book ...
    lemma StartsStored(poolCap: nat)
      requires pool.Valid() && pool.storage.Length == poolCap && generations.Length == poolCap
      requires |pool.free| == poolCap && forall k | 0 <= k < poolCap :: pool.free[k] == k
      requires forall s | 0 <= s < poolCap :: generations[s] == 0
      requires levels.Length == numTicks
      requires forall i | 0 <= i < numTicks :: levels[i] == PriceLevel(NULL, NULL, 0)
      ensures Stored(EmptyBook(base, numTicks, poolCap), -1)
    {
      hide FreeList, LadderRep;
      EmptyRep(pool.storage[..], levels[..], base, numTicks, poolCap);
      assert pool.free == EmptyBook(base, numTicks, poolCap).free;
      assert generations[..] == EmptyBook(base, numTicks, poolCap).gens;
    }

    // ... and index it.
    lemma StartsIndexed(poolCap: nat)
      requires bids.Valid() && asks.Valid() && bids.bits == asks.bits == {}
      requires bestBid == NPOS && bestAsk == numTicks && levels.Length == numTicks
      requires forall i | 0 <= i < numTicks :: levels[i] == PriceLevel(NULL, NULL, 0)
      ensures Indexed(EmptyBook(base, numTicks, poolCap))
    {
      hide LadderRep, BitsRep, Highest, Lowest;
      EmptyRep(pool.storage[..], levels[..], base, numTicks, poolCap);
    }

    // Rest an order: acquire, mint an id, append at the tail, maintain bitmap and cached best.
    method Admit(side: Side, idx: nat, price: Price, visible: Qty, hidden: Qty, display: Qty)
      returns (id: OrderId)
      requires Valid() && idx < numTicks && price == base + idx
      requires visible > 0 && hidden >= 0 && (hidden > 0 ==> display > 0)
      requires !Reaches(model, side.Opposite(), idx)
      modifies this`model, this`bestBid, this`bestAsk, pool, pool.storage, levels, generations
      modifies bids, bids.l0, bids.l1, asks, asks.l0, asks.l1
      ensures Valid()
      ensures (model, id) == BookSpec.Rest(old(model), side, idx, visible, hidden, display)
    {
      hide Sound, Reaches, Stored;
      RestSound(model, side, idx, visible, hidden, display);
      id := Store(side, idx, price, visible, hidden, display);
      if id == 0 { return; }
      ghost var b := model;
      model := BookSpec.Rest(b, side, idx, visible, hidden, display).0;
      MarkOccupied(side, idx, b);
    }

    // The arena, level and generation part of resting an order; 0 when the arena is exhausted.
    method Store(side: Side, idx: nat, price: Price, visible: Qty, hidden: Qty, display: Qty)
      returns (id: OrderId)
      requires Wired() && Sound(model) && Stored(model, -1)
      requires model.base == base && |model.bids| == |model.asks| == numTicks
      requires idx < numTicks && price == base + idx && !Reaches(model, side.Opposite(), idx)
      requires visible > 0 && hidden >= 0 && (hidden > 0 ==> display > 0)
      modifies pool, pool.storage, levels, generations
      ensures var (b', id') := BookSpec.Rest(model, side, idx, visible, hidden, display);
              id == id' && Stored(b', -1)
      ensures id == 0 <==> model.free == []
    {
      hide Sound, Reaches, LadderRep, FreeList, Chain, Lowest, Highest;
      ghost var cells := pool.storage[..];
      var slot := pool.Acquire(Order(0, NULL, NULL, 0, 0, side, 0, 0));
      if slot == NULL { return 0; }
      generations[slot] := generations[slot] + 1;
      id := MakeId(generations[slot], slot);
      ghost var r: Resting := RestingOrder(slot, generations[slot], visible, hidden, display);
      AdmitRep(cells, levels[..], model, side, idx, r);
      AppendAtTail(idx, slot, Order(visible, NULL, NULL, price, id, side, hidden, display));
      assert pool.storage[..] == Appended(cells, Own(model, side)[idx], r, side, price);
    }

    // Link the slot behind the level's tail, or make it the head of an empty level.
    method AppendAtTail(idx: nat, slot: nat, o: Order)
      requires pool.Valid() && idx < levels.Length && slot < pool.storage.Length && pool.storage[slot].Live?
      requires var t := levels[idx].tail;
               NULL <= t < pool.storage.Length && t != slot && (t >= 0 ==> pool.storage[t].Live?)
      modifies pool.storage, levels
      ensures pool.Valid()
      ensures var lvl := old(levels[idx]);
              && pool.storage[..]
                 == SetNext(old(pool.storage[..])[slot := Live(o.(prev := lvl.tail))], lvl.tail, slot)
              && levels[..]
                 == old(levels[..])[idx := PriceLevel(if lvl.tail == NULL then slot else lvl.head, slot,
                                                      lvl.total + o.qty)]
    {
      hide FreeList;
      ghost var cells := pool.storage[..];
      var lvl := levels[idx];
      pool.storage[slot] := Live(o.(prev := lvl.tail));
      if lvl.tail != NULL {
        WriteNext(lvl.tail, slot);
      }
      levels[idx] := PriceLevel(if lvl.tail == NULL then slot else lvl.head, slot, lvl.total + o.qty);
      FreeListFrame(cells, pool.storage[..], pool.freeHead, pool.free);
    }

    // Set the forward link of slot p; nothing to do when p is null.
    method WriteNext(p: int, x: int)
      requires p < pool.storage.Length && (p >= 0 ==> pool.storage[p].Live?)
      modifies pool.storage
      ensures pool.storage[..] == SetNext(old(pool.storage[..]), p, x)
    {
      if p >= 0 {
        pool.storage[p] := Live(pool.storage[p].obj.(next := x));
      }
    }

    // Set the level's bit and improve the cached best.
    method MarkOccupied(side: Side, idx: nat, ghost b: Book)
      requires Wired() && idx < numTicks && Indexed(b) && |b.bids| == |b.asks| == numTicks
      requires |model.bids| == |model.asks| == numTicks
      requires Own(model, side)[idx] != [] && Own(model, side.Opposite()) == Own(b, side.Opposite())
      requires forall i | 0 <= i < numTicks && i != idx :: Own(model, side)[i] == Own(b, side)[i]
      modifies this`bestBid, this`bestAsk
      modifies bids`l2, bids`bits, bids.l0, bids.l1, asks`l2, asks`bits, asks.l0, asks.l1
      ensures Indexed(model)
    {
      hide Lowest, Highest;
      if side == Buy {
        HighestRaised(b.bids, model.bids, idx);
        bids.Set(idx);
        if bestBid == NPOS || idx > bestBid {
          bestBid := idx;
        }
      } else {
        LowestLowered(b.asks, model.asks, idx);
        asks.Set(idx);
        if idx < bestAsk {
          bestAsk := idx;
        }
      }
    }

    // Set the backward link of slot p; nothing to do when p is null.
    method WritePrev(p: int, x: int)
      requires p < pool.storage.Length && (p >= 0 ==> pool.storage[p].Live?)
      modifies pool.storage
      ensures pool.storage[..] == SetPrev(old(pool.storage[..]), p, x)
    {
      if p >= 0 {
        pool.storage[p] := Live(pool.storage[p].obj.(prev := x));
      }
    }

    // Intrusive unlink: bypass the order, fix head, tail and aggregate of its level.
    method Unlink(slot: nat, ghost w: Where)
      requires Wired() && Sound(model) && Stored(model, -1) && model.base == base
      requires |model.bids| == |model.asks| == numTicks
      requires Located(model, w) && Own(model, w.side)[w.tick][w.pos].slot == slot
      modifies pool.storage, levels
      ensures slot < pool.storage.Length && pool.storage[slot].Live?
      ensures pool.storage[slot].obj.price == base + w.tick && pool.storage[slot].obj.side == w.side
      ensures levels[w.tick].head == NULL <==> Own(Unlinked(model, w), w.side)[w.tick] == []
      ensures Stored(Unlinked(model, w), -1)
    {
      hide Sound, LadderRep, FreeList, Chain, Distinct;
      ghost var cells, levels0, c := pool.storage[..], levels[..], Own(model, w.side)[w.tick];
      Neighbours(cells, levels0, model, w);
      UnlinkRep(cells, levels0, model, w);
      var o := pool.storage[slot].obj;
      var idx := o.price - base;
      var lvl := levels[idx];
      WriteNext(o.prev, o.next);
      WritePrev(o.next, o.prev);
      levels[idx] := PriceLevel(if o.prev == NULL then o.next else lvl.head,
                                if o.next == NULL then o.prev else lvl.tail,
                                lvl.total - o.qty);
      assert pool.storage[..] == Bypassed(cells, c, w.pos);
      assert levels[..] == levels0[w.tick := LevelWithout(levels0[w.tick], c, w.pos)];
      FreeListFrame(cells, pool.storage[..], pool.freeHead, pool.free);
    }

    // A level that just emptied: clear its bit and, if it was the best, hop to the next one.
    method EmptyBid(idx: nat, ghost b: Book, ghost b': Book)
      requires Wired() && idx < numTicks && Indexed(b) && SameShape(b, b') && |b.bids| == |b.asks| == numTicks
      requires b.bids[idx] != [] && b'.bids == b.bids[idx := []] && b'.asks == b.asks
      modifies this`bestBid, bids`l2, bids`bits, bids.l0, bids.l1
      ensures Indexed(b')
    {
      hide Lowest, Highest;
      BestKept(b.bids, b'.bids, idx);
      bids.Reset(idx);
      if idx == bestBid {
        bestBid := bids.PrevSet(idx);
        HighestDropped(b.bids, b'.bids, idx, bids.bits, bestBid);
      }
    }

    method EmptyAsk(idx: nat, ghost b: Book, ghost b': Book)
      requires Wired() && idx < numTicks && Indexed(b) && SameShape(b, b') && |b.bids| == |b.asks| == numTicks
      requires b.asks[idx] != [] && b'.asks == b.asks[idx := []] && b'.bids == b.bids
      modifies this`bestAsk, asks`l2, asks`bits, asks.l0, asks.l1
      ensures Indexed(b')
    {
      hide Lowest, Highest;
      BestKept(b.asks, b'.asks, idx);
      asks.Reset(idx);
      if idx == bestAsk {
        var next := asks.NextSet(idx);
        bestAsk := if next == NPOS then numTicks else next;
        LowestDropped(b.asks, b'.asks, idx, asks.bits, next);
      }
    }

    // While the level still holds an order, bitmap and bests stay right.
    lemma StillOccupied(side: Side, idx: nat, b: Book, b': Book)
      requires Wired() && idx < numTicks && Indexed(b) && SameShape(b, b') && |b.bids| == |b.asks| == numTicks
      requires Own(b, side)[idx] != [] && Own(b', side)[idx] != []
      requires Own(b', side.Opposite()) == Own(b, side.Opposite())
      requires forall i | 0 <= i < numTicks && i != idx :: Own(b', side)[i] == Own(b, side)[i]
      ensures Indexed(b')
    {
      BestKept(Own(b, side), Own(b', side), idx);
    }

    // Take the order at w out of the book: its neighbours close up and its id dies with the slot.
    method UnlinkAndRelease(slot: nat, ghost w: Where)
      requires Valid() && Located(model, w) && Own(model, w.side)[w.tick][w.pos].slot == slot
      modifies this`model, this`bestBid, this`bestAsk, pool, pool.storage, levels, generations
      modifies bids, bids.l0, bids.l1, asks, asks.l0, asks.l1
      ensures Valid() && model == Remove(old(model), w)
    {
      hide Sound, Stored, Remove;
      RemoveSound(model, w);
      Unlink(slot, w);
      Unindex(slot, w);
      Recycle(slot, w);
      model := Remove(model, w);
    }

    // If the level of the unlinked order emptied, clear its bit and hop to the next best.
    method Unindex(slot: nat, ghost w: Where)
      requires Wired() && Sound(model) && model.base == base && |model.bids| == |model.asks| == numTicks
      requires Located(model, w) && Indexed(model)
      requires slot < pool.storage.Length && pool.storage[slot].Live?
      requires pool.storage[slot].obj.price == base + w.tick && pool.storage[slot].obj.side == w.side
      requires levels[w.tick].head == NULL <==> Own(Unlinked(model, w), w.side)[w.tick] == []
      modifies this`bestBid, this`bestAsk
      modifies bids`l2, bids`bits, bids.l0, bids.l1, asks`l2, asks`bits, asks.l0, asks.l1
      ensures Indexed(Unlinked(model, w)) && Indexed(Remove(model, w))
    {
      hide Sound, Lowest, Highest, BitsRep;
      var o := pool.storage[slot].obj;
      var idx := o.price - base;
      if levels[idx].head == NULL {
        if o.side == Buy {
          EmptyBid(idx, model, Unlinked(model, w));
        } else {
          EmptyAsk(idx, model, Unlinked(model, w));
        }
      } else {
        StillOccupied(w.side, w.tick, model, Unlinked(model, w));
      }
    }

    // Invalidate the id before the slot can be reused.
    method Recycle(slot: nat, ghost w: Where)
      requires Wired() && Sound(model) && Located(model, w) && Stored(Unlinked(model, w), -1)
      requires slot < pool.storage.Length && pool.storage[slot].Live?
      requires Own(model, w.side)[w.tick][w.pos].slot == slot
      modifies pool, pool.storage, generations
      ensures Stored(Remove(model, w), -1)
    {
      hide Sound, LadderRep, FreeList;
      RetireRep(pool.storage[..], levels[..], model, w, pool.freeHead);
      generations[slot] := generations[slot] + 1;
      pool.Release(slot);
    }

    // True exactly when an order rests under the id, which then leaves the book.
    method Cancel(id: OrderId) returns (ok: bool)
      requires Valid() && Genuine(model, id)
      modifies this`model, this`bestBid, this`bestAsk, pool, pool.storage, levels, generations
      modifies bids, bids.l0, bids.l1, asks, asks.l0, asks.l1
      ensures Valid() && (model, ok) == CancelOrder(old(model), id)
      ensures ok <==> Rests(old(model), id)
    {
      hide Sound, Indexed, LadderRep, Remove;
      CheckExact(model, id);
      var slot := SlotOf(id);
      if slot >= generations.Length { return false; }
      if generations[slot] != GenOf(id) { return false; }
      ghost var w := Find(model, id);
      RestingId(model, w.side, w.tick, w.pos);
      UnlinkAndRelease(slot, w);
      return true;
    }

    // The lots taken off the order; one that loses its whole clip leaves with its reserve.
    method Reduce(id: OrderId, q: Qty) returns (removed: Qty)
      requires Valid() && Genuine(model, id)
      modifies this`model, this`bestBid, this`bestAsk, pool, pool.storage, levels, generations
      modifies bids, bids.l0, bids.l1, asks, asks.l0, asks.l1
      ensures Valid() && (model, removed) == ReduceOrder(old(model), id, q)
      ensures q > 0 ==> (removed > 0 <==> Rests(old(model), id))
    {
      assert generations[..] == model.gens;
      hide Sound, Indexed, Stored, Remove;
      CheckExact(model, id);
      var slot := SlotOf(id);
      if slot >= generations.Length { return 0; }
      if generations[slot] != GenOf(id) { return 0; }
      ghost var w := Find(model, id);
      RestingId(model, w.side, w.tick, w.pos);
      CellOf(slot, w);
      if q < pool.storage[slot].obj.qty {
        ReduceSound(model, id, q);
        Shrink(slot, q, w);
        return q;
      }
      removed := pool.storage[slot].obj.qty;
      UnlinkAndRelease(slot, w);
    }

    // The arena cell of a resting order.
    lemma CellOf(slot: nat, w: Where)
      requires Wired() && Sound(model) && Stored(model, -1) && Located(model, w)
      requires Own(model, w.side)[w.tick][w.pos].slot == slot
      ensures slot < pool.storage.Length && pool.storage[slot].Live?
      ensures pool.storage[slot].obj.qty == Own(model, w.side)[w.tick][w.pos].qty
      ensures pool.storage[slot].obj.price == model.base + w.tick
    {
      Neighbours(pool.storage[..], levels[..], model, w);
    }

    // Partial reduction: two stores.
    method Shrink(slot: nat, q: Qty, ghost w: Where)
      requires Valid() && Located(model, w) && Own(model, w.side)[w.tick][w.pos].slot == slot
      requires q < Own(model, w.side)[w.tick][w.pos].qty
      requires Sound(Resized(model, w, q))
      modifies this`model, pool.storage, levels
      ensures Valid() && model == Resized(old(model), w, q)
    {
      hide Sound, LadderRep, FreeList, Chain, Distinct, Indexed;
      ghost var b, cells, levels0 := model, pool.storage[..], levels[..];
      ghost var r := Own(b, w.side)[w.tick][w.pos];
      CellOf(slot, w);
      ResizeRep(cells, levels0, b, w, r.(qty := r.qty - q));
      pool.storage[slot] := Live(pool.storage[slot].obj.(qty := pool.storage[slot].obj.qty - q));
      var idx := pool.storage[slot].obj.price - base;
      levels[idx] := levels[idx].(total := levels[idx].total - q);
      assert levels[..] == levels0[w.tick := levels[w.tick]];
      FreeListFrame(cells, pool.storage[..], pool.freeHead, pool.free);
      model := Resized(b, w, q);
      StillOccupied(w.side, w.tick, b, model);
    }

    // The state of a sweep: `o` walks the untouched makers, `reloadHead`/`reloadTail` bound the
    // side chain, and the naive book stands at `b`.
    ghost predicate Midway(b: Book, maker: Side, idx: nat, rest: Queue, rel: Queue, before: int,
                           o: int, reloadHead: int, reloadTail: int)
      reads pool, pool.storage, levels, generations
    {
      && Sound(b) && b.base == base
      && pool.Valid() && pool.free == b.free && generations[..] == b.gens
      && pool.storage.Length == generations.Length
      && Sweeping(pool.storage[..], levels[..], b, maker, idx, rest, rel, before)
      && o == SlotAt(rest, 0) && reloadHead == SlotAt(rel, 0) && reloadTail == SlotAt(rel, |rel| - 1)
    }

    // One turn of the sweep loop: fill the maker at `o`; if its clip is exhausted, reload it
    // onto the side chain or recycle it, and walk on.
    method FillMaker(maker: Side, idx: nat, qty: Qty, o: int, reloadHead: int, reloadTail: int,
                     ghost b: Book, ghost rest: Queue, ghost rel: Queue, ghost before: int)
      returns (left: Qty, trade: Trade, o': int, head': int, tail': int,
               ghost b': Book, ghost rest': Queue, ghost rel': Queue, ghost before': int)
      requires Midway(b, maker, idx, rest, rel, before, o, reloadHead, reloadTail)
      requires o != NULL && qty > 0
      modifies pool, pool.storage, levels, generations
      ensures idx < |Own(b, maker)| && Own(b, maker)[idx] != []
      ensures var f := FillHead(b, maker, idx, qty); b' == f.book && left == f.left && trade == f.trade
      ensures Midway(b', maker, idx, rest', rel', before', o', head', tail')
      ensures SameShape(b, b') && Own(b', maker.Opposite()) == Own(b, maker.Opposite())
      ensures Own(b', maker) == Own(b, maker)[idx := rest' + rel']
    {
      hide Sound, LadderRep, FreeList, Sweeping, Chain;
      ghost var cells, levels0 := pool.storage[..], levels[..];
      HeadCell(cells, levels0, b, maker, idx, rest, rel, before);
      FillShape(b, maker, idx, qty);
      var ord := pool.storage[o].obj;
      var fill := if ord.qty < qty then ord.qty else qty;
      left := qty - fill;
      trade := Trade(ord.id, 0, base + idx, fill);
      b' := FillHead(b, maker, idx, qty).book;
      if ord.qty - fill != 0 {
        rest', rel', before' := Replace(rest, 0, rest[0].(qty := rest[0].qty - qty)), rel, before;
        ChargeMaker(maker, idx, qty, o, reloadHead, reloadTail, b, rest, rel, before);
        o', head', tail' := o, reloadHead, reloadTail;
      } else if ord.hidden > 0 {
        rest', rel', before' := rest[1..], rel + [Reload(rest[0])], rest[0].slot;
        ReloadMaker(maker, idx, qty, o, reloadHead, reloadTail, b, rest, rel, before);
        o', head', tail' := ord.next, if reloadTail == NULL then o else reloadHead, o;
      } else {
        rest', rel', before' := rest[1..], rel, rest[0].slot;
        ReleaseMaker(maker, idx, qty, o, reloadHead, reloadTail, b, rest, rel, before);
        o', head', tail' := ord.next, reloadHead, reloadTail;
      }
      SweepQueue(pool.storage[..], levels[..], b', maker, idx, rest', rel', before');
    }

    // The taker is done first: the maker keeps its place with a smaller clip.
    method ChargeMaker(maker: Side, idx: nat, qty: Qty, o: nat, reloadHead: int, reloadTail: int,
                       ghost b: Book, ghost rest: Queue, ghost rel: Queue, ghost before: int)
      requires Midway(b, maker, idx, rest, rel, before, o, reloadHead, reloadTail)
      requires rest != [] && 0 < qty < rest[0].qty
      requires idx < |Own(b, maker)| && Own(b, maker)[idx] != []
      modifies pool.storage, levels
      ensures Midway(FillHead(b, maker, idx, qty).book, maker, idx,
                     Replace(rest, 0, rest[0].(qty := rest[0].qty - qty)), rel, before, o, reloadHead, reloadTail)
    {
      hide Sound, LadderRep, FreeList, Sweeping, Chain;
      ghost var cells, levels0 := pool.storage[..], levels[..];
      HeadCell(cells, levels0, b, maker, idx, rest, rel, before);
      FillHeadSound(b, maker, idx, qty);
      PartialStep(cells, levels0, b, maker, idx, rest, rel, before, qty);
      pool.storage[o] := Live(pool.storage[o].obj.(qty := pool.storage[o].obj.qty - qty));
      levels[idx] := levels[idx].(total := levels[idx].total - qty);
      assert levels[..] == levels0[idx := levels[idx]];
      FreeListFrame(cells, pool.storage[..], pool.freeHead, pool.free);
    }

    // Clip exhausted, reserve left: refill and move to the end of the side chain.
    method ReloadMaker(maker: Side, idx: nat, qty: Qty, o: nat, reloadHead: int, reloadTail: int,
                       ghost b: Book, ghost rest: Queue, ghost rel: Queue, ghost before: int)
      requires Midway(b, maker, idx, rest, rel, before, o, reloadHead, reloadTail)
      requires rest != [] && rest[0].qty <= qty && rest[0].hidden > 0
      requires idx < |Own(b, maker)| && Own(b, maker)[idx] != []
      modifies pool.storage, levels
      ensures Midway(FillHead(b, maker, idx, qty).book, maker, idx, rest[1..], rel + [Reload(rest[0])],
                     rest[0].slot, SlotAt(rest, 1), if reloadTail == NULL then o else reloadHead, o)
    {
      hide Sound, LadderRep, FreeList, Sweeping, Chain;
      ghost var cells, levels0, price := pool.storage[..], levels[..], base + idx;
      HeadCell(cells, levels0, b, maker, idx, rest, rel, before);
      FillHeadSound(b, maker, idx, qty);
      ReloadStep(cells, levels0, b, maker, idx, rest, rel, before, qty);
      var ord := pool.storage[o].obj;
      var refill := Min(ord.display, ord.hidden);
      pool.storage[o] := Live(ord.(qty := refill, hidden := ord.hidden - refill, next := NULL, prev := reloadTail));
      levels[idx] := levels[idx].(total := levels[idx].total - ord.qty + refill);
      WriteNext(reloadTail, o);
      assert pool.storage[..] == Appended(cells, rel, Reload(rest[0]), maker, price);
      assert levels[..] == levels0[idx := levels[idx]];
      FreeListFrame(cells, pool.storage[..], pool.freeHead, pool.free);
    }

    // Nothing left: invalidate the maker's id and recycle its slot.
    method ReleaseMaker(maker: Side, idx: nat, qty: Qty, o: nat, reloadHead: int, reloadTail: int,
                        ghost b: Book, ghost rest: Queue, ghost rel: Queue, ghost before: int)
      requires Midway(b, maker, idx, rest, rel, before, o, reloadHead, reloadTail)
      requires rest != [] && rest[0].qty <= qty && rest[0].hidden == 0
      requires idx < |Own(b, maker)| && Own(b, maker)[idx] != []
      modifies pool, pool.storage, levels, generations
      ensures Midway(FillHead(b, maker, idx, qty).book, maker, idx, rest[1..], rel,
                     rest[0].slot, SlotAt(rest, 1), reloadHead, reloadTail)
    {
      hide Sound, LadderRep, FreeList, Sweeping, Chain;
      ghost var cells, levels0 := pool.storage[..], levels[..];
      HeadCell(cells, levels0, b, maker, idx, rest, rel, before);
      FillHeadSound(b, maker, idx, qty);
      ReleaseStep(cells, levels0, b, maker, idx, rest, rel, before, qty, pool.freeHead);
      levels[idx] := levels[idx].(total := levels[idx].total - pool.storage[o].obj.qty);
      generations[o] := generations[o] + 1;
      pool.Release(o);
      assert levels[..] == levels0[idx := levels[idx]];
    }

    // After the loop: splice the reload chain behind the untouched makers and fix head and tail once.
    method CloseSweep(maker: Side, idx: nat, o: int, reloadHead: int, reloadTail: int,
                      ghost b: Book, ghost rest: Queue, ghost rel: Queue, ghost before: int)
      requires Midway(b, maker, idx, rest, rel, before, o, reloadHead, reloadTail)
      modifies pool.storage, levels
      ensures Stored(b, -1) && Sound(b)
      ensures idx < |Own(b, maker)| && (o == NULL && reloadHead == NULL <==> Own(b, maker)[idx] == [])
    {
      hide Sound, LadderRep, FreeList, Chain, Distinct;
      WalkFacts(b, maker, idx, rest, rel, before, o, reloadHead, reloadTail);
      ghost var cells, levels0 := pool.storage[..], levels[..];
      SpliceCells(cells, levels0, b, maker, idx, rest, rel, before);
      SweepEnd(cells, levels0, b, maker, idx, rest, rel, before);
      var lvl := levels[idx];
      if reloadHead != NULL {
        if o != NULL {
          WritePrev(reloadHead, lvl.tail);
          WriteNext(lvl.tail, reloadHead);
          levels[idx] := PriceLevel(o, reloadTail, lvl.total);
          WritePrev(o, NULL);
        } else {
          levels[idx] := PriceLevel(reloadHead, reloadTail, lvl.total);
        }
      } else {
        levels[idx] := PriceLevel(o, if o == NULL then NULL else lvl.tail, lvl.total);
        if o != NULL {
          WritePrev(o, NULL);
        }
      }
      assert pool.storage[..] == Spliced(cells, rest, rel);
      assert levels[..] == levels0[idx := levels[idx]];
      FreeListFrame(cells, pool.storage[..], pool.freeHead, pool.free);
    }

    lemma WalkStart(b: Book, maker: Side, idx: nat)
      requires Wired() && Sound(b) && Stored(b, -1) && b.base == base && idx < levels.Length
      requires idx < |Own(b, maker)| && Own(b, maker)[idx] != []
      ensures Midway(b, maker, idx, Own(b, maker)[idx], [], NULL, levels[idx].head, NULL, NULL)
    {
      SweepStart(pool.storage[..], levels[..], b, maker, idx);
    }

    lemma WalkFacts(b: Book, maker: Side, idx: nat, rest: Queue, rel: Queue, before: int,
                    o: int, reloadHead: int, reloadTail: int)
      requires Midway(b, maker, idx, rest, rel, before, o, reloadHead, reloadTail)
      ensures idx < |Own(b, maker)| && Own(b, maker)[idx] == rest + rel
      ensures o == NULL <==> rest == []
      ensures reloadHead == NULL <==> rel == []
    {
    }

    // The sweep loop: fill makers at level idx until the taker is done or the walk ends.
    method WalkLevel(maker: Side, idx: nat, qty0: Qty, ghost limit: int)
      returns (qty: Qty, trades: seq<Trade>, o: int, reloadHead: int, reloadTail: int,
               ghost b: Book, ghost rest: Queue, ghost rel: Queue, ghost before: int)
      requires Wired() && Sound(model) && Stored(model, -1) && model.base == base && idx < levels.Length
      requires qty0 > 0 && Reaches(model, maker, limit) && Best(model, maker) == idx
      modifies pool, pool.storage, levels, generations
      ensures Midway(b, maker, idx, rest, rel, before, o, reloadHead, reloadTail)
      ensures SameShape(model, b) && Own(b, maker.Opposite()) == Own(model, maker.Opposite())
      ensures idx < |Own(model, maker)| && Own(b, maker) == Own(model, maker)[idx := rest + rel]
      ensures 0 <= qty < qty0
      ensures Match(model, maker, limit, qty0) == Prepend(trades, Match(b, maker, limit, qty))
    {
      hide Sound, Stored, Midway, Wired, Match, FillHead, Reaches, Best, Prepend;
      MatchUnfold(model, maker, limit, qty0, idx);
      ghost var c := Own(model, maker)[idx];
      WalkStart(model, maker, idx);
      o, reloadHead, reloadTail := levels[idx].head, NULL, NULL;
      b, rest, rel, before := model, c, [], NULL;
      assert c + [] == c;
      qty, trades := qty0, [];
      PrependNothing(Match(model, maker, limit, qty0));
      WalkFacts(b, maker, idx, rest, rel, before, o, reloadHead, reloadTail);
      while o != NULL && qty > 0
        invariant Midway(b, maker, idx, rest, rel, before, o, reloadHead, reloadTail)
        invariant SameShape(model, b) && Own(b, maker.Opposite()) == Own(model, maker.Opposite())
        invariant Own(b, maker) == Own(model, maker)[idx := rest + rel]
        invariant 0 <= qty <= qty0 && (qty == qty0 ==> o != NULL)
        invariant Match(model, maker, limit, qty0) == Prepend(trades, Match(b, maker, limit, qty))
        decreases qty
      {
        WalkFacts(b, maker, idx, rest, rel, before, o, reloadHead, reloadTail);
        WalkStep(model, b, maker, limit, idx, qty0, qty, trades);
        var trade;
        qty, trade, o, reloadHead, reloadTail, b, rest, rel, before :=
          FillMaker(maker, idx, qty, o, reloadHead, reloadTail, b, rest, rel, before);
        trades := trades + [trade];
      }
    }

    // Fill `qty0` against the makers of the best level. One call makes a run of naive fills.
    method SweepLevel(maker: Side, idx: nat, qty0: Qty, ghost limit: int) returns (qty: Qty, trades: seq<Trade>)
      requires Valid() && qty0 > 0 && Reaches(model, maker, limit) && Best(model, maker) == idx
      modifies this`model, this`bestBid, this`bestAsk, pool, pool.storage, levels, generations
      modifies bids, bids.l0, bids.l1, asks, asks.l0, asks.l1
      ensures Valid() && SameShape(old(model), model)
      ensures 0 <= qty < qty0
      ensures Match(old(model), maker, limit, qty0) == Prepend(trades, Match(model, maker, limit, qty))
    {
      hide Sound, Stored, Indexed, Midway, Match, Prepend, Reaches, Best;
      MatchUnfold(model, maker, limit, qty0, idx);
      var o, reloadHead, reloadTail;
      ghost var b, rest, rel, before;
      qty, trades, o, reloadHead, reloadTail, b, rest, rel, before := WalkLevel(maker, idx, qty0, limit);
      CloseSweep(maker, idx, o, reloadHead, reloadTail, b, rest, rel, before);
      if o == NULL && reloadHead == NULL {
        if maker == Sell {
          EmptyAsk(idx, model, b);
        } else {
          EmptyBid(idx, model, b);
        }
      } else {
        StillOccupied(maker, idx, model, b);
      }
      model := b;
    }

    // The compares on the cached bests decide whether the far side is within the limit.
    predicate Crosses(maker: Side, idx: nat)
      reads this`bestBid, this`bestAsk
    {
      if maker == Sell then bestAsk <= idx else bestBid != NPOS && bestBid >= idx
    }

    lemma CrossesIsReaches(maker: Side, idx: nat)
      requires Wired() && Indexed(model) && |model.bids| == |model.asks| == numTicks && idx < numTicks
      ensures Crosses(maker, idx) <==> Reaches(model, maker, idx)
      ensures Crosses(maker, idx) ==> Best(model, maker) == if maker == Sell then bestAsk else bestBid
    {
    }

    // The matching loop: sweep best levels until the taker is filled or nothing crosses.
    method MatchAgainst(maker: Side, idx: nat, qty: Qty) returns (left: Qty, trades: seq<Trade>)
      requires Valid() && idx < numTicks && qty > 0
      modifies this`model, this`bestBid, this`bestAsk, pool, pool.storage, levels, generations
      modifies bids, bids.l0, bids.l1, asks, asks.l0, asks.l1
      ensures Valid() && 0 <= left
      ensures left > 0 ==> !Reaches(model, maker, idx)
      ensures Matched(model, left, trades) == Match(old(model), maker, idx, qty)
    {
      hide Sound, Stored, Indexed, Match, Reaches, Best, Prepend;
      ghost var start := model;
      left, trades := qty, [];
      PrependNothing(Match(start, maker, idx, qty));
      CrossesIsReaches(maker, idx);
      while left > 0 && Crosses(maker, idx)
        invariant Valid() && 0 <= left <= qty
        invariant Crosses(maker, idx) <==> Reaches(model, maker, idx)
        invariant Match(start, maker, idx, qty) == Prepend(trades, Match(model, maker, idx, left))
        decreases left
      {
        CrossesIsReaches(maker, idx);
        ghost var b, l0, t0 := model, left, trades;
        var fills;
        left, fills := SweepLevel(maker, if maker == Sell then bestAsk else bestBid, left, idx);
        trades := trades + fills;
        PrependTwice(t0, fills, Match(model, maker, idx, left));
        CrossesIsReaches(maker, idx);
      }
      MatchDone(model, maker, idx, left);
      PrependTo(trades, model, left);
    }

    // New limit order: cross the far side first, rest the remainder. 0 means rejected.
    method NewOrder(side: Side, price: Price, qty: Qty, postOnly: bool) returns (id: OrderId, trades: seq<Trade>)
      requires Valid()
      modifies this`model, this`bestBid, this`bestAsk, pool, pool.storage, levels, generations
      modifies bids, bids.l0, bids.l1, asks, asks.l0, asks.l1
      ensures Valid()
      ensures Placed(model, id, trades) == PlaceOrder(old(model), side, price, qty, postOnly)
    {
      hide Sound, Stored, Indexed, Match, Reaches, BookSpec.Rest;
      var idx := price - base;
      if idx < 0 || idx >= numTicks || qty <= 0 { return 0, []; }
      CrossesIsReaches(side.Opposite(), idx);
      if postOnly && Crosses(side.Opposite(), idx) { return 0, []; }
      var left;
      left, trades := MatchAgainst(side.Opposite(), idx, qty);
      if left == 0 { return TAKER_FILLED, trades; }
      id := Admit(side, idx, price, left, 0, 0);
    }

    // New iceberg: the full total may match on arrival; only the resting clip is capped.
    method NewIcebergOrder(side: Side, price: Price, display: Qty, total: Qty)
      returns (id: OrderId, trades: seq<Trade>)
      requires Valid()
      modifies this`model, this`bestBid, this`bestAsk, pool, pool.storage, levels, generations
      modifies bids, bids.l0, bids.l1, asks, asks.l0, asks.l1
      ensures Valid()
      ensures Placed(model, id, trades) == PlaceIceberg(old(model), side, price, display, total)
    {
      hide Sound, Stored, Indexed, Match, Reaches, BookSpec.Rest;
      var idx := price - base;
      if idx < 0 || idx >= numTicks || total <= 0 || display <= 0 { return 0, []; }
      var left;
      left, trades := MatchAgainst(side.Opposite(), idx, total);
      if left == 0 { return TAKER_FILLED, trades; }
      var visible := if display < left then display else left;
      id := Admit(side, idx, price, visible, left - visible, display);
    }

    // ---- observers ---------------------------------------------------------------------------

    method BestBidPrice() returns (p: Price)
      requires Valid()
      ensures p == if Highest(model.bids) < 0 then -1 else base + Highest(model.bids)
    {
      p := if bestBid == NPOS then -1 else base + bestBid;
    }

    method BestAskPrice() returns (p: Price)
      requires Valid()
      ensures p == if Lowest(model.asks) == numTicks then -1 else base + Lowest(model.asks)
    {
      p := if bestAsk >= numTicks then -1 else base + bestAsk;
    }

    // The aggregate shown for a price: the visible lots resting there, of whichever side.
    method LevelQty(p: Price) returns (q: Qty)
      requires Valid()
      ensures var i := p - base;
              q == if 0 <= i < numTicks then Visible(model.bids[i]) + Visible(model.asks[i]) else 0
      ensures var i := p - base;
              q > 0 <==> 0 <= i < numTicks && (model.bids[i] != [] || model.asks[i] != [])
    {
      var idx := p - base;
      if idx < 0 || idx >= numTicks { return 0; }
      assert LevelAt(pool.storage[..], levels[idx], model, idx);
      if model.bids[idx] != [] {
        OwnLevel(model, Buy, idx);
        VisiblePositive(model.bids[idx]);
      } else if model.asks[idx] != [] {
        VisiblePositive(model.asks[idx]);
      }
      q := levels[idx].total;
    }
  }
}
