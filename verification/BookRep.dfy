/**
 How arena cells and price levels represent a book: each level is one doubly linked FIFO
 from head to tail, with its visible sum cached, and a dead cell belongs to the free list.
 All facts here are about values, so that the engine's methods only have to name the
 cells they wrote.
 */
module BookRep {
  import opened Types
  import opened BookSpec
  import opened BookInvariant
  import opened MemoryPools

  datatype Order = Order(qty: Qty, next: int, prev: int, price: Price, id: OrderId, side: Side,
                         hidden: Qty, display: Qty)
  datatype PriceLevel = PriceLevel(head: int, tail: int, total: Qty)
  type Arena = seq<Cell<Order>>

  // The slot of the k-th order of a queue, NULL beyond either end.
  function SlotAt(c: Queue, k: int): int {
    if 0 <= k < |c| then c[k].slot else NULL
  }

  // The arena object of the k-th order of `c`, whose head points back to `before`.
  function OrderOf(c: Queue, k: nat, side: Side, price: Price, before: int): Order
    requires k < |c|
  {
    Order(c[k].qty, SlotAt(c, k + 1), if k == 0 then before else c[k - 1].slot, price, c[k].Id(), side,
          c[k].hidden, c[k].display)
  }

  ghost predicate ChainAt(cells: Arena, c: Queue, k: nat, side: Side, price: Price, before: int) {
    k < |c| && c[k].slot < |cells| && cells[c[k].slot] == Live(OrderOf(c, k, side, price, before))
  }

  ghost predicate Chain(cells: Arena, c: Queue, side: Side, price: Price, before: int) {
    forall k {:trigger ChainAt(cells, c, k, side, price, before)} | 0 <= k < |c| ::
      ChainAt(cells, c, k, side, price, before)
  }

  ghost function Visible(c: Queue): Qty {
    if c == [] then 0 else c[0].qty + Visible(c[1..])
  }

  ghost predicate LevelRep(cells: Arena, lvl: PriceLevel, c: Queue, side: Side, price: Price) {
    && lvl == PriceLevel(SlotAt(c, 0), SlotAt(c, |c| - 1), Visible(c))
    && Chain(cells, c, side, price, NULL)
  }

  // Both sides share one ladder; an uncrossed book has at most one of them at each level.
  ghost function QueueAt(b: Book, i: nat): Queue
    requires i < |b.bids| && i < |b.asks|
  {
    if b.bids[i] != [] then b.bids[i] else b.asks[i]
  }

  ghost function SideAt(b: Book, i: nat): Side
    requires i < |b.bids|
  {
    if b.bids[i] != [] then Buy else Sell
  }

  ghost predicate LevelAt(cells: Arena, lvl: PriceLevel, b: Book, i: nat)
    requires i < |b.bids| && i < |b.asks|
  {
    LevelRep(cells, lvl, QueueAt(b, i), SideAt(b, i), b.base + i)
  }

  // Every level but `skip` is represented.
  ghost predicate LadderRep(cells: Arena, levels: seq<PriceLevel>, b: Book, skip: int) {
    && |levels| == |b.bids| == |b.asks|
    && forall i | 0 <= i < |levels| && i != skip :: LevelAt(cells, levels[i], b, i)
  }

  ghost predicate BitsRep(bits: set<nat>, l: Ladder) {
    && (forall i | 0 <= i < |l| :: i in bits <==> l[i] != [])
    && (forall i | i in bits :: i < |l|)
  }

  lemma EmptyRep(cells: Arena, levels: seq<PriceLevel>, base: Price, ticks: nat, cap: nat)
    requires |levels| == ticks && forall i | 0 <= i < ticks :: levels[i] == PriceLevel(NULL, NULL, 0)
    ensures var b := EmptyBook(base, ticks, cap);
            && LadderRep(cells, levels, b, -1) && BitsRep({}, b.bids) && BitsRep({}, b.asks)
            && Highest(b.bids) == -1 && Lowest(b.asks) == ticks
  {
    var b := EmptyBook(base, ticks, cap);
    forall i | 0 <= i < ticks
      ensures LevelAt(cells, levels[i], b, i)
    {
    }
  }

  // The slots of a queue are distinct.
  ghost predicate Distinct(c: Queue) {
    forall j, k | 0 <= j < k < |c| :: c[j].slot != c[k].slot
  }

  lemma QueueDistinct(b: Book, side: Side, i: nat)
    requires Sound(b) && i < |Own(b, side)|
    ensures Distinct(Own(b, side)[i])
  {
    var q := Own(b, side)[i];
    forall j, k | 0 <= j < k < |q|
      ensures q[j].slot != q[k].slot
    {
      if q[j].slot == q[k].slot {
        OnePlace(b, side, i, j, side, i, k);
      }
    }
  }

  // With VisibleAppend: the aggregate of a level is the sum of its visible sizes, no reserve.
  lemma VisibleOne(r: Resting)
    ensures Visible([]) == 0 && Visible([r]) == r.qty
  {
    assert [r][1..] == [];
  }

  lemma {:induction false} VisibleAppend(p: Queue, q: Queue)
    ensures Visible(p + q) == Visible(p) + Visible(q)
  {
    if p == [] {
      assert p + q == q;
    } else {
      VisibleAppend(p[1..], q);
      assert (p + q)[1..] == p[1..] + q;
    }
  }

  lemma VisibleRemove(q: Queue, k: nat)
    requires k < |q|
    ensures Visible(q[..k] + q[k + 1..]) == Visible(q) - q[k].qty
  {
    VisibleAppend(q[..k], q[k..]);
    assert q == q[..k] + q[k..];
    assert q[k..][1..] == q[k + 1..];
    VisibleAppend(q[..k], q[k + 1..]);
  }

  lemma VisibleReplace(q: Queue, k: nat, r: Resting)
    requires k < |q|
    ensures Visible(Replace(q, k, r)) == Visible(q) - q[k].qty + r.qty
  {
    var q' := Replace(q, k, r);
    VisibleRemove(q, k);
    VisibleRemove(q', k);
    assert q'[..k] == q[..k] && q'[k + 1..] == q[k + 1..];
  }

  // ---- frames ------------------------------------------------------------------------------

  lemma ChainFrame(cells: Arena, cells': Arena, c: Queue, side: Side, price: Price, before: int)
    requires Chain(cells, c, side, price, before) && |cells'| == |cells|
    requires forall k | 0 <= k < |c| :: c[k].slot < |cells| ==> cells'[c[k].slot] == cells[c[k].slot]
    ensures Chain(cells', c, side, price, before)
  {
    forall k | 0 <= k < |c|
      ensures ChainAt(cells', c, k, side, price, before)
    {
      assert ChainAt(cells, c, k, side, price, before);
    }
  }

  // Cells of the other levels: alive, and at another price than level idx.
  predicate Elsewhere(cells: Arena, s: nat, price: Price) {
    s < |cells| && cells[s].Live? && cells[s].obj.price != price
  }

  lemma HighestRaised(l: Ladder, l': Ladder, i: nat)
    requires |l| == |l'| && i < |l| && l'[i] != []
    requires forall j | 0 <= j < |l| && j != i :: l'[j] == l[j]
    ensures Highest(l') == if i > Highest(l) then i else Highest(l)
  {
  }

  lemma LowestLowered(l: Ladder, l': Ladder, i: nat)
    requires |l| == |l'| && i < |l| && l'[i] != []
    requires forall j | 0 <= j < |l| && j != i :: l'[j] == l[j]
    ensures Lowest(l') == if i < Lowest(l) then i else Lowest(l)
  {
  }

  // Changing only cells that are dead or at level idx leaves the other levels represented.
  lemma OthersFrame(cells: Arena, cells': Arena, levels: seq<PriceLevel>, levels': seq<PriceLevel>,
                    b: Book, b': Book, idx: nat)
    requires LadderRep(cells, levels, b, idx) && |cells'| == |cells| && |levels'| == |levels|
    requires SameShape(b, b')
    requires forall s: nat | Elsewhere(cells, s, b.base + idx) :: cells'[s] == cells[s]
    requires forall i | 0 <= i < |levels| && i != idx ::
               levels'[i] == levels[i] && b'.bids[i] == b.bids[i] && b'.asks[i] == b.asks[i]
    ensures LadderRep(cells', levels', b', idx)
  {
    forall i | 0 <= i < |levels'| && i != idx
      ensures LevelAt(cells', levels'[i], b', i)
    {
      assert LevelAt(cells, levels[i], b, i);
      var c := QueueAt(b, i);
      forall k | 0 <= k < |c|
        ensures c[k].slot < |cells| && cells'[c[k].slot] == cells[c[k].slot]
      {
        assert ChainAt(cells, c, k, SideAt(b, i), b.base + i, NULL);
        assert Elsewhere(cells, c[k].slot, b.base + idx);
      }
      ChainFrame(cells, cells', c, SideAt(b, i), b.base + i, NULL);
    }
  }

  lemma {:induction false} VisiblePositive(q: Queue)
    requires q != []
    ensures Visible(q) >= q[0].qty > 0
  {
    if |q| > 1 {
      VisiblePositive(q[1..]);
    }
  }

  // Only level idx changed, and there `c` is now represented: the whole ladder is.
  lemma Reassemble(cells: Arena, cells': Arena, levels: seq<PriceLevel>, levels': seq<PriceLevel>,
                   b: Book, b': Book, side: Side, idx: nat)
    requires LadderRep(cells, levels, b, idx) && |cells'| == |cells| && |levels'| == |levels|
    requires SameShape(b, b') && idx < |levels|
    requires forall s: nat | Elsewhere(cells, s, b.base + idx) :: cells'[s] == cells[s]
    requires forall i | 0 <= i < |levels| && i != idx ::
               levels'[i] == levels[i] && b'.bids[i] == b.bids[i] && b'.asks[i] == b.asks[i]
    requires Own(b', side.Opposite())[idx] == []
    requires LevelRep(cells', levels'[idx], Own(b', side)[idx], side, b.base + idx)
    ensures LadderRep(cells', levels', b', -1)
  {
    OthersFrame(cells, cells', levels, levels', b, b', idx);
    assert LevelAt(cells', levels'[idx], b', idx);
  }

  // ---- setting a forward or backward link, where a null slot has none ---------------------------

  function SetNext(cells: Arena, s: int, next: int): (r: Arena)
    ensures |r| == |cells|
  {
    if 0 <= s < |cells| && cells[s].Live? then cells[s := Live(cells[s].obj.(next := next))] else cells
  }

  function SetPrev(cells: Arena, s: int, prev: int): (r: Arena)
    ensures |r| == |cells|
  {
    if 0 <= s < |cells| && cells[s].Live? then cells[s := Live(cells[s].obj.(prev := prev))] else cells
  }

  // ---- appending a new order at the tail -----------------------------------------------------

  function Appended(cells: Arena, c: Queue, r: Resting, side: Side, price: Price): (a: Arena)
    requires r.slot < |cells|
    ensures |a| == |cells|
  {
    var t := SlotAt(c, |c| - 1);
    SetNext(cells[r.slot := Live(Order(r.qty, NULL, t, price, r.Id(), side, r.hidden, r.display))], t, r.slot)
  }

  lemma AppendChain(cells: Arena, c: Queue, r: Resting, side: Side, price: Price)
    requires Chain(cells, c, side, price, NULL) && Distinct(c)
    requires r.slot < |cells| && forall k | 0 <= k < |c| :: c[k].slot != r.slot
    ensures Chain(Appended(cells, c, r, side, price), c + [r], side, price, NULL)
  {
    var cells' := Appended(cells, c, r, side, price);
    var c' := c + [r];
    forall k | 0 <= k < |c'|
      ensures ChainAt(cells', c', k, side, price, NULL)
    {
      if k < |c| {
        assert ChainAt(cells, c, k, side, price, NULL);
      }
    }
  }

  // An uncrossed book that side.Opposite() does not reach has nothing of it at the level.
  lemma OwnLevel(b: Book, side: Side, i: nat)
    requires |b.bids| == |b.asks| && i < |b.bids|
    requires !Reaches(b, side.Opposite(), i) || (Uncrossed(b) && Own(b, side)[i] != [])
    ensures Own(b, side.Opposite())[i] == [] && QueueAt(b, i) == Own(b, side)[i]
    ensures Own(b, side)[i] != [] ==> SideAt(b, i) == side
  {
  }

  lemma AdmitRep(cells: Arena, levels: seq<PriceLevel>, b: Book, side: Side, i: nat, r: Resting)
    requires Sound(b) && LadderRep(cells, levels, b, -1) && i < |levels|
    requires !Reaches(b, side.Opposite(), i)
    requires r.slot < |cells| && cells[r.slot].Free?
    requires b.free != [] && r.slot == b.free[0] && r.gen == GenAt(b.gens, r.slot) + 1
    ensures var c := Own(b, side)[i];
            levels[i] == PriceLevel(SlotAt(c, 0), SlotAt(c, |c| - 1), Visible(c))
    ensures var t := levels[i].tail; NULL <= t < |cells| && t != r.slot && (t >= 0 ==> cells[t].Live?)
    ensures var c := Own(b, side)[i];
            LadderRep(Appended(cells, c, r, side, b.base + i),
                      levels[i := PriceLevel(SlotAt(c + [r], 0), r.slot, Visible(c) + r.qty)],
                      Rest(b, side, i, r.qty, r.hidden, r.display).0, -1)
  {
    hide Sound, Reaches, Stamped;
    var c := Own(b, side)[i];
    OwnLevel(b, side, i);
    assert LevelAt(cells, levels[i], b, i);
    QueueDistinct(b, side, i);
    forall k | 0 <= k < |c|
      ensures c[k].slot != r.slot
    {
      assert ChainAt(cells, c, k, side, b.base + i, NULL);
    }
    AppendChain(cells, c, r, side, b.base + i);
    VisibleAppend(c, [r]);
    assert [r][1..] == [];
    var cells' := Appended(cells, c, r, side, b.base + i);
    var levels' := levels[i := PriceLevel(SlotAt(c + [r], 0), r.slot, Visible(c) + r.qty)];
    if c != [] {
      assert ChainAt(cells, c, |c| - 1, side, b.base + i, NULL);
    }
    Reassemble(cells, cells', levels, levels', b, Rest(b, side, i, r.qty, r.hidden, r.display).0, side, i);
  }

  // ---- unlinking an order from the middle ------------------------------------------------------

  // The cells after the k-th order of `c` was bypassed.
  function Bypassed(cells: Arena, c: Queue, k: nat): (r: Arena)
    ensures |r| == |cells|
  {
    var p, n := SlotAt(c, k - 1), SlotAt(c, k + 1);
    SetPrev(SetNext(cells, p, n), n, p)
  }

  lemma UnlinkChain(cells: Arena, c: Queue, side: Side, price: Price, k: nat)
    requires Chain(cells, c, side, price, NULL) && Distinct(c) && k < |c|
    ensures Chain(Bypassed(cells, c, k), c[..k] + c[k + 1..], side, price, NULL)
  {
    var c' := c[..k] + c[k + 1..];
    var cells' := Bypassed(cells, c, k);
    forall j | 0 <= j < |c'|
      ensures ChainAt(cells', c', j, side, price, NULL)
    {
      var i := if j < k then j else j + 1;
      assert c'[j] == c[i];
      assert ChainAt(cells, c, i, side, price, NULL);
      assert c[i].slot == SlotAt(c, k - 1) <==> i == k - 1;
      assert c[i].slot == SlotAt(c, k + 1) <==> i == k + 1;
    }
  }

  // The level once its k-th order is gone.
  function LevelWithout(lvl: PriceLevel, c: Queue, k: nat): PriceLevel
    requires k < |c|
  {
    PriceLevel(if k == 0 then SlotAt(c, 1) else lvl.head, if k == |c| - 1 then SlotAt(c, k - 1) else lvl.tail,
               lvl.total - c[k].qty)
  }

  // The book with the order unlinked but its slot not yet given back.
  function Unlinked(b: Book, w: Where): Book
    requires Located(b, w)
  {
    var q := Own(b, w.side)[w.tick];
    Put(b, w.side, Own(b, w.side)[w.tick := q[..w.pos] + q[w.pos + 1..]])
  }

  // The cell of the order at w, its neighbours, and its level.
  lemma Neighbours(cells: Arena, levels: seq<PriceLevel>, b: Book, w: Where)
    requires Located(b, w) && Sound(b) && LadderRep(cells, levels, b, -1)
    ensures var c := Own(b, w.side)[w.tick];
            && Own(b, w.side.Opposite())[w.tick] == [] && QueueAt(b, w.tick) == c && SideAt(b, w.tick) == w.side
            && ChainAt(cells, c, w.pos, w.side, b.base + w.tick, NULL)
            && (forall k | 0 <= k < |c| :: c[k].slot < |cells| && cells[c[k].slot].Live?
                                           && cells[c[k].slot].obj.price == b.base + w.tick)
            && levels[w.tick] == PriceLevel(SlotAt(c, 0), SlotAt(c, |c| - 1), Visible(c))
            && Chain(cells, c, w.side, b.base + w.tick, NULL) && Distinct(c)
  {
    var c := Own(b, w.side)[w.tick];
    OwnLevel(b, w.side, w.tick);
    assert LevelAt(cells, levels[w.tick], b, w.tick);
    QueueDistinct(b, w.side, w.tick);
    forall k | 0 <= k < |c|
      ensures c[k].slot < |cells| && cells[c[k].slot].Live? && cells[c[k].slot].obj.price == b.base + w.tick
    {
      assert ChainAt(cells, c, k, w.side, b.base + w.tick, NULL);
    }
    assert ChainAt(cells, c, w.pos, w.side, b.base + w.tick, NULL);
  }

  lemma BypassFrame(cells: Arena, c: Queue, k: nat, price: Price)
    requires k < |c|
    requires forall j | 0 <= j < |c| ::
               c[j].slot < |cells| && cells[c[j].slot].Live? && cells[c[j].slot].obj.price == price
    ensures forall s: nat | Elsewhere(cells, s, price) :: Bypassed(cells, c, k)[s] == cells[s]
  {
    assert k > 0 ==> c[k - 1].slot < |cells|;
    assert k + 1 < |c| ==> c[k + 1].slot < |cells|;
  }

  lemma WithoutRep(lvl: PriceLevel, c: Queue, k: nat)
    requires k < |c| && lvl == PriceLevel(SlotAt(c, 0), SlotAt(c, |c| - 1), Visible(c))
    ensures var c' := c[..k] + c[k + 1..];
            LevelWithout(lvl, c, k) == PriceLevel(SlotAt(c', 0), SlotAt(c', |c'| - 1), Visible(c'))
  {
    VisibleRemove(c, k);
  }

  lemma UnlinkRep(cells: Arena, levels: seq<PriceLevel>, b: Book, w: Where)
    requires Located(b, w) && Sound(b) && LadderRep(cells, levels, b, -1)
    ensures var c := Own(b, w.side)[w.tick];
            LadderRep(Bypassed(cells, c, w.pos), levels[w.tick := LevelWithout(levels[w.tick], c, w.pos)],
                      Unlinked(b, w), -1)
  {
    hide Sound, Distinct, Chain, ChainAt, LevelAt, Bypassed, LevelWithout, Visible;
    var c, price := Own(b, w.side)[w.tick], b.base + w.tick;
    Neighbours(cells, levels, b, w);
    UnlinkChain(cells, c, w.side, price, w.pos);
    BypassFrame(cells, c, w.pos, price);
    WithoutRep(levels[w.tick], c, w.pos);
    var levels' := levels[w.tick := LevelWithout(levels[w.tick], c, w.pos)];
    Reassemble(cells, Bypassed(cells, c, w.pos), levels, levels', b, Unlinked(b, w), w.side, w.tick);
  }

  // Turning the unlinked order's cell into a dead one touches no level.
  lemma RetireRep(cells: Arena, levels: seq<PriceLevel>, b: Book, w: Where, next: int)
    requires Located(b, w) && Sound(b) && LadderRep(cells, levels, Unlinked(b, w), -1)
    requires Own(b, w.side)[w.tick][w.pos].slot < |cells|
    ensures LadderRep(cells[Own(b, w.side)[w.tick][w.pos].slot := Cell.Free(next)], levels, Remove(b, w), -1)
  {
    var s := Own(b, w.side)[w.tick][w.pos].slot;
    var u, b' := Unlinked(b, w), Remove(b, w);
    var cells' := cells[s := Cell.Free(next)];
    forall i | 0 <= i < |levels|
      ensures LevelAt(cells', levels[i], b', i)
    {
      assert LevelAt(cells, levels[i], u, i);
      var c := QueueAt(u, i);
      forall k | 0 <= k < |c|
        ensures c[k].slot != s
      {
        StillElsewhere(b, w, i, k);
      }
      ChainFrame(cells, cells', c, SideAt(u, i), b.base + i, NULL);
    }
  }

  // No remaining order has the slot of the unlinked one.
  lemma StillElsewhere(b: Book, w: Where, i: nat, k: nat)
    requires Located(b, w) && Sound(b) && i < |b.bids|
    requires k < |QueueAt(Unlinked(b, w), i)|
    ensures QueueAt(Unlinked(b, w), i)[k].slot != Own(b, w.side)[w.tick][w.pos].slot
  {
    var u := Unlinked(b, w);
    var side := SideAt(u, i);
    var k' := if side == w.side && i == w.tick && k >= w.pos then k + 1 else k;
    assert QueueAt(u, i)[k] == Own(b, side)[i][k'];
    if Own(b, side)[i][k'].slot == Own(b, w.side)[w.tick][w.pos].slot {
      OnePlace(b, side, i, k', w.side, w.tick, w.pos);
    }
  }

  // ---- changing the visible size of one order ------------------------------------------------

  lemma ResizeChain(cells: Arena, c: Queue, side: Side, price: Price, before: int, k: nat, r: Resting)
    requires Chain(cells, c, side, price, before) && Distinct(c) && k < |c|
    requires r.slot == c[k].slot && r == c[k].(qty := r.qty)
    requires c[k].slot < |cells| && cells[c[k].slot].Live?
    ensures Chain(cells[c[k].slot := Live(cells[c[k].slot].obj.(qty := r.qty))], Replace(c, k, r), side, price, before)
  {
    var cells' := cells[c[k].slot := Live(cells[c[k].slot].obj.(qty := r.qty))];
    var c' := Replace(c, k, r);
    forall j | 0 <= j < |c'|
      ensures ChainAt(cells', c', j, side, price, before)
    {
      assert ChainAt(cells, c, j, side, price, before);
    }
  }

  lemma ResizeRep(cells: Arena, levels: seq<PriceLevel>, b: Book, w: Where, r: Resting)
    requires Located(b, w) && Sound(b) && LadderRep(cells, levels, b, -1)
    requires var c := Own(b, w.side)[w.tick]; r == c[w.pos].(qty := r.qty) && r.slot < |cells| && cells[r.slot].Live?
    ensures var c := Own(b, w.side)[w.tick];
            LadderRep(cells[r.slot := Live(cells[r.slot].obj.(qty := r.qty))],
                      levels[w.tick := levels[w.tick].(total := levels[w.tick].total - c[w.pos].qty + r.qty)],
                      Put(b, w.side, Own(b, w.side)[w.tick := Replace(c, w.pos, r)]), -1)
  {
    hide Sound, Chain, ChainAt, LevelAt;
    var c, price := Own(b, w.side)[w.tick], b.base + w.tick;
    Neighbours(cells, levels, b, w);
    ResizeChain(cells, c, w.side, price, NULL, w.pos, r);
    VisibleReplace(c, w.pos, r);
    var c' := Replace(c, w.pos, r);
    var levels' := levels[w.tick := levels[w.tick].(total := levels[w.tick].total - c[w.pos].qty + r.qty)];
    assert levels'[w.tick] == PriceLevel(SlotAt(c', 0), SlotAt(c', |c'| - 1), Visible(c'));
    var b' := Put(b, w.side, Own(b, w.side)[w.tick := c']);
    Reassemble(cells, cells[r.slot := Live(cells[r.slot].obj.(qty := r.qty))], levels, levels', b, b', w.side, w.tick);
  }

  // The next best after level i, the best, emptied: what the bitmap scans look for.
  lemma HighestDropped(l: Ladder, l': Ladder, i: nat, bits: set<nat>, r: nat)
    requires |l| == |l'| <= NPOS && i < |l| && l[i] != [] && l'[i] == [] && i == Highest(l)
    requires forall j | 0 <= j < |l| && j != i :: l'[j] == l[j]
    requires BitsRep(bits, l')
    requires r == NPOS ==> forall b | b in bits :: i < b
    requires r != NPOS ==> r in bits && r <= i && forall b | b in bits :: b <= r || i < b
    ensures r == if Highest(l') < 0 then NPOS else Highest(l')
  {
  }

  lemma LowestDropped(l: Ladder, l': Ladder, i: nat, bits: set<nat>, r: nat)
    requires |l| == |l'| <= NPOS && i < |l| && l[i] != [] && l'[i] == [] && i == Lowest(l)
    requires forall j | 0 <= j < |l| && j != i :: l'[j] == l[j]
    requires BitsRep(bits, l')
    requires r == NPOS ==> forall b | b in bits :: b < i
    requires r != NPOS ==> r in bits && i <= r && forall b | b in bits :: b < i || r <= b
    ensures Lowest(l') == if r == NPOS then |l'| else r
  {
  }

  lemma BestKept(l: Ladder, l': Ladder, i: nat)
    requires |l| == |l'| && i < |l| && l[i] != []
    requires forall j | 0 <= j < |l| && j != i :: l'[j] == l[j]
    ensures l'[i] != [] || i != Highest(l) ==> Highest(l') == Highest(l)
    ensures l'[i] != [] || i != Lowest(l) ==> Lowest(l') == Lowest(l)
  {
  }
}
