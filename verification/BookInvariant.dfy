/** What every reachable book satisfies, and the proof that each elementary change keeps it. */
module BookInvariant {
  import opened Types
  import opened BookSpec
  import opened SlotCounts

  // The slot's current generation is the one stamped on the order, and it is odd.
  ghost predicate Stamped(r: Resting, gens: seq<nat>) {
    r.slot < |gens| && gens[r.slot] == r.gen && r.gen % 2 == 1
  }

  ghost predicate QueueStamped(q: Queue, gens: seq<nat>) {
    forall k | 0 <= k < |q| :: Stamped(q[k], gens)
  }

  ghost predicate LadderStamped(l: Ladder, gens: seq<nat>) {
    forall i | 0 <= i < |l| :: QueueStamped(l[i], gens)
  }

  ghost predicate FreeEven(free: seq<nat>, gens: seq<nat>) {
    forall k | 0 <= k < |free| :: free[k] < |gens| && gens[free[k]] % 2 == 0
  }

  ghost function SlotCount(b: Book, s: nat): nat {
    LadderCount(b.bids, s) + LadderCount(b.asks, s) + StackCount(b.free, s)
  }

  // Live orders and the free stack partition the arena.
  ghost predicate Partition(b: Book) {
    forall s: nat :: SlotCount(b, s) == if s < |b.gens| then 1 else 0
  }

  predicate Uncrossed(b: Book) {
    Highest(b.bids) < Lowest(b.asks)
  }

  ghost predicate Sound(b: Book) {
    && |b.bids| == |b.asks|
    && |b.gens| < 0xFFFF_FFFF
    && Uncrossed(b)
    && Partition(b)
    && LadderStamped(b.bids, b.gens)
    && LadderStamped(b.asks, b.gens)
    && FreeEven(b.free, b.gens)
  }

  lemma SoundSides(b: Book)
    requires Sound(b)
    ensures |b.bids| == |b.asks|
  {
  }

  // ---- the empty book -------------------------------------------------------------------

  lemma {:induction false} EmptyLadderCount(l: Ladder, s: nat)
    requires forall i | 0 <= i < |l| :: l[i] == []
    ensures LadderCount(l, s) == 0
  {
    if l != [] {
      EmptyLadderCount(l[1..], s);
    }
  }

  lemma {:induction false} IntervalCount(free: seq<nat>, lo: nat, s: nat)
    requires forall k | 0 <= k < |free| :: free[k] == lo + k
    ensures StackCount(free, s) == if lo <= s < lo + |free| then 1 else 0
  {
    if free != [] {
      IntervalCount(free[1..], lo + 1, s);
    }
  }

  lemma EmptySound(base: Price, ticks: nat, cap: nat)
    requires cap < 0xFFFF_FFFF
    ensures Sound(EmptyBook(base, ticks, cap))
  {
    var b := EmptyBook(base, ticks, cap);
    forall s: nat
      ensures SlotCount(b, s) == if s < |b.gens| then 1 else 0
    {
      EmptyLadderCount(b.bids, s);
      EmptyLadderCount(b.asks, s);
      IntervalCount(b.free, 0, s);
    }
  }

  // ---- elementary changes ----------------------------------------------------------------

  // Where a slot sits in a sound book, it sits only once.
  lemma OnePlace(b: Book, side: Side, i: nat, k: nat, side': Side, i': nat, k': nat)
    requires Sound(b)
    requires i < |Own(b, side)| && k < |Own(b, side)[i]|
    requires i' < |Own(b, side')| && k' < |Own(b, side')[i']|
    requires Own(b, side)[i][k].slot == Own(b, side')[i'][k'].slot
    ensures side == side' && i == i' && k == k'
  {
    var s := Own(b, side)[i][k].slot;
    InLadder(Own(b, side), i, k);
    InLadder(Own(b, side'), i', k');
    assert SlotCount(b, s) <= 1;
    if side == side' {
      if i < i' || (i == i' && k < k') {
        SeenTwice(Own(b, side), i, k, i', k');
      } else if i' < i || k' < k {
        SeenTwice(Own(b, side), i', k', i, k);
      }
    }
  }

  lemma NotFree(b: Book, side: Side, i: nat, k: nat)
    requires Sound(b)
    requires i < |Own(b, side)| && k < |Own(b, side)[i]|
    ensures Own(b, side)[i][k].slot !in b.free
  {
    var s := Own(b, side)[i][k].slot;
    InLadder(Own(b, side), i, k);
    StackMember(b.free, s);
    assert SlotCount(b, s) <= 1;
  }

  lemma FreeDistinct(b: Book)
    requires Sound(b)
    ensures forall j, k | 0 <= j < k < |b.free| :: b.free[j] != b.free[k]
  {
    forall j, k | 0 <= j < k < |b.free|
      ensures b.free[j] != b.free[k]
    {
      if b.free[j] == b.free[k] {
        assert SlotCount(b, b.free[j]) <= 1;
        StackTwice(b.free, j, k);
      }
    }
  }

  lemma UncrossedShrinks(b: Book, b': Book)
    requires |b.bids| == |b.asks| && SameShape(b, b') && Uncrossed(b)
    requires forall i | 0 <= i < |b.bids| :: b'.bids[i] != [] ==> b.bids[i] != []
    requires forall i | 0 <= i < |b.asks| :: b'.asks[i] != [] ==> b.asks[i] != []
    ensures Uncrossed(b')
  {
  }

  // Same slots, same stamps, other sizes or another order in the queue.
  lemma ReshapeSound(b: Book, side: Side, i: nat, q: Queue)
    requires Sound(b) && i < |Own(b, side)| && Own(b, side)[i] != []
    requires forall s: nat :: QueueCount(q, s) == QueueCount(Own(b, side)[i], s)
    requires QueueStamped(q, b.gens)
    ensures Sound(Put(b, side, Own(b, side)[i := q]))
  {
    var b' := Put(b, side, Own(b, side)[i := q]);
    forall s: nat
      ensures SlotCount(b', s) == SlotCount(b, s)
    {
      LadderCountUpdate(Own(b, side), i, q, s);
    }
    UncrossedShrinks(b, b');
  }

  // After a removal the slot is counted on the stack instead of in its queue.
  lemma RemovePartition(b: Book, w: Where)
    requires Sound(b)
    requires Located(b, w)
    ensures Partition(Remove(b, w))
  {
    var b' := Remove(b, w);
    var l := Own(b, w.side);
    var q := l[w.tick];
    var q' := q[..w.pos] + q[w.pos + 1..];
    forall s: nat
      ensures SlotCount(b', s) == SlotCount(b, s)
    {
      LadderCountUpdate(l, w.tick, q', s);
      QueueCountSplit(q, w.pos, s);
      assert b'.free[1..] == b.free;
    }
  }

  lemma RemoveStamped(b: Book, w: Where, side: Side)
    requires Sound(b)
    requires Located(b, w)
    ensures LadderStamped(Own(Remove(b, w), side), Remove(b, w).gens)
  {
    var b' := Remove(b, w);
    var gone := Own(b, w.side)[w.tick][w.pos].slot;
    forall i, k | 0 <= i < |Own(b', side)| && 0 <= k < |Own(b', side)[i]|
      ensures Stamped(Own(b', side)[i][k], b'.gens)
    {
      assert QueueStamped(Own(b, side)[i], b.gens);
      var k' := if side == w.side && i == w.tick && k >= w.pos then k + 1 else k;
      assert Own(b', side)[i][k] == Own(b, side)[i][k'];
      if Own(b, side)[i][k'].slot == gone {
        OnePlace(b, side, i, k', w.side, w.tick, w.pos);
      }
    }
  }

  lemma RemoveSound(b: Book, w: Where)
    requires Sound(b)
    requires Located(b, w)
    ensures Sound(Remove(b, w)) && SameShape(b, Remove(b, w))
  {
    var b' := Remove(b, w);
    var r := Own(b, w.side)[w.tick][w.pos];
    assert QueueStamped(Own(b, w.side)[w.tick], b.gens) && Stamped(r, b.gens);
    RemovePartition(b, w);
    RemoveStamped(b, w, Buy);
    RemoveStamped(b, w, Sell);
    NotFree(b, w.side, w.tick, w.pos);
    assert forall k | 1 <= k < |b'.free| :: b'.free[k] == b.free[k - 1];
    UncrossedShrinks(b, b');
  }

  lemma RestPartition(b: Book, side: Side, i: nat, r: Resting)
    requires Sound(b) && i < |Own(b, side)| && b.free != [] && r.slot == b.free[0]
    ensures Partition(Put(b, side, Own(b, side)[i := Own(b, side)[i] + [r]])
                        .(free := b.free[1..], gens := Bump(b.gens, r.slot)))
  {
    var l := Own(b, side);
    var b' := Put(b, side, l[i := l[i] + [r]]).(free := b.free[1..], gens := Bump(b.gens, r.slot));
    forall s: nat
      ensures SlotCount(b', s) == SlotCount(b, s)
    {
      LadderCountUpdate(l, i, l[i] + [r], s);
      QueueCountAppend(l[i], [r], s);
      assert [r][1..] == [];
    }
  }

  // Minting a generation for the top free slot disturbs no stamp.
  lemma MintStamped(b: Book, side: Side)
    requires Sound(b) && b.free != []
    ensures b.free[0] < |b.gens|
    ensures LadderStamped(Own(b, side), Bump(b.gens, b.free[0]))
    ensures FreeEven(b.free[1..], Bump(b.gens, b.free[0]))
  {
    forall i, k | 0 <= i < |Own(b, side)| && 0 <= k < |Own(b, side)[i]|
      ensures Stamped(Own(b, side)[i][k], Bump(b.gens, b.free[0]))
    {
      assert QueueStamped(Own(b, side)[i], b.gens);
      NotFree(b, side, i, k);
    }
    FreeDistinct(b);
  }

  lemma RestSound(b: Book, side: Side, i: nat, qty: Qty, hidden: Qty, display: Qty)
    requires Sound(b) && i < |Own(b, side)|
    requires qty > 0 && hidden >= 0 && (hidden > 0 ==> display > 0)
    requires !Reaches(b, side.Opposite(), i)
    ensures Sound(Rest(b, side, i, qty, hidden, display).0)
    ensures SameShape(b, Rest(b, side, i, qty, hidden, display).0)
  {
    if b.free == [] { return; }
    var l := Own(b, side);
    MintStamped(b, Buy);
    MintStamped(b, Sell);
    var r: Resting := RestingOrder(b.free[0], GenAt(b.gens, b.free[0]) + 1, qty, hidden, display);
    RestPartition(b, side, i, r);
    RestUncrossed(b, side, i, l[i] + [r]);
    var gens := Bump(b.gens, b.free[0]);
    assert QueueStamped(l[i] + [r], gens) by {
      assert QueueStamped(l[i], gens);
    }
  }

  lemma RestUncrossed(b: Book, side: Side, i: nat, q: Queue)
    requires |b.bids| == |b.asks| && Uncrossed(b) && i < |Own(b, side)|
    requires !Reaches(b, side.Opposite(), i)
    requires q != []
    ensures Uncrossed(Put(b, side, Own(b, side)[i := q]))
  {
    var b' := Put(b, side, Own(b, side)[i := q]);
    var h, lo := Highest(b'.bids), Lowest(b'.asks);
    if h >= 0 && lo < |b'.asks| {
      assert b'.bids[h] != [] && b'.asks[lo] != [];
    }
  }

  // ---- fills -----------------------------------------------------------------------------

  lemma FillHeadSound(b: Book, maker: Side, i: nat, qty: Qty)
    requires Sound(b) && i < |Own(b, maker)| && Own(b, maker)[i] != [] && qty > 0
    ensures Sound(FillHead(b, maker, i, qty).book)
  {
    var q := Own(b, maker)[i];
    var fill := Min(q[0].qty, qty);
    var after := AfterFill(q, fill);
    assert QueueStamped(q, b.gens) && Stamped(q[0], b.gens);
    if fill == q[0].qty && q[0].hidden == 0 {
      RemoveSound(b, At(maker, i, 0));
      assert q[..0] + q[1..] == q[1..];
    } else {
      forall s: nat
        ensures QueueCount(after, s) == QueueCount(q, s)
      {
        if fill == q[0].qty {
          QueueCountAppend(q[1..], [Reload(q[0])], s);
          assert [Reload(q[0])][1..] == [];
        } else {
          assert after[1..] == q[1..];
        }
      }
      ReshapeSound(b, maker, i, after);
    }
  }

  lemma {:induction false} MatchSound(b: Book, maker: Side, limit: int, qty: Qty)
    requires Sound(b) && qty >= 0
    ensures Sound(Match(b, maker, limit, qty).book)
    ensures var m := Match(b, maker, limit, qty); m.left > 0 ==> !Reaches(m.book, maker, limit)
    decreases qty
  {
    if qty > 0 && Reaches(b, maker, limit) {
      FillHeadSound(b, maker, Best(b, maker), qty);
      var f := FillHead(b, maker, Best(b, maker), qty);
      MatchSound(f.book, maker, limit, f.left);
    }
  }

  // ---- whole operations and runs -----------------------------------------------------------

  lemma PlaceSound(b: Book, side: Side, price: Price, qty: Qty, postOnly: bool)
    requires Sound(b)
    ensures Sound(PlaceOrder(b, side, price, qty, postOnly).book)
    ensures SameShape(b, PlaceOrder(b, side, price, qty, postOnly).book)
  {
    hide Sound, Match, Reaches, Lowest, Highest;
    var idx := price - b.base;
    if ValidTick(b, idx) && qty > 0 {
      var m := Match(b, side.Opposite(), idx, qty);
      MatchSound(b, side.Opposite(), idx, qty);
      if m.left > 0 {
        RestSound(m.book, side, idx, m.left, 0, 0);
      }
    }
  }

  lemma IcebergSound(b: Book, side: Side, price: Price, display: Qty, total: Qty)
    requires Sound(b)
    ensures Sound(PlaceIceberg(b, side, price, display, total).book)
    ensures SameShape(b, PlaceIceberg(b, side, price, display, total).book)
  {
    hide Sound, Match, Reaches, Lowest, Highest;
    var idx := price - b.base;
    if ValidTick(b, idx) && total > 0 && display > 0 {
      var m := Match(b, side.Opposite(), idx, total);
      MatchSound(b, side.Opposite(), idx, total);
      if m.left > 0 {
        var visible := Min(display, m.left);
        RestSound(m.book, side, idx, visible, m.left - visible, display);
      }
    }
  }

  lemma CancelSound(b: Book, id: OrderId)
    requires Sound(b)
    ensures Sound(CancelOrder(b, id).0) && SameShape(b, CancelOrder(b, id).0)
  {
    if Find(b, id).At? {
      RemoveSound(b, Find(b, id));
    }
  }

  lemma ResizeSound(b: Book, side: Side, i: nat, k: nat, r: Resting)
    requires Sound(b) && i < |Own(b, side)| && k < |Own(b, side)[i]|
    requires r.slot == Own(b, side)[i][k].slot && r.gen == Own(b, side)[i][k].gen
    ensures Sound(Put(b, side, Own(b, side)[i := Replace(Own(b, side)[i], k, r)]))
  {
    var q := Own(b, side)[i];
    var q' := Replace(q, k, r);
    forall s: nat
      ensures QueueCount(q', s) == QueueCount(q, s)
    {
      QueueCountSplit(q, k, s);
      QueueCountSplit(q', k, s);
      assert q'[..k] == q[..k] && q'[k + 1..] == q[k + 1..];
    }
    assert QueueStamped(q, b.gens);
    ReshapeSound(b, side, i, q');
  }

  lemma ReduceSound(b: Book, id: OrderId, q: Qty)
    requires Sound(b)
    ensures Sound(ReduceOrder(b, id, q).0) && SameShape(b, ReduceOrder(b, id, q).0)
  {
    hide Sound, Match, Reaches, Lowest, Highest;
    var w := Find(b, id);
    if w.At? {
      var r := Own(b, w.side)[w.tick][w.pos];
      if q < r.qty {
        ResizeSound(b, w.side, w.tick, w.pos, r.(qty := r.qty - q));
      } else {
        RemoveSound(b, w);
      }
    }
  }

  lemma StepSound(b: Book, op: Op)
    requires Sound(b)
    ensures Sound(Step(b, op)) && SameShape(b, Step(b, op))
  {
    match op
    case Place(side, price, qty, postOnly) => PlaceSound(b, side, price, qty, postOnly);
    case Iceberg(side, price, display, total) => IcebergSound(b, side, price, display, total);
    case CancelId(id) => CancelSound(b, id);
    case ReduceId(id, q) => ReduceSound(b, id, q);
  }

  // Every run keeps the whole invariant; in particular the book is never crossed.
  lemma {:induction false} RunSound(b: Book, ops: seq<Op>)
    requires Sound(b)
    ensures Sound(Run(b, ops)) && SameShape(b, Run(b, ops))
    decreases |ops|
  {
    if ops != [] {
      StepSound(b, ops[0]);
      RunSound(Step(b, ops[0]), ops[1..]);
    }
  }
}
