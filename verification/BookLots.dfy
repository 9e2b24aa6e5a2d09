/**
 Conservation of lots. Everything is stated for the lots of `whose` orders: of everyone, which
 balances the whole book, or of one id, which follows a single order through its life.
 */
module BookLots {
  import opened Types
  import opened BookSpec
  import opened BookInvariant
  import opened BookIds
  import opened BookTheorems

  datatype Whose = Everyone | Only(id: OrderId) {
    predicate Covers(id: OrderId) {
      Everyone? || this.id == id
    }
  }

  // ---- lots resting and lots traded --------------------------------------------------------------

  function QueueLots(q: Queue, whose: Whose): Qty {
    if q == [] then 0
    else (if whose.Covers(q[0].Id()) then q[0].qty + q[0].hidden else 0) + QueueLots(q[1..], whose)
  }

  function LadderLots(l: Ladder, whose: Whose): Qty {
    if l == [] then 0 else QueueLots(l[0], whose) + LadderLots(l[1..], whose)
  }

  // What rests, visible and hidden.
  function Lots(b: Book, whose: Whose): Qty {
    LadderLots(b.bids, whose) + LadderLots(b.asks, whose)
  }

  // What traded against these makers.
  function Volume(trades: seq<Trade>, whose: Whose): Qty {
    if trades == [] then 0
    else (if whose.Covers(trades[0].makerId) then trades[0].qty else 0) + Volume(trades[1..], whose)
  }

  lemma {:induction false} QueueLotsAppend(p: Queue, q: Queue, whose: Whose)
    ensures QueueLots(p + q, whose) == QueueLots(p, whose) + QueueLots(q, whose)
  {
    if p == [] {
      assert p + q == q;
    } else {
      QueueLotsAppend(p[1..], q, whose);
      assert (p + q)[1..] == p[1..] + q;
    }
  }

  lemma {:induction false} LadderLotsUpdate(l: Ladder, i: nat, q: Queue, whose: Whose)
    requires i < |l|
    ensures LadderLots(l[i := q], whose) == LadderLots(l, whose) - QueueLots(l[i], whose) + QueueLots(q, whose)
  {
    if i == 0 {
      assert l[i := q][1..] == l[1..];
    } else {
      LadderLotsUpdate(l[1..], i - 1, q, whose);
      assert l[i := q][1..] == l[1..][i - 1 := q];
    }
  }

  lemma PutLots(b: Book, side: Side, i: nat, q: Queue, whose: Whose)
    requires i < |Own(b, side)|
    ensures Lots(Put(b, side, Own(b, side)[i := q]), whose)
         == Lots(b, whose) - QueueLots(Own(b, side)[i], whose) + QueueLots(q, whose)
  {
    LadderLotsUpdate(Own(b, side), i, q, whose);
  }

  // What the order at w contributes.
  function LotsAt(b: Book, w: Where, whose: Whose): Qty
    requires Located(b, w)
  {
    var r := Own(b, w.side)[w.tick][w.pos];
    if whose.Covers(r.Id()) then r.qty + r.hidden else 0
  }

  lemma RemoveLots(b: Book, w: Where, whose: Whose)
    requires Located(b, w)
    ensures Lots(Remove(b, w), whose) == Lots(b, whose) - LotsAt(b, w, whose)
  {
    var q := Own(b, w.side)[w.tick];
    PutLots(b, w.side, w.tick, q[..w.pos] + q[w.pos + 1..], whose);
    QueueLotsAppend(q[..w.pos], q[w.pos + 1..], whose);
    QueueLotsAppend(q[..w.pos], q[w.pos..], whose);
    assert q == q[..w.pos] + q[w.pos..];
    assert q[w.pos..][1..] == q[w.pos + 1..];
  }

  lemma ResizeLots(b: Book, w: Where, q: Qty, whose: Whose)
    requires Located(b, w) && q < Own(b, w.side)[w.tick][w.pos].qty
    ensures Lots(Resized(b, w, q), whose)
         == Lots(b, whose) - if whose.Covers(Own(b, w.side)[w.tick][w.pos].Id()) then q else 0
  {
    var queue := Own(b, w.side)[w.tick];
    var r := queue[w.pos];
    var queue' := Replace(queue, w.pos, r.(qty := r.qty - q));
    PutLots(b, w.side, w.tick, queue', whose);
    QueueLotsAppend(queue[..w.pos], queue[w.pos..], whose);
    QueueLotsAppend(queue'[..w.pos], queue'[w.pos..], whose);
    assert queue == queue[..w.pos] + queue[w.pos..] && queue' == queue'[..w.pos] + queue'[w.pos..];
    assert queue[w.pos..][1..] == queue'[w.pos..][1..] && queue[..w.pos] == queue'[..w.pos];
  }

  // A fill takes exactly the traded lots out of the book, from the maker it names.
  lemma FillLots(b: Book, maker: Side, i: nat, qty: Qty, whose: Whose)
    requires i < |Own(b, maker)| && Own(b, maker)[i] != [] && qty > 0
    ensures var f := FillHead(b, maker, i, qty);
            && Lots(f.book, whose) == Lots(b, whose) - (if whose.Covers(f.trade.makerId) then f.trade.qty else 0)
            && f.trade.qty + f.left == qty && f.trade.qty > 0
  {
    var q := Own(b, maker)[i];
    var fill := Min(q[0].qty, qty);
    PutLots(b, maker, i, AfterFill(q, fill), whose);
    if fill == q[0].qty && q[0].hidden > 0 {
      QueueLotsAppend(q[1..], [Reload(q[0])], whose);
      assert [Reload(q[0])][1..] == [];
    } else if fill < q[0].qty {
      assert AfterFill(q, fill)[1..] == q[1..];
    }
  }

  lemma {:induction false} MatchLots(b: Book, maker: Side, limit: int, qty: Qty, whose: Whose)
    requires qty >= 0
    ensures var m := Match(b, maker, limit, qty);
            && Lots(m.book, whose) + Volume(m.trades, whose) == Lots(b, whose)
            && 0 <= Volume(m.trades, whose) <= Volume(m.trades, Everyone)
            && Volume(m.trades, Everyone) + m.left == qty
    decreases qty
  {
    hide Lots, FillHead;
    if qty > 0 && Reaches(b, maker, limit) {
      FillLots(b, maker, Best(b, maker), qty, whose);
      var f := FillHead(b, maker, Best(b, maker), qty);
      MatchLots(f.book, maker, limit, f.left, whose);
      var m := Match(f.book, maker, limit, f.left);
      assert ([f.trade] + m.trades)[1..] == m.trades;
    }
  }

  lemma RestLots(b: Book, side: Side, i: nat, qty: Qty, hidden: Qty, display: Qty, whose: Whose)
    requires i < |Own(b, side)| && qty > 0 && hidden >= 0 && (hidden > 0 ==> display > 0)
    ensures var (b', id) := Rest(b, side, i, qty, hidden, display);
            Lots(b', whose) == Lots(b, whose) + if b.free != [] && whose.Covers(id) then qty + hidden else 0
    ensures b.free == [] <==> Rest(b, side, i, qty, hidden, display).1 == 0
  {
    if b.free != [] {
      var r: Resting := RestingOrder(b.free[0], GenAt(b.gens, b.free[0]) + 1, qty, hidden, display);
      var q := Own(b, side)[i];
      PutLots(b, side, i, q + [r], whose);
      QueueLotsAppend(q, [r], whose);
      assert [r][1..] == [];
    }
  }

  // ---- what an operation does --------------------------------------------------------------------

  function Size(op: Op): Qty {
    match op
    case Place(_, _, qty, _) => qty
    case Iceberg(_, _, _, total) => total
    case _ => 0
  }

  function PlacedBy(b: Book, op: Op): Placed {
    match op
    case Place(side, price, qty, postOnly) => PlaceOrder(b, side, price, qty, postOnly)
    case Iceberg(side, price, display, total) => PlaceIceberg(b, side, price, display, total)
    case _ => Placed(b, 0, [])
  }

  // What it traded against these makers.
  function Traded(b: Book, op: Op, whose: Whose): Qty {
    Volume(PlacedBy(b, op).trades, whose)
  }

  // What it accepted from its sender.
  function Incoming(b: Book, op: Op): Qty {
    if PlacedBy(b, op).id == 0 then 0 else Size(op)
  }

  // What it put to rest under a new id.
  function Rested(b: Book, op: Op, whose: Whose): Qty {
    var p := PlacedBy(b, op);
    if p.id != 0 && p.id != TAKER_FILLED && whose.Covers(p.id) then Size(op) - Volume(p.trades, Everyone) else 0
  }

  // What it took off: a cancel, and a reduction that exhausts the clip, discards the reserve.
  function Removed(b: Book, op: Op, whose: Whose): Qty {
    match op
    case CancelId(id) =>
      var w := Find(b, id);
      if w.At? then LotsAt(b, w, whose) else 0
    case ReduceId(id, q) =>
      var w := Find(b, id);
      if w.Nowhere? then 0
      else if q < Own(b, w.side)[w.tick][w.pos].qty then (if whose.Covers(id) then q else 0)
      else LotsAt(b, w, whose)
    case _ => 0
  }

  lemma PlaceBalance(b: Book, side: Side, price: Price, qty: Qty, postOnly: bool, whose: Whose)
    requires Sound(b)
    ensures var op := Place(side, price, qty, postOnly);
            Lots(Step(b, op), whose) + Traded(b, op, whose) == Lots(b, whose) + Rested(b, op, whose)
    ensures var op := Place(side, price, qty, postOnly);
            Incoming(b, op) == Traded(b, op, Everyone) + Rested(b, op, Everyone)
  {
    hide Sound, Match, Reaches, Lots, Rest;
    ZeroChangesNothing(b, side, price, qty, postOnly);
    var idx := price - b.base;
    if PlaceOrder(b, side, price, qty, postOnly).id != 0 {
      var m := Match(b, side.Opposite(), idx, qty);
      MatchLots(b, side.Opposite(), idx, qty, whose);
      if m.left > 0 {
        RestLots(m.book, side, idx, m.left, 0, 0, whose);
        NewIdIsNoSentinel(b, side, idx, qty, m.left, 0, 0);
      }
    }
  }

  lemma IcebergBalance(b: Book, side: Side, price: Price, display: Qty, total: Qty, whose: Whose)
    requires Sound(b)
    ensures var op := Iceberg(side, price, display, total);
            Lots(Step(b, op), whose) + Traded(b, op, whose) == Lots(b, whose) + Rested(b, op, whose)
    ensures var op := Iceberg(side, price, display, total);
            Incoming(b, op) == Traded(b, op, Everyone) + Rested(b, op, Everyone)
  {
    hide Sound, Match, Reaches, Lots, Rest;
    ZeroIcebergChangesNothing(b, side, price, display, total);
    var idx := price - b.base;
    if PlaceIceberg(b, side, price, display, total).id != 0 {
      var m := Match(b, side.Opposite(), idx, total);
      MatchLots(b, side.Opposite(), idx, total, whose);
      if m.left > 0 {
        var visible := Min(display, m.left);
        RestLots(m.book, side, idx, visible, m.left - visible, display, whose);
        NewIdIsNoSentinel(b, side, idx, total, visible, m.left - visible, display);
      }
    }
  }

  // The id a remainder rests under is never the one that means "filled".
  lemma NewIdIsNoSentinel(b: Book, side: Side, idx: nat, qty: Qty, visible: Qty, hidden: Qty, display: Qty)
    requires Sound(b) && qty >= 0 && visible > 0 && hidden >= 0 && (hidden > 0 ==> display > 0)
    requires idx < |Own(b, side)| && Match(b, side.Opposite(), idx, qty).left > 0
    ensures idx < |Own(Match(b, side.Opposite(), idx, qty).book, side)|
    ensures Rest(Match(b, side.Opposite(), idx, qty).book, side, idx, visible, hidden, display).1 != TAKER_FILLED
  {
    hide Sound, Match, Reaches;
    MatchSound(b, side.Opposite(), idx, qty);
    var m := Match(b, side.Opposite(), idx, qty);
    if m.book.free != [] {
      RestMints(m.book, side, idx, visible, hidden, display);
    }
  }

  // One operation of any kind: what rests grows by what it rested and shrinks by what it
  // traded and removed, for the whole book as for each single order.
  lemma StepBalance(b: Book, op: Op, whose: Whose)
    requires Sound(b)
    ensures Lots(Step(b, op), whose) + Traded(b, op, whose) + Removed(b, op, whose)
         == Lots(b, whose) + Rested(b, op, whose)
    ensures Incoming(b, op) == Traded(b, op, Everyone) + Rested(b, op, Everyone)
  {
    hide Sound, Lots, Remove, Resized, LotsAt, PlaceOrder, PlaceIceberg;
    match op
    case Place(side, price, qty, postOnly) => PlaceBalance(b, side, price, qty, postOnly, whose);
    case Iceberg(side, price, display, total) => IcebergBalance(b, side, price, display, total, whose);
    case CancelId(id) =>
      if Find(b, id).At? {
        RemoveLots(b, Find(b, id), whose);
      }
    case ReduceId(id, q) =>
      var w := Find(b, id);
      if w.At? {
        if q < Own(b, w.side)[w.tick][w.pos].qty {
          ResizeLots(b, w, q, whose);
        } else {
          RemoveLots(b, w, whose);
        }
      }
  }

  // ---- over runs -------------------------------------------------------------------------------------

  function TotalIncoming(b: Book, ops: seq<Op>): Qty
    decreases |ops|
  {
    if ops == [] then 0 else Incoming(b, ops[0]) + TotalIncoming(Step(b, ops[0]), ops[1..])
  }

  function TotalTraded(b: Book, ops: seq<Op>, whose: Whose): Qty
    decreases |ops|
  {
    if ops == [] then 0 else Traded(b, ops[0], whose) + TotalTraded(Step(b, ops[0]), ops[1..], whose)
  }

  function TotalRemoved(b: Book, ops: seq<Op>, whose: Whose): Qty
    decreases |ops|
  {
    if ops == [] then 0 else Removed(b, ops[0], whose) + TotalRemoved(Step(b, ops[0]), ops[1..], whose)
  }

  // Over every run, accepted lots = 2 x traded + removed + change of what rests: a matched lot
  // leaves the taker and the maker.
  lemma {:induction false} RunLots(b: Book, ops: seq<Op>)
    requires Sound(b)
    ensures Lots(Run(b, ops), Everyone) + 2 * TotalTraded(b, ops, Everyone) + TotalRemoved(b, ops, Everyone)
         == Lots(b, Everyone) + TotalIncoming(b, ops)
    decreases |ops|
  {
    hide Sound, Lots, Step, Traded, Removed, Incoming;
    if ops != [] {
      StepBalance(b, ops[0], Everyone);
      StepSound(b, ops[0]);
      RunLots(Step(b, ops[0]), ops[1..]);
    }
  }

  // ---- one order ---------------------------------------------------------------------------------------

  lemma {:induction false} QueueWithout(q: Queue, id: OrderId)
    requires PosOf(q, id) == |q|
    ensures QueueLots(q, Only(id)) == 0
  {
    if q != [] {
      QueueWithout(q[1..], id);
    }
  }

  lemma {:induction false} LadderWithout(l: Ladder, id: OrderId)
    requires LevelOf(l, id) == |l|
    ensures LadderLots(l, Only(id)) == 0
  {
    if l != [] {
      QueueWithout(l[0], id);
      LadderWithout(l[1..], id);
    }
  }

  lemma NoneUnder(b: Book, id: OrderId)
    requires !Rests(b, id)
    ensures Lots(b, Only(id)) == 0
  {
    LadderWithout(b.bids, id);
    LadderWithout(b.asks, id);
  }

  // An id accounts for the visible and hidden lots of the one order it names.
  lemma LotsUnder(b: Book, id: OrderId)
    requires Sound(b)
    ensures var w := Find(b, id); Lots(b, Only(id)) == if w.At? then LotsAt(b, w, Only(id)) else 0
  {
    hide Lots, Sound;
    var w := Find(b, id);
    if w.At? {
      RestingId(b, w.side, w.tick, w.pos);
      RemoveSound(b, w);
      CheckExact(Remove(b, w), id);
      NoneUnder(Remove(b, w), id);
      RemoveLots(b, w, Only(id));
    } else {
      NoneUnder(b, id);
    }
  }

  lemma UnknownRestsNowhere(b: Book, id: OrderId)
    requires Sound(b) && !Known(b, id)
    ensures !Rests(b, id)
  {
    hide Sound;
    var w := Find(b, id);
    if w.At? {
      RestingId(b, w.side, w.tick, w.pos);
    }
  }

  // Once minted, an id never gets new lots.
  lemma {:induction false} LaterBalance(b: Book, ops: seq<Op>, id: OrderId)
    requires Sound(b) && Known(b, id)
    ensures Lots(b, Only(id))
         == Lots(Run(b, ops), Only(id)) + TotalTraded(b, ops, Only(id)) + TotalRemoved(b, ops, Only(id))
    decreases |ops|
  {
    hide Sound, Lots, Step, Traded, Removed, Known, PlacedBy, Grown;
    if ops != [] {
      StepBalance(b, ops[0], Only(id));
      StepSound(b, ops[0]);
      StepGrows(b, ops[0]);
      KnownGrows(b, Step(b, ops[0]), id);
      NotAgain(b, ops[0], id);
      LaterBalance(Step(b, ops[0]), ops[1..], id);
    }
  }

  lemma NotAgain(b: Book, op: Op, id: OrderId)
    requires Sound(b) && Known(b, id)
    ensures Rested(b, op, Only(id)) == 0
  {
    hide Sound, Known, PlaceOrder, PlaceIceberg, Step;
    if id in Minted(b, op) {
      StepMints(b, op, id);
    }
  }

  // For every order that ever rested, at every later moment: its quantity is what it filled on
  // arrival, what it filled as a maker since, what was taken off it, and what still rests of it.
  lemma OrderLife(b: Book, op: Op, later: seq<Op>, id: OrderId)
    requires Sound(b) && id in Minted(b, op)
    ensures var b1 := Step(b, op);
            Size(op) == Traded(b, op, Everyone)
                        + TotalTraded(b1, later, Only(id)) + TotalRemoved(b1, later, Only(id))
                        + Lots(Run(b1, later), Only(id))
  {
    hide Sound, Lots, Known, Step, Run, TotalTraded, TotalRemoved;
    StepMints(b, op, id);
    StepSound(b, op);
    LaterBalance(Step(b, op), later, id);
    UnknownRestsNowhere(b, id);
    NoneUnder(b, id);
    StepBalance(b, op, Only(id));
    NoSelfTrade(b, op, id);
  }

  // An order does not trade with the one it becomes.
  lemma NoSelfTrade(b: Book, op: Op, id: OrderId)
    requires Sound(b) && id in Minted(b, op)
    ensures Traded(b, op, Only(id)) == 0
  {
    hide Sound, Known, Lots, Match, Step;
    StepMints(b, op, id);
    UnknownRestsNowhere(b, id);
    NoneUnder(b, id);
    var maker, idx := op.side.Opposite(), op.price - b.base;
    MatchLots(b, maker, idx, Size(op), Only(id));
    NonNegative(Match(b, maker, idx, Size(op)).book, Only(id));
  }

  lemma {:induction false} NonNegativeQueue(q: Queue, whose: Whose)
    ensures QueueLots(q, whose) >= 0
  {
    if q != [] {
      NonNegativeQueue(q[1..], whose);
    }
  }

  lemma {:induction false} NonNegativeLadder(l: Ladder, whose: Whose)
    ensures LadderLots(l, whose) >= 0
  {
    if l != [] {
      NonNegativeQueue(l[0], whose);
      NonNegativeLadder(l[1..], whose);
    }
  }

  lemma NonNegative(b: Book, whose: Whose)
    ensures Lots(b, whose) >= 0
  {
    NonNegativeLadder(b.bids, whose);
    NonNegativeLadder(b.asks, whose);
  }
}
