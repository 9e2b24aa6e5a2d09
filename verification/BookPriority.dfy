/**
 Time priority, and what becomes of a single order: consequences of filling one resting
 order at a time that hold for the engine because it refines the naive book.
 */
module BookPriority {
  import opened Types
  import opened BookSpec
  import opened BookInvariant
  import opened BookIds
  import opened BookTheorems
  import opened BookLots

  // r is what a reload left of one of the first k orders of q.
  predicate ReloadOf(r: Resting, q: Queue, k: nat) {
    exists i ::
      && 0 <= i < k && i < |q|
      && r.slot == q[i].slot && r.gen == q[i].gen && 0 <= r.hidden < q[i].hidden
  }

  // The first k orders of q lost their clips, the next one may have been hit in part, those
  // behind it are untouched and in place, and only reloads of the first k stand behind them.
  ghost predicate Served(q: Queue, q': Queue, k: nat) {
    && k <= |q| && |q| - k <= |q'|
    && (k < |q| ==> q'[0].qty <= q[k].qty && q'[0] == q[k].(qty := q'[0].qty))
    && (forall j | k < j < |q| :: q'[j - k] == q[j])
    && (forall j | |q| - k <= j < |q'| :: ReloadOf(q'[j], q, k))
  }

  lemma ServedStep(q: Queue, q1: Queue, k: nat, fill: Qty) returns (k': nat)
    requires Served(q, q1, k) && q1 != [] && 0 < fill <= q1[0].qty
    ensures k <= k' && Served(q, AfterFill(q1, fill), k')
  {
    var q2 := AfterFill(q1, fill);
    k' := if fill == q1[0].qty && k < |q| then k + 1 else k;
    if k == |q| {
      assert ReloadOf(q1[0], q, k);
    }
    forall j | |q| - k' <= j < |q2|
      ensures ReloadOf(q2[j], q, k')
    {
      if fill < q1[0].qty {
        assert j > 0 ==> q2[j] == q1[j];
      } else if j + 1 < |q1| {
        assert q2[j] == q1[j + 1] && ReloadOf(q1[j + 1], q, k);
      } else {
        assert q2[j] == Reload(q1[0]) && q2[j].hidden < q1[0].hidden;
        assert k < |q| ==> q1[0].slot == q[k].slot && q1[0].hidden == q[k].hidden;
      }
    }
  }

  lemma {:induction false} ServedRun(q: Queue, b: Book, maker: Side, limit: int, qty: Qty, i: nat, k: nat)
    returns (k': nat)
    requires qty >= 0 && i < |Own(b, maker)| && Served(q, Own(b, maker)[i], k)
    ensures |Own(Match(b, maker, limit, qty).book, maker)| == |Own(b, maker)|
    ensures k <= k' && Served(q, Own(Match(b, maker, limit, qty).book, maker)[i], k')
    decreases qty
  {
    hide Served, AfterFill;
    k' := k;
    if qty > 0 && Reaches(b, maker, limit) {
      var best: nat := Best(b, maker);
      var f := FillHead(b, maker, best, qty);
      if best == i {
        k' := ServedStep(q, Own(b, maker)[i], k, Min(Own(b, maker)[i][0].qty, qty));
      }
      k' := ServedRun(q, f.book, maker, limit, f.left, i, k');
    }
  }

  // Time priority: whatever a taker did to a level, its orders were served strictly from the
  // front, and a reloaded iceberg stands behind every order it found waiting.
  lemma TimePriority(b: Book, maker: Side, limit: int, qty: Qty, i: nat) returns (k: nat)
    requires qty >= 0 && i < |Own(b, maker)|
    ensures |Own(Match(b, maker, limit, qty).book, maker)| == |Own(b, maker)|
    ensures Served(Own(b, maker)[i], Own(Match(b, maker, limit, qty).book, maker)[i], k)
  {
    k := ServedRun(Own(b, maker)[i], b, maker, limit, qty, i, 0);
  }

  predicate Waits(q: Queue, id: OrderId) {
    exists j :: 0 <= j < |q| && q[j].Id() == id
  }

  // The maker of the trade rests on this side at the trade's price.
  predicate MakerRests(b: Book, maker: Side, t: Trade) {
    var i := t.price - b.base;
    0 <= i < |Own(b, maker)| && Waits(Own(b, maker)[i], t.makerId)
  }

  // A fill brings no new order into its queue.
  lemma MakersOnlyLeave(b: Book, maker: Side, idx: nat, qty: Qty, t: Trade)
    requires idx < |Own(b, maker)| && Own(b, maker)[idx] != [] && qty > 0
    requires MakerRests(FillHead(b, maker, idx, qty).book, maker, t)
    ensures MakerRests(b, maker, t)
  {
    var i := t.price - b.base;
    var q, q' := Own(b, maker)[i], Own(FillHead(b, maker, idx, qty).book, maker)[i];
    var j :| 0 <= j < |q'| && q'[j].Id() == t.makerId;
    var from := if i != idx || Min(q[0].qty, qty) < q[0].qty then j else if j + 1 < |q| then j + 1 else 0;
    assert q[from].Id() == t.makerId && Waits(q, t.makerId);
  }

  // Every trade names an order that rested, at the trade's own price, before the taker came,
  // and moves a positive number of lots.
  lemma {:induction false} TradesNameMakers(b: Book, maker: Side, limit: int, qty: Qty)
    requires qty >= 0
    ensures forall t | t in Match(b, maker, limit, qty).trades :: MakerRests(b, maker, t) && t.qty > 0
    decreases qty
  {
    if qty > 0 && Reaches(b, maker, limit) {
      var best: nat := Best(b, maker);
      var f := FillHead(b, maker, best, qty);
      var q := Own(b, maker)[best];
      assert q[0].Id() == f.trade.makerId && Waits(q, f.trade.makerId);
      TradesNameMakers(f.book, maker, limit, f.left);
      forall t | t in Match(b, maker, limit, qty).trades
        ensures MakerRests(b, maker, t) && t.qty > 0
      {
        if t != f.trade {
          MakersOnlyLeave(b, maker, best, qty, t);
        }
      }
    }
  }

  // ---- one order -------------------------------------------------------------------------------

  // What rests under an id, visible and hidden.
  function RestingLots(b: Book, id: OrderId): (Qty, Qty) {
    var w := Find(b, id);
    if w.Nowhere? then (0, 0)
    else (Own(b, w.side)[w.tick][w.pos].qty, Own(b, w.side)[w.tick][w.pos].hidden)
  }

  lemma RestedLots(b: Book, side: Side, i: nat, qty: Qty, hidden: Qty, display: Qty)
    requires Sound(b) && i < |Own(b, side)| && !Reaches(b, side.Opposite(), i) && b.free != []
    requires qty > 0 && hidden >= 0 && (hidden > 0 ==> display > 0)
    ensures var (b', id) := Rest(b, side, i, qty, hidden, display);
            && RestingLots(b', id) == (qty, hidden) && id != 0 && id != TAKER_FILLED
            && Find(b', id) == At(side, i, |Own(b, side)[i]|)
  {
    hide Sound, Find;
    RestSound(b, side, i, qty, hidden, display);
    var (b', id) := Rest(b, side, i, qty, hidden, display);
    FindsIt(b', side, i, |Own(b, side)[i]|);
    RestMints(b, side, i, qty, hidden, display);
  }

  // An accepted order's quantity is what it traded plus what rests of it; a plain order rests
  // openly.
  lemma OrderAccounted(b: Book, side: Side, price: Price, qty: Qty, postOnly: bool)
    requires Sound(b)
    ensures var p := PlaceOrder(b, side, price, qty, postOnly);
            var (visible, hidden) := RestingLots(p.book, p.id);
            && (p.id != 0 ==> qty == Volume(p.trades, Everyone) + visible + hidden && hidden == 0)
            && (p.id == TAKER_FILLED ==> visible == 0)
  {
    hide Sound, Rest, Reaches, RestingLots, Match;
    var idx := price - b.base;
    var p := PlaceOrder(b, side, price, qty, postOnly);
    SentinelRestsNothing(p.book, b, Place(side, price, qty, postOnly));
    if p.id != 0 {
      MatchLots(b, side.Opposite(), idx, qty, Everyone);
      MatchSound(b, side.Opposite(), idx, qty);
      var m := Match(b, side.Opposite(), idx, qty);
      if m.left > 0 {
        RestNeedsSlot(m.book, side, idx, m.left, 0, 0);
        RestedLots(m.book, side, idx, m.left, 0, 0);
      }
    }
  }

  // An iceberg never shows more than its display size.
  lemma IcebergAccounted(b: Book, side: Side, price: Price, display: Qty, total: Qty)
    requires Sound(b)
    ensures var p := PlaceIceberg(b, side, price, display, total);
            var (visible, hidden) := RestingLots(p.book, p.id);
            && (p.id != 0 ==> total == Volume(p.trades, Everyone) + visible + hidden && 0 <= visible <= display)
            && (p.id == TAKER_FILLED ==> visible == 0 && hidden == 0)
            && (hidden > 0 ==> visible == display)
  {
    hide Sound, Rest, Reaches, RestingLots, Match;
    var idx := price - b.base;
    var p := PlaceIceberg(b, side, price, display, total);
    SentinelRestsNothing(p.book, b, Iceberg(side, price, display, total));
    if p.id != 0 {
      MatchLots(b, side.Opposite(), idx, total, Everyone);
      MatchSound(b, side.Opposite(), idx, total);
      var m := Match(b, side.Opposite(), idx, total);
      if m.left > 0 {
        var visible := Min(display, m.left);
        RestNeedsSlot(m.book, side, idx, visible, m.left - visible, display);
        RestedLots(m.book, side, idx, visible, m.left - visible, display);
      }
    }
  }

  lemma RestNeedsSlot(b: Book, side: Side, i: nat, qty: Qty, hidden: Qty, display: Qty)
    requires i < |Own(b, side)| && qty > 0 && hidden >= 0 && (hidden > 0 ==> display > 0)
    ensures Rest(b, side, i, qty, hidden, display).1 != 0 ==> b.free != []
  {
  }

  lemma SentinelRestsNothing(b': Book, b: Book, op: Op)
    requires Sound(b) && b' == Step(b, op)
    ensures RestingLots(b', 0) == (0, 0) && RestingLots(b', TAKER_FILLED) == (0, 0)
  {
    hide Sound, Step;
    StepSound(b, op);
    SentinelsNeverRest(b');
  }
}
