/**
 Where orders stand and what they show: the place of a new order, the clip a reload puts up,
 how far a taker eats into the ladder, and what cancel and reduce leave where it was.
 */
module BookPlaces {
  import opened Types
  import opened BookSpec
  import opened BookInvariant
  import opened BookIds
  import opened BookTheorems
  import opened BookLots
  import opened BookPriority

  // ---- reloads -------------------------------------------------------------------------------------

  // A fill that exhausts a clip with a reserve behind it puts up one display size, or all that
  // is left, at the back of the queue; everyone else moves up by one.
  lemma ReloadShows(b: Book, maker: Side, i: nat, qty: Qty)
    requires i < |Own(b, maker)| && Own(b, maker)[i] != []
    requires Own(b, maker)[i][0].hidden > 0 && qty >= Own(b, maker)[i][0].qty
    ensures |Own(FillHead(b, maker, i, qty).book, maker)| == |Own(b, maker)|
    ensures var q, q' := Own(b, maker)[i], Own(FillHead(b, maker, i, qty).book, maker)[i];
            var n := |q|;
            && |q'| == n && (forall j | 0 <= j < n - 1 :: q'[j] == q[j + 1])
            && q'[n - 1].qty == (if q[0].display <= q[0].hidden then q[0].display else q[0].hidden)
            && q'[n - 1].hidden == q[0].hidden - q'[n - 1].qty
            && q'[n - 1].display == q[0].display && q'[n - 1].slot == q[0].slot && q'[n - 1].gen == q[0].gen
  {
  }

  // While lots are hidden, no more than the display size is shown.
  predicate CappedOrder(r: Resting) {
    r.hidden > 0 ==> r.qty <= r.display
  }

  ghost predicate CappedQueue(q: Queue) {
    forall k | 0 <= k < |q| :: CappedOrder(q[k])
  }

  ghost predicate Capped(b: Book) {
    && (forall i | 0 <= i < |b.bids| :: CappedQueue(b.bids[i]))
    && (forall i | 0 <= i < |b.asks| :: CappedQueue(b.asks[i]))
  }

  lemma PutCapped(b: Book, side: Side, i: nat, q: Queue)
    requires Capped(b) && i < |Own(b, side)| && CappedQueue(q)
    ensures Capped(Put(b, side, Own(b, side)[i := q]))
  {
    hide CappedQueue;
  }

  lemma {:induction false} MatchCapped(b: Book, maker: Side, limit: int, qty: Qty)
    requires Capped(b) && qty >= 0
    ensures Capped(Match(b, maker, limit, qty).book)
    decreases qty
  {
    if qty > 0 && Reaches(b, maker, limit) {
      var i: nat := Best(b, maker);
      var q := Own(b, maker)[i];
      PutCapped(b, maker, i, AfterFill(q, Min(q[0].qty, qty)));
      var f := FillHead(b, maker, i, qty);
      MatchCapped(f.book, maker, limit, f.left);
    }
  }

  lemma RestCapped(b: Book, side: Side, i: nat, qty: Qty, hidden: Qty, display: Qty)
    requires Capped(b) && i < |Own(b, side)|
    requires qty > 0 && hidden >= 0 && (hidden > 0 ==> 0 < display && qty <= display)
    ensures Capped(Rest(b, side, i, qty, hidden, display).0)
  {
    if b.free != [] {
      var r: Resting := RestingOrder(b.free[0], GenAt(b.gens, b.free[0]) + 1, qty, hidden, display);
      PutCapped(b, side, i, Own(b, side)[i] + [r]);
    }
  }

  lemma RemoveCapped(b: Book, w: Where)
    requires Capped(b) && Located(b, w)
    ensures Capped(Remove(b, w))
  {
    var q := Own(b, w.side)[w.tick];
    PutCapped(b, w.side, w.tick, q[..w.pos] + q[w.pos + 1..]);
  }

  // A negative reduction can lift the clip of an iceberg above its display size.
  predicate Overshows(b: Book, op: Op) {
    op.ReduceId? && Rests(b, op.id)
    && (var w := Find(b, op.id);
        var r := Own(b, w.side)[w.tick][w.pos];
        op.q < r.qty && r.hidden > 0 && r.qty - op.q > r.display)
  }

  lemma ResizeCapped(b: Book, w: Where, q: Qty)
    requires Capped(b) && Located(b, w) && q < Own(b, w.side)[w.tick][w.pos].qty
    ensures var r := Own(b, w.side)[w.tick][w.pos];
            Capped(Resized(b, w, q)) <==> (r.hidden > 0 ==> r.qty - q <= r.display)
  {
    var c := Own(b, w.side)[w.tick];
    var r := c[w.pos];
    var c' := Replace(c, w.pos, r.(qty := r.qty - q));
    assert c'[w.pos] == r.(qty := r.qty - q);
    if r.hidden > 0 ==> r.qty - q <= r.display {
      PutCapped(b, w.side, w.tick, c');
    } else {
      assert !CappedQueue(c') && Own(Resized(b, w, q), w.side)[w.tick] == c';
    }
  }

  lemma ReduceCapped(b: Book, id: OrderId, q: Qty)
    requires Capped(b)
    ensures Capped(ReduceOrder(b, id, q).0) <==> !Overshows(b, ReduceId(id, q))
  {
    hide Capped, Resized, Remove;
    var w := Find(b, id);
    if w.At? {
      if q < Own(b, w.side)[w.tick][w.pos].qty {
        ResizeCapped(b, w, q);
      } else {
        RemoveCapped(b, w);
      }
    }
  }

  lemma StepCapped(b: Book, op: Op)
    requires Capped(b)
    ensures Capped(Step(b, op)) <==> !Overshows(b, op)
  {
    hide Capped, Match, Reaches, Rest;
    match op
    case Place(side, price, qty, postOnly) =>
      var idx := price - b.base;
      if ValidTick(b, idx) && qty > 0 {
        MatchCapped(b, side.Opposite(), idx, qty);
        var m := Match(b, side.Opposite(), idx, qty);
        if m.left > 0 {
          RestCapped(m.book, side, idx, m.left, 0, 0);
        }
      }
    case Iceberg(side, price, display, total) =>
      var idx := price - b.base;
      if ValidTick(b, idx) && total > 0 && display > 0 {
        MatchCapped(b, side.Opposite(), idx, total);
        var m := Match(b, side.Opposite(), idx, total);
        if m.left > 0 {
          RestCapped(m.book, side, idx, Min(display, m.left), m.left - Min(display, m.left), display);
        }
      }
    case CancelId(id) =>
      if Find(b, id).At? {
        RemoveCapped(b, Find(b, id));
      }
    case ReduceId(id, q) => ReduceCapped(b, id, q);
  }

  // Over every run without a negative reduction, an order with lots hidden shows some, and
  // never more than its display size.
  lemma {:induction false} RunCapped(b: Book, ops: seq<Op>)
    requires Capped(b) && forall i | 0 <= i < |ops| :: ops[i].ReduceId? ==> ops[i].q >= 0
    ensures Capped(Run(b, ops))
    decreases |ops|
  {
    if ops != [] {
      StepCapped(b, ops[0]);
      assert !Overshows(b, ops[0]) by { CappedFind(b, ops[0]); }
      hide Capped, Step, Overshows;
      RunCapped(Step(b, ops[0]), ops[1..]);
    }
  }

  lemma CappedFind(b: Book, op: Op)
    requires Capped(b) && (op.ReduceId? ==> op.q >= 0)
    ensures !Overshows(b, op)
  {
    if op.ReduceId? && Rests(b, op.id) {
      var w := Find(b, op.id);
      assert CappedOrder(Own(b, w.side)[w.tick][w.pos]);
    }
  }

  lemma ClipWithinDisplay(base: Price, ticks: nat, cap: nat, ops: seq<Op>, side: Side, i: nat, k: nat)
    requires forall j | 0 <= j < |ops| :: ops[j].ReduceId? ==> ops[j].q >= 0
    requires var b := Run(EmptyBook(base, ticks, cap), ops); i < |Own(b, side)| && k < |Own(b, side)[i]|
    ensures var r := Own(Run(EmptyBook(base, ticks, cap), ops), side)[i][k];
            r.hidden > 0 ==> 0 < r.qty <= r.display
  {
    RunCapped(EmptyBook(base, ticks, cap), ops);
    var b := Run(EmptyBook(base, ticks, cap), ops);
    assert CappedOrder(Own(b, side)[i][k]);
  }

  // ---- the place of a new order --------------------------------------------------------------------

  lemma {:induction false} MatchOneSide(b: Book, maker: Side, limit: int, qty: Qty)
    requires qty >= 0
    ensures Own(Match(b, maker, limit, qty).book, maker.Opposite()) == Own(b, maker.Opposite())
    decreases qty
  {
    if qty > 0 && Reaches(b, maker, limit) {
      var f := FillHead(b, maker, Best(b, maker), qty);
      MatchOneSide(f.book, maker, limit, f.left);
    }
  }

  // The new order is the last one at this tick, and its own side is otherwise as it was.
  ghost predicate JoinsAt(b: Book, b': Book, side: Side, i: int, id: OrderId) {
    && 0 <= i < |Own(b, side)| == |Own(b', side)|
    && (forall j | 0 <= j < |Own(b, side)| && j != i :: Own(b', side)[j] == Own(b, side)[j])
    && |Own(b', side)[i]| == |Own(b, side)[i]| + 1
    && (forall k | 0 <= k < |Own(b, side)[i]| :: Own(b', side)[i][k] == Own(b, side)[i][k])
    && Find(b', id) == At(side, i, |Own(b, side)[i]|)
  }

  lemma RestJoins(b: Book, side: Side, i: nat, qty: Qty, hidden: Qty, display: Qty)
    requires Sound(b) && i < |Own(b, side)| && !Reaches(b, side.Opposite(), i)
    requires qty > 0 && hidden >= 0 && (hidden > 0 ==> display > 0)
    ensures var (b', id) := Rest(b, side, i, qty, hidden, display);
            if b.free == [] then id == 0 && b' == b
            else
              && id != 0 && id != TAKER_FILLED && JoinsAt(b, b', side, i, id)
              && Own(b', side.Opposite()) == Own(b, side.Opposite())
              && var r := Own(b', side)[i][|Own(b, side)[i]|];
                 r.qty == qty && r.hidden == hidden && r.display == display
  {
    hide Sound, Find, Reaches;
    if b.free != [] {
      RestSound(b, side, i, qty, hidden, display);
      var (b', id) := Rest(b, side, i, qty, hidden, display);
      FindsIt(b', side, i, |Own(b, side)[i]|);
      RestMints(b, side, i, qty, hidden, display);
    }
  }

  // An accepted order that does not fill rests at its own limit price, behind everyone already
  // there, and openly; an order that does not rest leaves its own side as it was.
  lemma OrderPlaced(b: Book, side: Side, price: Price, qty: Qty, postOnly: bool)
    requires Sound(b)
    ensures var p := PlaceOrder(b, side, price, qty, postOnly);
            if p.id == 0 || p.id == TAKER_FILLED then Own(p.book, side) == Own(b, side)
            else
              && JoinsAt(b, p.book, side, price - b.base, p.id)
              && var r := Own(p.book, side)[price - b.base][|Own(b, side)[price - b.base]|];
                 r.qty == qty - Volume(p.trades, Everyone) && r.hidden == 0
  {
    hide Sound, Match, Reaches, Rest, JoinsAt, Volume;
    ZeroChangesNothing(b, side, price, qty, postOnly);
    var idx := price - b.base;
    if PlaceOrder(b, side, price, qty, postOnly).id != 0 {
      var m := Match(b, side.Opposite(), idx, qty);
      MatchOneSide(b, side.Opposite(), idx, qty);
      MatchSound(b, side.Opposite(), idx, qty);
      MatchLots(b, side.Opposite(), idx, qty, Everyone);
      if m.left > 0 {
        RestJoins(m.book, side, idx, m.left, 0, 0);
        JoinsBefore(b, m.book, PlaceOrder(b, side, price, qty, postOnly).book, side, idx,
                    PlaceOrder(b, side, price, qty, postOnly).id);
      }
    }
  }

  // Likewise an iceberg, which remembers its display size and shows no more than that.
  lemma IcebergPlaced(b: Book, side: Side, price: Price, display: Qty, total: Qty)
    requires Sound(b)
    ensures var p := PlaceIceberg(b, side, price, display, total);
            if p.id == 0 || p.id == TAKER_FILLED then Own(p.book, side) == Own(b, side)
            else
              && JoinsAt(b, p.book, side, price - b.base, p.id)
              && var r := Own(p.book, side)[price - b.base][|Own(b, side)[price - b.base]|];
                 var left := total - Volume(p.trades, Everyone);
                 && r.display == display && r.qty == (if display < left then display else left)
                 && r.hidden == left - r.qty
  {
    hide Sound, Match, Reaches, Rest, JoinsAt, Volume;
    ZeroIcebergChangesNothing(b, side, price, display, total);
    var idx := price - b.base;
    if PlaceIceberg(b, side, price, display, total).id != 0 {
      var m := Match(b, side.Opposite(), idx, total);
      MatchOneSide(b, side.Opposite(), idx, total);
      MatchSound(b, side.Opposite(), idx, total);
      MatchLots(b, side.Opposite(), idx, total, Everyone);
      if m.left > 0 {
        RestJoins(m.book, side, idx, Min(display, m.left), m.left - Min(display, m.left), display);
        JoinsBefore(b, m.book, PlaceIceberg(b, side, price, display, total).book, side, idx,
                    PlaceIceberg(b, side, price, display, total).id);
      }
    }
  }

  lemma JoinsBefore(b: Book, b1: Book, b': Book, side: Side, i: int, id: OrderId)
    requires JoinsAt(b1, b', side, i, id) && Own(b1, side) == Own(b, side)
    ensures JoinsAt(b, b', side, i, id) && i < |Own(b, side)| == |Own(b', side)|
    ensures 0 <= i && |Own(b', side)[i]| == |Own(b, side)[i]| + 1
  {
  }

  // ---- how far a taker eats ------------------------------------------------------------------------

  // Tick i is a better price for the taker than tick j.
  predicate Better(maker: Side, i: int, j: int) {
    if maker.Sell? then i < j else i > j
  }

  // Up to some frontier everything was eaten, beyond it nothing was touched; the first trade is
  // at the best price and the last one at the frontier. No trade carries a taker id.
  lemma {:induction false} EatsFromTheBest(b: Book, maker: Side, limit: int, qty: Qty) returns (last: int)
    requires qty >= 0 && |b.bids| == |b.asks|
    ensures var m := Match(b, maker, limit, qty);
            && |Own(m.book, maker)| == |Own(b, maker)|
            && !Better(maker, last, Best(b, maker))
            && (forall i | 0 <= i < |Own(b, maker)| && Better(maker, i, last) :: Own(m.book, maker)[i] == [])
            && (forall i | 0 <= i < |Own(b, maker)| && Better(maker, last, i) ::
                  Own(m.book, maker)[i] == Own(b, maker)[i])
            && (m.trades == [] <==> qty == 0 || !Reaches(b, maker, limit))
            && (m.trades != [] ==>
                  && m.trades[0].price == b.base + Best(b, maker)
                  && m.trades[|m.trades| - 1].price == b.base + last)
            && (forall t | t in m.trades :: t.takerId == 0)
    decreases qty
  {
    last := Best(b, maker);
    if qty > 0 && Reaches(b, maker, limit) {
      var best: nat := Best(b, maker);
      var f := FillHead(b, maker, best, qty);
      var m := Match(f.book, maker, limit, f.left);
      var next := EatsFromTheBest(f.book, maker, limit, f.left);
      BestRecedes(b, maker, best, qty);
      if m.trades != [] {
        last := next;
      } else {
        NothingTraded(f.book, maker, limit, f.left);
      }
    }
  }

  lemma BestRecedes(b: Book, maker: Side, best: nat, qty: Qty)
    requires |b.bids| == |b.asks| && qty > 0 && best == Best(b, maker)
    requires best < |Own(b, maker)| && Own(b, maker)[best] != []
    ensures var b' := FillHead(b, maker, best, qty).book;
            && !Better(maker, Best(b', maker), best)
            && forall i | 0 <= i < |Own(b, maker)| && i != best :: Own(b', maker)[i] == Own(b, maker)[i]
  {
  }

  lemma NothingTraded(b: Book, maker: Side, limit: int, qty: Qty)
    requires qty >= 0 && Match(b, maker, limit, qty).trades == []
    ensures Match(b, maker, limit, qty).book == b
  {
  }

  // Served from the front, up to some order.
  ghost predicate ServedInOrder(q: Queue, q': Queue) {
    exists k :: Served(q, q', k)
  }

  // An order crosses when anyone on the far side rests within its limit.
  lemma ReachesMeans(b: Book, maker: Side, limit: int)
    ensures Reaches(b, maker, limit)
       <==> exists i :: 0 <= i < |Own(b, maker)| && Own(b, maker)[i] != []
                        && if maker.Sell? then i <= limit else limit <= i
  {
    if Reaches(b, maker, limit) {
      assert Own(b, maker)[Best(b, maker)] != [];
    }
  }

  // How far matching went, seen on the far side of the book.
  ghost predicate Eaten(b: Book, b': Book, maker: Side, trades: seq<Trade>, limit: Price, last: int) {
    && |Own(b', maker)| == |Own(b, maker)|
    && (forall i | 0 <= i < |Own(b, maker)| && Better(maker, i, last) :: Own(b', maker)[i] == [])
    && (forall i | 0 <= i < |Own(b, maker)| && Better(maker, last, i) :: Own(b', maker)[i] == Own(b, maker)[i])
    && (forall i | 0 <= i < |Own(b, maker)| :: ServedInOrder(Own(b, maker)[i], Own(b', maker)[i]))
    && Priced(trades, maker, b.base + Best(b, maker), limit)
    && (forall t | t in trades :: MakerRests(b, maker, t) && t.qty > 0 && t.takerId == 0)
    && (if trades == [] then Own(b', maker) == Own(b, maker)
        else trades[0].price == b.base + Best(b, maker) && trades[|trades| - 1].price == b.base + last)
  }

  lemma MatchEats(b: Book, maker: Side, limit: int, qty: Qty) returns (last: int)
    requires qty >= 0 && |b.bids| == |b.asks|
    ensures var m := Match(b, maker, limit, qty);
            Eaten(b, m.book, maker, m.trades, b.base + limit, last)
  {
    hide Served, Priced, Match, Reaches, MakerRests;
    last := EatsFromTheBest(b, maker, limit, qty);
    var m := Match(b, maker, limit, qty);
    PricePriority(b, maker, limit, qty);
    TradesNameMakers(b, maker, limit, qty);
    if m.trades == [] {
      NothingTraded(b, maker, limit, qty);
    }
    forall i | 0 <= i < |Own(b, maker)|
      ensures ServedInOrder(Own(b, maker)[i], Own(m.book, maker)[i])
    {
      var k := TimePriority(b, maker, limit, qty, i);
    }
  }

  lemma EatsThenRests(b: Book, side: Side, i: nat, qty: Qty, visible: Qty, hidden: Qty, display: Qty)
    returns (last: int)
    requires Sound(b) && i < |Own(b, side)| && qty >= 0
    requires visible > 0 && hidden >= 0 && (hidden > 0 ==> display > 0)
    ensures var m := Match(b, side.Opposite(), i, qty);
            && Eaten(b, m.book, side.Opposite(), m.trades, b.base + i, last) && i < |Own(m.book, side)|
            && var b' := Rest(m.book, side, i, visible, hidden, display).0;
               m.left > 0 ==> Eaten(b, b', side.Opposite(), m.trades, b.base + i, last)
                              && !Reaches(b', side.Opposite(), i)
  {
    hide Sound, Match, Rest, Eaten, Reaches;
    SoundSides(b);
    last := MatchEats(b, side.Opposite(), i, qty);
    MatchSound(b, side.Opposite(), i, qty);
    var m := Match(b, side.Opposite(), i, qty);
    if m.left > 0 {
      RestJoins(m.book, side, i, visible, hidden, display);
      var b' := Rest(m.book, side, i, visible, hidden, display).0;
      FarSide(b, m.book, b', side.Opposite(), m.trades, b.base + i, last, i);
    }
  }

  lemma RejectedEats(b: Book, maker: Side, limit: Price) returns (last: int)
    requires Sound(b)
    ensures Eaten(b, b, maker, [], limit, last)
  {
    hide Sound, Match, Eaten;
    SoundSides(b);
    last := MatchEats(b, maker, limit - b.base, 0);
    MatchNothing(b, maker, limit - b.base);
  }

  // An incoming order eats the far side from the best price down to its own limit and no
  // further, each level from the front; if it then rests, nothing is left within its limit.
  lemma TakerEats(b: Book, op: Op) returns (last: int)
    requires Sound(b) && (op.Place? || op.Iceberg?)
    ensures var p := PlacedBy(b, op);
            && Eaten(b, p.book, op.side.Opposite(), p.trades, op.price, last)
            && (p.id != 0 && p.id != TAKER_FILLED ==> !Reaches(p.book, op.side.Opposite(), op.price - b.base))
  {
    hide Sound, Match, Rest, Eaten, Reaches;
    match op
    case Place(side, price, qty, postOnly) =>
      ZeroChangesNothing(b, side, price, qty, postOnly);
      if PlaceOrder(b, side, price, qty, postOnly).id == 0 {
        last := RejectedEats(b, side.Opposite(), price);
      } else {
        var left := Match(b, side.Opposite(), price - b.base, qty).left;
        last := EatsThenRests(b, side, price - b.base, qty, if left > 0 then left else 1, 0, 0);
      }
    case Iceberg(side, price, display, total) =>
      ZeroIcebergChangesNothing(b, side, price, display, total);
      if PlaceIceberg(b, side, price, display, total).id == 0 {
        last := RejectedEats(b, side.Opposite(), price);
      } else {
        var left := Match(b, side.Opposite(), price - b.base, total).left;
        var visible := if left > 0 then Min(display, left) else 1;
        last := EatsThenRests(b, side, price - b.base, total, visible, if left > 0 then left - visible else 0, display);
      }
  }

  lemma MatchNothing(b: Book, maker: Side, limit: int)
    ensures Match(b, maker, limit, 0) == Matched(b, 0, [])
  {
  }

  // Only the maker side counts.
  lemma FarSide(b: Book, b1: Book, b': Book, maker: Side, trades: seq<Trade>, limit: Price, last: int, idx: int)
    requires Eaten(b, b1, maker, trades, limit, last) && Own(b', maker) == Own(b1, maker)
    ensures Eaten(b, b', maker, trades, limit, last)
    ensures Reaches(b', maker, idx) <==> Reaches(b1, maker, idx)
  {
    hide Served, Priced, MakerRests;
  }

  // ---- cancel and reduce ---------------------------------------------------------------------------

  // Everything stands as before but for one queue.
  ghost predicate ElsewhereSame(b: Book, b': Book, w: Where)
    requires Located(b, w)
  {
    && SameShape(b, b') && Own(b', w.side.Opposite()) == Own(b, w.side.Opposite())
    && forall i | 0 <= i < |Own(b, w.side)| && i != w.tick :: Own(b', w.side)[i] == Own(b, w.side)[i]
  }

  // Those ahead keep their places, those behind move up by one, and the slot is the next one
  // to be handed out, under a new generation.
  ghost predicate LeavesQueue(b: Book, b': Book, w: Where)
    requires Located(b, w)
  {
    && ElsewhereSame(b, b', w)
    && (var q, q' := Own(b, w.side)[w.tick], Own(b', w.side)[w.tick];
        && |q'| == |q| - 1
        && (forall j | 0 <= j < w.pos :: q'[j] == q[j])
        && (forall j | w.pos <= j < |q'| :: q'[j] == q[j + 1])
        && |b'.free| == |b.free| + 1 && b'.free[0] == q[w.pos].slot
        && (forall j | 0 <= j < |b.free| :: b'.free[j + 1] == b.free[j])
        && forall s | 0 <= s < |b.gens| :: b'.gens[s] == b.gens[s] + if s == q[w.pos].slot then 1 else 0)
  }

  // The order keeps its place and everything but q of its visible lots.
  ghost predicate LosesVisible(b: Book, b': Book, w: Where, q: Qty)
    requires Located(b, w)
  {
    && ElsewhereSame(b, b', w) && b'.free == b.free && b'.gens == b.gens
    && (var c, c' := Own(b, w.side)[w.tick], Own(b', w.side)[w.tick];
        && |c'| == |c|
        && (forall j | 0 <= j < |c| && j != w.pos :: c'[j] == c[j])
        && c'[w.pos].qty == c[w.pos].qty - q
        && c'[w.pos].hidden == c[w.pos].hidden && c'[w.pos].display == c[w.pos].display
        && c'[w.pos].slot == c[w.pos].slot && c'[w.pos].gen == c[w.pos].gen)
  }

  lemma RemoveExact(b: Book, w: Where)
    requires Located(b, w)
    ensures LeavesQueue(b, Remove(b, w), w)
  {
    var q := Own(b, w.side)[w.tick];
    assert Own(Remove(b, w), w.side)[w.tick] == q[..w.pos] + q[w.pos + 1..];
  }

  lemma ResizeExact(b: Book, w: Where, q: Qty)
    requires Located(b, w) && q < Own(b, w.side)[w.tick][w.pos].qty
    ensures LosesVisible(b, Resized(b, w, q), w, q)
  {
  }

  lemma CancelExact(b: Book, id: OrderId)
    ensures var (b', ok) := CancelOrder(b, id);
            && ok == Rests(b, id)
            && if ok then LeavesQueue(b, b', Find(b, id)) else b' == b
  {
    hide Remove, LeavesQueue;
    if Rests(b, id) {
      RemoveExact(b, Find(b, id));
    }
  }

  // A reduction comes off the clip and answers what it took; one that takes the whole clip
  // takes the order.
  lemma ReduceExact(b: Book, id: OrderId, q: Qty)
    ensures var (b', removed) := ReduceOrder(b, id, q);
            if !Rests(b, id) then b' == b && removed == 0
            else
              var w := Find(b, id);
              var r := Own(b, w.side)[w.tick][w.pos];
              if q < r.qty then LosesVisible(b, b', w, q) && removed == q
              else LeavesQueue(b, b', w) && removed == r.qty
  {
    hide Remove, Resized, LeavesQueue, LosesVisible;
    var w := Find(b, id);
    if w.At? {
      if q < Own(b, w.side)[w.tick][w.pos].qty {
        ResizeExact(b, w, q);
      } else {
        RemoveExact(b, w);
      }
    }
  }
}
