/** What the book promises over every run: priority, conservation, rejection, and the life of ids. */
module BookTheorems {
  import opened Types
  import opened BookSpec
  import opened BookInvariant
  import opened BookIds

  // ---- never crossed -------------------------------------------------------------------------

  lemma NeverCrossed(base: Price, ticks: nat, cap: nat, ops: seq<Op>)
    requires cap < 0xFFFF_FFFF
    ensures var b := Run(EmptyBook(base, ticks, cap), ops);
            && |b.bids| == |b.asks| == ticks
            && forall i, j | 0 <= i < ticks && 0 <= j < ticks && b.bids[i] != [] && b.asks[j] != [] :: i < j
  {
    EmptySound(base, ticks, cap);
    RunSound(EmptyBook(base, ticks, cap), ops);
  }

  // ---- price priority --------------------------------------------------------------------------

  // Price p is at least as good for the taker as p'.
  predicate NoWorse(maker: Side, p: Price, p': Price) {
    if maker == Sell then p <= p' else p >= p'
  }

  // Trades that start no better than `from`, get no better, and stay within the limit.
  ghost predicate Priced(t: seq<Trade>, maker: Side, from: Price, limit: Price) {
    && (forall k | 0 <= k < |t| :: NoWorse(maker, t[k].price, limit) && NoWorse(maker, from, t[k].price))
    && (forall j, k | 0 <= j < k < |t| :: NoWorse(maker, t[j].price, t[k].price))
  }

  lemma PricedCons(trade: Trade, t: seq<Trade>, maker: Side, from: Price, limit: Price)
    requires t == [] || (Priced(t, maker, from, limit) && NoWorse(maker, trade.price, from))
    requires NoWorse(maker, trade.price, limit)
    ensures Priced([trade] + t, maker, trade.price, limit)
  {
    var t' := [trade] + t;
    forall k | 0 <= k < |t'|
      ensures NoWorse(maker, t'[k].price, limit) && NoWorse(maker, trade.price, t'[k].price)
    {
      if k > 0 {
        assert NoWorse(maker, t[k - 1].price, limit) && NoWorse(maker, from, t[k - 1].price);
      }
    }
    forall j, k | 0 <= j < k < |t'|
      ensures NoWorse(maker, t'[j].price, t'[k].price)
    {
      if j > 0 {
        assert NoWorse(maker, t[j - 1].price, t[k - 1].price);
      }
    }
  }

  lemma BestGetsWorse(b: Book, maker: Side, limit: int, qty: Qty)
    requires qty > 0 && Reaches(b, maker, limit)
    ensures var f := FillHead(b, maker, Best(b, maker), qty);
            Reaches(f.book, maker, limit) ==> NoWorse(maker, Best(b, maker), Best(f.book, maker))
  {
    var i := Best(b, maker);
    var b' := FillHead(b, maker, i, qty).book;
    assert forall j | 0 <= j < |Own(b, maker)| && j != i :: Own(b', maker)[j] == Own(b, maker)[j];
  }

  // Trades happen best price first and never beyond the limit.
  lemma {:induction false} PricePriority(b: Book, maker: Side, limit: int, qty: Qty)
    requires qty >= 0
    ensures Priced(Match(b, maker, limit, qty).trades, maker, b.base + Best(b, maker), b.base + limit)
    decreases qty
  {
    if qty > 0 && Reaches(b, maker, limit) {
      BestGetsWorse(b, maker, limit, qty);
      var f := FillHead(b, maker, Best(b, maker), qty);
      PricePriority(f.book, maker, limit, f.left);
      PricedCons(f.trade, Match(f.book, maker, limit, f.left).trades, maker,
                 b.base + Best(f.book, maker), b.base + limit);
    }
  }

  // ---- 0 means nothing happened --------------------------------------------------------------------

  // A remainder left after a trade implies that a slot was freed.
  lemma {:induction false} LeftoverFreesSlot(b: Book, maker: Side, limit: int, qty: Qty)
    requires qty >= 0
    ensures var m := Match(b, maker, limit, qty);
            && |m.book.free| >= |b.free|
            && (Reaches(b, maker, limit) && m.left > 0 ==> m.book.free != [])
    decreases qty
  {
    if qty > 0 && Reaches(b, maker, limit) {
      var i := Best(b, maker);
      var f := FillHead(b, maker, i, qty);
      LeftoverFreesSlot(f.book, maker, limit, f.left);
      if f.book.free == b.free && f.left > 0 {
        assert Own(f.book, maker)[i] != [];
        assert Reaches(f.book, maker, limit);
      }
    }
  }

  // Exactly these orders are rejected, and a rejected order leaves book and trade log alone; a
  // post-only order never trades.
  lemma ZeroChangesNothing(b: Book, side: Side, price: Price, qty: Qty, postOnly: bool)
    requires Sound(b)
    ensures var p := PlaceOrder(b, side, price, qty, postOnly);
            var idx := price - b.base;
            && (p.id == 0 ==> p.book == b && p.trades == [])
            && (p.id == 0 <==> || !(0 <= idx < |b.bids|) || qty <= 0
                               || (Reaches(b, side.Opposite(), idx) && postOnly)
                               || (!Reaches(b, side.Opposite(), idx) && b.free == []))
    ensures postOnly ==> PlaceOrder(b, side, price, qty, postOnly).trades == []
  {
    hide Sound, FillHead, Lowest, Highest;
    SoundSides(b);
    var idx := price - b.base;
    if ValidTick(b, idx) && qty > 0 {
      LeftoverFreesSlot(b, side.Opposite(), idx, qty);
    }
  }

  lemma ZeroIcebergChangesNothing(b: Book, side: Side, price: Price, display: Qty, total: Qty)
    requires Sound(b)
    ensures var p := PlaceIceberg(b, side, price, display, total);
            var idx := price - b.base;
            && (p.id == 0 ==> p.book == b && p.trades == [])
            && (p.id == 0 <==> || !(0 <= idx < |b.bids|) || total <= 0 || display <= 0
                               || (!Reaches(b, side.Opposite(), idx) && b.free == []))
  {
    hide Sound, FillHead, Lowest, Highest;
    SoundSides(b);
    var idx := price - b.base;
    if ValidTick(b, idx) && total > 0 && display > 0 {
      LeftoverFreesSlot(b, side.Opposite(), idx, total);
    }
  }

  // ---- the life of an id -----------------------------------------------------------------------------

  // Generations only move forward.
  predicate Grown(g: seq<nat>, g': seq<nat>) {
    |g'| == |g| && forall s | 0 <= s < |g| :: g[s] <= g'[s]
  }

  lemma {:induction false} MatchGrows(b: Book, maker: Side, limit: int, qty: Qty)
    requires qty >= 0
    ensures Grown(b.gens, Match(b, maker, limit, qty).book.gens)
    decreases qty
  {
    if qty > 0 && Reaches(b, maker, limit) {
      var f := FillHead(b, maker, Best(b, maker), qty);
      MatchGrows(f.book, maker, limit, f.left);
    }
  }

  lemma RestGrows(b: Book, side: Side, i: nat, qty: Qty, hidden: Qty, display: Qty)
    requires i < |Own(b, side)| && qty > 0 && hidden >= 0 && (hidden > 0 ==> display > 0)
    ensures Grown(b.gens, Rest(b, side, i, qty, hidden, display).0.gens)
  {
  }

  lemma RemoveGrows(b: Book, w: Where)
    requires Located(b, w)
    ensures Grown(b.gens, Remove(b, w).gens)
  {
  }

  lemma StepGrows(b: Book, op: Op)
    ensures Grown(b.gens, Step(b, op).gens)
  {
    hide Match, Rest, Remove, Reaches;
    match op
    case Place(side, price, qty, postOnly) =>
      var idx := price - b.base;
      if ValidTick(b, idx) && qty > 0 {
        var m := Match(b, side.Opposite(), idx, qty);
        MatchGrows(b, side.Opposite(), idx, qty);
        if m.left > 0 {
          RestGrows(m.book, side, idx, m.left, 0, 0);
        }
      }
    case Iceberg(side, price, display, total) =>
      var idx := price - b.base;
      if ValidTick(b, idx) && total > 0 && display > 0 {
        var m := Match(b, side.Opposite(), idx, total);
        MatchGrows(b, side.Opposite(), idx, total);
        if m.left > 0 {
          var visible := Min(display, m.left);
          RestGrows(m.book, side, idx, visible, m.left - visible, display);
        }
      }
    case CancelId(id) =>
      if Find(b, id).At? {
        RemoveGrows(b, Find(b, id));
      }
    case ReduceId(id, q) =>
      if Find(b, id).At? {
        RemoveGrows(b, Find(b, id));
      }
  }

  lemma {:induction false} RunGrows(b: Book, ops: seq<Op>)
    ensures Grown(b.gens, Run(b, ops).gens)
    decreases |ops|
  {
    if ops != [] {
      StepGrows(b, ops[0]);
      RunGrows(Step(b, ops[0]), ops[1..]);
    }
  }

  // The id that an operation mints, if it rests an order.
  function Minted(b: Book, op: Op): seq<OrderId> {
    var id := match op
      case Place(side, price, qty, postOnly) => PlaceOrder(b, side, price, qty, postOnly).id
      case Iceberg(side, price, display, total) => PlaceIceberg(b, side, price, display, total).id
      case _ => 0;
    if id == 0 || id == TAKER_FILLED then [] else [id]
  }

  function Issued(b: Book, ops: seq<Op>): seq<OrderId>
    decreases |ops|
  {
    if ops == [] then [] else Minted(b, ops[0]) + Issued(Step(b, ops[0]), ops[1..])
  }

  // The id was minted no later than now.
  predicate Known(b: Book, id: OrderId) {
    SlotOf(id) < |b.gens| && GenOf(id) % 2 == 1 && GenOf(id) <= b.gens[SlotOf(id)]
  }

  lemma RestMints(b: Book, side: Side, i: nat, qty: Qty, hidden: Qty, display: Qty)
    requires Sound(b) && i < |Own(b, side)| && b.free != []
    requires qty > 0 && hidden >= 0 && (hidden > 0 ==> display > 0)
    requires !Reaches(b, side.Opposite(), i)
    ensures var (b', id) := Rest(b, side, i, qty, hidden, display);
            && Known(b', id) && Rests(b', id) && !Known(b, id) && id != 0 && id != TAKER_FILLED
  {
    var (b': Book, id: OrderId) := Rest(b, side, i, qty, hidden, display);
    RestSound(b, side, i, qty, hidden, display);
    var l: Ladder := Own(b', side);
    assert l[i][|l[i]| - 1].Id() == id;
    RestingId(b', side, i, |l[i]| - 1);
    FindsIt(b', side, i, |l[i]| - 1);
    assert GenAt(b.gens, b.free[0]) + 1 == GenOf(id);
    assert TAKER_FILLED % 0x1_0000_0000 == 0xFFFF_FFFF;
  }

  // A freshly minted id rests, is new, and names no sentinel.
  lemma StepMints(b: Book, op: Op, id: OrderId)
    requires Sound(b) && id in Minted(b, op)
    ensures Known(Step(b, op), id) && Rests(Step(b, op), id) && !Known(b, id)
  {
    hide Sound, Match, Reaches, Find;
    match op
    case Place(side, price, qty, postOnly) =>
      var idx := price - b.base;
      var m := Match(b, side.Opposite(), idx, qty);
      MatchSound(b, side.Opposite(), idx, qty);
      MatchGrows(b, side.Opposite(), idx, qty);
      RestMints(m.book, side, idx, m.left, 0, 0);
    case Iceberg(side, price, display, total) =>
      var idx := price - b.base;
      var m := Match(b, side.Opposite(), idx, total);
      MatchSound(b, side.Opposite(), idx, total);
      MatchGrows(b, side.Opposite(), idx, total);
      var visible := Min(display, m.left);
      RestMints(m.book, side, idx, visible, m.left - visible, display);
  }

  lemma MintsAtMostOne(b: Book, op: Op)
    ensures |Minted(b, op)| <= 1
  {
  }

  // Between b and b', these ids were minted, each once, and the compare at b' decides them.
  ghost predicate Decided(b: Book, b': Book, ids: seq<OrderId>) {
    && (forall j, k | 0 <= j < k < |ids| :: ids[j] != ids[k])
    && (forall k | 0 <= k < |ids| :: !Known(b, ids[k]) && Known(b', ids[k]))
    && (forall k | 0 <= k < |ids| :: Rests(b', ids[k]) <==> PassesCheck(b', ids[k]))
  }

  lemma DecidedCons(b: Book, b1: Book, b': Book, id: OrderId, ids: seq<OrderId>)
    requires Decided(b1, b', ids) && Grown(b.gens, b1.gens)
    requires !Known(b, id) && Known(b1, id) && Known(b', id) && (Rests(b', id) <==> PassesCheck(b', id))
    ensures Decided(b, b', [id] + ids)
  {
    hide Known, Rests, PassesCheck;
    var all := [id] + ids;
    forall k | 0 <= k < |all|
      ensures !Known(b, all[k]) && Known(b', all[k]) && (Rests(b', all[k]) <==> PassesCheck(b', all[k]))
    {
      if k > 0 && Known(b, ids[k - 1]) {
        KnownGrows(b, b1, ids[k - 1]);
      }
    }
    forall j, k | 0 <= j < k < |all|
      ensures all[j] != all[k]
    {
      assert all[k] == ids[k - 1] && !Known(b1, ids[k - 1]);
    }
  }

  lemma DecidedEarlier(b: Book, b1: Book, b': Book, ids: seq<OrderId>)
    requires Decided(b1, b', ids) && Grown(b.gens, b1.gens)
    ensures Decided(b, b', ids)
  {
    forall k | 0 <= k < |ids|
      ensures !Known(b, ids[k])
    {
      if Known(b, ids[k]) {
        KnownGrows(b, b1, ids[k]);
      }
    }
  }

  // Over every run from a sound book: no id is issued twice or anew, and every issued id is
  // decided exactly by the generation compare.
  lemma {:induction false} IssuedIds(b: Book, ops: seq<Op>)
    requires Sound(b)
    ensures Decided(b, Run(b, ops), Issued(b, ops))
    decreases |ops|
  {
    hide Sound, Find, Step, Minted, Decided, Known, Grown, PassesCheck, Rests;
    if ops == [] {
      assert Decided(b, Run(b, ops), Issued(b, ops)) by { DecidedNothing(b, b); }
    } else {
      var b1, first, later := Step(b, ops[0]), Minted(b, ops[0]), Issued(Step(b, ops[0]), ops[1..]);
      StepSound(b, ops[0]);
      StepGrows(b, ops[0]);
      IssuedIds(b1, ops[1..]);
      MintsAtMostOne(b, ops[0]);
      if first == [] {
        DecidedEarlier(b, b1, Run(b, ops), later);
        assert first + later == later;
      } else {
        StepMints(b, ops[0], first[0]);
        RunGrows(b1, ops[1..]);
        RunSound(b1, ops[1..]);
        KnownGrows(b1, Run(b, ops), first[0]);
        KnownIsGenuine(Run(b, ops), first[0]);
        DecidedCons(b, b1, Run(b, ops), first[0], later);
        assert first == [first[0]];
      }
    }
  }

  lemma DecidedNothing(b: Book, b': Book)
    ensures Decided(b, b', [])
  {
  }

  lemma KnownGrows(b: Book, b': Book, id: OrderId)
    requires Grown(b.gens, b'.gens) && Known(b, id)
    ensures Known(b', id)
  {
  }

  lemma KnownIsGenuine(b: Book, id: OrderId)
    requires Sound(b) && Known(b, id)
    ensures Rests(b, id) <==> PassesCheck(b, id)
  {
    CheckExact(b, id);
  }

  // Once an issued id no longer rests, it never rests again.
  lemma DeadStaysDead(b: Book, ops: seq<Op>, id: OrderId)
    requires Sound(b) && Known(b, id) && !Rests(b, id)
    ensures !Rests(Run(b, ops), id)
  {
    CheckExact(b, id);
    RunSound(b, ops);
    RunGrows(b, ops);
    CheckExact(Run(b, ops), id);
  }

  // No two resting orders share an id, wherever they rest.
  lemma LiveIdsDiffer(b: Book, side: Side, i: nat, k: nat, side': Side, i': nat, k': nat)
    requires Sound(b)
    requires i < |Own(b, side)| && k < |Own(b, side)[i]|
    requires i' < |Own(b, side')| && k' < |Own(b, side')[i']|
    requires Own(b, side)[i][k].Id() == Own(b, side')[i'][k'].Id()
    ensures side == side' && i == i' && k == k'
  {
    FindsIt(b, side, i, k);
    FindsIt(b, side', i', k');
  }

  // An iceberg whose clip is exhausted keeps its id: it goes on resting at the back.
  lemma ReloadKeepsId(b: Book, maker: Side, i: nat, qty: Qty)
    requires Sound(b) && i < |Own(b, maker)| && Own(b, maker)[i] != []
    requires Own(b, maker)[i][0].hidden > 0 && qty >= Own(b, maker)[i][0].qty
    ensures var q, b' := Own(b, maker)[i], FillHead(b, maker, i, qty).book;
            Find(b', q[0].Id()) == At(maker, i, |q| - 1)
  {
    FillHeadSound(b, maker, i, qty);
    var q, b' := Own(b, maker)[i], FillHead(b, maker, i, qty).book;
    assert Own(b', maker)[i][|q| - 1].Id() == q[0].Id();
    FindsIt(b', maker, i, |q| - 1);
  }
}
