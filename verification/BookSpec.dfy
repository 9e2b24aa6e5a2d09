/**
 The obvious price-time book that the engine has to agree with: two ladders of FIFO queues,
 filled one resting order at a time, with an exhausted iceberg reloaded and moved to the
 back of its queue at once. Slots are handed out from a LIFO stack and every slot carries a
 generation, because engine ids are visible to callers.
 */
module BookSpec {
  import opened Types

  // One resting order. `qty` is the visible clip, `hidden` the iceberg reserve behind it.
  datatype RestingOrder = RestingOrder(slot: nat, gen: nat, qty: Qty, hidden: Qty, display: Qty) {
    function Id(): OrderId {
      MakeId(gen, slot)
    }
  }

  type Resting = r: RestingOrder | r.qty > 0 && r.hidden >= 0 && (r.hidden > 0 ==> r.display > 0)
    witness RestingOrder(0, 0, 1, 0, 0)

  type Queue = seq<Resting>
  type Ladder = seq<Queue>

  datatype Book = Book(base: Price, bids: Ladder, asks: Ladder, free: seq<nat>, gens: seq<nat>)

  function Own(b: Book, side: Side): Ladder {
    if side.Buy? then b.bids else b.asks
  }

  function Put(b: Book, side: Side, l: Ladder): Book {
    if side.Buy? then b.(bids := l) else b.(asks := l)
  }

  function Min(a: int, b: int): int {
    if a < b then a else b
  }

  // ---- best prices ---------------------------------------------------------------------

  function Lowest(l: Ladder): (i: nat)
    ensures i <= |l|
    ensures i < |l| ==> l[i] != []
    ensures forall j | 0 <= j < i :: l[j] == []
  {
    if l == [] || l[0] != [] then 0 else 1 + Lowest(l[1..])
  }

  function Highest(l: Ladder): (i: int)
    ensures -1 <= i < |l|
    ensures 0 <= i ==> l[i] != []
    ensures forall j | i < j < |l| :: l[j] == []
  {
    if l == [] || l[|l| - 1] != [] then |l| - 1 else Highest(l[..|l| - 1])
  }

  function Best(b: Book, side: Side): int {
    if side.Buy? then Highest(b.bids) else Lowest(b.asks)
  }

  // Does the best level of side `maker` lie within the taker's limit?
  predicate Reaches(b: Book, maker: Side, limit: int) {
    if maker.Buy? then 0 <= Highest(b.bids) && limit <= Highest(b.bids)
    else Lowest(b.asks) < |b.asks| && Lowest(b.asks) <= limit
  }

  // ---- matching, one fill at a time -----------------------------------------------------

  function Reload(r: Resting): Resting
    requires r.hidden > 0
  {
    var refill := Min(r.display, r.hidden);
    r.(qty := refill, hidden := r.hidden - refill)
  }

  // The queue after its head gave up `fill` lots.
  function AfterFill(q: Queue, fill: Qty): Queue
    requires q != [] && fill <= q[0].qty
  {
    if fill < q[0].qty then [q[0].(qty := q[0].qty - fill)] + q[1..]
    else if q[0].hidden > 0 then q[1..] + [Reload(q[0])]
    else q[1..]
  }

  function GenAt(gens: seq<nat>, slot: nat): nat {
    if slot < |gens| then gens[slot] else 0
  }

  function Bump(gens: seq<nat>, slot: nat): seq<nat> {
    if slot < |gens| then gens[slot := gens[slot] + 1] else gens
  }

  predicate SameShape(b: Book, b': Book) {
    && b'.base == b.base
    && |b'.bids| == |b.bids| && |b'.asks| == |b.asks| && |b'.gens| == |b.gens|
  }

  // Give a slot back: its generation moves on, so every id minted for it is dead.
  function Retire(b: Book, slot: nat): Book {
    b.(free := [slot] + b.free, gens := Bump(b.gens, slot))
  }

  datatype Filled = Filled(book: Book, left: Qty, trade: Trade)

  function FillHead(b: Book, maker: Side, idx: nat, qty: Qty): (f: Filled)
    requires idx < |Own(b, maker)| && Own(b, maker)[idx] != [] && qty > 0
    ensures 0 <= f.left < qty && SameShape(b, f.book)
  {
    var q := Own(b, maker)[idx];
    var fill := Min(q[0].qty, qty);
    var after := Put(b, maker, Own(b, maker)[idx := AfterFill(q, fill)]);
    Filled(if fill == q[0].qty && q[0].hidden == 0 then Retire(after, q[0].slot) else after,
           qty - fill,
           Trade(q[0].Id(), 0, b.base + idx, fill))
  }

  datatype Matched = Matched(book: Book, left: Qty, trades: seq<Trade>)

  function Match(b: Book, maker: Side, limit: int, qty: Qty): (m: Matched)
    requires qty >= 0
    ensures 0 <= m.left <= qty && SameShape(b, m.book)
    decreases qty
  {
    if qty == 0 || !Reaches(b, maker, limit) then Matched(b, qty, [])
    else
      var f := FillHead(b, maker, Best(b, maker), qty);
      var r := Match(f.book, maker, limit, f.left);
      Matched(r.book, r.left, [f.trade] + r.trades)
  }

  // ---- the four operations --------------------------------------------------------------

  datatype Placed = Placed(book: Book, id: OrderId, trades: seq<Trade>)

  function Rest(b: Book, side: Side, idx: nat, qty: Qty, hidden: Qty, display: Qty): (Book, OrderId)
    requires idx < |Own(b, side)|
    requires qty > 0 && hidden >= 0 && (hidden > 0 ==> display > 0)
  {
    if b.free == [] then (b, 0)
    else
      var slot := b.free[0];
      var r: Resting := RestingOrder(slot, GenAt(b.gens, slot) + 1, qty, hidden, display);
      var l := Own(b, side);
      (Put(b, side, l[idx := l[idx] + [r]]).(free := b.free[1..], gens := Bump(b.gens, slot)), r.Id())
  }

  predicate ValidTick(b: Book, idx: int) {
    0 <= idx < |b.bids| && idx < |b.asks|
  }

  function PlaceOrder(b: Book, side: Side, price: Price, qty: Qty, postOnly: bool): Placed {
    var idx := price - b.base;
    if !ValidTick(b, idx) || qty <= 0 then Placed(b, 0, [])
    else if postOnly && Reaches(b, side.Opposite(), idx) then Placed(b, 0, [])
    else
      var m := Match(b, side.Opposite(), idx, qty);
      if m.left == 0 then Placed(m.book, TAKER_FILLED, m.trades)
      else
        var (book, id) := Rest(m.book, side, idx, m.left, 0, 0);
        Placed(book, id, m.trades)
  }

  function PlaceIceberg(b: Book, side: Side, price: Price, display: Qty, total: Qty): Placed {
    var idx := price - b.base;
    if !ValidTick(b, idx) || total <= 0 || display <= 0 then Placed(b, 0, [])
    else
      var m := Match(b, side.Opposite(), idx, total);
      if m.left == 0 then Placed(m.book, TAKER_FILLED, m.trades)
      else
        var visible := Min(display, m.left);
        var (book, id) := Rest(m.book, side, idx, visible, m.left - visible, display);
        Placed(book, id, m.trades)
  }

  function PosOf(q: Queue, id: OrderId): (k: nat)
    ensures k <= |q|
    ensures k < |q| ==> q[k].Id() == id
    ensures forall j | 0 <= j < k :: q[j].Id() != id
  {
    if q == [] || q[0].Id() == id then 0 else 1 + PosOf(q[1..], id)
  }

  function LevelOf(l: Ladder, id: OrderId): (i: nat)
    ensures i <= |l|
    ensures i < |l| ==> PosOf(l[i], id) < |l[i]|
    ensures forall j | 0 <= j < i :: PosOf(l[j], id) == |l[j]|
  {
    if l == [] || PosOf(l[0], id) < |l[0]| then 0 else 1 + LevelOf(l[1..], id)
  }

  datatype Where = Nowhere | At(side: Side, tick: nat, pos: nat)

  predicate Located(b: Book, w: Where) {
    w.At? && w.tick < |Own(b, w.side)| && w.pos < |Own(b, w.side)[w.tick]|
  }

  // Search both ladders for the order that carries `id`.
  function Find(b: Book, id: OrderId): (w: Where)
    ensures w.At? ==> Located(b, w) && Own(b, w.side)[w.tick][w.pos].Id() == id
  {
    var i := LevelOf(b.bids, id);
    if i < |b.bids| then At(Buy, i, PosOf(b.bids[i], id))
    else
      var j := LevelOf(b.asks, id);
      if j < |b.asks| then At(Sell, j, PosOf(b.asks[j], id)) else Nowhere
  }

  predicate Rests(b: Book, id: OrderId) {
    Find(b, id).At?
  }

  function Replace(q: Queue, k: nat, r: Resting): Queue
    requires k < |q|
  {
    q[k := r]
  }

  function Remove(b: Book, w: Where): Book
    requires Located(b, w)
  {
    var l := Own(b, w.side);
    var q := l[w.tick];
    Retire(Put(b, w.side, l[w.tick := q[..w.pos] + q[w.pos + 1..]]), q[w.pos].slot)
  }

  // The order at w loses q visible lots and keeps its place.
  function Resized(b: Book, w: Where, q: Qty): Book
    requires Located(b, w) && q < Own(b, w.side)[w.tick][w.pos].qty
  {
    var l := Own(b, w.side);
    var r := l[w.tick][w.pos];
    Put(b, w.side, l[w.tick := Replace(l[w.tick], w.pos, r.(qty := r.qty - q))])
  }

  function CancelOrder(b: Book, id: OrderId): (Book, bool) {
    var w := Find(b, id);
    if w.Nowhere? then (b, false) else (Remove(b, w), true)
  }

  function ReduceOrder(b: Book, id: OrderId, q: Qty): (Book, Qty) {
    var w := Find(b, id);
    if w.Nowhere? then (b, 0)
    else
      var r := Own(b, w.side)[w.tick][w.pos];
      if q < r.qty then (Resized(b, w, q), q) else (Remove(b, w), r.qty)
  }

  // ---- a run of operations --------------------------------------------------------------

  datatype Op =
    | Place(side: Side, price: Price, qty: Qty, postOnly: bool)
    | Iceberg(side: Side, price: Price, display: Qty, total: Qty)
    | CancelId(id: OrderId)
    | ReduceId(id: OrderId, q: Qty)

  function Step(b: Book, op: Op): Book {
    match op
    case Place(side, price, qty, postOnly) => PlaceOrder(b, side, price, qty, postOnly).book
    case Iceberg(side, price, display, total) => PlaceIceberg(b, side, price, display, total).book
    case CancelId(id) => CancelOrder(b, id).0
    case ReduceId(id, q) => ReduceOrder(b, id, q).0
  }

  function Run(b: Book, ops: seq<Op>): Book
    decreases |ops|
  {
    if ops == [] then b else Run(Step(b, ops[0]), ops[1..])
  }

  function UpTo(n: nat): (s: seq<nat>)
    ensures |s| == n && forall k | 0 <= k < n :: s[k] == k
  {
    seq(n, k => k)
  }

  function EmptyBook(base: Price, ticks: nat, cap: nat): Book {
    Book(base, seq(ticks, i => []), seq(ticks, i => []), UpTo(cap), seq(cap, i => 0))
  }
}
