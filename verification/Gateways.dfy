/** The gateways in place: each drives an engine and a reference table, as its value form says. */
module Gateways {
  import opened Types
  import opened BookSpec
  import opened BookInvariant
  import opened BookIds
  import opened OrderBooks
  import opened ProbeTable
  import opened FlatHash
  import opened GatewaySpec
  import opened GatewayEquiv

  ghost predicate AllGood(b: Book, refs: seq<OrderId>) {
    forall r | 0 <= r < |refs| :: GoodRef(b, refs[r])
  }

  lemma AllGoodStep(b: Book, op: Op, refs: seq<OrderId>)
    requires Sound(b) && AllGood(b, refs)
    ensures AllGood(Step(b, op), refs)
  {
    hide Sound, GoodRef, Step;
    forall r | 0 <= r < |refs|
      ensures GoodRef(Step(b, op), refs[r])
    {
      RefsSurvive(b, op, refs[r]);
    }
  }

  // The next message keeps every stored reference good.
  lemma AllGoodDense(g: Dense, m: Message)
    requires Sound(g.book) && AllGood(g.book, g.refs) && m.id < |g.refs|
    ensures AllGood(ApplyDense(g, m).book, ApplyDense(g, m).refs)
  {
    hide Sound, GoodRef, PlaceOrder, ReduceOrder, CancelOrder;
    AllGoodStep(g.book, OpOf(m, g.refs[m.id]), g.refs);
    if m.kind == MsgNewOrder {
      PlacedIsGood(g.book, m.side, m.price, m.qty);
    }
  }

  lemma GoodReference(b: Book, refs: seq<OrderId>, r: nat)
    requires Sound(b) && AllGood(b, refs) && r < |refs|
    ensures Genuine(b, refs[r])
  {
    GoodIsGenuine(b, refs[r]);
  }

  class DenseGateway {
    const book: OrderBook
    const refs: array<OrderId>
    var trades: nat
    var tradedLots: int

    ghost predicate Valid()
      reads this, refs, book.Footprint()
    {
      && book.Valid()
      && this !in book.Footprint() && refs !in book.Footprint()
      && AllGood(book.model, refs[..])
    }

    ghost function State(): Dense
      reads this, refs, book
    {
      Dense(book.model, refs[..], trades, tradedLots)
    }

    constructor (base: Price, numTicks: nat, poolCap: nat, maxRef: nat)
      requires numTicks % 64 == 0 && 0 < numTicks <= 0x4_0000 && poolCap < 0xFFFF_FFFF
      ensures Valid() && fresh(refs) && fresh(book.Footprint())
      ensures State() == Dense(EmptyBook(base, numTicks, poolCap), seq(maxRef + 1, i => 0), 0, 0)
    {
      hide Sound, OrderBook.Valid, FlatHashMap.Valid;
      book := new OrderBook(base, numTicks, poolCap);
      refs := new OrderId[maxRef + 1](_ => 0);
      trades, tradedLots := 0, 0;
      new;
      assert refs[..] == seq(maxRef + 1, i => 0);
    }

    method Apply(m: Message)
      requires Valid() && m.id < refs.Length
      modifies this, refs, book.Footprint()
      ensures Valid() && State() == ApplyDense(old(State()), m)
    {
      hide Sound, GoodRef, AllGood, PlaceOrder, ReduceOrder, CancelOrder, OrderBook.Valid;
      SoundModel(book);
      ghost var start := State();
      AllGoodDense(start, m);
      GoodReference(book.model, refs[..], m.id);
      match m.kind {
        case MsgNewOrder =>
          var eng, _ := book.NewOrder(m.side, m.price, m.qty, false);
          refs[m.id] := eng;
          assert refs[..] == start.refs[m.id := eng];
        case MsgExecute =>
          var filled := book.Reduce(refs[m.id], m.qty);
          trades := trades + if filled > 0 then 1 else 0;
          tradedLots := tradedLots + filled;
        case MsgReduce =>
          var _ := book.Reduce(refs[m.id], m.qty);
        case MsgCancel =>
          var _ := book.Cancel(refs[m.id]);
      }
    }
  }

  lemma SoundModel(book: OrderBook)
    requires book.Valid()
    ensures Sound(book.model)
  {
  }

  class HashGateway {
    const book: OrderBook
    const refs: FlatHashMap
    var trades: nat
    var tradedLots: int

    ghost predicate Valid()
      reads this, refs, refs.slots, book.Footprint()
    {
      && book.Valid() && refs.Valid()
      && this !in book.Footprint()
      && AllGood(book.model, Values(refs.order))
    }

    ghost function State(): Sparse
      reads this, refs, book
    {
      Sparse(book.model, refs.order, trades, tradedLots)
    }

    constructor (base: Price, numTicks: nat, poolCap: nat, log2: nat)
      requires numTicks % 64 == 0 && 0 < numTicks <= 0x4_0000 && poolCap < 0xFFFF_FFFF && 2 <= log2 < 64
      ensures Valid() && fresh(refs) && fresh(refs.slots) && fresh(book.Footprint())
      ensures State() == Sparse(EmptyBook(base, numTicks, poolCap), [], 0, 0)
    {
      hide Sound, OrderBook.Valid, FlatHashMap.Valid;
      book := new OrderBook(base, numTicks, poolCap);
      refs := new FlatHashMap(log2, 50);
      trades, tradedLots := 0, 0;
    }

    method Apply(m: Message)
      requires Valid() && 0 < m.id < TWO64
      modifies this, refs, refs.slots, book.Footprint()
      ensures Valid() && State() == ApplySparse(old(State()), refs.LoadCap(), m)
    {
      hide Sound, GoodRef, AllGood, PlaceOrder, ReduceOrder, CancelOrder;
      hide Inserted, Erased, Lookup, Scattered, SameTable, Vacated, Clean, Build, OrderBook.Valid, FlatHashMap.Valid;
      SoundModel(book);
      ghost var start := State();
      var key := Scattered(m.id);
      ScatterNonZero(m.id);
      LookupGood(book.model, refs.order, key);
      AllGoodSparse(start, refs.LoadCap(), m);
      match m.kind {
        case MsgNewOrder =>
          var eng, _ := book.NewOrder(m.side, m.price, m.qty, false);
          var _ := refs.Insert(key, eng);
        case MsgExecute =>
          var id := refs.Find(key);
          var filled := book.Reduce(id, m.qty);
          trades := trades + if filled > 0 then 1 else 0;
          tradedLots := tradedLots + filled;
        case MsgReduce =>
          var id := refs.Find(key);
          var _ := book.Reduce(id, m.qty);
        case MsgCancel =>
          var id := refs.Find(key);
          var _ := book.Cancel(id);
          var _, _ := refs.Erase(key);
      }
    }
  }

  function Values(order: seq<Entry>): (s: seq<OrderId>)
    ensures |s| == |order| && forall i | 0 <= i < |order| :: s[i] == order[i].val
  {
    seq(|order|, i requires 0 <= i < |order| => order[i].val)
  }

  lemma LookupGood(b: Book, order: seq<Entry>, key: nat)
    requires Sound(b) && AllGood(b, Values(order))
    ensures GoodRef(b, Lookup(order, key)) && Genuine(b, Lookup(order, key))
  {
    if Has(order, key) {
      assert Values(order)[Index(order, key)] == Lookup(order, key);
    }
    GoodIsGenuine(b, Lookup(order, key));
  }

  lemma AllGoodSparse(g: Sparse, cap: nat, m: Message)
    requires Sound(g.book) && AllGood(g.book, Values(g.refs))
    ensures AllGood(ApplySparse(g, cap, m).book, Values(ApplySparse(g, cap, m).refs))
  {
    hide Sound, GoodRef, PlaceOrder, ReduceOrder, CancelOrder, Scattered;
    var g' := ApplySparse(g, cap, m);
    AllGoodStep(g.book, OpOf(m, Lookup(g.refs, Scattered(m.id))), Values(g.refs));
    PlacedIsGood(g.book, m.side, m.price, m.qty);
    forall i | 0 <= i < |g'.refs|
      ensures GoodRef(g'.book, Values(g'.refs)[i])
    {
      if m.kind == MsgCancel && Has(g.refs, Scattered(m.id)) {
        var r := Index(g.refs, Scattered(m.id));
        assert g'.refs[i] == g.refs[if i < r then i else i + 1];
        assert GoodRef(g'.book, Values(g.refs)[if i < r then i else i + 1]);
      } else if i < |g.refs| {
        assert GoodRef(g'.book, Values(g.refs)[i]);
      }
    }
  }
}
