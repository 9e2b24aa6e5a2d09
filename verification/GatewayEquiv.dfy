/**
 The sparse gateway is indistinguishable from the dense one: an id the book retired is
 refused by its generation, which looks to the caller exactly like an erased reference.
 */
module GatewayEquiv {
  import opened Types
  import opened BookSpec
  import opened BookInvariant
  import opened BookIds
  import opened BookTheorems
  import opened BookLots
  import opened ProbeTable
  import opened FlatHash
  import opened GatewaySpec

  // What a reference table may hold: a sentinel, or an id the book has minted.
  predicate GoodRef(b: Book, id: OrderId) {
    id == 0 || id == TAKER_FILLED || Known(b, id)
  }

  predicate Inert(b: Book, id: OrderId) {
    GoodRef(b, id) && !Rests(b, id)
  }

  // A good reference is safe to hand to cancel and reduce.
  lemma GoodIsGenuine(b: Book, id: OrderId)
    requires Sound(b) && GoodRef(b, id)
    ensures Genuine(b, id)
  {
  }

  lemma RefsSurvive(b: Book, op: Op, id: OrderId)
    requires Sound(b) && GoodRef(b, id)
    ensures GoodRef(Step(b, op), id)
    ensures Inert(b, id) ==> Inert(Step(b, op), id)
  {
    hide Sound, Known, Grown, Rests, Step;
    StepGrows(b, op);
    StepSound(b, op);
    SentinelsNeverRest(Step(b, op));
    if Known(b, id) {
      KnownGrows(b, Step(b, op), id);
      if !Rests(b, id) {
        DeadStaysDead(b, [op], id);
        OneStep(b, op);
      }
    }
  }

  lemma OneStep(b: Book, op: Op)
    ensures Run(b, [op]) == Step(b, op)
  {
    hide Step;
    assert [op][1..] == [];
  }

  // The id a new order returns may be stored as a reference.
  lemma PlacedIsGood(b: Book, side: Side, price: Price, qty: Qty)
    requires Sound(b)
    ensures var p := PlaceOrder(b, side, price, qty, false); GoodRef(p.book, p.id)
  {
    hide Sound, Known, PlaceOrder;
    var op, p := Place(side, price, qty, false), PlaceOrder(b, side, price, qty, false);
    if p.id != 0 && p.id != TAKER_FILLED {
      StepMints(b, op, p.id);
    }
  }

  // One reference, as the two tables see it: the same id, or two ids neither of which rests.
  ghost predicate SameRef(b: Book, denseId: OrderId, sparseId: OrderId) {
    && GoodRef(b, denseId) && GoodRef(b, sparseId)
    && (sparseId == denseId || (Inert(b, denseId) && Inert(b, sparseId)))
  }

  ghost predicate Agree(d: Dense, s: Sparse) {
    && d.book == s.book && d.trades == s.trades && d.lots == s.lots
    && Sound(d.book) && DistinctKeys(s.refs) && |d.refs| <= TWO64
    && forall r | 1 <= r < |d.refs| :: SameRef(d.book, d.refs[r], Lookup(s.refs, Scattered(r)))
  }

  // Through either table a cancel or reduce does the same to the book and answers the same.
  lemma SameAnswer(b: Book, denseId: OrderId, sparseId: OrderId, q: Qty)
    requires Sound(b) && SameRef(b, denseId, sparseId)
    ensures ReduceOrder(b, denseId, q) == ReduceOrder(b, sparseId, q)
    ensures CancelOrder(b, denseId) == CancelOrder(b, sparseId)
  {
    SentinelsNeverRest(b);
  }

  lemma SameRefSurvives(b: Book, op: Op, denseId: OrderId, sparseId: OrderId)
    requires Sound(b) && SameRef(b, denseId, sparseId)
    ensures SameRef(Step(b, op), denseId, sparseId)
  {
    hide GoodRef, Rests, Step, Sound;
    RefsSurvive(b, op, denseId);
    RefsSurvive(b, op, sparseId);
  }

  // A cancelled order is inert.
  lemma CancelMakesInert(b: Book, id: OrderId)
    requires Sound(b) && GoodRef(b, id)
    ensures Inert(CancelOrder(b, id).0, id)
  {
    RefsSurvive(b, CancelId(id), id);
    var w := Find(b, id);
    if w.At? {
      RestingId(b, w.side, w.tick, w.pos);
      CancelSound(b, id);
      CheckExact(CancelOrder(b, id).0, id);
    }
  }

  function OpOf(m: Message, id: OrderId): Op {
    match m.kind
    case MsgNewOrder => Place(m.side, m.price, m.qty, false)
    case MsgExecute => ReduceId(id, m.qty)
    case MsgReduce => ReduceId(id, m.qty)
    case MsgCancel => CancelId(id)
  }

  // References other than the message's own are untouched in both tables.
  lemma OthersAgree(d: Dense, s: Sparse, cap: nat, m: Message, r: nat)
    requires Agree(d, s) && 0 < m.id < |d.refs| && 1 <= r < |d.refs| && r != m.id
    ensures var d', s' := ApplyDense(d, m), ApplySparse(s, cap, m);
            SameRef(d'.book, d'.refs[r], Lookup(s'.refs, Scattered(r)))
  {
    hide Sound, SameRef, GoodRef, PlaceOrder, ReduceOrder, CancelOrder;
    hide Lookup, Inserted, Erased, Has, Scattered, DistinctKeys;
    var key := Scattered(m.id);
    ScatterInjective(m.id, r);
    ScatterNonZero(m.id);
    assert SameRef(d.book, d.refs[r], Lookup(s.refs, Scattered(r)));
    SameRefSurvives(d.book, OpOf(m, d.refs[m.id]), d.refs[r], Lookup(s.refs, Scattered(r)));
    if m.kind == MsgNewOrder {
      var p := PlaceOrder(d.book, m.side, m.price, m.qty, false);
      MapUpdate(s.refs, key, p.id, Scattered(r));
    } else if m.kind == MsgCancel {
      MapRemoval(s.refs, key, Scattered(r));
    }
  }

  lemma AcceptedAgrees(d: Dense, s: Sparse, cap: nat, m: Message)
    requires Agree(d, s) && 0 < m.id < |d.refs|
    requires m.kind == MsgNewOrder ==> |s.refs| < cap
    ensures Agree(ApplyDense(d, m), ApplySparse(s, cap, m))
  {
    hide Sound, SameRef, GoodRef, PlaceOrder, ReduceOrder, CancelOrder;
    hide Lookup, Inserted, Erased, Has, Scattered, DistinctKeys;
    var d', s' := ApplyDense(d, m), ApplySparse(s, cap, m);
    var key, id := Scattered(m.id), d.refs[m.id];
    ScatterNonZero(m.id);
    assert SameRef(d.book, id, Lookup(s.refs, key));
    SameAnswer(d.book, id, Lookup(s.refs, key), m.qty);
    StepSound(d.book, OpOf(m, id));
    SameRefSurvives(d.book, OpOf(m, id), id, Lookup(s.refs, key));
    match m.kind {
      case MsgNewOrder =>
        var p := PlaceOrder(d.book, m.side, m.price, m.qty, false);
        MapUpdate(s.refs, key, p.id, key);
        SameIdAgrees(d.book, m.side, m.price, m.qty);
      case MsgCancel =>
        MapRemoval(s.refs, key, key);
        ErasedAgrees(d.book, id, Lookup(s.refs, key));
      case _ =>
    }
    forall r | 1 <= r < |d'.refs|
      ensures SameRef(d'.book, d'.refs[r], Lookup(s'.refs, Scattered(r)))
    {
      if r != m.id {
        OthersAgree(d, s, cap, m, r);
      }
    }
  }

  lemma SameIdAgrees(b: Book, side: Side, price: Price, qty: Qty)
    requires Sound(b)
    ensures var p := PlaceOrder(b, side, price, qty, false); SameRef(p.book, p.id, p.id)
  {
    PlacedIsGood(b, side, price, qty);
  }

  lemma ErasedAgrees(b: Book, id: OrderId, sparseId: OrderId)
    requires Sound(b) && SameRef(b, id, sparseId)
    ensures SameRef(CancelOrder(b, id).0, id, 0)
  {
    CancelMakesInert(b, id);
  }

  // ---- a refused insert ----------------------------------------------------------------------------

  // Is the entry left in the map as good as the reference the dense table now holds?
  lemma StaleEntry(b: Book, side: Side, price: Price, qty: Qty, denseId: OrderId, stale: OrderId)
    requires Sound(b) && SameRef(b, denseId, stale)
    ensures var p := PlaceOrder(b, side, price, qty, false);
            && Sound(p.book) && GoodRef(p.book, p.id) && GoodRef(p.book, stale)
            && (Rests(p.book, p.id) ==> stale != p.id)
            && (SameRef(p.book, p.id, stale) <==> !Rests(p.book, p.id) && !Rests(p.book, stale))
  {
    hide Sound, Known, PlaceOrder, Step, Rests;
    var op, p := Place(side, price, qty, false), PlaceOrder(b, side, price, qty, false);
    PlacedIsGood(b, side, price, qty);
    StepSound(b, op);
    PlaceIsStep(b, side, price, qty);
    RefsSurvive(b, op, stale);
    SentinelsNeverRest(p.book);
    if p.id != 0 && p.id != TAKER_FILLED {
      MintedIsPlaced(b, side, price, qty);
      StepMints(b, op, p.id);
    }
  }

  lemma PlaceIsStep(b: Book, side: Side, price: Price, qty: Qty)
    ensures Step(b, Place(side, price, qty, false)) == PlaceOrder(b, side, price, qty, false).book
  {
    hide PlaceOrder;
  }

  lemma MintedIsPlaced(b: Book, side: Side, price: Price, qty: Qty)
    ensures var id := PlaceOrder(b, side, price, qty, false).id;
            id != 0 && id != TAKER_FILLED ==> id in Minted(b, Place(side, price, qty, false))
  {
    hide PlaceOrder;
  }

  // A refusal leaves no trace: neither the new order nor what the map still holds under its
  // reference rests.
  ghost predicate Harmless(b: Book, m: Message, stale: OrderId) {
    var p := PlaceOrder(b, m.side, m.price, m.qty, false);
    !Rests(p.book, p.id) && !Rests(p.book, stale)
  }

  // At the load cap a new order keeps the two gateways in agreement exactly when its refusal
  // is harmless.
  lemma RefusedInsert(d: Dense, s: Sparse, cap: nat, m: Message)
    requires Agree(d, s) && 0 < m.id < |d.refs|
    requires m.kind == MsgNewOrder && |s.refs| >= cap
    ensures Agree(ApplyDense(d, m), ApplySparse(s, cap, m))
       <==> Harmless(d.book, m, Lookup(s.refs, Scattered(m.id)))
  {
    hide Sound, SameRef, GoodRef, PlaceOrder, Lookup, Scattered, DistinctKeys;
    var d', s' := ApplyDense(d, m), ApplySparse(s, cap, m);
    var stale := Lookup(s.refs, Scattered(m.id));
    assert SameRef(d.book, d.refs[m.id], stale);
    StaleEntry(d.book, m.side, m.price, m.qty, d.refs[m.id], stale);
    assert d'.refs[m.id] == PlaceOrder(d.book, m.side, m.price, m.qty, false).id;
    forall r | 1 <= r < |d'.refs| && r != m.id
      ensures SameRef(d'.book, d'.refs[r], Lookup(s'.refs, Scattered(r)))
    {
      OthersAgree(d, s, cap, m, r);
    }
  }

  // Otherwise the difference shows at once: cancelling the reference makes the books differ.
  lemma RefusedThenCancelled(d: Dense, s: Sparse, cap: nat, m: Message)
    requires Agree(d, s) && 0 < m.id < |d.refs|
    requires m.kind == MsgNewOrder && |s.refs| >= cap
    requires !Harmless(d.book, m, Lookup(s.refs, Scattered(m.id)))
    ensures var c := m.(kind := MsgCancel);
            ApplyDense(ApplyDense(d, m), c).book != ApplySparse(ApplySparse(s, cap, m), cap, c).book
  {
    hide Sound, GoodRef, PlaceOrder, Lookup, Scattered, DistinctKeys, Rests, CancelOrder;
    var p, stale := PlaceOrder(d.book, m.side, m.price, m.qty, false), Lookup(s.refs, Scattered(m.id));
    assert SameRef(d.book, d.refs[m.id], stale);
    StaleEntry(d.book, m.side, m.price, m.qty, d.refs[m.id], stale);
    if Rests(p.book, p.id) {
      CancelMakesInert(p.book, p.id);
      CancelSparesOthers(p.book, stale, p.id);
    } else {
      CancelMakesInert(p.book, stale);
      CancelSparesOthers(p.book, p.id, stale);
    }
  }

  lemma CancelSparesOthers(b: Book, id: OrderId, other: OrderId)
    requires Sound(b) && Rests(b, other) && id != other
    ensures Rests(CancelOrder(b, id).0, other)
  {
    hide Sound, Lots;
    LotsUnder(b, other);
    var w := Find(b, id);
    if w.At? {
      RemoveLots(b, w, Only(other));
      if !Rests(Remove(b, w), other) {
        NoneUnder(Remove(b, w), other);
      }
    }
  }

  // One message: new orders are accepted by the map, or refused harmlessly.
  lemma StepAgrees(d: Dense, s: Sparse, cap: nat, m: Message)
    requires Agree(d, s) && 0 < m.id < |d.refs|
    requires m.kind == MsgNewOrder && |s.refs| >= cap ==> Harmless(d.book, m, Lookup(s.refs, Scattered(m.id)))
    ensures Agree(ApplyDense(d, m), ApplySparse(s, cap, m))
  {
    hide Agree, Harmless, Lookup, Scattered;
    if m.kind == MsgNewOrder && |s.refs| >= cap {
      RefusedInsert(d, s, cap, m);
    } else {
      AcceptedAgrees(d, s, cap, m);
    }
  }

  // Every insert of the run finds the map below its load cap, or is refused harmlessly.
  ghost predicate Provisioned(s: Sparse, cap: nat, ms: seq<Message>)
    decreases |ms|
  {
    ms != [] ==>
    && (ms[0].kind == MsgNewOrder && |s.refs| >= cap ==> Harmless(s.book, ms[0], Lookup(s.refs, Scattered(ms[0].id))))
    && Provisioned(ApplySparse(s, cap, ms[0]), cap, ms[1..])
  }

  predicate RefsInRange(ms: seq<Message>, n: nat) {
    forall i | 0 <= i < |ms| :: 0 < ms[i].id < n
  }

  // On every message sequence with non-zero references for which the map is provisioned, the
  // two gateways end with the same book, the same trade count and the same traded lots.
  lemma {:induction false} SameSession(d: Dense, s: Sparse, cap: nat, ms: seq<Message>)
    requires Agree(d, s) && RefsInRange(ms, |d.refs|) && Provisioned(s, cap, ms)
    ensures Agree(RunDense(d, ms), RunSparse(s, cap, ms))
    decreases |ms|
  {
    if ms != [] {
      hide Agree;
      StepAgrees(d, s, cap, ms[0]);
      SameSession(ApplyDense(d, ms[0]), ApplySparse(s, cap, ms[0]), cap, ms[1..]);
    }
  }

  // Exactly those: at the first harmful refusal, cancelling its reference gives different books.
  lemma {:induction false} SessionDiverges(d: Dense, s: Sparse, cap: nat, ms: seq<Message>) returns (k: nat)
    requires Agree(d, s) && RefsInRange(ms, |d.refs|) && !Provisioned(s, cap, ms)
    ensures k < |ms| && RefsInRange(ms[..k + 1] + [ms[k].(kind := MsgCancel)], |d.refs|)
    ensures var shown := ms[..k + 1] + [ms[k].(kind := MsgCancel)];
            RunDense(d, shown).book != RunSparse(s, cap, shown).book
    decreases |ms|
  {
    hide Agree, ApplyDense, ApplySparse, Harmless;
    var m := ms[0];
    var d1, s1 := ApplyDense(d, m), ApplySparse(s, cap, m);
    AgreeFacts(d, s);
    ApplyKeepsSize(d, m);
    if m.kind == MsgNewOrder && |s.refs| >= cap && !Harmless(d.book, m, Lookup(s.refs, Scattered(m.id))) {
      k := 0;
      var c := m.(kind := MsgCancel);
      RefusedThenCancelled(d, s, cap, m);
      TwoSteps(d, s, cap, m, c);
      assert ms[..1] + [c] == [m, c];
    } else {
      StepAgrees(d, s, cap, m);
      var later := SessionDiverges(d1, s1, cap, ms[1..]);
      k := later + 1;
      var w := ms[..k + 1] + [ms[k].(kind := MsgCancel)];
      assert w[0] == m && w[1..] == ms[1..][..k] + [ms[1..][k - 1].(kind := MsgCancel)];
    }
  }

  lemma AgreeFacts(d: Dense, s: Sparse)
    requires Agree(d, s)
    ensures d.book == s.book
  {
  }

  lemma TwoSteps(d: Dense, s: Sparse, cap: nat, m: Message, c: Message)
    requires m.id < |d.refs| && c.id < |d.refs|
    ensures |ApplyDense(d, m).refs| == |d.refs|
    ensures RunDense(d, [m, c]) == ApplyDense(ApplyDense(d, m), c)
    ensures RunSparse(s, cap, [m, c]) == ApplySparse(ApplySparse(s, cap, m), cap, c)
  {
    ApplyKeepsSize(d, m);
    hide ApplyDense, ApplySparse;
    assert [m, c][1..] == [c] && [c][1..] == [];
    assert RunDense(ApplyDense(d, m), [c]) == RunDense(ApplyDense(ApplyDense(d, m), c), []);
    var s1 := ApplySparse(s, cap, m);
    assert RunSparse(s1, cap, [c]) == RunSparse(ApplySparse(s1, cap, c), cap, []);
  }

  function NewOrders(ms: seq<Message>): nat {
    if ms == [] then 0 else (if ms[0].kind == MsgNewOrder then 1 else 0) + NewOrders(ms[1..])
  }

  lemma SizeStep(s: Sparse, cap: nat, m: Message)
    ensures |ApplySparse(s, cap, m).refs| <= |s.refs| + if m.kind == MsgNewOrder then 1 else 0
  {
    hide PlaceOrder, ReduceOrder, CancelOrder, Scattered, Lookup;
  }

  // Enough room for every new order of the session is enough provision.
  lemma {:induction false} RoomIsProvision(s: Sparse, cap: nat, ms: seq<Message>)
    requires |s.refs| + NewOrders(ms) <= cap
    ensures Provisioned(s, cap, ms)
    decreases |ms|
  {
    hide PlaceOrder, ReduceOrder, CancelOrder, Scattered;
    if ms != [] {
      SizeStep(s, cap, ms[0]);
      hide ApplySparse;
      RoomIsProvision(ApplySparse(s, cap, ms[0]), cap, ms[1..]);
    }
  }

  // Fresh gateways over the same empty book, from the first message on.
  lemma SameFromStart(base: Price, ticks: nat, poolCap: nat, maxRef: nat, cap: nat, ms: seq<Message>)
    requires poolCap < 0xFFFF_FFFF && maxRef < TWO64
    requires RefsInRange(ms, maxRef + 1) && NewOrders(ms) <= cap
    ensures var b := EmptyBook(base, ticks, poolCap);
            var d := RunDense(Dense(b, seq(maxRef + 1, i => 0), 0, 0), ms);
            var s := RunSparse(Sparse(b, [], 0, 0), cap, ms);
            d.book == s.book && d.trades == s.trades && d.lots == s.lots
  {
    var b := EmptyBook(base, ticks, poolCap);
    EmptySound(base, ticks, poolCap);
    hide Sound, EmptyBook, Rests, Scattered;
    var d, s := Dense(b, seq(maxRef + 1, i => 0), 0, 0), Sparse(b, [], 0, 0);
    assert Agree(d, s);
    RoomIsProvision(s, cap, ms);
    SameSession(d, s, cap, ms);
  }
}
