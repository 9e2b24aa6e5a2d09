/**
 What a message does to the book, and what the gateway's two counters count, both stated on
 the book before and after and not on the operations the gateway calls.
 */
module GatewayLedger {
  import opened Types
  import opened BookSpec
  import opened BookInvariant
  import opened BookIds
  import opened BookTheorems
  import opened BookLots
  import opened BookPlaces
  import opened GatewaySpec
  import opened GatewayEquiv

  // The visible lots that rest under an id.
  function Shown(b: Book, id: OrderId): Qty {
    var w := Find(b, id);
    if w.Nowhere? then 0 else Own(b, w.side)[w.tick][w.pos].qty
  }

  lemma GoneAfterRemove(b: Book, id: OrderId)
    requires Sound(b) && Rests(b, id)
    ensures !Rests(Remove(b, Find(b, id)), id)
  {
    hide Sound, Lots;
    var w := Find(b, id);
    LotsUnder(b, id);
    RemoveSound(b, w);
    RemoveLots(b, w, Only(id));
    LotsUnder(Remove(b, w), id);
  }

  lemma StillThere(b: Book, w: Where, q: Qty)
    requires Sound(b) && Located(b, w) && q < Own(b, w.side)[w.tick][w.pos].qty
    requires Sound(Resized(b, w, q))
    ensures Find(Resized(b, w, q), Own(b, w.side)[w.tick][w.pos].Id()) == w
  {
    hide Sound;
    var r := Own(b, w.side)[w.tick][w.pos];
    assert Own(Resized(b, w, q), w.side)[w.tick][w.pos].Id() == r.Id();
    FindsIt(Resized(b, w, q), w.side, w.tick, w.pos);
  }

  // What reduce answers is what the order shows less; the whole book loses that much, and the
  // reserve as well when the order goes.
  lemma ReduceAnswers(b: Book, id: OrderId, q: Qty)
    requires Sound(b)
    ensures var (b', removed) := ReduceOrder(b, id, q);
            && removed == Shown(b, id) - Shown(b', id)
            && (Rests(b, id) ==>
                  var w := Find(b, id);
                  Lots(b, Everyone) - Lots(b', Everyone)
                  == removed + if Rests(b', id) then 0 else Own(b, w.side)[w.tick][w.pos].hidden)
  {
    hide Sound, Lots, Remove, Resized;
    ReduceSound(b, id, q);
    var w := Find(b, id);
    if w.At? {
      if q < Own(b, w.side)[w.tick][w.pos].qty {
        StillThere(b, w, q);
        ResizeExact(b, w, q);
        ResizeLots(b, w, q, Everyone);
      } else {
        GoneAfterRemove(b, id);
        RemoveLots(b, w, Everyone);
      }
    }
  }

  // ---- one message ---------------------------------------------------------------------------------

  // A new order joins its level and its id goes under its reference; a cancel takes the order
  // under the reference out; an execution or a reduction takes the message's lots off it.
  lemma MessageDoes(g: Dense, m: Message)
    requires Sound(g.book) && m.id < |g.refs|
    ensures var g' := ApplyDense(g, m);
            var id, id' := g.refs[m.id], g'.refs[m.id];
            && |g'.refs| == |g.refs| && (forall r | 0 <= r < |g.refs| && r != m.id :: g'.refs[r] == g.refs[r])
            && match m.kind
               case MsgNewOrder =>
                 if id' == 0 then g'.book == g.book
                 else if id' == TAKER_FILLED then Own(g'.book, m.side) == Own(g.book, m.side)
                 else JoinsAt(g.book, g'.book, m.side, m.price - g.book.base, id')
               case MsgCancel =>
                 id' == id && if Rests(g.book, id) then LeavesQueue(g.book, g'.book, Find(g.book, id))
                              else g'.book == g.book
               case _ =>
                 && id' == id
                 && if !Rests(g.book, id) then g'.book == g.book
                    else if m.qty < Shown(g.book, id) then LosesVisible(g.book, g'.book, Find(g.book, id), m.qty)
                    else LeavesQueue(g.book, g'.book, Find(g.book, id))
  {
    hide Sound, JoinsAt, LeavesQueue, LosesVisible, PlaceOrder, ReduceOrder, CancelOrder;
    var id := g.refs[m.id];
    match m.kind
    case MsgNewOrder =>
      OrderPlaced(g.book, m.side, m.price, m.qty, false);
      ZeroChangesNothing(g.book, m.side, m.price, m.qty, false);
    case MsgCancel => CancelExact(g.book, id);
    case _ => ReduceExact(g.book, id, m.qty);
  }

  // Only an execution moves the counters: the lots by what its order shows less, the trades by
  // one if that is anything.
  lemma MessageCounts(g: Dense, m: Message)
    requires Sound(g.book) && m.id < |g.refs|
    ensures var g' := ApplyDense(g, m);
            g'.lots == g.lots + Took(g, m) && g'.trades == g.trades + if Took(g, m) > 0 then 1 else 0
  {
    hide Sound, PlaceOrder, ReduceOrder, CancelOrder;
    ReduceAnswers(g.book, g.refs[m.id], m.qty);
  }

  // Lots an execution took off the order under its reference; nothing for other messages.
  function Took(g: Dense, m: Message): Qty
    requires m.id < |g.refs|
  {
    if m.kind == MsgExecute then
      Shown(g.book, g.refs[m.id]) - Shown(ApplyDense(g, m).book, g.refs[m.id])
    else 0
  }

  // ---- sessions --------------------------------------------------------------------------------------

  function ExecutedLots(g: Dense, ms: seq<Message>): Qty
    requires forall i | 0 <= i < |ms| :: ms[i].id < |g.refs|
    decreases |ms|
  {
    if ms == [] then 0
    else
      ApplyKeepsSize(g, ms[0]);
      Took(g, ms[0]) + ExecutedLots(ApplyDense(g, ms[0]), ms[1..])
  }

  function Executions(g: Dense, ms: seq<Message>): nat
    requires forall i | 0 <= i < |ms| :: ms[i].id < |g.refs|
    decreases |ms|
  {
    if ms == [] then 0
    else
      ApplyKeepsSize(g, ms[0]);
      (if Took(g, ms[0]) > 0 then 1 else 0) + Executions(ApplyDense(g, ms[0]), ms[1..])
  }

  // Over every session the counters are exactly the lots the executions took off the book and
  // the number of executions that took any.
  lemma {:induction false} SessionCounts(g: Dense, ms: seq<Message>)
    requires Sound(g.book) && forall i | 0 <= i < |ms| :: ms[i].id < |g.refs|
    ensures RunDense(g, ms).lots == g.lots + ExecutedLots(g, ms)
    ensures RunDense(g, ms).trades == g.trades + Executions(g, ms)
    decreases |ms|
  {
    hide Sound, ApplyDense, Took;
    if ms != [] {
      MessageCounts(g, ms[0]);
      ApplyKeepsSize(g, ms[0]);
      ApplySound(g, ms[0]);
      SessionCounts(ApplyDense(g, ms[0]), ms[1..]);
    }
  }

  lemma ApplySound(g: Dense, m: Message)
    requires Sound(g.book) && m.id < |g.refs|
    ensures Sound(ApplyDense(g, m).book)
  {
    hide Sound, PlaceOrder, ReduceOrder, CancelOrder;
    StepSound(g.book, OpOf(m, g.refs[m.id]));
  }

  // The sparse gateway counts the same, on every session the two gateways share.
  lemma SparseCounts(d: Dense, s: Sparse, cap: nat, ms: seq<Message>)
    requires Agree(d, s) && RefsInRange(ms, |d.refs|) && Provisioned(s, cap, ms)
    ensures RunSparse(s, cap, ms).lots == s.lots + ExecutedLots(d, ms)
    ensures RunSparse(s, cap, ms).trades == s.trades + Executions(d, ms)
  {
    hide Sound, SameRef, ApplyDense, ApplySparse, ExecutedLots, Executions, Provisioned, RunDense, RunSparse;
    SessionCounts(d, ms);
    SameSession(d, s, cap, ms);
  }
}
