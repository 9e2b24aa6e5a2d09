/**
 The two order-reference gateways on values: a dense array indexed by reference, and the
 sparse map fed scattered references. Both drive the same naive book.
 */
module GatewaySpec {
  import opened Types
  import opened BookSpec
  import opened ProbeTable
  import opened FlatHash

  datatype Dense = Dense(book: Book, refs: seq<OrderId>, trades: nat, lots: int)
  datatype Sparse = Sparse(book: Book, refs: seq<Entry>, trades: nat, lots: int)

  const SCATTER: nat := 0xC2B2_AE3D_27D4_EB4F
  // The inverse of SCATTER modulo 2^64.
  const GATHER: nat := 0x0BA7_9078_168D_4BAF

  // ref * odd constant, modulo 2^64.
  function Scattered(ref: nat): nat {
    (ref * SCATTER) % TWO64
  }

  function ApplyDense(g: Dense, m: Message): Dense
    requires m.id < |g.refs|
  {
    match m.kind
    case MsgNewOrder =>
      var p := PlaceOrder(g.book, m.side, m.price, m.qty, false);
      g.(book := p.book, refs := g.refs[m.id := p.id])
    case MsgExecute =>
      var (b, filled) := ReduceOrder(g.book, g.refs[m.id], m.qty);
      g.(book := b, trades := g.trades + if filled > 0 then 1 else 0, lots := g.lots + filled)
    case MsgReduce => g.(book := ReduceOrder(g.book, g.refs[m.id], m.qty).0)
    case MsgCancel => g.(book := CancelOrder(g.book, g.refs[m.id]).0)
  }

  lemma ApplyKeepsSize(g: Dense, m: Message)
    requires m.id < |g.refs|
    ensures |ApplyDense(g, m).refs| == |g.refs|
  {
    hide PlaceOrder, ReduceOrder, CancelOrder;
  }

  // `cap` is the load cap of the map; an insert at the cap is refused and its answer ignored.
  function ApplySparse(g: Sparse, cap: nat, m: Message): Sparse {
    var key := Scattered(m.id);
    match m.kind
    case MsgNewOrder =>
      var p := PlaceOrder(g.book, m.side, m.price, m.qty, false);
      g.(book := p.book, refs := if |g.refs| < cap then Inserted(g.refs, key, p.id) else g.refs)
    case MsgExecute =>
      var (b, filled) := ReduceOrder(g.book, Lookup(g.refs, key), m.qty);
      g.(book := b, trades := g.trades + if filled > 0 then 1 else 0, lots := g.lots + filled)
    case MsgReduce => g.(book := ReduceOrder(g.book, Lookup(g.refs, key), m.qty).0)
    case MsgCancel => g.(book := CancelOrder(g.book, Lookup(g.refs, key)).0, refs := Erased(g.refs, key))
  }

  function RunDense(g: Dense, ms: seq<Message>): (r: Dense)
    requires forall i | 0 <= i < |ms| :: ms[i].id < |g.refs|
    ensures |r.refs| == |g.refs|
    decreases |ms|
  {
    if ms == [] then g else RunDense(ApplyDense(g, ms[0]), ms[1..])
  }

  function RunSparse(g: Sparse, cap: nat, ms: seq<Message>): Sparse
    decreases |ms|
  {
    if ms == [] then g else RunSparse(ApplySparse(g, cap, ms[0]), cap, ms[1..])
  }

  // ---- scattering --------------------------------------------------------------------------------

  lemma ModMul(x: nat, y: nat)
    ensures ((x % TWO64) * y) % TWO64 == (x * y) % TWO64
  {
    var q := x / TWO64;
    assert x == q * TWO64 + x % TWO64;
    assert x * y == (q * y) * TWO64 + (x % TWO64) * y;
    AddMultiples((x % TWO64) * y, q * y);
  }

  lemma AddMultiples(a: nat, k: nat)
    ensures (k * TWO64 + a) % TWO64 == a % TWO64
  {
  }

  lemma Inverse64()
    ensures (SCATTER * GATHER) % TWO64 == 1
  {
  }

  // Multiplying back recovers the reference: scattering is injective and never hits key 0.
  lemma Gathered(ref: nat)
    requires ref < TWO64
    ensures (Scattered(ref) * GATHER) % TWO64 == ref
  {
    ModMul(ref * SCATTER, GATHER);
    Inverse64();
    assert (ref * SCATTER) * GATHER == ref * (SCATTER * GATHER);
    var k := (SCATTER * GATHER) / TWO64;
    assert SCATTER * GATHER == k * TWO64 + 1;
    assert ref * (SCATTER * GATHER) == (ref * k) * TWO64 + ref;
    AddMultiples(ref, ref * k);
  }

  lemma ScatterInjective(a: nat, b: nat)
    requires a < TWO64 && b < TWO64 && a != b
    ensures Scattered(a) != Scattered(b)
  {
    Gathered(a);
    Gathered(b);
  }

  lemma ScatterNonZero(ref: nat)
    requires 0 < ref < TWO64
    ensures Scattered(ref) != 0
  {
    ScatterInjective(ref, 0);
  }
}
