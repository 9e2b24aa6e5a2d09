/**
 Vocabulary shared by every module: fixed-point prices and lots, sides, engine ids and
 the messages and execution reports that travel through the system.
 */
module Types {

  type Price = int   // ticks
  type Qty = int     // lots
  type OrderId = nat

  datatype Option<+T> = None | Some(value: T)

  datatype Side = Buy | Sell {
    function Opposite(): Side {
      if Buy? then Sell else Buy
    }
  }

  datatype Trade = Trade(makerId: OrderId, takerId: OrderId, price: Price, qty: Qty)

  datatype MsgType = MsgNewOrder | MsgCancel | MsgExecute | MsgReduce

  datatype Message = Message(kind: MsgType, side: Side, price: Price, qty: Qty, id: nat)

  // One past the largest unsigned 64-bit integer.
  const TWO64: nat := 0x1_0000_0000_0000_0000

  // All ones: the "no such level" answer of the bitmaps, and 0 - 1 as an unsigned 64-bit number.
  const NPOS: nat := 0xFFFF_FFFF_FFFF_FFFF

  // The null pointer, where the arena's objects are named by their slots.
  const NULL: int := -1

  // All ones: returned for a taker that filled completely and never rested.
  const TAKER_FILLED: OrderId := 0xFFFF_FFFF_FFFF_FFFF

  // Engine id: generation in the high half, slot + 1 in the low 32 bits.
  function MakeId(gen: nat, slot: nat): OrderId {
    gen * 0x1_0000_0000 + slot + 1
  }

  function GenOf(id: OrderId): nat {
    id / 0x1_0000_0000
  }

  // The low half less one in unsigned 64-bit arithmetic, so a zero low half becomes NPOS.
  function SlotOf(id: OrderId): nat {
    var low := id % 0x1_0000_0000;
    if low == 0 then NPOS else low - 1
  }

  // The two halves of a minted id can be read back, so ids never collide.
  lemma IdRoundTrip(gen: nat, slot: nat)
    requires slot < 0xFFFF_FFFF
    ensures GenOf(MakeId(gen, slot)) == gen && SlotOf(MakeId(gen, slot)) == slot
    ensures MakeId(gen, slot) / 0x1_0000_0000 == gen && MakeId(gen, slot) % 0x1_0000_0000 == slot + 1
  {
    var id := MakeId(gen, slot);
    assert id == gen * 0x1_0000_0000 + (slot + 1);
  }

  // Conversely an id is rebuilt from its halves, unless its low half is the sentinel zero.
  lemma IdFromHalves(id: OrderId)
    ensures SlotOf(id) < 0xFFFF_FFFF <==> id % 0x1_0000_0000 != 0
    ensures SlotOf(id) < 0xFFFF_FFFF ==> MakeId(GenOf(id), SlotOf(id)) == id
  {
    assert id == GenOf(id) * 0x1_0000_0000 + id % 0x1_0000_0000;
  }
}
