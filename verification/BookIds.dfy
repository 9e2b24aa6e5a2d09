/** Ids: what the O(1) generation compare of cancel and reduce decides. */
module BookIds {
  import opened Types
  import opened BookSpec
  import opened SlotCounts
  import opened BookInvariant

  // The compare of the engine: a slot of the arena whose generation is the id's.
  predicate PassesCheck(b: Book, id: OrderId) {
    SlotOf(id) < |b.gens| && b.gens[SlotOf(id)] == GenOf(id)
  }

  // Every id the book mints carries an odd generation; 0 and ~0 name no slot at all.
  predicate Genuine(b: Book, id: OrderId) {
    PassesCheck(b, id) ==> GenOf(id) % 2 == 1
  }

  lemma RestingId(b: Book, side: Side, i: nat, k: nat)
    requires Sound(b) && i < |Own(b, side)| && k < |Own(b, side)[i]|
    ensures var r := Own(b, side)[i][k];
            SlotOf(r.Id()) == r.slot && GenOf(r.Id()) == r.gen && PassesCheck(b, r.Id()) && r.gen % 2 == 1
  {
    var r := Own(b, side)[i][k];
    assert QueueStamped(Own(b, side)[i], b.gens) && Stamped(r, b.gens);
    IdRoundTrip(r.gen, r.slot);
  }

  // A slot with an odd generation holds a resting order.
  lemma OddSlotRests(b: Book, s: nat) returns (side: Side, i: nat, k: nat)
    requires Sound(b) && s < |b.gens| && b.gens[s] % 2 == 1
    ensures i < |Own(b, side)| && k < |Own(b, side)[i]| && Own(b, side)[i][k].slot == s
  {
    assert SlotCount(b, s) == 1;
    StackMember(b.free, s);
    if LadderCount(b.bids, s) > 0 {
      side := Buy;
      i, k := FromLadderCount(b.bids, s);
    } else {
      side := Sell;
      i, k := FromLadderCount(b.asks, s);
    }
  }

  // An order is found where it rests.
  lemma FindsIt(b: Book, side: Side, i: nat, k: nat)
    requires Sound(b) && i < |Own(b, side)| && k < |Own(b, side)[i]|
    ensures Find(b, Own(b, side)[i][k].Id()) == At(side, i, k)
  {
    var id := Own(b, side)[i][k].Id();
    var w := Find(b, id);
    assert PosOf(Own(b, side)[i], id) < |Own(b, side)[i]|;
    RestingId(b, side, i, k);
    RestingId(b, w.side, w.tick, w.pos);
    OnePlace(b, side, i, k, w.side, w.tick, w.pos);
  }

  // Neither sentinel an engine returns is ever the id of a resting order.
  lemma SentinelsNeverRest(b: Book)
    requires Sound(b)
    ensures !Rests(b, 0) && !Rests(b, TAKER_FILLED)
  {
    var w := Find(b, 0);
    var t := Find(b, TAKER_FILLED);
    if t.At? {
      RestingId(b, t.side, t.tick, t.pos);
    }
  }

  // The compare decides "does this order rest?" for exactly the ids that do not carry the
  // even, current generation of a free slot.
  lemma CheckExact(b: Book, id: OrderId)
    requires Sound(b)
    ensures (PassesCheck(b, id) <==> Rests(b, id)) <==> Genuine(b, id)
  {
    var w := Find(b, id);
    if w.At? {
      RestingId(b, w.side, w.tick, w.pos);
    }
    if PassesCheck(b, id) && GenOf(id) % 2 == 1 {
      var side, i, k := OddSlotRests(b, SlotOf(id));
      RestingId(b, side, i, k);
      IdFromHalves(id);
      FindsIt(b, side, i, k);
    }
  }

  // The claim that a forged id always mismatches is false: on a fresh book id 1 (slot 0,
  // generation 0) passes the compare although nothing rests.
  lemma ForgedIdPasses(base: Price, ticks: nat, cap: nat)
    requires 0 < cap < 0xFFFF_FFFF
    ensures var b := EmptyBook(base, ticks, cap); PassesCheck(b, 1) && !Rests(b, 1) && !Genuine(b, 1)
  {
    var b := EmptyBook(base, ticks, cap);
    EmptySound(base, ticks, cap);
    assert GenOf(1) == 0 && SlotOf(1) == 0;
    CheckExact(b, 1);
  }
}
