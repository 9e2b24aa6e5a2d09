/**
 The sparse map from exchange references to engine ids: open addressing, linear probing,
 backward-shift deletion, key 0 as the empty mark, and a load cap instead of rehashing.
 */
module FlatHash {
  import opened ProbeTable

  // ---- the map a history stands for -------------------------------------------------------------

  // Index of `key` in the history, or its length.
  function Index(order: seq<Entry>, key: nat): (r: nat)
    ensures r <= |order|
    ensures r < |order| ==> order[r].key == key
    ensures forall q | 0 <= q < r :: order[q].key != key
  {
    if order == [] || order[0].key == key then 0 else 1 + Index(order[1..], key)
  }

  predicate Has(order: seq<Entry>, key: nat) {
    Index(order, key) < |order|
  }

  // The value mapped to `key`, 0 when there is none.
  function Lookup(order: seq<Entry>, key: nat): nat {
    if Has(order, key) then order[Index(order, key)].val else 0
  }

  // Map update: a known key keeps its place in the history, a fresh one goes to the end.
  function Inserted(order: seq<Entry>, key: nat, val: nat): seq<Entry> {
    if Has(order, key) then order[Index(order, key) := Entry(key, val)] else order + [Entry(key, val)]
  }

  function Erased(order: seq<Entry>, key: nat): seq<Entry> {
    if Has(order, key) then Without(order, Index(order, key)) else order
  }

  lemma IndexIs(order: seq<Entry>, r: nat)
    requires DistinctKeys(order) && r < |order|
    ensures Index(order, order[r].key) == r
  {
  }

  // Insert and erase are map update and map removal.
  lemma MapUpdate(order: seq<Entry>, key: nat, val: nat, k: nat)
    requires DistinctKeys(order) && key != 0
    ensures DistinctKeys(Inserted(order, key, val))
    ensures Has(Inserted(order, key, val), k) <==> k == key || Has(order, k)
    ensures Lookup(Inserted(order, key, val), k) == if k == key then val else Lookup(order, k)
  {
    var order' := Inserted(order, key, val);
    if Has(order, k) {
      assert order'[Index(order, k)].key == k;
      IndexIs(order', Index(order, k));
    }
    if k == key && !Has(order, key) {
      assert order'[|order|].key == k;
      IndexIs(order', |order|);
    }
    if Has(order', k) && Index(order', k) < |order| {
      assert order[Index(order', k)].key == k;
    }
  }

  lemma MapRemoval(order: seq<Entry>, key: nat, k: nat)
    requires DistinctKeys(order)
    ensures DistinctKeys(Erased(order, key))
    ensures Has(Erased(order, key), k) <==> k != key && Has(order, k)
    ensures Lookup(Erased(order, key), k) == if k == key then 0 else Lookup(order, k)
  {
    var order', r := Erased(order, key), Index(order, key);
    assert forall q | 0 <= q < |order'| && r < |order| :: order'[q] == order[if q < r then q else q + 1];
    if k != key && Has(order, k) {
      var i := Index(order, k);
      var i' := if r < |order| && r < i then i - 1 else i;
      assert order'[i'].key == k;
      IndexIs(order', i');
    }
  }

  class FlatHashMap {
    const log2: nat
    const maxLoadPct: nat
    const slots: array<Entry>
    var size: nat
    ghost var order: seq<Entry>
    ghost var rank: seq<int>
    ghost var pos: seq<nat>

    function Capacity(): nat {
      Pow2(log2)
    }

    function LoadCap(): nat {
      Pow2(log2) * maxLoadPct / 100
    }

    ghost predicate Valid()
      reads this, slots
    {
      && 2 <= log2 < 64 && 10 <= maxLoadPct <= 90
      && slots.Length == Capacity()
      && size == |order| <= LoadCap()
      && Layout(log2, order, rank, pos)
      && Holds(slots[..], order, rank)
    }

    // The load cap always leaves an empty slot.
    lemma NeverFull()
      requires 2 <= log2 && 10 <= maxLoadPct <= 90
      ensures LoadCap() < Capacity()
    {
      LoadBound(Pow2(log2), maxLoadPct);
    }

    // One more entry is below the cap exactly while it keeps the table within its percentage.
    lemma RoomLeft(n: nat)
      ensures n < LoadCap() <==> 100 * (n + 1) <= Capacity() * maxLoadPct
    {
      Hundredth(n, Pow2(log2) * maxLoadPct);
    }

    constructor (log2: nat, maxLoadPct: nat)
      requires 2 <= log2 < 64 && 10 <= maxLoadPct <= 90
      ensures Valid() && fresh(slots) && order == [] && this.log2 == log2 && this.maxLoadPct == maxLoadPct
      ensures Clean(slots[..])
    {
      this.log2 := log2;
      this.maxLoadPct := maxLoadPct;
      slots := new Entry[Pow2(log2)](_ => Entry(0, 0));
      size := 0;
      order, rank, pos := [], seq(Pow2(log2), _ => EMPTY), [];
    }

    // The probe loop of all three operations: the slot of the key, or the first empty one.
    method Probe(key: nat) returns (i: nat, found: bool)
      requires Valid()
      ensures i < Capacity()
      ensures found ==> key != 0 && 0 <= rank[i] < |order| && slots[i] == order[rank[i]] && slots[i].key == key
      ensures found ==> Index(order, key) == rank[i]
      ensures !found ==> rank[i] == EMPTY && !Has(order, key)
      ensures !found ==> forall r | 0 <= r < |order| :: order[r].key != key
      ensures !found ==> forall v | 0 <= v < Capacity()
                  && Dist(Capacity(), Home(log2, key), v) < Dist(Capacity(), Home(log2, key), i) :: rank[v] >= 0
    {
      hide Home, Pow2, Layout, Next, Dist, LoadCap;
      NeverFull();
      LayoutFacts(log2, order, rank, pos);
      ghost var e := EmptySlot(log2, order, rank, pos);
      ghost var n, h: nat := Capacity(), Home(log2, key);
      i := Home(log2, key);
      DistZero(n, h);
      while slots[i].key != 0
        invariant i < n && Dist(n, h, i) <= Dist(n, h, e)
        invariant forall v | 0 <= v < n && Dist(n, h, v) < Dist(n, h, i) ::
                    rank[v] >= 0 && order[rank[v]].key != key
        decreases n - Dist(n, h, i)
      {
        if slots[i].key == key {
          IndexIs(order, rank[i]);
          return i, true;
        }
        StepOn(n, h, i, e);
        i := Next(Capacity(), i);
      }
      AbsentAtHole(log2, order, rank, pos, key, i);
      return i, false;
    }

    // The value mapped to the key; 0 stands for none.
    method Find(key: nat) returns (val: nat)
      requires Valid()
      ensures val == Lookup(order, key)
    {
      hide Home, Pow2, Layout;
      var i, found := Probe(key);
      val := if found then slots[i].val else 0;
    }

    // Insert or overwrite. False only at the load cap, tested before the key is looked for.
    method Insert(key: nat, val: nat) returns (ok: bool)
      requires Valid() && key != 0
      modifies this, slots
      ensures Valid()
      ensures ok <==> |old(order)| < LoadCap()
      ensures order == if ok then Inserted(old(order), key, val) else old(order)
      ensures !ok ==> slots[..] == old(slots[..])
      ensures SameTable(slots[..], Build(log2, order))
      ensures Clean(old(slots[..])) ==> Clean(slots[..])
    {
      hide Home, Pow2, Layout, Dist, LoadCap;
      if size >= LoadCap() {
        Canonical(log2, order, rank, pos, slots[..]);
        return false;
      }
      var i, found := Probe(key);
      LayoutFacts(log2, order, rank, pos);
      if found {
        OverwriteLayout(log2, order, rank, pos, rank[i], val);
        slots[i] := slots[i].(val := val);
        order := order[rank[i] := Entry(key, val)];
        Canonical(log2, order, rank, pos, slots[..]);
        return true;
      }
      InsertLayout(log2, order, rank, pos, Entry(key, val), i);
      slots[i] := Entry(key, val);
      size := size + 1;
      order, rank, pos := order + [Entry(key, val)], rank[i := |order|], pos + [i];
      Canonical(log2, order, rank, pos, slots[..]);
      return true;
    }

    // Erase with backward-shift compaction: keys and live values are as if the key had never
    // been inserted. The one slot that became empty keeps its old value, so the table is literally
    // the built one exactly when that value is 0 and no dead value was there before.
    method Erase(key: nat) returns (ok: bool, ghost hole: nat)
      requires Valid() && key != 0
      modifies this, slots
      ensures Valid()
      ensures SameTable(slots[..], Build(log2, Erased(old(order), key)))
      ensures ok <==> Has(old(order), key)
      ensures order == Erased(old(order), key)
      ensures ok ==> hole < slots.Length && Vacated(old(slots[..]), slots[..], hole)
      ensures !ok ==> slots[..] == old(slots[..])
      ensures ok ==> forall u | 0 <= u < slots.Length ::
                u == hole <==> Build(log2, old(order))[u].key != 0 && Build(log2, order)[u].key == 0
      ensures ok ==> (slots[..] == Build(log2, order) <==> Clean(old(slots[..])) && old(slots[..])[hole].val == 0)
    {
      hide Home, Pow2, Layout, Dist, LoadCap, Clean, Vacated, SameTable;
      Canonical(log2, order, rank, pos, slots[..]);
      var i, found := Probe(key);
      hole := 0;
      if found {
        hole := CloseGap(i);
        LayoutFacts(log2, order, rank, pos);
        Canonical(log2, order, rank, pos, slots[..]);
        LiteralErase(log2, order, old(slots[..]), slots[..], hole);
        HoleIs(old(slots[..]), slots[..], Build(log2, old(order)), Build(log2, order), hole);
      }
      Canonical(log2, order, rank, pos, slots[..]);
      return found, hole;
    }

    // Shift the successors of slot i0 back over it, as far as their probe paths allow.
    method CloseGap(i0: nat) returns (ghost hole: nat)
      requires Valid() && i0 < Capacity() && 0 <= rank[i0] < |order|
      modifies this, slots
      ensures Valid() && order == Without(old(order), old(rank[i0]))
      ensures hole < slots.Length && Vacated(old(slots[..]), slots[..], hole)
    {
      hide Home, Pow2, OnPath, Shifting, Layout, Dist, HoldsBut, LoadCap, Next, Shifted, Vacated;
      ghost var n, gone := Capacity(), rank[i0];
      NeverFull();
      LayoutFacts(log2, order, rank, pos);
      ghost var e := EmptySlot(log2, order, rank, pos);
      ShiftStart(log2, order, rank, pos, gone);
      HoldsStart(slots[..], order, rank, i0);
      DistZero(n, i0);
      DistPositive(n, i0, e);
      var i, j: nat := i0, i0;
      rank := rank[i := EMPTY];
      ShiftedStart(slots[..], i, e);
      while true
        invariant i < n && j < n && |rank| == n && |pos| == |order|
        invariant order == old(order) && size == old(size)
        invariant Shifting(log2, order, rank, pos, gone, i, j)
        invariant HoldsBut(slots[..], order, rank, i)
        invariant rank[e] == EMPTY && e != i && Dist(n, i, j) < Dist(n, i, e)
        invariant Shifted(old(slots[..]), slots[..], i, j, e)
        decreases Dist(n, j, e)
      {
        Ahead(n, i, j, e);
        ShiftFacts(log2, order, rank, pos, gone, i, j);
        ghost var seen := j;
        j := Next(Capacity(), j);
        HoldsAt(slots[..], order, rank, i, j);
        if slots[j].key == 0 {
          ShiftEnd(log2, order, rank, pos, gone, i, seen);
          ShiftedSkip(old(slots[..]), slots[..], i, seen, j, e);
          break;
        }
        var h: nat := Home(log2, slots[j].key);
        PathTest(log2, order, rank, j, i);
        if Dist(Capacity(), h, j) >= Dist(Capacity(), i, j) {
          ShiftMove(log2, order, rank, pos, gone, i, seen);
          HoldsMove(slots[..], order, rank, i, j);
          ShiftedMove(old(slots[..]), slots[..], i, seen, j, e);
          slots[i] := slots[j];
          pos := pos[rank[j] := i];
          rank := rank[i := rank[j]][j := EMPTY];
          i := j;
          DistZero(n, i);
          DistPositive(n, i, e);
        } else {
          ShiftSkip(log2, order, rank, pos, gone, i, seen);
          ShiftedSkip(old(slots[..]), slots[..], i, seen, j, e);
        }
      }
      EraseLayout(log2, order, rank, pos, gone);
      HoldsEnd(slots[..], order, rank, gone, i);
      ShiftedEnd(old(slots[..]), slots[..], i, j, e);
      slots[i] := slots[i].(key := 0);
      size := size - 1;
      order, rank, pos := Without(order, gone), Renumber(rank, gone), Without(pos, gone);
      hole := i;
    }
  }

  // ---- what an erase leaves behind ----------------------------------------------------------------

  // Empty slots hold value 0, as in a table that was only ever inserted into.
  ghost predicate Clean(slots: seq<Entry>) {
    forall u | 0 <= u < |slots| :: slots[u].key == 0 ==> slots[u].val == 0
  }

  // Occupied before and after, or empty and untouched.
  predicate SameUse(e: Entry, e': Entry) {
    if e.key == 0 then e' == e else e'.key != 0
  }

  // The hole is the one slot that became empty, and only its key was cleared.
  ghost predicate Vacated(s: seq<Entry>, s': seq<Entry>, hole: nat)
    requires hole < |s|
  {
    && |s'| == |s| && s[hole].key != 0 && s'[hole] == Entry(0, s[hole].val)
    && forall u | 0 <= u < |s| && u != hole :: SameUse(s[u], s'[u])
  }

  // Scanning state, against the table before: the hole i still shows what it held, the slots
  // from past j up to e are untouched, and every slot but the hole is used as before.
  ghost predicate Shifted(s0: seq<Entry>, s: seq<Entry>, i: nat, j: nat, e: nat) {
    && |s| == |s0| && i < |s| && j < |s| && e < |s|
    && s[i] == s0[i] && s[i].key != 0
    && (forall u | 0 <= u < |s| && Dist(|s|, u, e) < Dist(|s|, j, e) :: s[u] == s0[u])
    && (forall u | 0 <= u < |s| && u != i :: SameUse(s0[u], s[u]))
  }

  lemma ShiftedStart(s: seq<Entry>, i: nat, e: nat)
    requires i < |s| && e < |s| && s[i].key != 0
    ensures Shifted(s, s, i, i, e)
  {
  }

  lemma ShiftedSkip(s0: seq<Entry>, s: seq<Entry>, i: nat, seen: nat, j: nat, e: nat)
    requires Shifted(s0, s, i, seen, e) && j < |s| && Dist(|s|, j, e) < Dist(|s|, seen, e)
    ensures Shifted(s0, s, i, j, e)
  {
  }

  lemma ShiftedMove(s0: seq<Entry>, s: seq<Entry>, i: nat, seen: nat, j: nat, e: nat)
    requires Shifted(s0, s, i, seen, e) && j < |s| && Dist(|s|, j, e) < Dist(|s|, seen, e)
    requires Dist(|s|, i, seen) < Dist(|s|, i, e) && s[j].key != 0
    ensures Shifted(s0, s[i := s[j]], j, j, e)
  {
  }

  lemma ShiftedEnd(s0: seq<Entry>, s: seq<Entry>, i: nat, j: nat, e: nat)
    requires Shifted(s0, s, i, j, e)
    ensures Vacated(s0, s[i := s[i].(key := 0)], i)
  {
  }

  lemma {:induction false} BuildClean(log2: nat, order: seq<Entry>)
    requires log2 <= 64 && DistinctKeys(order)
    ensures Clean(Build(log2, order))
    decreases |order|
  {
    hide Home, Pow2;
    if order != [] {
      BuildClean(log2, order[..|order| - 1]);
    }
  }

  lemma LiteralErase(log2: nat, order: seq<Entry>, s: seq<Entry>, s': seq<Entry>, hole: nat)
    requires log2 <= 64 && DistinctKeys(order) && SameTable(s', Build(log2, order))
    requires hole < |s| && Vacated(s, s', hole)
    ensures s' == Build(log2, order) <==> Clean(s) && s[hole].val == 0
  {
    hide Build, Pow2;
    BuildClean(log2, order);
    assert forall u | 0 <= u < |s| && u != hole :: SameUse(s[u], s'[u]);
    if Clean(s) && s[hole].val == 0 {
      forall u | 0 <= u < |s|
        ensures s'[u] == Build(log2, order)[u]
      {
        assert u != hole ==> SameUse(s[u], s'[u]);
      }
    }
  }

  lemma HoleIs(s: seq<Entry>, s': seq<Entry>, t: seq<Entry>, t': seq<Entry>, hole: nat)
    requires SameTable(s, t) && SameTable(s', t') && hole < |s| && Vacated(s, s', hole)
    ensures |t| == |t'| == |s|
    ensures forall u | 0 <= u < |s| :: u == hole <==> t[u].key != 0 && t'[u].key == 0
  {
    assert forall u | 0 <= u < |s| && u != hole :: SameUse(s[u], s'[u]);
  }

  // One insert and one erase of the same key with a non-zero value leave a table that is not
  // the table the key never entered.
  method DeadValueStays(log2: nat, maxLoadPct: nat, key: nat, val: nat) returns (m: FlatHashMap)
    requires 2 <= log2 < 64 && 10 <= maxLoadPct <= 90 && Pow2(log2) * maxLoadPct / 100 > 0
    requires key != 0 && val != 0
    ensures fresh(m) && m.Valid() && m.order == []
    ensures m.slots[..] != Build(log2, [])
  {
    m := new FlatHashMap(log2, maxLoadPct);
    var inserted := m.Insert(key, val);
    assert m.order == [Entry(key, val)];
    ghost var full := m.slots[..];
    assert forall u | 0 <= u < |full| :: full[u].key != 0 ==> full[u].val == val;
    var erased, hole := m.Erase(key);
  }

  // The slots agree with the ranks everywhere but at the hole.
  ghost predicate HoldsBut(slots: seq<Entry>, order: seq<Entry>, rank: seq<int>, hole: nat) {
    && |slots| == |rank|
    && forall u | 0 <= u < |slots| && u != hole ::
         && rank[u] < |order|
         && if rank[u] >= 0 then slots[u] == order[rank[u]] else slots[u].key == 0
  }

  lemma HoldsStart(slots: seq<Entry>, order: seq<Entry>, rank: seq<int>, i: nat)
    requires Holds(slots, order, rank) && i < |slots|
    ensures HoldsBut(slots, order, rank[i := EMPTY], i)
  {
  }

  lemma HoldsAt(slots: seq<Entry>, order: seq<Entry>, rank: seq<int>, hole: nat, u: nat)
    requires HoldsBut(slots, order, rank, hole) && u < |slots| && u != hole
    requires DistinctKeys(order)
    ensures |rank| == |slots| && rank[u] < |order|
    ensures slots[u].key != 0 <==> rank[u] >= 0
    ensures rank[u] >= 0 ==> slots[u] == order[rank[u]]
  {
  }

  lemma HoldsMove(slots: seq<Entry>, order: seq<Entry>, rank: seq<int>, i: nat, j: nat)
    requires HoldsBut(slots, order, rank, i) && i < |slots| && j < |slots| && i != j && rank[j] >= 0
    ensures HoldsBut(slots[i := slots[j]], order, rank[i := rank[j]][j := EMPTY], j)
  {
  }

  lemma HoldsEnd(slots: seq<Entry>, order: seq<Entry>, rank: seq<int>, gone: nat, i: nat)
    requires HoldsBut(slots, order, rank, i) && i < |slots| && rank[i] == EMPTY && gone < |order|
    requires forall u | 0 <= u < |rank| :: rank[u] != gone && EMPTY <= rank[u]
    ensures Holds(slots[i := slots[i].(key := 0)], Without(order, gone), Renumber(rank, gone))
  {
    var order' := Without(order, gone);
    assert forall r | 0 <= r < |order'| :: order'[r] == order[if r < gone then r else r + 1];
  }

  lemma ShiftFacts(log2: nat, order: seq<Entry>, rank: seq<int>, pos: seq<nat>, gone: nat, i: nat, j: nat)
    requires Shifting(log2, order, rank, pos, gone, i, j)
    ensures DistinctKeys(order) && Inverse(Pow2(log2), |order|, rank, pos, gone) && rank[i] == EMPTY
    ensures forall u | 0 <= u < |rank| :: rank[u] != gone && EMPTY <= rank[u]
  {
  }

  lemma LayoutFacts(log2: nat, order: seq<Entry>, rank: seq<int>, pos: seq<nat>)
    requires Layout(log2, order, rank, pos)
    ensures |rank| == Pow2(log2) && |pos| == |order| && DistinctKeys(order)
    ensures forall u | 0 <= u < |rank| :: rank[u] == EMPTY || (0 <= rank[u] < |order| && pos[rank[u]] == u)
  {
  }

  // The hole lies on the path of the entry at j iff the entry's home is at least as far back
  // from j as the hole is.
  lemma PathTest(log2: nat, order: seq<Entry>, rank: seq<int>, j: nat, i: nat)
    requires log2 <= 64 && |rank| == Pow2(log2) && i < Pow2(log2) && j < Pow2(log2) && i != j
    ensures var h := HomeOf(log2, order, rank[j]);
            Dist(Pow2(log2), h, j) >= Dist(Pow2(log2), i, j) <==> OnPath(log2, order, rank, j, i)
  {
    hide Home, Pow2;
  }

  // One step past j is not yet past the empty slot e, and not back at i.
  lemma Ahead(n: nat, i: nat, j: nat, e: nat)
    requires i < n && j < n && e < n && Dist(n, i, j) < Dist(n, i, e)
    ensures var next := Next(n, j);
            next != i && Dist(n, i, next) == Dist(n, i, j) + 1 && Dist(n, next, e) < Dist(n, j, e)
    ensures Next(n, j) != e ==> Dist(n, i, Next(n, j)) < Dist(n, i, e) && Next(n, j) != e
  {
  }

  lemma DistZero(n: nat, a: nat)
    requires a < n
    ensures Dist(n, a, a) == 0
    ensures forall v | 0 <= v < n :: Dist(n, a, v) >= 0
  {
  }

  lemma DistPositive(n: nat, a: nat, b: nat)
    requires a < n && b < n && a != b
    ensures Dist(n, a, b) > 0
  {
  }

  lemma Hundredth(n: nat, x: nat)
    ensures n < x / 100 <==> 100 * (n + 1) <= x
  {
  }

  lemma LoadBound(p: nat, pct: nat)
    requires p > 0 && pct <= 90
    ensures p * pct / 100 < p
  {
    assert p * pct <= p * 90;
  }

  lemma StepOn(n: nat, h: nat, i: nat, e: nat)
    requires h < n && i < n && e < n && Dist(n, h, i) <= Dist(n, h, e) && i != e
    ensures Dist(n, h, Next(n, i)) == Dist(n, h, i) + 1 <= Dist(n, h, e)
    ensures forall v | 0 <= v < n && Dist(n, h, v) == Dist(n, h, i) :: v == i
  {
  }
}
