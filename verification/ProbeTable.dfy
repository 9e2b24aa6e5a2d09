/**
 Linear probing on a cyclic table, seen through history. `order` lists the live entries by
 their latest fresh insertion; rank[u] is the history index of the entry in slot u, -1 when
 the slot is empty; pos is the inverse. The one fact that carries everything: each slot an
 entry's probe path crosses is held by an EARLIER entry.
 */
module ProbeTable {
  import opened Types

  datatype Entry = Entry(key: nat, val: nat)

  const EMPTY: int := -1

  function Pow2(k: nat): (p: nat)
    ensures p > 0
  {
    if k == 0 then 1 else 2 * Pow2(k - 1)
  }

  lemma {:induction false} Pow2Split(a: nat, b: nat)
    ensures Pow2(a + b) == Pow2(a) * Pow2(b)
  {
    if b > 0 {
      Pow2Split(a, b - 1);
      assert Pow2(a) * (2 * Pow2(b - 1)) == 2 * (Pow2(a) * Pow2(b - 1));
    }
  }

  // key * 2^64/phi, modulo 2^64.
  function Mixed(key: nat): (x: nat)
    ensures x < TWO64
  {
    (key * 0x9E37_79B9_7F4A_7C15) % TWO64
  }

  // Multiply-shift hashing: the top log2 bits of the product.
  function Home(log2: nat, key: nat): (h: nat)
    requires log2 <= 64
    ensures h < Pow2(log2)
  {
    hide Pow2, Mixed;
    HomeBound(log2, Mixed(key));
    Mixed(key) / Pow2(64 - log2)
  }

  // The home slot is the top log2 bits of the 64-bit product.
  lemma HomeIsTopBits(log2: nat, key: nat)
    requires log2 <= 64
    ensures var x, unit := (key * 0x9E37_79B9_7F4A_7C15) % 0x1_0000_0000_0000_0000, Pow2(64 - log2);
            Home(log2, key) * unit <= x < Home(log2, key) * unit + unit
  {
    hide Pow2;
    QuotientIs(Mixed(key), Pow2(64 - log2));
  }

  lemma QuotientIs(x: nat, q: nat)
    requires q > 0
    ensures x / q * q <= x < x / q * q + q
  {
  }

  lemma HomeBound(log2: nat, x: nat)
    requires log2 <= 64 && x < TWO64
    ensures x / Pow2(64 - log2) < Pow2(log2)
  {
    TwoTo64();
    Pow2Split(log2, 64 - log2);
    QuotientBound(x, Pow2(log2), Pow2(64 - log2));
  }

  lemma TwoTo64()
    ensures Pow2(64) == TWO64
  {
    assert Pow2(8) == 256;
    Pow2Split(8, 8);
    Pow2Split(16, 16);
    Pow2Split(32, 32);
  }

  lemma QuotientBound(x: nat, p: nat, q: nat)
    requires q > 0 && x < p * q
    ensures x / q < p
  {
  }

  // ---- the cycle of slots ----------------------------------------------------------------------

  function Next(n: nat, i: nat): (r: nat)
    requires i < n
    ensures r < n
  {
    if i + 1 == n then 0 else i + 1
  }

  // Steps from a forward to b.
  function Dist(n: nat, a: nat, b: nat): (d: nat)
    requires a < n && b < n
    ensures d < n
  {
    if a <= b then b - a else b - a + n
  }

  // ---- the history invariant ---------------------------------------------------------------------

  function HomeOf(log2: nat, order: seq<Entry>, r: int): (h: nat)
    requires log2 <= 64
    ensures h < Pow2(log2)
  {
    if 0 <= r < |order| then Home(log2, order[r].key) else 0
  }

  // Slot v lies on the probe path that led the entry in slot u there.
  ghost predicate OnPath(log2: nat, order: seq<Entry>, rank: seq<int>, u: nat, v: nat)
    requires log2 <= 64 && u < Pow2(log2) && v < Pow2(log2) && |rank| == Pow2(log2)
  {
    var h := HomeOf(log2, order, rank[u]);
    Dist(Pow2(log2), h, v) < Dist(Pow2(log2), h, u)
  }

  ghost predicate DistinctKeys(order: seq<Entry>) {
    && (forall r | 0 <= r < |order| :: order[r].key != 0)
    && (forall q, r | 0 <= q < r < |order| :: order[q].key != order[r].key)
  }

  // Ranks and positions are inverse to each other; rank `gone` may be missing.
  ghost predicate Inverse(n: nat, m: nat, rank: seq<int>, pos: seq<nat>, gone: int) {
    && |rank| == n && |pos| == m
    && (forall u | 0 <= u < n :: rank[u] == EMPTY || (0 <= rank[u] < m && rank[u] != gone))
    && (forall u | 0 <= u < n :: rank[u] >= 0 ==> pos[rank[u]] == u)
    && (forall r | 0 <= r < m && r != gone :: pos[r] < n && rank[pos[r]] == r)
  }

  ghost predicate Earlier(log2: nat, order: seq<Entry>, rank: seq<int>)
    requires log2 <= 64
  {
    && |rank| == Pow2(log2)
    && forall u, v | 0 <= u < Pow2(log2) && 0 <= v < Pow2(log2) && rank[u] >= 0 && OnPath(log2, order, rank, u, v) ::
         0 <= rank[v] < rank[u]
  }

  ghost predicate Layout(log2: nat, order: seq<Entry>, rank: seq<int>, pos: seq<nat>) {
    && log2 <= 64
    && DistinctKeys(order)
    && Inverse(Pow2(log2), |order|, rank, pos, EMPTY)
    && Earlier(log2, order, rank)
  }

  // The slots hold the entries the ranks name, and key 0 where nothing is.
  ghost predicate Holds(slots: seq<Entry>, order: seq<Entry>, rank: seq<int>) {
    && |slots| == |rank|
    && forall u | 0 <= u < |slots| ::
         && rank[u] < |order|
         && if rank[u] >= 0 then slots[u] == order[rank[u]] else slots[u].key == 0
  }

  // ---- an empty slot remains -----------------------------------------------------------------------

  lemma {:induction false} Pigeonhole(s: seq<int>, m: nat)
    requires forall i | 0 <= i < |s| :: 0 <= s[i] < m
    requires forall i, j | 0 <= i < j < |s| :: s[i] != s[j]
    ensures |s| <= m
    decreases m
  {
    if s == [] {
    } else if k :| 0 <= k < |s| && s[k] == m - 1 {
      var t := s[..k] + s[k + 1..];
      forall i | 0 <= i < |t|
        ensures 0 <= t[i] < m - 1
      {
        assert t[i] == if i < k then s[i] else s[i + 1];
      }
      Pigeonhole(t, m - 1);
    } else {
      assert 0 <= s[0] < m;
      Pigeonhole(s, m - 1);
    }
  }

  lemma EmptySlot(log2: nat, order: seq<Entry>, rank: seq<int>, pos: seq<nat>) returns (e: nat)
    requires Layout(log2, order, rank, pos) && |order| < Pow2(log2)
    ensures e < Pow2(log2) && rank[e] == EMPTY
  {
    if forall u | 0 <= u < |rank| :: rank[u] >= 0 {
      Pigeonhole(rank, |order|);
    }
    e :| e < |rank| && rank[e] < 0;
  }

  // ---- probing ----------------------------------------------------------------------------------

  // If the probe of `key` meets an empty slot at i after no match, the key is absent.
  lemma AbsentAtHole(log2: nat, order: seq<Entry>, rank: seq<int>, pos: seq<nat>, key: nat, i: nat)
    requires Layout(log2, order, rank, pos) && i < Pow2(log2) && rank[i] == EMPTY
    requires forall v | 0 <= v < Pow2(log2) && 0 <= rank[v] < |order|
                        && Dist(Pow2(log2), Home(log2, key), v) < Dist(Pow2(log2), Home(log2, key), i) ::
               order[rank[v]].key != key
    ensures forall r | 0 <= r < |order| :: order[r].key != key
  {
    hide Home, Pow2;
    forall r | 0 <= r < |order|
      ensures order[r].key != key
    {
      assert rank[pos[r]] == r && !OnPath(log2, order, rank, pos[r], i);
    }
  }

  // ---- insertion ----------------------------------------------------------------------------------

  lemma InsertLayout(log2: nat, order: seq<Entry>, rank: seq<int>, pos: seq<nat>, e: Entry, i: nat)
    requires Layout(log2, order, rank, pos) && e.key != 0
    requires forall r | 0 <= r < |order| :: order[r].key != e.key
    requires i < Pow2(log2) && rank[i] == EMPTY
    requires forall v | 0 <= v < Pow2(log2)
                        && Dist(Pow2(log2), Home(log2, e.key), v) < Dist(Pow2(log2), Home(log2, e.key), i) ::
               rank[v] >= 0
    ensures Layout(log2, order + [e], rank[i := |order|], pos + [i])
  {
    hide Home, Pow2;
    var n := Pow2(log2);
    var order', rank' := order + [e], rank[i := |order|];
    forall u, v | 0 <= u < n && 0 <= v < n && rank'[u] >= 0 && OnPath(log2, order', rank', u, v)
      ensures 0 <= rank'[v] < rank'[u]
    {
      if u != i {
        assert HomeOf(log2, order', rank'[u]) == HomeOf(log2, order, rank[u]);
        assert OnPath(log2, order, rank, u, v);
      }
    }
  }

  // Overwriting a value keeps the history.
  lemma OverwriteLayout(log2: nat, order: seq<Entry>, rank: seq<int>, pos: seq<nat>, r: nat, val: nat)
    requires Layout(log2, order, rank, pos) && r < |order|
    ensures Layout(log2, order[r := order[r].(val := val)], rank, pos)
  {
    var order' := order[r := order[r].(val := val)];
    forall u, v | 0 <= u < Pow2(log2) && 0 <= v < Pow2(log2) && rank[u] >= 0 && OnPath(log2, order', rank, u, v)
      ensures 0 <= rank[v] < rank[u]
    {
      assert OnPath(log2, order, rank, u, v);
    }
  }

  // ---- backward-shift deletion ---------------------------------------------------------------------

  // Scanning state: slot i is a hole, entries from just past i up to j have been looked at, and
  // only entries beyond j may still have the hole on their path. Rank `gone` left the table.
  ghost predicate Shifting(log2: nat, order: seq<Entry>, rank: seq<int>, pos: seq<nat>, gone: nat, i: nat, j: nat) {
    && log2 <= 64 && i < Pow2(log2) && j < Pow2(log2) && gone < |order|
    && DistinctKeys(order)
    && Inverse(Pow2(log2), |order|, rank, pos, gone)
    && rank[i] == EMPTY
    && (forall v | 0 <= v < Pow2(log2) && 0 < Dist(Pow2(log2), i, v) <= Dist(Pow2(log2), i, j) :: rank[v] >= 0)
    && (forall u, v | 0 <= u < Pow2(log2) && 0 <= v < Pow2(log2) && rank[u] >= 0 && OnPath(log2, order, rank, u, v) ::
          || 0 <= rank[v] < rank[u]
          || (v == i && Dist(Pow2(log2), i, j) < Dist(Pow2(log2), i, u)))
  }

  lemma ShiftStart(log2: nat, order: seq<Entry>, rank: seq<int>, pos: seq<nat>, gone: nat)
    requires Layout(log2, order, rank, pos) && gone < |order|
    ensures Shifting(log2, order, rank[pos[gone] := EMPTY], pos, gone, pos[gone], pos[gone])
  {
    hide Pow2, Home;
    var n, i := Pow2(log2), pos[gone];
    var rank' := rank[i := EMPTY];
    forall u, v | 0 <= u < n && 0 <= v < n && rank'[u] >= 0 && OnPath(log2, order, rank', u, v)
      ensures 0 <= rank'[v] < rank'[u] || (v == i && Dist(n, i, i) < Dist(n, i, u))
    {
      assert OnPath(log2, order, rank, u, v);
    }
  }

  // The entry in slot j does not have the hole on its path: it stays.
  lemma ShiftSkip(log2: nat, order: seq<Entry>, rank: seq<int>, pos: seq<nat>, gone: nat, i: nat, j: nat)
    requires Shifting(log2, order, rank, pos, gone, i, j)
    requires var j' := Next(Pow2(log2), j); j' != i && rank[j'] >= 0 && !OnPath(log2, order, rank, j', i)
    ensures Shifting(log2, order, rank, pos, gone, i, Next(Pow2(log2), j))
  {
    hide Pow2, Home;
    var n := Pow2(log2);
    var j' := Next(n, j);
    assert Dist(n, i, j') == Dist(n, i, j) + 1;
    forall u, v | 0 <= u < n && 0 <= v < n && rank[u] >= 0 && OnPath(log2, order, rank, u, v)
      ensures 0 <= rank[v] < rank[u] || (v == i && Dist(n, i, j') < Dist(n, i, u))
    {
      if v == i && u != j' && Dist(n, i, u) == Dist(n, i, j') {
        SameDist(n, i, u, j');
      }
    }
    forall v | 0 <= v < n && 0 < Dist(n, i, v) <= Dist(n, i, j')
      ensures rank[v] >= 0
    {
      if Dist(n, i, v) == Dist(n, i, j') {
        SameDist(n, i, v, j');
      }
    }
  }

  lemma SameDist(n: nat, a: nat, b: nat, c: nat)
    requires a < n && b < n && c < n && Dist(n, a, b) == Dist(n, a, c)
    ensures b == c
  {
  }

  // The entry in slot j has the hole on its path: it moves back, and j becomes the hole.
  lemma ShiftMove(log2: nat, order: seq<Entry>, rank: seq<int>, pos: seq<nat>, gone: nat, i: nat, j: nat)
    requires Shifting(log2, order, rank, pos, gone, i, j)
    requires var j' := Next(Pow2(log2), j); j' != i && rank[j'] >= 0 && OnPath(log2, order, rank, j', i)
    ensures var j' := Next(Pow2(log2), j);
            Shifting(log2, order, rank[i := rank[j']][j' := EMPTY], pos[rank[j'] := i], gone, j', j')
  {
    hide Pow2, Home;
    var n := Pow2(log2);
    var j' := Next(n, j);
    var rank' := rank[i := rank[j']][j' := EMPTY];
    assert Dist(n, i, j') == Dist(n, i, j) + 1;
    forall u, v | 0 <= u < n && 0 <= v < n && rank'[u] >= 0 && OnPath(log2, order, rank', u, v)
      ensures 0 <= rank'[v] < rank'[u] || (v == j' && Dist(n, j', j') < Dist(n, j', u))
    {
      if u == i {
        assert OnPath(log2, order, rank, j', v);
      } else {
        assert OnPath(log2, order, rank, u, v);
        if v == i {
          Beyond(n, HomeOf(log2, order, rank[u]), i, j', u);
          assert OnPath(log2, order, rank, u, j');
        }
      }
    }
  }

  // A path that crosses i and ends beyond j crosses j as well.
  lemma Beyond(n: nat, h: nat, i: nat, j: nat, u: nat)
    requires h < n && i < n && j < n && u < n
    requires Dist(n, h, i) < Dist(n, h, u) && Dist(n, i, j) < Dist(n, i, u)
    ensures Dist(n, h, j) < Dist(n, h, u)
  {
  }

  // At the end of the chain no path crosses the hole any more.
  lemma ShiftEnd(log2: nat, order: seq<Entry>, rank: seq<int>, pos: seq<nat>, gone: nat, i: nat, j: nat)
    requires Shifting(log2, order, rank, pos, gone, i, j)
    requires var j' := Next(Pow2(log2), j); j' != i && rank[j'] == EMPTY
    ensures Earlier(log2, order, rank)
  {
    hide Pow2, Home;
    var n := Pow2(log2);
    var j' := Next(n, j);
    assert Dist(n, i, j') == Dist(n, i, j) + 1;
    forall u, v | 0 <= u < n && 0 <= v < n && rank[u] >= 0 && OnPath(log2, order, rank, u, v)
      ensures 0 <= rank[v] < rank[u]
    {
      assert !OnPath(log2, order, rank, u, j');
      if v == i && Dist(n, i, j) < Dist(n, i, u) {
        if Dist(n, i, u) == Dist(n, i, j') {
          SameDist(n, i, u, j');
        }
        Beyond(n, HomeOf(log2, order, rank[u]), i, j', u);
      }
    }
  }

  // ---- renumbering the history without the erased entry ------------------------------------------------

  function Without<T>(s: seq<T>, r: nat): seq<T>
    requires r < |s|
  {
    s[..r] + s[r + 1..]
  }

  function Renumber(rank: seq<int>, gone: nat): (r: seq<int>)
    ensures |r| == |rank|
    ensures forall u | 0 <= u < |rank| :: r[u] == if rank[u] > gone then rank[u] - 1 else rank[u]
  {
    seq(|rank|, u requires 0 <= u < |rank| => if rank[u] > gone then rank[u] - 1 else rank[u])
  }

  lemma EraseLayout(log2: nat, order: seq<Entry>, rank: seq<int>, pos: seq<nat>, gone: nat)
    requires log2 <= 64 && DistinctKeys(order) && gone < |order|
    requires Inverse(Pow2(log2), |order|, rank, pos, gone) && Earlier(log2, order, rank)
    ensures Layout(log2, Without(order, gone), Renumber(rank, gone), Without(pos, gone))
  {
    hide Pow2, Home;
    var n := Pow2(log2);
    var order', rank', pos' := Without(order, gone), Renumber(rank, gone), Without(pos, gone);
    assert forall r | 0 <= r < |order'| :: order'[r] == order[if r < gone then r else r + 1];
    assert forall r | 0 <= r < |order'| :: pos'[r] == pos[if r < gone then r else r + 1];
    forall r | 0 <= r < |order'|
      ensures pos'[r] < n && rank'[pos'[r]] == r
    {
      var r0 := if r < gone then r else r + 1;
      assert rank[pos[r0]] == r0;
    }
    forall u | 0 <= u < n && rank[u] >= 0
      ensures order'[rank'[u]] == order[rank[u]]
    {
    }
    forall u, v | 0 <= u < n && 0 <= v < n && rank'[u] >= 0 && OnPath(log2, order', rank', u, v)
      ensures 0 <= rank'[v] < rank'[u]
    {
      assert HomeOf(log2, order', rank'[u]) == HomeOf(log2, order, rank[u]);
      assert OnPath(log2, order, rank, u, v);
    }
  }

  // ---- the table is a function of the history ------------------------------------------------------

  // The first empty slot met from i on, within `steps` steps.
  function ProbeFree(slots: seq<Entry>, i: nat, steps: nat): (r: nat)
    requires i < |slots|
    ensures r < |slots|
    decreases steps
  {
    if steps == 0 || slots[i].key == 0 then i else ProbeFree(slots, Next(|slots|, i), steps - 1)
  }

  // The table made by inserting these entries, in this order, and nothing else.
  function Build(log2: nat, order: seq<Entry>): (t: seq<Entry>)
    requires log2 <= 64
    ensures |t| == Pow2(log2)
  {
    if order == [] then seq(Pow2(log2), i => Entry(0, 0))
    else
      var t := Build(log2, order[..|order| - 1]);
      var e := order[|order| - 1];
      t[ProbeFree(t, Home(log2, e.key), Pow2(log2)) := e]
  }

  // Equal keys everywhere, equal values in occupied slots.
  ghost predicate SameTable(s: seq<Entry>, t: seq<Entry>) {
    && |s| == |t|
    && forall u | 0 <= u < |s| :: s[u].key == t[u].key && (s[u].key != 0 ==> s[u] == t[u])
  }

  lemma {:induction false} ProbeFreeIs(t: seq<Entry>, h: nat, i: nat, p: nat, steps: nat)
    requires h < |t| && i < |t| && p < |t| && t[p].key == 0
    requires Dist(|t|, h, i) <= Dist(|t|, h, p) && Dist(|t|, i, p) <= steps
    requires forall v | 0 <= v < |t| && Dist(|t|, h, v) < Dist(|t|, h, p) :: t[v].key != 0
    ensures ProbeFree(t, i, steps) == p
    decreases steps
  {
    if i != p {
      if Dist(|t|, h, i) == Dist(|t|, h, p) {
        SameDist(|t|, h, i, p);
      }
      ProbeFreeIs(t, h, Next(|t|, i), p, steps - 1);
    }
  }

  // Forgetting the latest insertion leaves a table with a shorter history.
  lemma DropLast(log2: nat, order: seq<Entry>, rank: seq<int>, pos: seq<nat>)
    requires Layout(log2, order, rank, pos) && order != []
    ensures var m := |order| - 1;
            Layout(log2, order[..m], rank[pos[m] := EMPTY], pos[..m])
  {
    hide Pow2, Home;
    var n, m := Pow2(log2), |order| - 1;
    var order', rank' := order[..m], rank[pos[m] := EMPTY];
    forall u, v | 0 <= u < n && 0 <= v < n && rank'[u] >= 0 && OnPath(log2, order', rank', u, v)
      ensures 0 <= rank'[v] < rank'[u]
    {
      assert HomeOf(log2, order', rank'[u]) == HomeOf(log2, order, rank[u]);
      assert OnPath(log2, order, rank, u, v);
    }
  }

  // Whatever inserts, overwrites and erases led here, the occupied slots are those of the
  // table built from the live entries alone, in the order of their latest fresh insertion.
  lemma {:induction false} Canonical(log2: nat, order: seq<Entry>, rank: seq<int>, pos: seq<nat>, slots: seq<Entry>)
    requires Layout(log2, order, rank, pos) && Holds(slots, order, rank)
    ensures SameTable(slots, Build(log2, order))
    decreases |order|
  {
    hide Home, Pow2;
    if order != [] {
      var n, m := Pow2(log2), |order| - 1;
      var p, e := pos[m], order[m];
      DropLast(log2, order, rank, pos);
      var slots' := slots[p := Entry(0, 0)];
      Canonical(log2, order[..m], rank[p := EMPTY], pos[..m], slots');
      var t := Build(log2, order[..m]);
      var h := Home(log2, e.key);
      assert rank[p] == m;
      forall v | 0 <= v < n && Dist(n, h, v) < Dist(n, h, p)
        ensures t[v].key != 0
      {
        assert OnPath(log2, order, rank, p, v);
        assert slots'[v].key == t[v].key;
      }
      assert slots'[p].key == t[p].key;
      ProbeFreeIs(t, h, h, p, n);
      assert Build(log2, order) == t[p := e];
    }
  }
}
