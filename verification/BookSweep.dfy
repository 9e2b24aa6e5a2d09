/**
 The state in the middle of a level sweep. `rest` is what the walk has not passed yet: a
 chain whose head still points back to the last maker passed (`before`). `rel` is the side
 chain of icebergs reloaded during this sweep. The level's head is stale; its tail still is
 the tail of `rest`. The naive queue at this moment is rest + rel.
 */
module BookSweep {
  import opened Types
  import opened BookSpec
  import opened BookInvariant
  import opened BookRep
  import opened MemoryPools

  ghost predicate Sweeping(cells: Arena, levels: seq<PriceLevel>, b: Book, maker: Side, idx: nat,
                           rest: Queue, rel: Queue, before: int)
  {
    && |levels| == |b.bids| == |b.asks| && idx < |levels|
    && Own(b, maker)[idx] == rest + rel && Own(b, maker.Opposite())[idx] == []
    && LadderRep(cells, levels, b, idx)
    && Chain(cells, rest, maker, b.base + idx, before)
    && Chain(cells, rel, maker, b.base + idx, NULL)
    && Distinct(rest + rel)
    && levels[idx].total == Visible(rest + rel)
    && (rest != [] ==> levels[idx].tail == SlotAt(rest, |rest| - 1))
  }

  lemma SweepStart(cells: Arena, levels: seq<PriceLevel>, b: Book, maker: Side, idx: nat)
    requires Sound(b) && LadderRep(cells, levels, b, -1) && idx < |levels| && Own(b, maker)[idx] != []
    ensures Sweeping(cells, levels, b, maker, idx, Own(b, maker)[idx], [], NULL)
    ensures levels[idx].head == SlotAt(Own(b, maker)[idx], 0)
  {
    var c := Own(b, maker)[idx];
    Neighbours(cells, levels, b, At(maker, idx, 0));
    assert c + [] == c;
  }

  // The maker at the head of the walk.
  lemma HeadCell(cells: Arena, levels: seq<PriceLevel>, b: Book, maker: Side, idx: nat,
                 rest: Queue, rel: Queue, before: int)
    requires Sweeping(cells, levels, b, maker, idx, rest, rel, before) && rest != []
    ensures rest[0].slot < |cells| && idx < |levels| && idx < |Own(b, maker)|
    ensures cells[rest[0].slot] == Live(OrderOf(rest, 0, maker, b.base + idx, before))
    ensures Own(b, maker)[idx] == [rest[0]] + (rest[1..] + rel)
    ensures forall k | 0 <= k < |rel| ::
              rel[k].slot < |cells| && rel[k].slot != rest[0].slot && cells[rel[k].slot].Live?
              && cells[rel[k].slot].obj.price == b.base + idx
    ensures forall k | 1 <= k < |rest| :: rest[k].slot != rest[0].slot
  {
    assert ChainAt(cells, rest, 0, maker, b.base + idx, before);
    forall k | 0 <= k < |rel|
      ensures rel[k].slot < |cells| && rel[k].slot != rest[0].slot && cells[rel[k].slot].Live?
              && cells[rel[k].slot].obj.price == b.base + idx
    {
      assert ChainAt(cells, rel, k, maker, b.base + idx, NULL);
      assert (rest + rel)[|rest| + k] == rel[k] && (rest + rel)[0] == rest[0];
    }
    forall k | 1 <= k < |rest|
      ensures rest[k].slot != rest[0].slot
    {
      assert (rest + rel)[k] == rest[k] && (rest + rel)[0] == rest[0];
    }
  }

  // Past the head, the chain is unaffected by whatever happens to the head's cell.
  lemma TailChain(cells: Arena, cells': Arena, c: Queue, side: Side, price: Price, before: int)
    requires Chain(cells, c, side, price, before) && c != [] && |cells'| == |cells|
    requires forall k | 1 <= k < |c| :: c[k].slot < |cells| ==> cells'[c[k].slot] == cells[c[k].slot]
    ensures Chain(cells', c[1..], side, price, c[0].slot)
  {
    forall k | 0 <= k < |c| - 1
      ensures ChainAt(cells', c[1..], k, side, price, c[0].slot)
    {
      assert ChainAt(cells, c, k + 1, side, price, before);
    }
  }

  // What is left of the maker queue after a fill, and how the ladder frames it.
  lemma SweepFrame(cells: Arena, cells': Arena, levels: seq<PriceLevel>, b: Book, b': Book,
                   maker: Side, idx: nat, total: Qty)
    requires LadderRep(cells, levels, b, idx) && idx < |levels| && |cells'| == |cells| && SameShape(b, b')
    requires forall s: nat | Elsewhere(cells, s, b.base + idx) :: cells'[s] == cells[s]
    requires Own(b', maker.Opposite()) == Own(b, maker.Opposite())
    requires forall i | 0 <= i < |levels| && i != idx :: Own(b', maker)[i] == Own(b, maker)[i]
    ensures LadderRep(cells', levels[idx := levels[idx].(total := total)], b', idx)
  {
    var levels' := levels[idx := levels[idx].(total := total)];
    forall i | 0 <= i < |levels| && i != idx
      ensures levels'[i] == levels[i] && b'.bids[i] == b.bids[i] && b'.asks[i] == b.asks[i]
    {
      assert Own(b', maker)[i] == Own(b, maker)[i];
    }
    OthersFrame(cells, cells', levels, levels', b, b', idx);
  }

  lemma PartialStep(cells: Arena, levels: seq<PriceLevel>, b: Book, maker: Side, idx: nat,
                    rest: Queue, rel: Queue, before: int, qty: Qty)
    requires Sweeping(cells, levels, b, maker, idx, rest, rel, before)
    requires rest != [] && 0 < qty < rest[0].qty
    requires rest[0].slot < |cells| && cells[rest[0].slot].Live?
    ensures Sweeping(cells[rest[0].slot := Live(cells[rest[0].slot].obj.(qty := rest[0].qty - qty))],
                     levels[idx := levels[idx].(total := levels[idx].total - qty)],
                     FillHead(b, maker, idx, qty).book, maker, idx,
                     Replace(rest, 0, rest[0].(qty := rest[0].qty - qty)), rel, before)
  {
    hide Chain, LadderRep;
    var s := rest[0].slot;
    var cells' := cells[s := Live(cells[s].obj.(qty := rest[0].qty - qty))];
    var rest' := Replace(rest, 0, rest[0].(qty := rest[0].qty - qty));
    var b' := FillHead(b, maker, idx, qty).book;
    HeadCell(cells, levels, b, maker, idx, rest, rel, before);
    assert forall k | 0 <= k < |rest| :: (rest + rel)[k] == rest[k];
    ResizeChain(cells, rest, maker, b.base + idx, before, 0, rest'[0]);
    ChainFrame(cells, cells', rel, maker, b.base + idx, NULL);
    SweepFrame(cells, cells', levels, b, b', maker, idx, levels[idx].total - qty);
    assert rest' + rel == [rest'[0]] + (rest[1..] + rel);
    VisibleReplace(rest + rel, 0, rest'[0]);
    assert Replace(rest + rel, 0, rest'[0]) == rest' + rel;
  }

  lemma ReleaseStep(cells: Arena, levels: seq<PriceLevel>, b: Book, maker: Side, idx: nat,
                    rest: Queue, rel: Queue, before: int, qty: Qty, next: int)
    requires Sweeping(cells, levels, b, maker, idx, rest, rel, before)
    requires rest != [] && rest[0].qty <= qty && rest[0].hidden == 0
    requires rest[0].slot < |cells|
    ensures Sweeping(cells[rest[0].slot := Cell.Free(next)],
                     levels[idx := levels[idx].(total := levels[idx].total - rest[0].qty)],
                     FillHead(b, maker, idx, qty).book, maker, idx, rest[1..], rel, rest[0].slot)
  {
    hide Chain, LadderRep;
    var s := rest[0].slot;
    var cells' := cells[s := Cell.Free(next)];
    var b' := FillHead(b, maker, idx, qty).book;
    HeadCell(cells, levels, b, maker, idx, rest, rel, before);
    TailChain(cells, cells', rest, maker, b.base + idx, before);
    ChainFrame(cells, cells', rel, maker, b.base + idx, NULL);
    SweepFrame(cells, cells', levels, b, b', maker, idx, levels[idx].total - rest[0].qty);
    assert (rest + rel)[1..] == rest[1..] + rel;
    assert Own(b', maker)[idx] == rest[1..] + rel;
  }

  lemma RotateDistinct(q: Queue, r: Resting)
    requires Distinct(q) && q != [] && r.slot == q[0].slot
    ensures Distinct(q[1..] + [r])
  {
    var q' := q[1..] + [r];
    forall j, k | 0 <= j < k < |q'|
      ensures q'[j].slot != q'[k].slot
    {
      assert q'[j] == q[j + 1];
      assert k < |q| - 1 ==> q'[k] == q[k + 1];
    }
  }

  // Appending a reload writes the maker's own cell and the old end of the side chain.
  lemma AppendedFrame(cells: Arena, rel: Queue, r: Resting, side: Side, price: Price, s: nat)
    requires r.slot < |cells| && s < |cells| && s != r.slot
    requires forall k | 0 <= k < |rel| :: rel[k].slot != s
    ensures |Appended(cells, rel, r, side, price)| == |cells|
    ensures Appended(cells, rel, r, side, price)[s] == cells[s]
  {
  }

  lemma ReloadStep(cells: Arena, levels: seq<PriceLevel>, b: Book, maker: Side, idx: nat,
                   rest: Queue, rel: Queue, before: int, qty: Qty)
    requires Sweeping(cells, levels, b, maker, idx, rest, rel, before)
    requires rest != [] && rest[0].qty <= qty && rest[0].hidden > 0
    requires rest[0].slot < |cells| && cells[rest[0].slot].Live?
    ensures Sweeping(Appended(cells, rel, Reload(rest[0]), maker, b.base + idx),
                     levels[idx := levels[idx].(total := levels[idx].total - rest[0].qty + Reload(rest[0]).qty)],
                     FillHead(b, maker, idx, qty).book, maker, idx, rest[1..], rel + [Reload(rest[0])], rest[0].slot)
  {
    hide Chain, LadderRep, Appended, Distinct, Reload;
    var s, r := rest[0].slot, Reload(rest[0]);
    assert r.slot == s by { ReloadKeeps(rest[0]); }
    var price := b.base + idx;
    var cells' := Appended(cells, rel, r, maker, price);
    var b' := FillHead(b, maker, idx, qty).book;
    HeadCell(cells, levels, b, maker, idx, rest, rel, before);
    DistinctSuffix(rest, rel);
    AppendChain(cells, rel, r, maker, price);
    forall k | 1 <= k < |rest| && rest[k].slot < |cells|
      ensures cells'[rest[k].slot] == cells[rest[k].slot]
    {
      Apart(rest, rel, k);
      AppendedFrame(cells, rel, r, maker, price, rest[k].slot);
    }
    TailChain(cells, cells', rest, maker, price, before);
    forall x: nat | Elsewhere(cells, x, price)
      ensures cells'[x] == cells[x]
    {
      AppendedFrame(cells, rel, r, maker, price, x);
    }
    SweepFrame(cells, cells', levels, b, b', maker, idx, levels[idx].total - rest[0].qty + r.qty);
    assert (rest + rel)[1..] + [r] == rest[1..] + (rel + [r]);
    RotateDistinct(rest + rel, r);
    VisibleAppend((rest + rel)[1..], [r]);
    assert [r][1..] == [];
  }

  lemma ReloadKeeps(r: Resting)
    requires r.hidden > 0
    ensures Reload(r).slot == r.slot && Reload(r).gen == r.gen
    ensures Reload(r).qty + Reload(r).hidden == r.hidden
  {
  }

  lemma DistinctSuffix(p: Queue, q: Queue)
    requires Distinct(p + q)
    ensures Distinct(q)
  {
    assert forall k | 0 <= k < |q| :: (p + q)[|p| + k] == q[k];
  }

  lemma Apart(p: Queue, q: Queue, j: nat)
    requires Distinct(p + q) && j < |p|
    ensures forall k | 0 <= k < |q| :: q[k].slot != p[j].slot
  {
    assert (p + q)[j] == p[j];
    assert forall k | 0 <= k < |q| :: (p + q)[|p| + k] == q[k];
  }

  // ---- closing the sweep ---------------------------------------------------------------------

  // Hang the reload chain behind the untouched orders, whose head becomes the level's head.
  function Spliced(cells: Arena, rest: Queue, rel: Queue): (a: Arena)
    ensures |a| == |cells|
  {
    var t := SlotAt(rest, |rest| - 1);
    var hung := if rel == [] || rest == [] then cells
                else SetNext(SetPrev(cells, rel[0].slot, t), t, rel[0].slot);
    SetPrev(hung, SlotAt(rest, 0), NULL)
  }

  lemma SpliceChain(cells: Arena, rest: Queue, rel: Queue, side: Side, price: Price, before: int)
    requires Chain(cells, rest, side, price, before) && Chain(cells, rel, side, price, NULL)
    requires Distinct(rest + rel)
    ensures Chain(Spliced(cells, rest, rel), rest + rel, side, price, NULL)
  {
    var cells', c := Spliced(cells, rest, rel), rest + rel;
    forall k | 0 <= k < |c|
      ensures ChainAt(cells', c, k, side, price, NULL)
    {
      if k < |rest| {
        assert ChainAt(cells, rest, k, side, price, before);
      } else {
        assert ChainAt(cells, rel, k - |rest|, side, price, NULL);
      }
      assert rest != [] ==> c[|rest| - 1] == rest[|rest| - 1] && c[0] == rest[0];
      assert rel != [] ==> c[|rest|] == rel[0];
    }
  }

  lemma SplicedFrame(cells: Arena, rest: Queue, rel: Queue, side: Side, price: Price, before: int)
    requires Chain(cells, rest, side, price, before) && Chain(cells, rel, side, price, NULL)
    ensures forall s: nat | Elsewhere(cells, s, price) :: Spliced(cells, rest, rel)[s] == cells[s]
  {
    if rest != [] {
      assert ChainAt(cells, rest, 0, side, price, before);
      assert ChainAt(cells, rest, |rest| - 1, side, price, before);
    }
    if rel != [] {
      assert ChainAt(cells, rel, 0, side, price, NULL);
    }
  }

  // Where the three pointers of the splice point to: live cells.
  lemma SpliceCells(cells: Arena, levels: seq<PriceLevel>, b: Book, maker: Side, idx: nat,
                    rest: Queue, rel: Queue, before: int)
    requires Sweeping(cells, levels, b, maker, idx, rest, rel, before)
    ensures rest != [] ==> rest[0].slot < |cells| && cells[rest[0].slot].Live?
    ensures rest != [] ==> rest[|rest| - 1].slot < |cells| && cells[rest[|rest| - 1].slot].Live?
    ensures rel != [] ==> rel[0].slot < |cells| && cells[rel[0].slot].Live?
  {
    if rest != [] {
      assert ChainAt(cells, rest, 0, maker, b.base + idx, before);
      assert ChainAt(cells, rest, |rest| - 1, maker, b.base + idx, before);
    }
    if rel != [] {
      assert ChainAt(cells, rel, 0, maker, b.base + idx, NULL);
    }
  }

  lemma SweepEnd(cells: Arena, levels: seq<PriceLevel>, b: Book, maker: Side, idx: nat,
                 rest: Queue, rel: Queue, before: int)
    requires Sweeping(cells, levels, b, maker, idx, rest, rel, before)
    ensures LadderRep(Spliced(cells, rest, rel),
                      levels[idx := PriceLevel(SlotAt(rest + rel, 0), SlotAt(rest + rel, |rest + rel| - 1),
                                               levels[idx].total)], b, -1)
  {
    hide Chain, LadderRep, Spliced, Distinct;
    SpliceChain(cells, rest, rel, maker, b.base + idx, before);
    SplicedFrame(cells, rest, rel, maker, b.base + idx, before);
    var c := rest + rel;
    var levels' := levels[idx := PriceLevel(SlotAt(c, 0), SlotAt(c, |c| - 1), levels[idx].total)];
    Reassemble(cells, Spliced(cells, rest, rel), levels, levels', b, b, maker, idx);
  }

  // ---- one batched sweep is a prefix of the naive matching ------------------------------------

  function Prepend(trades: seq<Trade>, m: Matched): Matched {
    m.(trades := trades + m.trades)
  }

  lemma PrependNothing(m: Matched)
    ensures Prepend([], m) == m
  {
    assert [] + m.trades == m.trades;
  }

  // One fill at the best level, seen from the naive side.
  lemma MatchUnfold(b: Book, maker: Side, limit: int, qty: Qty, idx: nat)
    requires qty > 0 && Reaches(b, maker, limit) && Best(b, maker) == idx
    ensures idx < |Own(b, maker)| && Own(b, maker)[idx] != []
    ensures var f := FillHead(b, maker, idx, qty);
            Match(b, maker, limit, qty) == Prepend([f.trade], Match(f.book, maker, limit, f.left))
  {
  }

  // A fill touches one queue of one side.
  lemma FillShape(b: Book, maker: Side, idx: nat, qty: Qty)
    requires idx < |Own(b, maker)| && Own(b, maker)[idx] != [] && qty > 0
    ensures var b' := FillHead(b, maker, idx, qty).book;
            && Own(b', maker.Opposite()) == Own(b, maker.Opposite())
            && |Own(b', maker)| == |Own(b, maker)|
            && Own(b', maker) == Own(b, maker)[idx := Own(b', maker)[idx]]
  {
  }

  // What the sweep has reached determines the whole queue at its level.
  lemma SweepQueue(cells: Arena, levels: seq<PriceLevel>, b: Book, maker: Side, idx: nat,
                   rest: Queue, rel: Queue, before: int)
    requires Sweeping(cells, levels, b, maker, idx, rest, rel, before)
    ensures idx < |Own(b, maker)| && Own(b, maker)[idx] == rest + rel
  {
  }

  // While the level still holds an order, it stays the best one and within the limit.
  lemma BestStays(b: Book, b': Book, maker: Side, limit: int, idx: nat)
    requires Reaches(b, maker, limit) && Best(b, maker) == idx
    requires |Own(b', maker)| == |Own(b, maker)| && Own(b', maker)[idx] != []
    requires forall i | 0 <= i < |Own(b, maker)| && i != idx :: Own(b', maker)[i] == Own(b, maker)[i]
    ensures Reaches(b', maker, limit) && Best(b', maker) == idx
  {
    BestKept(Own(b, maker), Own(b', maker), idx);
  }

  // One turn of the walk extends the naive prefix by one trade.
  lemma WalkStep(start: Book, b: Book, maker: Side, limit: int, idx: nat, qty0: Qty, qty: Qty, trades: seq<Trade>)
    requires 0 < qty <= qty0 && Reaches(start, maker, limit) && Best(start, maker) == idx
    requires |Own(b, maker)| == |Own(start, maker)| && Own(b, maker)[idx] != []
    requires forall i | 0 <= i < |Own(start, maker)| && i != idx :: Own(b, maker)[i] == Own(start, maker)[i]
    requires Match(start, maker, limit, qty0) == Prepend(trades, Match(b, maker, limit, qty))
    ensures var f := FillHead(b, maker, idx, qty);
            Match(start, maker, limit, qty0) == Prepend(trades + [f.trade], Match(f.book, maker, limit, f.left))
  {
    hide Reaches, Best, FillHead, Match;
    BestStays(start, b, maker, limit, idx);
    MatchUnfold(b, maker, limit, qty, idx);
    var f := FillHead(b, maker, idx, qty);
    var m := Match(f.book, maker, limit, f.left);
    assert trades + ([f.trade] + m.trades) == (trades + [f.trade]) + m.trades;
  }

  lemma PrependTwice(s: seq<Trade>, t: seq<Trade>, m: Matched)
    ensures Prepend(s, Prepend(t, m)) == Prepend(s + t, m)
  {
    assert s + (t + m.trades) == (s + t) + m.trades;
  }

  lemma MatchDone(b: Book, maker: Side, limit: int, qty: Qty)
    requires qty >= 0 && (qty == 0 || !Reaches(b, maker, limit))
    ensures Match(b, maker, limit, qty) == Matched(b, qty, [])
  {
  }

  lemma PrependTo(trades: seq<Trade>, b: Book, qty: Qty)
    ensures Prepend(trades, Matched(b, qty, [])) == Matched(b, qty, trades)
  {
    assert trades + [] == trades;
  }
}
