/**
 The pre-trade risk gate: fat-finger, collar, worst-case exposure and an O(1) sliding-window
 rate limit. `accepts` is the log of the accept times of the whole session, oldest first.
 */
module Risk {
  import opened Types
  import opened Rings

  datatype Verdict = Verdict(badQty: bool, badPrice: bool, badPosition: bool, badRate: bool) {
    predicate Accepts() {
      !badQty && !badPrice && !badPosition && !badRate
    }

    // The reject bits, one per violated check.
    function Mask(): nat {
      (if badQty then 1 else 0) + (if badPrice then 2 else 0)
      + (if badPosition then 4 else 0) + (if badRate then 8 else 0)
    }
  }

  datatype Limits = Limits(maxQty: Qty, pxLo: Price, pxHi: Price, posLimit: Qty, window: nat, depth: nat)

  // Open lots per side, realised position, and the log of accepts.
  datatype Gate = Gate(openBuy: Qty, openSell: Qty, net: int, accepts: seq<nat>)

  // Unsigned 64-bit subtraction.
  function Sub64(a: nat, b: nat): nat {
    (a - b) % TWO64
  }

  // How many of the accepts are less than `window` ticks old at `now`.
  function Recent(accepts: seq<nat>, now: nat, window: nat): (n: nat)
    ensures n <= |accepts|
  {
    if accepts == [] then 0
    else Recent(accepts[..|accepts| - 1], now, window) + if now - accepts[|accepts| - 1] < window then 1 else 0
  }

  // The clock never went backwards up to `now`.
  ghost predicate Monotone(accepts: seq<nat>, now: nat) {
    && (forall i, j | 0 <= i < j < |accepts| :: accepts[i] <= accepts[j])
    && (forall i | 0 <= i < |accepts| :: accepts[i] <= now)
  }

  // With a monotone clock at least w accepts are recent iff the w-th latest one is.
  lemma {:induction false} RecentIffWth(accepts: seq<nat>, now: nat, window: nat, w: nat)
    requires Monotone(accepts, now) && w > 0
    ensures Recent(accepts, now, window) >= w <==> |accepts| >= w && now - accepts[|accepts| - w] < window
  {
    if accepts != [] {
      var m := |accepts| - 1;
      var front := accepts[..m];
      if now - accepts[m] >= window {
        OldStaysOld(accepts, now, window);
      } else if w > 1 {
        RecentIffWth(front, now, window, w - 1);
      }
    }
  }

  // If even the latest accept is old, all are.
  lemma {:induction false} OldStaysOld(accepts: seq<nat>, now: nat, window: nat)
    requires Monotone(accepts, now) && accepts != [] && now - accepts[|accepts| - 1] >= window
    ensures Recent(accepts, now, window) == 0
  {
    var front := accepts[..|accepts| - 1];
    if front != [] {
      OldStaysOld(front, now, window);
    }
  }

  // ---- one check -----------------------------------------------------------------------------------

  // The stamp the ring slot of the next accept holds: the depth-th latest accept, or 0.
  function WthStamp(accepts: seq<nat>, depth: nat): nat {
    if 0 < depth <= |accepts| then accepts[|accepts| - depth] else 0
  }

  function Judge(l: Limits, g: Gate, side: Side, price: Price, qty: Qty, now: nat): Verdict {
    Verdict(qty <= 0 || qty > l.maxQty,
            price < l.pxLo || price > l.pxHi,
            (g.openBuy + if side == Buy then qty else 0) + g.net > l.posLimit
            || (g.openSell + if side == Buy then 0 else qty) - g.net > l.posLimit,
            Sub64(now, WthStamp(g.accepts, l.depth)) < l.window)
  }

  function Checked(l: Limits, g: Gate, side: Side, price: Price, qty: Qty, now: nat): Gate {
    if Judge(l, g, side, price, qty, now).Accepts() then
      g.(openBuy := g.openBuy + if side == Buy then qty else 0,
         openSell := g.openSell + if side == Buy then 0 else qty,
         accepts := g.accepts + [now])
    else g
  }

  function Cancelled(g: Gate, side: Side, qty: Qty): Gate {
    if side == Buy then g.(openBuy := g.openBuy - qty) else g.(openSell := g.openSell - qty)
  }

  function Filled(g: Gate, side: Side, qty: Qty): Gate {
    if side == Buy then g.(openBuy := g.openBuy - qty, net := g.net + qty)
    else g.(openSell := g.openSell - qty, net := g.net - qty)
  }

  // The O(1) rate test is the exact sliding window, except while fewer than `depth` orders
  // were accepted and the clock itself is still below the window.
  lemma RateExact(l: Limits, g: Gate, side: Side, price: Price, qty: Qty, now: nat)
    requires Monotone(g.accepts, now) && now < TWO64 && l.depth > 0
    ensures (Judge(l, g, side, price, qty, now).badRate <==> Recent(g.accepts, now, l.window) >= l.depth)
            <==> !(|g.accepts| < l.depth && now < l.window)
  {
    RecentIffWth(g.accepts, now, l.window, l.depth);
  }

  // A freshly started gate whose clock reads less than the window rejects its first order.
  lemma StartupRejects()
    ensures var l := Limits(10, 0, 100, 10, 5, 256);
            var g := Gate(0, 0, 0, []);
            Judge(l, g, Buy, 50, 1, 3) == Verdict(false, false, false, true) && Recent([], 3, 5) == 0
  {
  }

  // Each bit of the mask says exactly which check failed, and an order is taken in exactly when
  // none did. The rate bit is the sliding window, or the start-up case.
  lemma MaskExact(l: Limits, g: Gate, side: Side, price: Price, qty: Qty, now: nat)
    requires Monotone(g.accepts, now) && now < TWO64 && l.depth > 0
    ensures var rj := Judge(l, g, side, price, qty, now).Mask();
            && rj < 16
            && (rj % 2 == 1 <==> !(1 <= qty <= l.maxQty))
            && (rj / 2 % 2 == 1 <==> !(l.pxLo <= price <= l.pxHi))
            && (rj / 4 % 2 == 1 <==>
                  if side == Buy then g.openBuy + qty + g.net > l.posLimit || g.openSell - g.net > l.posLimit
                  else g.openBuy + g.net > l.posLimit || g.openSell + qty - g.net > l.posLimit)
            && (rj / 8 % 2 == 1 <==>
                  Recent(g.accepts, now, l.window) >= l.depth || (|g.accepts| < l.depth && now < l.window))
    ensures var g' := Checked(l, g, side, price, qty, now);
            if Judge(l, g, side, price, qty, now).Mask() != 0 then g' == g
            else
              && g'.accepts == g.accepts + [now] && g'.net == g.net
              && g'.openBuy == g.openBuy + (if side == Buy then qty else 0)
              && g'.openSell == g.openSell + (if side == Sell then qty else 0)
  {
    RateExact(l, g, side, price, qty, now);
    RecentIffWth(g.accepts, now, l.window, l.depth);
  }

  // ---- runs ------------------------------------------------------------------------------------------

  datatype Event =
    | Order(side: Side, price: Price, qty: Qty, now: nat)
    | Pull(side: Side, qty: Qty)
    | Fill(side: Side, qty: Qty)

  function Apply(l: Limits, g: Gate, e: Event): Gate {
    match e
    case Order(side, price, qty, now) => Checked(l, g, side, price, qty, now)
    case Pull(side, qty) => Cancelled(g, side, qty)
    case Fill(side, qty) => Filled(g, side, qty)
  }

  function Session(l: Limits, g: Gate, events: seq<Event>): Gate
    decreases |events|
  {
    if events == [] then g else Session(l, Apply(l, g, events[0]), events[1..])
  }

  // Clock readings never decrease and fit 64 bits.
  ghost predicate Clocked(since: nat, events: seq<Event>)
    decreases |events|
  {
    events == [] ||
    (if events[0].Order? then since <= events[0].now < TWO64 && Clocked(events[0].now, events[1..])
     else Clocked(since, events[1..]))
  }

  ghost predicate Spaced(l: Limits, accepts: seq<nat>) {
    forall i | 0 <= i && i + l.depth < |accepts| :: accepts[i + l.depth] - accepts[i] >= l.window
  }

  lemma {:induction false} SessionSpaced(l: Limits, g: Gate, events: seq<Event>, since: nat)
    requires Clocked(since, events) && Monotone(g.accepts, since) && Spaced(l, g.accepts) && l.depth > 0
    ensures var a := Session(l, g, events).accepts;
            Spaced(l, a) && (forall i, j | 0 <= i < j < |a| :: a[i] <= a[j])
    decreases |events|
  {
    if events != [] {
      var g' := Apply(l, g, events[0]);
      var since' := if events[0].Order? then events[0].now else since;
      SessionSpaced(l, g', events[1..], since');
    }
  }

  lemma FarApart(l: Limits, a: seq<nat>, i: nat, j: nat)
    requires Spaced(l, a) && (forall p, q | 0 <= p < q < |a| :: a[p] <= a[q])
    requires i + l.depth <= j < |a|
    ensures a[j] - a[i] >= l.window
  {
    assert a[i + l.depth] - a[i] >= l.window;
  }

  // In every session, accepts within less than one window of each other are fewer than
  // depth + 1: no window of that length holds more than `depth` accepts.
  lemma NoWindowOverfull(l: Limits, events: seq<Event>, i: nat, j: nat)
    requires Clocked(0, events) && l.depth > 0
    requires var a := Session(l, Gate(0, 0, 0, []), events).accepts;
             i < j < |a| && a[j] - a[i] < l.window
    ensures j - i < l.depth
  {
    SessionSpaced(l, Gate(0, 0, 0, []), events, 0);
    var a := Session(l, Gate(0, 0, 0, []), events).accepts;
    if j - i >= l.depth {
      FarApart(l, a, i, j);
    }
  }

  // ---- the ledger ----------------------------------------------------------------------------------

  // Lots reported filled, and lots reported pulled, on one side.
  function FilledLots(events: seq<Event>, side: Side): Qty {
    if events == [] then 0
    else (if events[0].Fill? && events[0].side == side then events[0].qty else 0) + FilledLots(events[1..], side)
  }

  function PulledLots(events: seq<Event>, side: Side): Qty {
    if events == [] then 0
    else (if events[0].Pull? && events[0].side == side then events[0].qty else 0) + PulledLots(events[1..], side)
  }

  // Lots of the orders the gate let through, which are those that got a time stamp.
  function AcceptedLots(l: Limits, g: Gate, events: seq<Event>, side: Side): Qty
    decreases |events|
  {
    if events == [] then 0
    else
      var g' := Apply(l, g, events[0]);
      (if events[0].Order? && events[0].side == side && |g'.accepts| > |g.accepts| then events[0].qty else 0)
      + AcceptedLots(l, g', events[1..], side)
  }

  // Over every session the position is what was bought less what was sold, and what is open on
  // a side is what was accepted less what was pulled and filled.
  lemma {:induction false} Ledger(l: Limits, g: Gate, events: seq<Event>)
    ensures var g' := Session(l, g, events);
            && g'.net == g.net + FilledLots(events, Buy) - FilledLots(events, Sell)
            && g'.openBuy == g.openBuy + AcceptedLots(l, g, events, Buy)
                             - PulledLots(events, Buy) - FilledLots(events, Buy)
            && g'.openSell == g.openSell + AcceptedLots(l, g, events, Sell)
                              - PulledLots(events, Sell) - FilledLots(events, Sell)
    decreases |events|
  {
    if events != [] {
      Ledger(l, Apply(l, g, events[0]), events[1..]);
    }
  }

  // ---- exposure ------------------------------------------------------------------------------------

  // If everything resting on a side filled, the position would still be within the limit.
  predicate WorstCase(l: Limits, g: Gate) {
    g.openBuy + g.net <= l.posLimit && g.openSell - g.net <= l.posLimit
  }

  predicate NonNegative(e: Event) {
    e.Order? || e.qty >= 0
  }

  // Cancels and fills never exceed what is open on their side.
  ghost predicate Covered(l: Limits, g: Gate, events: seq<Event>)
    decreases |events|
  {
    events == [] ||
    (var e := events[0];
     (e.Order? || 0 <= e.qty <= if e.side == Buy then g.openBuy else g.openSell)
     && Covered(l, Apply(l, g, e), events[1..]))
  }

  lemma {:induction false} WorstCaseAlways(l: Limits, g: Gate, events: seq<Event>)
    requires WorstCase(l, g) && forall i | 0 <= i < |events| :: NonNegative(events[i])
    ensures WorstCase(l, Session(l, g, events))
    decreases |events|
  {
    if events != [] {
      assert NonNegative(events[0]);
      WorstCaseAlways(l, Apply(l, g, events[0]), events[1..]);
    }
  }

  // Whatever fills, in whatever order, the position never leaves [-limit, limit].
  lemma {:induction false} PositionBounded(l: Limits, g: Gate, events: seq<Event>)
    requires WorstCase(l, g) && g.openBuy >= 0 && g.openSell >= 0 && Covered(l, g, events)
    ensures var g' := Session(l, g, events);
            g'.openBuy >= 0 && g'.openSell >= 0 && -l.posLimit <= g'.net <= l.posLimit
    decreases |events|
  {
    if events != [] {
      PositionBounded(l, Apply(l, g, events[0]), events[1..]);
    }
  }

  // ---- the gate in place -----------------------------------------------------------------------------

  class RiskGateway {
    const limits: Limits
    const stamps: array<nat>
    var openBuy: Qty
    var openSell: Qty
    var netPos: int
    var nSent: nat
    var rejected: nat
    ghost var accepts: seq<nat>

    // The ring of stamps holds the last `depth` accepts, zero where there was none yet.
    ghost predicate Valid()
      reads this, stamps
    {
      && 0 < limits.depth == stamps.Length
      && nSent == |accepts|
      && (forall i | 0 <= i < nSent && nSent - limits.depth <= i :: stamps[i % limits.depth] == accepts[i])
      && (forall k | nSent <= k < limits.depth :: stamps[k] == 0)
    }

    ghost function State(): Gate
      reads this
    {
      Gate(openBuy, openSell, netPos, accepts)
    }

    constructor (limits: Limits)
      requires limits.depth > 0
      ensures Valid() && fresh(stamps) && this.limits == limits && State() == Gate(0, 0, 0, []) && rejected == 0
    {
      this.limits := limits;
      stamps := new nat[limits.depth](_ => 0);
      openBuy, openSell, netPos, nSent, rejected := 0, 0, 0, 0, 0;
      accepts := [];
    }

    // Gate one order: 0 accepts and updates the state, otherwise the mask of violated checks.
    method Check(side: Side, price: Price, qty: Qty, now: nat) returns (rj: nat)
      requires Valid()
      modifies this, stamps
      ensures Valid()
      ensures rj == Judge(limits, old(State()), side, price, qty, now).Mask()
      ensures State() == Checked(limits, old(State()), side, price, qty, now)
      ensures rejected == old(rejected) + if rj == 0 then 0 else 1
    {
      rj := 0;
      rj := rj + if qty <= 0 || qty > limits.maxQty then 1 else 0;
      rj := rj + if price < limits.pxLo || price > limits.pxHi then 2 else 0;
      var isBuy := if side == Buy then 1 else 0;
      var pb := openBuy + qty * isBuy;
      var ps := openSell + qty * (1 - isBuy);
      rj := rj + if pb + netPos > limits.posLimit || ps - netPos > limits.posLimit then 4 else 0;
      var slot := nSent % limits.depth;
      SlotOneCapacityBack(nSent, limits.depth);
      rj := rj + if Sub64(now, stamps[slot]) < limits.window then 8 else 0;
      if rj == 0 {
        openBuy := pb;
        openSell := ps;
        ghost var was := stamps[..];
        stamps[slot] := now;
        nSent := nSent + 1;
        accepts := accepts + [now];
        forall i | 0 <= i < nSent && nSent - limits.depth <= i
          ensures stamps[i % limits.depth] == accepts[i]
        {
          if i < nSent - 1 {
            ModDiffers(i, nSent - 1, limits.depth);
          }
        }
      } else {
        rejected := rejected + 1;
      }
    }

    method OnCancel(side: Side, qty: Qty)
      requires Valid()
      modifies this`openBuy, this`openSell
      ensures Valid() && State() == Cancelled(old(State()), side, qty)
      ensures openBuy + openSell == old(openBuy + openSell) - qty
    {
      var isBuy := if side == Buy then 1 else 0;
      openBuy := openBuy - qty * isBuy;
      openSell := openSell - qty * (1 - isBuy);
    }

    method OnFill(side: Side, qty: Qty)
      requires Valid()
      modifies this`openBuy, this`openSell, this`netPos
      ensures Valid() && State() == Filled(old(State()), side, qty)
      ensures netPos == old(netPos) + if side == Buy then qty else -qty
      ensures openBuy + openSell == old(openBuy + openSell) - qty
    {
      var isBuy := if side == Buy then 1 else 0;
      openBuy := openBuy - qty * isBuy;
      openSell := openSell - qty * (1 - isBuy);
      netPos := netPos + qty * (2 * isBuy - 1);
    }
  }
}
