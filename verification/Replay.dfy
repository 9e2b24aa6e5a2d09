/**
 From wire bytes to book: the sinks that turn ITCH messages into engine messages, the legacy
 and the zero-copy pipelines that carry them to the gateway, and replay from the journal.
 */
module Replay {
  import opened Types
  import opened BookSpec
  import opened Wire
  import opened Itch
  import opened Journals
  import opened SpscRings
  import opened ArenaRings
  import opened GatewaySpec
  import opened Gateways

  const BUY: Byte := 66    // 'B'
  const SELL: Byte := 83   // 'S'

  // What the sinks hand to the gateway; unset fields are zero.
  function Decode(m: ItchMsg): Message {
    match m
    case AddOrder(_, ref, side, shares, _, price) =>
      Message(MsgNewOrder, if side == BUY then Buy else Sell, price, shares, ref)
    case OrderExecuted(_, ref, shares, _) => Message(MsgExecute, Buy, 0, shares, ref)
    case OrderCancel(_, ref, shares) => Message(MsgReduce, Buy, 0, shares, ref)
    case OrderDelete(_, ref) => Message(MsgCancel, Buy, 0, 0, ref)
  }

  // What reaches the gateway, read off the payload bytes: 'A' orders in, 'E' executes, 'X'
  // reduces, 'D' cancels; side byte 'B' buys and any other sells.
  lemma SinkReads(p: seq<Byte>)
    requires DecodePayload(p).Some?
    ensures |p| >= 19 && Decode(DecodePayload(p).value).id == U64At(p, 11)
    ensures var m := Decode(DecodePayload(p).value);
            && (m.kind == MsgNewOrder <==> p[0] == 65) && (m.kind == MsgExecute <==> p[0] == 69)
            && (m.kind == MsgReduce <==> p[0] == 88) && (m.kind == MsgCancel <==> p[0] == 68)
    ensures p[0] == 65 ==>
              var m := Decode(DecodePayload(p).value);
              && |p| == 36 && m.price == U32At(p, 32) && m.qty == U32At(p, 20)
              && (m.side == Buy <==> p[19] == 66)
    ensures p[0] == 69 || p[0] == 88 ==> |p| >= 23 && Decode(DecodePayload(p).value).qty == U32At(p, 19)
  {
    hide DecodePayload, U32At, U64At;
    WireLayout(p);
  }

  function Decoded(ms: seq<ItchMsg>): (s: seq<Message>)
    ensures |s| == |ms|
    ensures forall i | 0 <= i < |ms| :: s[i] == Decode(ms[i])
  {
    seq(|ms|, i requires 0 <= i < |ms| => Decode(ms[i]))
  }

  predicate KnownRefs(ms: seq<ItchMsg>, n: nat) {
    forall i | 0 <= i < |ms| :: ms[i].ref < n
  }

  // ---- the feed encoder against the sinks ----------------------------------------------------------

  // What the feed writes for an engine message; `number` is the match number of an execution.
  function Encode(h: Header, m: Message, stock: seq<Byte>, number: nat): ItchMsg
    requires m.price >= 0 && m.qty >= 0
  {
    match m.kind
    case MsgNewOrder => AddOrder(h, m.id, if m.side == Buy then BUY else SELL, m.qty, stock, m.price)
    case MsgExecute => OrderExecuted(h, m.id, m.qty, number)
    case MsgReduce => OrderCancel(h, m.id, m.qty)
    case MsgCancel => OrderDelete(h, m.id)
  }

  // The fields a message of this kind does not use are zero.
  predicate Plain(m: Message) {
    && (m.kind != MsgNewOrder ==> m.side == Buy && m.price == 0)
    && (m.kind == MsgCancel ==> m.qty == 0)
  }

  // A message put on the wire by the feed reaches the gateway unchanged.
  lemma WireCarries(h: Header, m: Message, stock: seq<Byte>, number: nat, more: seq<Byte>)
    requires Plain(m) && m.price >= 0 && m.qty >= 0 && WellFormed(Encode(h, m, stock, number))
    ensures var r := ParseOne(Frame(Encode(h, m, stock, number)) + more);
            r.Some? && Decode(r.value.0) == m
  {
    hide Frame, ParseOne, WellFormed;
    ParsesFrame(Encode(h, m, stock, number), more);
  }

  // ---- runs of the gateway ----------------------------------------------------------------------------

  lemma {:induction false} RunSplit(g: Dense, a: seq<Message>, b: seq<Message>)
    requires forall i | 0 <= i < |a| :: a[i].id < |g.refs|
    requires forall i | 0 <= i < |b| :: b[i].id < |g.refs|
    ensures forall i | 0 <= i < |a + b| :: (a + b)[i].id < |g.refs|
    ensures RunDense(RunDense(g, a), b) == RunDense(g, a + b)
    decreases |a|
  {
    hide ApplyDense;
    if a == [] {
      assert a + b == b;
    } else {
      ApplyKeepsSize(g, a[0]);
      RunSplit(ApplyDense(g, a[0]), a[1..], b);
      assert (a + b)[1..] == a[1..] + b;
    }
  }

  // ---- the legacy pipeline: parser, message ring, gateway ----------------------------------------------

  // The engine has applied exactly the first `tail` messages of the feed, and applying the
  // rest would complete the single-threaded session: no interleaving can be told apart.
  lemma PipelineRefines(cap: nat, steps: seq<SpscRings.Step<Message>>, feed: seq<ItchMsg>, g: Dense)
    requires cap > 0 && Runs(Init<Message>(cap), steps)
    requires Pushed(After(Init<Message>(cap), steps)) <= Decoded(feed)
    requires KnownRefs(feed, |g.refs|)
    ensures var s := After(Init<Message>(cap), steps);
            && s.tail <= |feed|
            && Popped(s) == Decoded(feed[..s.tail])
            && RunDense(RunDense(g, Popped(s)), Decoded(feed[s.tail..])) == RunDense(g, Decoded(feed))
  {
    FifoUnderEveryInterleaving(cap, steps);
    var s := After(Init<Message>(cap), steps);
    assert Popped(s) == Decoded(feed)[..s.tail];
    assert Popped(s) == Decoded(feed[..s.tail]);
    assert Decoded(feed) == Popped(s) + Decoded(feed[s.tail..]);
    RunSplit(g, Popped(s), Decoded(feed[s.tail..]));
  }

  // ---- the zero-copy pipeline: arena, parser, gateway ---------------------------------------------------

  // One frame parsed in place and applied. A reference beyond the array is the feed's fault;
  // the theorems below assume there is none.
  function ApplyFrame(g: Dense, frame: FrameBytes): (g': Dense)
    ensures |g'.refs| == |g.refs|
  {
    hide PlaceOrder, ReduceOrder, CancelOrder;
    match ParseOne(frame)
    case Some((m, _)) => if m.ref < |g.refs| then ApplyDense(g, Decode(m)) else g
    case None => g
  }

  function RunFrames(g: Dense, frames: seq<FrameBytes>): Dense
    decreases |frames|
  {
    if frames == [] then g else RunFrames(ApplyFrame(g, frames[0]), frames[1..])
  }

  // The engine reads its slot before it releases it.
  ghost predicate ReadsFirst(s: Arena<FrameBytes>, moves: seq<Move<FrameBytes>>)
    requires Plays(s, moves)
    decreases |moves|
  {
    moves == [] ||
    ((moves[0].Release? ==> s.read != []) && ReadsFirst(Go(s, moves[0]), moves[1..]))
  }

  // What the engine saw when it last read the slot.
  function Seen(s: Arena<FrameBytes>): FrameBytes {
    if s.read != [] && s.read[|s.read| - 1].Stamped? then s.read[|s.read| - 1].bytes else []
  }

  // The gateway beside the arena: each slot is applied once, when the engine first reads it.
  function Session(g: Dense, s: Arena<FrameBytes>, moves: seq<Move<FrameBytes>>): Dense
    requires Plays(s, moves)
    decreases |moves|
  {
    if moves == [] then g
    else
      var s1 := Go(s, moves[0]);
      Session(if moves[0].ClientRead? && s.read == [] then ApplyFrame(g, Seen(s1)) else g, s1, moves[1..])
  }

  // Frames the engine has applied: those it released, and the one in hand once it was read.
  function Applied(s: Arena<FrameBytes>): nat {
    s.tail + if s.engine.Fronted? && s.read != [] then 1 else 0
  }

  // Bytes of the published slots from `from` up to `to`.
  function Published(s: Arena<FrameBytes>, from: nat, to: nat): (r: seq<FrameBytes>)
    requires from <= to <= |s.sent|
    ensures |r| == to - from
    ensures forall i | 0 <= i < |r| :: r[i] == if s.sent[from + i].Stamped? then s.sent[from + i].bytes else []
  {
    seq(to - from, i requires 0 <= i < to - from => if s.sent[from + i].Stamped? then s.sent[from + i].bytes else [])
  }

  lemma GoodFacts(s: Arena<FrameBytes>)
    requires Good(s)
    ensures s.tail <= s.head == |s.sent| && Applied(s) <= |s.sent|
    ensures s.engine.Fronted? ==> s.tail < s.headCache <= s.head
    ensures s.engine.Fronted? ==> forall k | 0 <= k < |s.read| :: s.read[k] == s.sent[s.tail]
  {
  }

  // One move applies at most one frame, and which one is plain to see.
  lemma GoApplies(s: Arena<FrameBytes>, m: Move<FrameBytes>)
    requires Good(s) && Can(s, m) && (m.Release? ==> s.read != [])
    ensures Good(Go(s, m)) && s.sent <= Go(s, m).sent
    ensures Applied(Go(s, m)) == Applied(s) + if m.ClientRead? && s.read == [] then 1 else 0
    ensures m.ClientRead? ==> Applied(Go(s, m)) == s.tail + 1 <= |s.sent| && Go(s, m).read != []
    ensures m.ClientRead? && s.sent[s.tail].Stamped? ==> Seen(Go(s, m)) == s.sent[s.tail].bytes
    ensures m.ClientRead? && !s.sent[s.tail].Stamped? ==> Seen(Go(s, m)) == []
  {
    hide Good;
    MoveGood(s, m);
    GoodFacts(s);
    GoodFacts(Go(s, m));
  }

  // Whatever the interleaving, the gateway has applied exactly the published frames, in order,
  // up to the one the engine read last.
  lemma {:induction false} SessionIsSequential(g: Dense, s: Arena<FrameBytes>, moves: seq<Move<FrameBytes>>)
    requires Good(s) && Plays(s, moves) && ReadsFirst(s, moves)
    ensures var s' := Final(s, moves);
            && s.sent <= s'.sent && Applied(s) <= Applied(s') <= |s'.sent|
            && Session(g, s, moves) == RunFrames(g, Published(s', Applied(s), Applied(s')))
    decreases |moves|
  {
    hide Good, Go, Can, ApplyFrame, Applied, Seen;
    GoodFacts(s);
    if moves != [] {
      var m, s1, s' := moves[0], Go(s, moves[0]), Final(s, moves);
      GoApplies(s, m);
      var applies := m.ClientRead? && s.read == [];
      SessionIsSequential(if applies then ApplyFrame(g, Seen(s1)) else g, s1, moves[1..]);
      if applies {
        assert s'.sent[Applied(s)] == s.sent[Applied(s)];
        assert Published(s', Applied(s), Applied(s'))[0] == Seen(s1);
        assert Published(s', Applied(s), Applied(s'))[1..] == Published(s', Applied(s1), Applied(s'));
      }
    }
  }

  lemma {:induction false} FramesRun(g: Dense, ms: seq<ItchMsg>)
    requires KnownRefs(ms, |g.refs|) && forall i | 0 <= i < |ms| :: WellFormed(ms[i])
    ensures RunFrames(g, Frames(ms)) == RunDense(g, Decoded(ms))
    decreases |ms|
  {
    hide Frame, ParseOne, WellFormed, ApplyDense;
    if ms != [] {
      ParsesFrame(ms[0], []);
      assert Frame(ms[0]) + [] == Frame(ms[0]);
      ApplyKeepsSize(g, Decode(ms[0]));
      FramesRun(ApplyDense(g, Decode(ms[0])), ms[1..]);
      assert Frames(ms)[1..] == Frames(ms[1..]);
      assert Decoded(ms)[1..] == Decoded(ms[1..]);
    }
  }

  // ---- deterministic replay --------------------------------------------------------------------------------

  // The gateway after these messages.
  function Outcome(g: Dense, ms: seq<ItchMsg>): (g': Dense)
    requires KnownRefs(ms, |g.refs|)
    ensures |g'.refs| == |g.refs|
  {
    RunDense(g, Decoded(ms))
  }

  lemma SplitAt(g: Dense, ms: seq<ItchMsg>, k: nat)
    requires KnownRefs(ms, |g.refs|) && k <= |ms|
    ensures Outcome(Outcome(g, ms[..k]), ms[k..]) == Outcome(g, ms)
  {
    hide ApplyDense, RunDense;
    assert Decoded(ms) == Decoded(ms[..k]) + Decoded(ms[k..]);
    RunSplit(g, Decoded(ms[..k]), Decoded(ms[k..]));
  }

  // The final watermark replays to the whole feed exactly when the feed fits the journal.
  lemma FinalWatermark(cap: nat, blank: seq<Byte>, steps: seq<JStep>, ms: seq<ItchMsg>)
    requires |blank| == cap && JRuns(NewTape(cap, blank), steps)
    requires var t := JAfter(NewTape(cap, blank), steps); t.writer.WIdle? && t.offered == Frames(ms)
    requires forall i | 0 <= i < |ms| :: WellFormed(ms[i])
    ensures var t := JAfter(NewTape(cap, blank), steps);
            t.off <= |t.data| && (ParseAll(t.data[..t.off]) == ms <==> |Stream(ms)| <= cap)
  {
    hide Frame, ParseAll, WellFormed, Frames, Stream, Concat;
    var t := JAfter(NewTape(cap, blank), steps);
    BytesAccounted(cap, blank, steps);
    StreamIsConcat(ms);
    ParsesStream(ms);
    NothingSkipped(t.data[..t.off]);
    NewTapeInv(cap, blank);
    JRunInv(NewTape(cap, blank), steps);
  }

  // ---- replay in place ---------------------------------------------------------------------------------------

  // One turn of the replay loop.
  lemma ReplayTurn(g: Dense, rest: seq<Byte>)
    requires ParseOne(rest).Some? && KnownRefs(ParseAll(rest), |g.refs|)
    ensures var (m, n) := ParseOne(rest).value;
            && Decode(m).id < |g.refs|
            && |ParseAll(rest)| == 1 + |ParseAll(rest[n..])| && Leftover(rest) == Leftover(rest[n..])
            && KnownRefs(ParseAll(rest[n..]), |ApplyDense(g, Decode(m)).refs|)
            && RunDense(ApplyDense(g, Decode(m)), Decoded(ParseAll(rest[n..]))) == RunDense(g, Decoded(ParseAll(rest)))
  {
    hide ParseOne, ApplyDense;
    var (m, n) := ParseOne(rest).value;
    var all, later := ParseAll(rest), ParseAll(rest[n..]);
    assert all == [m] + later;
    assert m == all[0] && all[1..] == later;
    ApplyKeepsSize(g, Decode(m));
    assert Decoded(all)[0] == Decode(m) && Decoded(all)[1..] == Decoded(later);
  }

  lemma ReplayDone(g: Dense, rest: seq<Byte>)
    requires ParseOne(rest).None?
    ensures ParseAll(rest) == [] && RunDense(g, Decoded(ParseAll(rest))) == g && Leftover(rest) == rest
  {
    hide ParseOne, ApplyDense;
  }

  // The replay loop: parse one message after the other straight into a gateway.
  method ReplayInto(parser: ItchParser, gw: DenseGateway) returns (n: nat)
    requires parser.Valid() && gw.Valid()
    requires KnownRefs(ParseAll(parser.data[parser.cur..]), gw.refs.Length)
    modifies parser, gw, gw.refs, gw.book.Footprint()
    ensures parser.Valid() && gw.Valid()
    ensures n == |ParseAll(parser.data[old(parser.cur)..])|
    ensures gw.State() == RunDense(old(gw.State()), Decoded(ParseAll(parser.data[old(parser.cur)..])))
    ensures parser.data[parser.cur..] == Leftover(parser.data[old(parser.cur)..])
  {
    hide ParseOne, ParseAll, Leftover, Decoded, RunDense, ApplyDense, DenseGateway.Valid;
    n := 0;
    ghost var start := parser.data[parser.cur..];
    ghost var g0 := gw.State();
    while true
      invariant parser.Valid() && gw.Valid()
      invariant KnownRefs(ParseAll(parser.data[parser.cur..]), |gw.State().refs|)
      invariant n + |ParseAll(parser.data[parser.cur..])| == |ParseAll(start)|
      invariant Leftover(parser.data[parser.cur..]) == Leftover(start)
      invariant RunDense(gw.State(), Decoded(ParseAll(parser.data[parser.cur..])))
             == RunDense(g0, Decoded(ParseAll(start)))
      decreases |parser.data| - parser.cur
    {
      ghost var rest, g := parser.data[parser.cur..], gw.State();
      var m := parser.Next();
      if m.None? {
        ReplayDone(g, rest);
        break;
      }
      ReplayTurn(g, rest);
      assert parser.data[parser.cur..] == rest[ParseOne(rest).value.1..];
      gw.Apply(Decode(m.value));
      n := n + 1;
    }
  }
}
