/**
 The journaled session: the feed thread writes a frame into its arena slot, appends it to the
 journal and only then publishes the slot, while the engine drains the arena. The two machines
 run side by side, tied together only by the feed thread's program order.
 */
module WriteAhead {
  import opened Wire
  import opened Itch
  import opened Journals
  import opened ArenaRings
  import opened GatewaySpec
  import opened Replay

  // Where the feed thread is with its current frame.
  datatype Phase = Filling | Written(frame: FrameBytes) | Logging

  datatype Live = Live(arena: Arena<FrameBytes>, tape: Tape, phase: Phase)

  datatype LiveStep = OnArena(move: Move<FrameBytes>) | OnTape(entry: JStep)

  function Begin(slots: nat, cap: nat, blank: seq<Byte>): Live {
    Live(Start(slots), NewTape(cap, blank), Filling)
  }

  // The feed thread's order: acquire and write, append, publish. The engine's moves are free.
  predicate MayStep(s: Live, step: LiveStep) {
    match step
    case OnArena(m) =>
      Can(s.arena, m)
      && (m.Acquire? || m.AcquireRefresh? || m.ClientWrite? ==> s.phase.Filling?)
      && (m.PublishFence? || m.PublishStore? ==> s.phase.Logging? && s.tape.writer.WIdle?)
    case OnTape(j) =>
      JEnabled(s.tape, j) && if j.Offer? then s.phase == Written(j.frame) else s.phase.Logging?
  }

  function StepLive(s: Live, step: LiveStep): Live
    requires MayStep(s, step)
  {
    match step
    case OnArena(m) =>
      Live(Go(s.arena, m), s.tape,
           if m.ClientWrite? then Written(m.bytes) else if m.PublishStore? then Filling else s.phase)
    case OnTape(j) => Live(s.arena, JApply(s.tape, j), if j.Offer? then Logging else s.phase)
  }

  ghost predicate LiveRuns(s: Live, steps: seq<LiveStep>)
    decreases |steps|
  {
    steps == [] || (MayStep(s, steps[0]) && LiveRuns(StepLive(s, steps[0]), steps[1..]))
  }

  function LiveAfter(s: Live, steps: seq<LiveStep>): Live
    requires LiveRuns(s, steps)
    decreases |steps|
  {
    if steps == [] then s else LiveAfter(StepLive(s, steps[0]), steps[1..])
  }

  // ---- what either machine sees of a run ---------------------------------------------------------

  function Moves(steps: seq<LiveStep>): seq<Move<FrameBytes>> {
    if steps == [] then []
    else (if steps[0].OnArena? then [steps[0].move] else []) + Moves(steps[1..])
  }

  function Entries(steps: seq<LiveStep>): seq<JStep> {
    if steps == [] then []
    else (if steps[0].OnTape? then [steps[0].entry] else []) + Entries(steps[1..])
  }

  lemma {:induction false} Projected(s: Live, steps: seq<LiveStep>)
    requires LiveRuns(s, steps)
    ensures Plays(s.arena, Moves(steps)) && Final(s.arena, Moves(steps)) == LiveAfter(s, steps).arena
    ensures JRuns(s.tape, Entries(steps)) && JAfter(s.tape, Entries(steps)) == LiveAfter(s, steps).tape
    decreases |steps|
  {
    hide Go, JApply;
    if steps != [] {
      var s1 := StepLive(s, steps[0]);
      Projected(s1, steps[1..]);
      if steps[0].OnArena? {
        assert Moves(steps)[0] == steps[0].move && Moves(steps)[1..] == Moves(steps[1..]);
        assert Entries(steps) == Entries(steps[1..]);
      } else {
        assert Entries(steps)[0] == steps[0].entry && Entries(steps)[1..] == Entries(steps[1..]);
        assert Moves(steps) == Moves(steps[1..]);
      }
    }
  }

  // ---- the link between the two machines -----------------------------------------------------------

  predicate Carries(slot: Bytes<FrameBytes>, frame: FrameBytes) {
    slot.Stamped? && slot.bytes == frame
  }

  // What was published is what was offered; the frame in hand is in its slot.
  ghost predicate Linked(s: Live) {
    var a, t := s.arena, s.tape;
    && |a.sent| == a.head && 0 < a.cap == |a.slots|
    && |t.offered| == a.head + (if s.phase.Logging? then 1 else 0)
    && (forall i | 0 <= i < a.head :: Carries(a.sent[i], t.offered[i]))
    && match s.phase
       case Filling => t.writer.WIdle? && !a.feeder.Fenced?
       case Written(frame) => t.writer.WIdle? && a.feeder.Acquired? && Carries(a.slots[a.head % a.cap], frame)
       case Logging =>
         && (a.feeder.Acquired? || (a.feeder.Fenced? && t.writer.WIdle?))
         && Carries(a.slots[a.head % a.cap], t.offered[a.head])
  }

  lemma LinkedStep(s: Live, step: LiveStep)
    requires Linked(s) && MayStep(s, step)
    ensures Linked(StepLive(s, step))
  {
  }

  lemma {:induction false} LinkedRun(s: Live, steps: seq<LiveStep>)
    requires Linked(s) && LiveRuns(s, steps)
    ensures Linked(LiveAfter(s, steps))
    decreases |steps|
  {
    hide Linked, StepLive, MayStep;
    if steps != [] {
      LinkedStep(s, steps[0]);
      LinkedRun(StepLive(s, steps[0]), steps[1..]);
    }
  }

  // ---- the write-ahead property -----------------------------------------------------------------------

  // At every moment of every interleaving the journal, if it has room, has accepted every
  // frame the engine can see: nothing is acted on that a replay would miss.
  lemma JournalFirst(slots: nat, cap: nat, blank: seq<Byte>, steps: seq<LiveStep>)
    requires slots > 0 && |blank| == cap && LiveRuns(Begin(slots, cap, blank), steps)
    requires |Concat(LiveAfter(Begin(slots, cap, blank), steps).tape.offered)| <= cap
    ensures var s := LiveAfter(Begin(slots, cap, blank), steps);
            && Applied(s.arena) <= s.arena.head == |s.arena.sent| <= |s.tape.accepted| <= |s.tape.offered|
            && s.tape.accepted == s.tape.offered[..|s.tape.accepted|]
            && forall i | 0 <= i < s.arena.head :: Carries(s.arena.sent[i], s.tape.accepted[i])
  {
    var s0 := Begin(slots, cap, blank);
    var s := LiveAfter(s0, steps);
    Projected(s0, steps);
    StationaryPayload(slots, Moves(steps));
    LinkedRun(s0, steps);
    JournalSide(cap, blank, Entries(steps));
  }

  lemma JournalSide(cap: nat, blank: seq<Byte>, entries: seq<JStep>)
    requires |blank| == cap && JRuns(NewTape(cap, blank), entries)
    ensures var t := JAfter(NewTape(cap, blank), entries);
            && TapeInv(t) && t.cap == cap && |t.marks| == |t.accepted| + 1
            && (|Concat(t.offered)| <= cap ==> t.accepted + Pending(t) == t.offered)
  {
    hide Fitting, Concat;
    NewTapeInv(cap, blank);
    JRunInv(NewTape(cap, blank), entries);
    KeepsAll(cap, JAfter(NewTape(cap, blank), entries).offered);
  }

  // ---- replay against the live gateway -------------------------------------------------------------------

  lemma AcceptedWatermark(t: Tape, ms: seq<ItchMsg>, k: nat)
    requires TapeInv(t) && t.offered == Frames(ms) && forall i | 0 <= i < |ms| :: WellFormed(ms[i])
    requires k <= |t.accepted| <= |ms| && t.accepted == t.offered[..|t.accepted|]
    ensures |t.marks| == |t.accepted| + 1 && t.marks[k] <= |t.data|
    ensures ParseAll(t.data[..t.marks[k]]) == ms[..k]
  {
    hide Frame, ParseAll, WellFormed, Fitting, Concat;
    var front := ms[..|t.accepted|];
    assert Frames(front) == Frames(ms)[..|t.accepted|];
    ReplayYieldsAccepted(t, front, k);
    assert front[..k] == ms[..k];
  }

  // The live gateway, whatever the interleaving, has run exactly the messages applied so far.
  lemma LiveGateway(ms: seq<ItchMsg>, g: Dense, slots: nat, moves: seq<Move<FrameBytes>>)
    requires KnownRefs(ms, |g.refs|) && forall i | 0 <= i < |ms| :: WellFormed(ms[i])
    requires slots > 0 && Plays(Start<FrameBytes>(slots), moves) && ReadsFirst(Start<FrameBytes>(slots), moves)
    requires var s := Final(Start<FrameBytes>(slots), moves);
             && Applied(s) <= |s.sent| && Applied(s) <= |ms|
             && forall i | 0 <= i < Applied(s) :: Carries(s.sent[i], Frame(ms[i]))
    ensures var s := Final(Start<FrameBytes>(slots), moves);
            Session(g, Start<FrameBytes>(slots), moves) == Outcome(g, ms[..Applied(s)])
  {
    hide Good, Go, Can, Frame, WellFormed, RunDense, ApplyFrame, Session;
    StartGood<FrameBytes>(slots);
    SessionIsSequential(g, Start<FrameBytes>(slots), moves);
    var s := Final(Start<FrameBytes>(slots), moves);
    assert Published(s, 0, Applied(s)) == Frames(ms[..Applied(s)]);
    FramesRun(g, ms[..Applied(s)]);
  }

  // A journaled session of these messages, with room for all of them in the journal.
  ghost predicate Journaled(ms: seq<ItchMsg>, n: nat, slots: nat, cap: nat, blank: seq<Byte>, steps: seq<LiveStep>) {
    && KnownRefs(ms, n) && (forall i | 0 <= i < |ms| :: WellFormed(ms[i]))
    && slots > 0 && |blank| == cap && LiveRuns(Begin(slots, cap, blank), steps)
    && Plays(Start<FrameBytes>(slots), Moves(steps)) && ReadsFirst(Start<FrameBytes>(slots), Moves(steps))
    && LiveAfter(Begin(slots, cap, blank), steps).tape.offered == Frames(ms)
    && |Stream(ms)| <= cap
  }

  // Where a journaled session stands: what the journal accepted covers what was applied.
  lemma JournaledFacts(ms: seq<ItchMsg>, g: Dense, slots: nat, cap: nat, blank: seq<Byte>, steps: seq<LiveStep>)
    requires Journaled(ms, |g.refs|, slots, cap, blank, steps)
    ensures var s := LiveAfter(Begin(slots, cap, blank), steps);
            && TapeInv(s.tape) && s.tape.offered == Frames(ms)
            && Applied(s.arena) <= |s.tape.accepted| <= |ms|
            && s.tape.accepted == s.tape.offered[..|s.tape.accepted|]
            && Session(g, Start<FrameBytes>(slots), Moves(steps)) == Outcome(g, ms[..Applied(s.arena)])
  {
    hide Good, Go, Can, Frame, ParseAll, WellFormed, RunDense, ApplyFrame, Session, TapeInv, Stream, Concat, Pending;
    StreamIsConcat(ms);
    Projected(Begin(slots, cap, blank), steps);
    JournalSide(cap, blank, Entries(steps));
    JournalFirst(slots, cap, blank, steps);
    LiveGateway(ms, g, slots, Moves(steps));
  }

  // The messages that watermark k replays to.
  function Replayed(t: Tape, k: nat): seq<ItchMsg>
    requires k < |t.marks| && t.marks[k] <= |t.data|
  {
    ParseAll(t.data[..t.marks[k]])
  }

  // At every moment of every interleaving the live gateway is the replay of a watermark that
  // is already published.
  lemma ReplayIsTheLiveState(ms: seq<ItchMsg>, g: Dense, slots: nat, cap: nat, blank: seq<Byte>, steps: seq<LiveStep>)
    requires Journaled(ms, |g.refs|, slots, cap, blank, steps)
    ensures var s := LiveAfter(Begin(slots, cap, blank), steps);
            var k := Applied(s.arena);
            && k < |s.tape.marks| && k <= |ms| && s.tape.marks[k] <= |s.tape.data|
            && Replayed(s.tape, k) == ms[..k]
            && Session(g, Start<FrameBytes>(slots), Moves(steps)) == Outcome(g, Replayed(s.tape, k))
  {
    hide ParseAll, WellFormed, RunDense, Session, TapeInv, Stream, LiveRuns, Plays, ReadsFirst, LiveAfter, Applied;
    JournaledFacts(ms, g, slots, cap, blank, steps);
    var s := LiveAfter(Begin(slots, cap, blank), steps);
    AcceptedWatermark(s.tape, ms, Applied(s.arena));
  }

  // The replay of an earlier watermark is a state the live gateway went through.
  lemma ReplayIsAPastState(ms: seq<ItchMsg>, g: Dense, slots: nat, cap: nat, blank: seq<Byte>,
                           steps: seq<LiveStep>, k: nat)
    requires Journaled(ms, |g.refs|, slots, cap, blank, steps)
    requires k <= Applied(LiveAfter(Begin(slots, cap, blank), steps).arena)
    ensures var s := LiveAfter(Begin(slots, cap, blank), steps);
            && Applied(s.arena) <= |ms| && k < |s.tape.marks| && s.tape.marks[k] <= |s.tape.data|
            && Replayed(s.tape, k) == ms[..k]
            && Outcome(Outcome(g, Replayed(s.tape, k)), ms[k..Applied(s.arena)])
               == Session(g, Start<FrameBytes>(slots), Moves(steps))
  {
    hide ParseAll, WellFormed, RunDense, Session, TapeInv, Stream, LiveRuns, Plays, ReadsFirst, LiveAfter, Applied;
    JournaledFacts(ms, g, slots, cap, blank, steps);
    var s := LiveAfter(Begin(slots, cap, blank), steps);
    AcceptedWatermark(s.tape, ms, k);
    var past := ms[..Applied(s.arena)];
    SplitAt(g, past, k);
    assert past[..k] == ms[..k] && past[k..] == ms[k..Applied(s.arena)];
  }

  // Once the session is drained, a fresh gateway fed the final watermark ends exactly where
  // the live one did.
  lemma ReplayRebuildsLive(ms: seq<ItchMsg>, g: Dense, slots: nat, cap: nat, blank: seq<Byte>, steps: seq<LiveStep>)
    requires Journaled(ms, |g.refs|, slots, cap, blank, steps)
    requires var s := LiveAfter(Begin(slots, cap, blank), steps); s.arena.tail == |ms| && s.tape.writer.WIdle?
    ensures var t := LiveAfter(Begin(slots, cap, blank), steps).tape;
            && t.off <= |t.data| && ParseAll(t.data[..t.off]) == ms
            && Session(g, Start<FrameBytes>(slots), Moves(steps)) == Outcome(g, ParseAll(t.data[..t.off]))
  {
    hide Good, Go, Can, Frame, ParseAll, WellFormed, RunDense, ApplyFrame, Session, Stream;
    Projected(Begin(slots, cap, blank), steps);
    FinalWatermark(cap, blank, Entries(steps), ms);
    ReplayIsTheLiveState(ms, g, slots, cap, blank, steps);
    assert ms[..|ms|] == ms;
  }
}
