/**
 A reader that tails the journal while it is being written. Each published watermark carries
 how many bytes the writer had stored before it; an acquire-load of it orders those bytes, and
 only those, before the reader's next reads. A byte read without that order, or overwritten
 while the reader may read it, is a race and yields anything.
 */
module JournalReaders {
  import opened Rings
  import opened Wire
  import opened Itch
  import opened Journals

  datatype Tailing = Tailing(
    tape: Tape,
    views: seq<nat>,         // views[k]: bytes stored before the release-store of watermark k
    at: nat,                 // the watermark the reader loaded last
    sees: nat,               // bytes ordered before the reader's next read
    got: seq<Byte>,          // what it has read, from the start of the journal
    race: bool)

  // A load may return any watermark not older than the one loaded before.
  datatype TailStep = ByWriter(entry: JStep) | LoadMark(k: nat) | ReadByte(garbage: Byte)

  function StartTailing(cap: nat, blank: seq<Byte>): Tailing {
    Tailing(NewTape(cap, blank), [0], 0, 0, [], false)
  }

  // Bytes the writer has stored so far.
  function Stored(t: Tape): nat {
    t.off + if t.writer.Copying? then t.writer.done else 0
  }

  predicate MayTail(s: Tailing, step: TailStep) {
    match step
    case ByWriter(j) => JEnabled(s.tape, j) && s.at < |s.tape.marks|
    case LoadMark(k) => s.at <= k < |s.tape.marks| && k < |s.views|
    case ReadByte(_) => s.at < |s.tape.marks| && |s.got| < s.tape.marks[s.at] && |s.got| < |s.tape.data|
  }

  function Tail(s: Tailing, step: TailStep): Tailing
    requires MayTail(s, step)
  {
    match step
    case ByWriter(j) =>
      s.(tape := JApply(s.tape, j),
         views := if j.Publish? then s.views + [Stored(s.tape)] else s.views,
         race := s.race || (j.CopyByte? && Stored(s.tape) < s.tape.marks[s.at]))
    case LoadMark(k) => s.(at := k, sees := Max(s.sees, s.views[k]))
    case ReadByte(garbage) =>
      var race := s.race || |s.got| >= s.sees;
      s.(race := race, got := s.got + [if race then garbage else s.tape.data[|s.got|]])
  }

  ghost predicate Tailed(s: Tailing) {
    && TapeInv(s.tape) && !s.race
    && |s.views| == |s.tape.marks| && s.at < |s.tape.marks|
    && (forall k | 0 <= k < |s.views| :: s.tape.marks[k] <= s.views[k])
    && s.tape.marks[s.at] <= s.sees
    && |s.got| <= s.tape.marks[s.at] <= s.tape.off <= |s.tape.data|
    && s.got == s.tape.data[..|s.got|]
  }

  lemma MarkBelow(t: Tape, k: nat)
    requires TapeInv(t) && k < |t.marks|
    ensures t.marks[k] <= t.off <= |t.data| && t.off == t.marks[|t.marks| - 1]
    ensures forall j | 0 <= j <= k :: t.marks[j] <= t.marks[k]
  {
    hide Fitting;
    assert t.accepted[..|t.accepted|] == t.accepted;
    forall j | 0 <= j <= k
      ensures t.marks[j] <= t.marks[k]
    {
      ConcatPrefix(t.accepted[..k], j);
      assert t.accepted[..k][..j] == t.accepted[..j];
    }
  }

  lemma WriterTails(s: Tailing, j: JStep)
    requires Tailed(s) && JEnabled(s.tape, j)
    ensures Tailed(Tail(s, ByWriter(j)))
  {
    hide TapeInv;
    JStepInv(s.tape, j);
    MarkBelow(s.tape, s.at);
    var s' := Tail(s, ByWriter(j));
    MarkBelow(s'.tape, s.at);
    if j.CopyByte? {
      assert s'.tape.data[..|s.got|] == s.tape.data[..|s.got|];
    }
  }

  lemma TailStepKeeps(s: Tailing, step: TailStep)
    requires Tailed(s) && MayTail(s, step)
    ensures Tailed(Tail(s, step))
  {
    hide TapeInv;
    match step
    case ByWriter(j) => WriterTails(s, j);
    case LoadMark(k) => MarkBelow(s.tape, k);
    case ReadByte(_) =>
  }

  ghost predicate TailRuns(s: Tailing, steps: seq<TailStep>)
    decreases |steps|
  {
    steps == [] || (MayTail(s, steps[0]) && TailRuns(Tail(s, steps[0]), steps[1..]))
  }

  function TailAfter(s: Tailing, steps: seq<TailStep>): Tailing
    requires TailRuns(s, steps)
    decreases |steps|
  {
    if steps == [] then s else TailAfter(Tail(s, steps[0]), steps[1..])
  }

  lemma {:induction false} TailRunKeeps(s: Tailing, steps: seq<TailStep>)
    requires Tailed(s) && TailRuns(s, steps)
    ensures Tailed(TailAfter(s, steps))
    decreases |steps|
  {
    hide Tailed, MayTail, Tail;
    if steps != [] {
      TailStepKeeps(s, steps[0]);
      TailRunKeeps(Tail(s, steps[0]), steps[1..]);
    }
  }

  // Under every interleaving with the writer, and whichever watermarks the loads return: no
  // access races, and what was read is the beginning of the accepted frames, whole up to the
  // watermark once the reader has got there.
  lemma TailReadsCommitted(cap: nat, blank: seq<Byte>, steps: seq<TailStep>)
    requires |blank| == cap && TailRuns(StartTailing(cap, blank), steps)
    ensures var s := TailAfter(StartTailing(cap, blank), steps);
            && !s.race && s.at < |s.tape.marks| && s.at <= |s.tape.accepted|
            && |s.got| <= s.tape.marks[s.at]
            && s.got <= Concat(s.tape.accepted[..s.at])
            && (|s.got| == s.tape.marks[s.at] ==> s.got == Concat(s.tape.accepted[..s.at]))
  {
    hide TapeInv, MayTail, Tail, Concat;
    NewTapeInv(cap, blank);
    TailRunKeeps(StartTailing(cap, blank), steps);
    var s := TailAfter(StartTailing(cap, blank), steps);
    WatermarkSafe(s.tape, s.at);
    OneMarkMore(s.tape);
    assert s.got == s.tape.data[..s.tape.marks[s.at]][..|s.got|];
  }

  lemma OneMarkMore(t: Tape)
    requires TapeInv(t)
    ensures |t.marks| == |t.accepted| + 1
  {
  }

  // A tail that stops anywhere parses to messages accepted by then, in order.
  lemma TailParses(cap: nat, blank: seq<Byte>, steps: seq<TailStep>, ms: seq<ItchMsg>)
    requires |blank| == cap && TailRuns(StartTailing(cap, blank), steps)
    requires TailAfter(StartTailing(cap, blank), steps).tape.accepted == Frames(ms)
    requires forall i | 0 <= i < |ms| :: WellFormed(ms[i])
    ensures var s := TailAfter(StartTailing(cap, blank), steps);
            s.at <= |ms| && ParseAll(s.got) == ms[..Whole(ms[..s.at], |s.got|)]
  {
    hide Frame, ParseAll, WellFormed, Concat, Stream, TailRuns, TailAfter;
    TailReadsCommitted(cap, blank, steps);
    var s := TailAfter(StartTailing(cap, blank), steps);
    assert Frames(ms)[..s.at] == Frames(ms[..s.at]);
    StreamIsConcat(ms[..s.at]);
    assert s.got == Stream(ms[..s.at])[..|s.got|];
    ParsesTruncated(ms[..s.at], |s.got|);
    assert ms[..s.at][..Whole(ms[..s.at], |s.got|)] == ms[..Whole(ms[..s.at], |s.got|)];
  }
}
