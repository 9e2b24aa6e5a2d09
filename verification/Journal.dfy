/**
 The append-only replay journal: a byte array and a commit watermark. The writer copies a
 frame byte by byte and only then publishes the new watermark; a reader may observe any
 watermark published so far, at any moment, also while a copy is under way.
 */
module Journals {
  import opened Wire
  import opened Itch

  type FrameBytes = seq<Byte>

  function Concat(frames: seq<FrameBytes>): seq<Byte> {
    if frames == [] then [] else Concat(frames[..|frames| - 1]) + frames[|frames| - 1]
  }

  lemma ConcatPush(frames: seq<FrameBytes>, f: FrameBytes)
    ensures Concat(frames + [f]) == Concat(frames) + f
  {
    assert (frames + [f])[..|frames|] == frames;
  }

  datatype Writer = WIdle | Copying(frame: FrameBytes, done: nat)

  datatype Tape = Tape(
    cap: nat,
    data: seq<Byte>,
    off: nat,
    marks: seq<nat>,              // every watermark published so far, the latest last
    dropped: nat,
    offered: seq<FrameBytes>,
    accepted: seq<FrameBytes>,
    writer: Writer)

  datatype JStep = Offer(frame: FrameBytes) | CopyByte | Publish

  predicate JEnabled(t: Tape, s: JStep) {
    match s
    case Offer(_) => t.writer.WIdle?
    case CopyByte =>
      t.writer.Copying? && t.writer.done < |t.writer.frame| && t.off + t.writer.done < |t.data|
    case Publish => t.writer.Copying? && t.writer.done == |t.writer.frame|
  }

  function JApply(t: Tape, s: JStep): Tape
    requires JEnabled(t, s)
  {
    match s
    case Offer(frame) =>
      if t.off + |frame| > t.cap then t.(dropped := t.dropped + |frame|, offered := t.offered + [frame])
      else t.(writer := Copying(frame, 0), offered := t.offered + [frame])
    case CopyByte =>
      t.(data := t.data[t.off + t.writer.done := t.writer.frame[t.writer.done]],
         writer := t.writer.(done := t.writer.done + 1))
    case Publish =>
      var off := t.off + |t.writer.frame|;
      t.(off := off, marks := t.marks + [off], accepted := t.accepted + [t.writer.frame], writer := WIdle)
  }

  function Pending(t: Tape): seq<FrameBytes> {
    if t.writer.Copying? then [t.writer.frame] else []
  }

  ghost predicate Marked(t: Tape) {
    && |t.marks| == |t.accepted| + 1
    && forall k | 0 <= k < |t.marks| :: t.marks[k] == |Concat(t.accepted[..k])| <= t.off
  }

  ghost predicate TapeInv(t: Tape) {
    && |t.data| == t.cap && t.off <= t.cap
    && t.data[..t.off] == Concat(t.accepted)
    && Marked(t)
    && (t.writer.Copying? ==>
          && t.writer.done <= |t.writer.frame| && t.off + |t.writer.frame| <= t.cap
          && t.data[t.off..t.off + t.writer.done] == t.writer.frame[..t.writer.done])
    && t.off + |Concat(Pending(t))| + t.dropped == |Concat(t.offered)|
    && (t.dropped == 0 ==> t.offered == t.accepted + Pending(t))
    && t.accepted + Pending(t) == Fitting(t.cap, t.offered)
  }

  // The frames that fit when offered one after the other: not always a prefix, since a short
  // frame may still fit behind a dropped long one.
  function Fitting(cap: nat, offered: seq<FrameBytes>): (kept: seq<FrameBytes>)
    ensures |Concat(kept)| <= cap
  {
    if offered == [] then [] else
      var kept, frame := Fitting(cap, offered[..|offered| - 1]), offered[|offered| - 1];
      ConcatPush(kept, frame);
      if |Concat(kept)| + |frame| > cap then kept else kept + [frame]
  }

  lemma FittingPush(cap: nat, offered: seq<FrameBytes>, frame: FrameBytes)
    ensures var kept := Fitting(cap, offered);
            Fitting(cap, offered + [frame]) == if |Concat(kept)| + |frame| > cap then kept else kept + [frame]
  {
    assert (offered + [frame])[..|offered|] == offered;
  }

  function NewTape(cap: nat, data: seq<Byte>): Tape {
    Tape(cap, data, 0, [0], 0, [], [], WIdle)
  }

  lemma NewTapeInv(cap: nat, data: seq<Byte>)
    requires |data| == cap
    ensures TapeInv(NewTape(cap, data))
  {
  }

  lemma PendingOne(f: FrameBytes)
    ensures Concat([f]) == f
  {
    ConcatPush([], f);
    assert [] + [f] == [f];
  }

  lemma OfferInv(t: Tape, frame: FrameBytes)
    requires TapeInv(t) && t.writer.WIdle?
    ensures TapeInv(JApply(t, Offer(frame)))
  {
    ConcatPush(t.offered, frame);
    FittingPush(t.cap, t.offered, frame);
    PendingOne(frame);
    var t' := JApply(t, Offer(frame));
    assert t.accepted + [] == t.accepted;
    assert Marked(t');
  }

  lemma CopyInv(t: Tape)
    requires TapeInv(t) && JEnabled(t, CopyByte)
    ensures TapeInv(JApply(t, CopyByte))
  {
    hide Fitting, Concat;
    var t' := JApply(t, CopyByte);
    assert t'.data[..t'.off] == t.data[..t.off];
    var copied := t.data[t.off..t.off + t.writer.done];
    assert t'.data[t.off..t.off + t'.writer.done] == copied + [t.writer.frame[t.writer.done]];
    PendingOne(t.writer.frame);
    assert Marked(t');
  }

  lemma PublishInv(t: Tape)
    requires TapeInv(t) && JEnabled(t, Publish)
    ensures TapeInv(JApply(t, Publish))
  {
    var t' := JApply(t, Publish);
    ConcatPush(t.accepted, t.writer.frame);
    PendingOne(t.writer.frame);
    assert t'.data[..t'.off] == t.data[..t.off] + t.data[t.off..t'.off];
    forall k | 0 <= k < |t'.marks|
      ensures t'.marks[k] == |Concat(t'.accepted[..k])| <= t'.off
    {
      if k < |t.marks| {
        assert t'.accepted[..k] == t.accepted[..k];
      } else {
        assert t'.accepted[..k] == t'.accepted;
      }
    }
    assert t'.accepted + [] == t.accepted + Pending(t);
  }

  lemma JStepInv(t: Tape, s: JStep)
    requires TapeInv(t) && JEnabled(t, s)
    ensures TapeInv(JApply(t, s))
  {
    match s
    case Offer(frame) => OfferInv(t, frame);
    case CopyByte => CopyInv(t);
    case Publish => PublishInv(t);
  }

  ghost predicate JRuns(t: Tape, steps: seq<JStep>)
    decreases |steps|
  {
    steps == [] || (JEnabled(t, steps[0]) && JRuns(JApply(t, steps[0]), steps[1..]))
  }

  function JAfter(t: Tape, steps: seq<JStep>): Tape
    requires JRuns(t, steps)
    decreases |steps|
  {
    if steps == [] then t else JAfter(JApply(t, steps[0]), steps[1..])
  }

  lemma {:induction false} JRunInv(t: Tape, steps: seq<JStep>)
    requires TapeInv(t) && JRuns(t, steps)
    ensures TapeInv(JAfter(t, steps)) && JAfter(t, steps).cap == t.cap
    ensures t.accepted <= JAfter(t, steps).accepted && t.marks <= JAfter(t, steps).marks
    decreases |steps|
  {
    hide TapeInv;
    if steps != [] {
      JStepInv(t, steps[0]);
      JRunInv(JApply(t, steps[0]), steps[1..]);
    }
  }

  lemma {:induction false} ConcatPrefix(frames: seq<FrameBytes>, k: nat)
    requires k <= |frames|
    ensures Concat(frames[..k]) <= Concat(frames)
    decreases |frames| - k
  {
    if k < |frames| {
      ConcatPrefix(frames, k + 1);
      assert frames[..k + 1][..k] == frames[..k];
    } else {
      assert frames[..k] == frames;
    }
  }

  // Below any watermark published so far lie whole accepted frames and nothing else.
  lemma WatermarkSafe(t: Tape, k: nat)
    requires TapeInv(t) && k < |t.marks|
    ensures t.marks[k] <= |t.data| && t.data[..t.marks[k]] == Concat(t.accepted[..k])
  {
    ConcatPrefix(t.accepted, k);
    assert t.data[..t.marks[k]] == t.data[..t.off][..t.marks[k]];
  }

  // ... at every later step of the writer as well: the committed bytes never change.
  lemma CommittedNeverChanges(t: Tape, steps: seq<JStep>, k: nat)
    requires TapeInv(t) && JRuns(t, steps) && k < |t.marks|
    ensures var t' := JAfter(t, steps);
            && k < |t'.marks| && t'.marks[k] == t.marks[k] <= |t'.data| && t.marks[k] <= |t.data|
            && t'.data[..t.marks[k]] == t.data[..t.marks[k]]
  {
    JRunInv(t, steps);
    var t' := JAfter(t, steps);
    WatermarkSafe(t, k);
    WatermarkSafe(t', k);
    assert t'.accepted[..k] == t.accepted[..k];
  }

  // The first k frames fit, and behind them no later frame does.
  ghost predicate StopsAt(cap: nat, offered: seq<FrameBytes>, k: nat) {
    && k <= |offered| && |Concat(offered[..k])| <= cap
    && forall j | k <= j < |offered| :: |Concat(offered[..k])| + |offered[j]| > cap
  }

  lemma {:induction false} FittingStops(cap: nat, offered: seq<FrameBytes>, k: nat)
    requires StopsAt(cap, offered, k)
    ensures Fitting(cap, offered) == offered[..k]
    decreases |offered|
  {
    if offered != [] {
      var n := |offered| - 1;
      if k <= n {
        assert offered[..n][..k] == offered[..k];
        FittingStops(cap, offered[..n], k);
      } else {
        ConcatPush(offered[..n], offered[n]);
        assert offered[..n] + [offered[n]] == offered && offered[..n][..n] == offered[..n] && offered[..k] == offered;
        FittingStops(cap, offered[..n], n);
      }
    }
  }

  lemma {:induction false} PrefixStops(cap: nat, offered: seq<FrameBytes>) returns (k: nat)
    requires Fitting(cap, offered) <= offered
    ensures StopsAt(cap, offered, k)
    decreases |offered|
  {
    k := 0;
    if offered != [] {
      hide Fitting;
      var n := |offered| - 1;
      var front, last := offered[..n], offered[n];
      assert offered == front + [last];
      FittingPush(cap, front, last);
      FittingNoLonger(cap, front);
      k := PrefixStops(cap, front);
      FittingStops(cap, front, k);
      assert front[..k] == offered[..k];
      if |Concat(offered[..k])| + |last| <= cap {
        assert Fitting(cap, offered)[k] == last == offered[k];
        assert k == n;
        ConcatPush(front, last);
        k := n + 1;
        assert offered[..k] == offered;
      }
    }
  }

  lemma {:induction false} FittingNoLonger(cap: nat, offered: seq<FrameBytes>)
    ensures |Fitting(cap, offered)| <= |offered|
  {
    if offered != [] {
      FittingNoLonger(cap, offered[..|offered| - 1]);
    }
  }

  // The kept frames are a prefix of the offered ones exactly when everything behind some
  // fitting prefix is too long for the room it leaves.
  lemma KeepsAPrefix(cap: nat, offered: seq<FrameBytes>)
    ensures Fitting(cap, offered) <= offered <==> exists k :: StopsAt(cap, offered, k)
  {
    hide Fitting, StopsAt;
    if Fitting(cap, offered) <= offered {
      var k := PrefixStops(cap, offered);
    }
    if k :| StopsAt(cap, offered, k) {
      StopsWithin(cap, offered, k);
      FittingStops(cap, offered, k);
    }
  }

  lemma StopsWithin(cap: nat, offered: seq<FrameBytes>, k: nat)
    requires StopsAt(cap, offered, k)
    ensures k <= |offered|
  {
  }

  // They are all of them exactly when the offered bytes fit the file.
  lemma {:induction false} KeepsAll(cap: nat, offered: seq<FrameBytes>)
    ensures Fitting(cap, offered) == offered <==> |Concat(offered)| <= cap
  {
    assert offered[..|offered|] == offered;
    if |Concat(offered)| <= cap {
      FittingStops(cap, offered, |offered|);
    }
  }

  // Every offered byte is committed or dropped, and the accepted frames are the ones that fit
  // in their turn. The journal is a byte-identical copy, nothing having been dropped, exactly
  // when the offered bytes fit its capacity.
  lemma BytesAccounted(cap: nat, data: seq<Byte>, steps: seq<JStep>)
    requires |data| == cap && JRuns(NewTape(cap, data), steps)
    ensures var t := JAfter(NewTape(cap, data), steps);
            t.writer.WIdle? ==>
              && t.off <= |t.data| && t.off + t.dropped == |Concat(t.offered)|
              && t.accepted == Fitting(cap, t.offered)
              && (t.dropped == 0 <==> |Concat(t.offered)| <= cap)
              && (t.data[..t.off] == Concat(t.offered) <==> |Concat(t.offered)| <= cap)
  {
    NewTapeInv(cap, data);
    JRunInv(NewTape(cap, data), steps);
    hide Fitting;
    var t := JAfter(NewTape(cap, data), steps);
    assert t.accepted + [] == t.accepted;
    KeepsAll(cap, t.offered);
  }

  // The shortest failing family: a frame too long for the file is dropped, the next one is not.
  lemma NotAPrefix(cap: nat, long: FrameBytes, short: FrameBytes)
    requires |short| <= cap < |long|
    ensures Fitting(cap, [long, short]) == [short] && !([short] <= [long, short])
  {
    hide Fitting, Concat;
    FittingNone(cap);
    FittingPush(cap, [], long);
    FittingPush(cap, [long], short);
    assert [] + [long] == [long] && [long] + [short] == [long, short];
    assert [] + [short] == [short] && [short][0] != [long, short][0];
  }

  lemma FittingNone(cap: nat)
    ensures Fitting(cap, []) == [] && |Concat([])| == 0
  {
  }

  // ---- replay ------------------------------------------------------------------------------------------

  function Frames(ms: seq<ItchMsg>): (s: seq<FrameBytes>)
    ensures |s| == |ms|
    ensures forall i | 0 <= i < |ms| :: s[i] == Frame(ms[i])
  {
    seq(|ms|, i requires 0 <= i < |ms| => Frame(ms[i]))
  }

  lemma {:induction false} StreamPush(ms: seq<ItchMsg>, m: ItchMsg)
    ensures Stream(ms + [m]) == Stream(ms) + Frame(m)
  {
    hide Frame;
    if ms == [] {
      assert [] + [m] == [m] && [m][1..] == [];
    } else {
      StreamPush(ms[1..], m);
      assert (ms + [m])[1..] == ms[1..] + [m];
    }
  }

  lemma {:induction false} StreamIsConcat(ms: seq<ItchMsg>)
    ensures Concat(Frames(ms)) == Stream(ms)
    decreases |ms|
  {
    hide Frame;
    if ms != [] {
      var front, m := ms[..|ms| - 1], ms[|ms| - 1];
      StreamIsConcat(front);
      StreamPush(front, m);
      assert ms == front + [m];
      assert Frames(ms)[..|ms| - 1] == Frames(front);
    }
  }

  // Parsing up to any watermark yields exactly the messages accepted by then.
  lemma ReplayYieldsAccepted(t: Tape, ms: seq<ItchMsg>, k: nat)
    requires TapeInv(t) && k < |t.marks|
    requires t.accepted == Frames(ms) && forall i | 0 <= i < |ms| :: WellFormed(ms[i])
    ensures t.marks[k] <= |t.data| && ParseAll(t.data[..t.marks[k]]) == ms[..k]
  {
    WatermarkSafe(t, k);
    assert t.accepted[..k] == Frames(ms[..k]);
    StreamIsConcat(ms[..k]);
    ParsesStream(ms[..k]);
  }

  // ---- the journal in place ------------------------------------------------------------------------------

  class Journal {
    const cap: nat
    const data: array<Byte>
    var off: nat
    var committed: nat
    var dropped: nat
    ghost var tape: Tape

    ghost predicate Valid()
      reads this, data
    {
      && TapeInv(tape) && tape.writer.WIdle?
      && tape.cap == cap == data.Length && tape.data == data[..]
      && off == committed == tape.off && dropped == tape.dropped
    }

    constructor (cap: nat)
      ensures Valid() && fresh(data) && this.cap == cap && tape == NewTape(cap, seq(cap, _ => 0))
    {
      this.cap := cap;
      data := new Byte[cap](_ => 0);
      off, committed, dropped := 0, 0, 0;
      tape := NewTape(cap, seq(cap, _ => 0));
      new;
      assert data[..] == seq(cap, _ => 0);
      NewTapeInv(cap, data[..]);
    }

    // Append one frame, or drop it whole when it does not fit.
    method Append(frame: FrameBytes)
      requires Valid()
      modifies this, data
      ensures Valid()
      ensures tape.offered == old(tape.offered) + [frame]
      ensures old(off) + |frame| > cap ==>
                tape.accepted == old(tape.accepted) && dropped == old(dropped) + |frame|
                && committed == old(committed) && data[..] == old(data[..])
      ensures old(off) + |frame| <= cap ==>
                tape.accepted == old(tape.accepted) + [frame] && dropped == old(dropped)
                && committed == old(committed) + |frame|
                && data[..committed] == old(data[..committed]) + frame
    {
      hide Concat, Fitting, Marked, TapeInv;
      Facts(tape);
      JStepInv(tape, Offer(frame));
      tape := JApply(tape, Offer(frame));
      if off + |frame| > cap {
        dropped := dropped + |frame|;
        return;
      }
      var i := 0;
      while i < |frame|
        invariant 0 <= i <= |frame|
        invariant TapeInv(tape) && tape.writer == Copying(frame, i)
        invariant tape.cap == cap && tape.data == data[..] && tape.off == off
        invariant tape.accepted == old(tape.accepted) && tape.offered == old(tape.offered) + [frame]
        invariant tape.dropped == dropped
        invariant off == committed == old(off) && dropped == old(dropped)
        invariant data[..off] == old(data[..])[..off]
      {
        Facts(tape);
        JStepInv(tape, CopyByte);
        tape := JApply(tape, CopyByte);
        data[off + i] := frame[i];
        i := i + 1;
      }
      Facts(tape);
      JStepInv(tape, Publish);
      Extended(data[..], off, frame);
      tape := JApply(tape, Publish);
      off := off + |frame|;
      committed := off;
    }

    static lemma Extended(d: seq<Byte>, off: nat, frame: FrameBytes)
      requires off + |frame| <= |d| && d[off..off + |frame|] == frame
      ensures d[..off + |frame|] == d[..off] + frame
    {
    }

    static lemma Facts(t: Tape)
      requires TapeInv(t)
      ensures |t.data| == t.cap && t.off <= t.cap
      ensures t.writer.Copying? ==>
                && t.writer.done <= |t.writer.frame| && t.off + |t.writer.frame| <= t.cap
                && t.data[t.off..t.off + t.writer.done] == t.writer.frame[..t.writer.done]
    {
    }
  }
}
