/**
 The single-producer single-consumer ring as a machine of interleaved micro-steps. A load of
 the peer's index may be stale; a slot access that is not ordered after the accesses it
 conflicts with is a race, and a racing read may yield any value.
 */
module SpscRings {
  import opened Types
  import opened Rings

  // A slot with the number of the write that filled it.
  datatype Slot<+T> = Blank | Filled(num: nat, item: T)

  datatype Producer<+T> = PIdle | LooksFull(item: T) | HasRoom(item: T) | Writing(item: T) | Written
  datatype Consumer = CIdle | LooksEmpty | HasItem | Reading | Taken

  datatype Ring<+T> = Ring(
    cap: nat,
    head: nat, tailCache: nat, producer: Producer<T>,
    tail: nat, headCache: nat, consumer: Consumer,
    slots: seq<Slot<T>>,
    written: seq<T>,       // items of all completed slot writes, in order
    taken: seq<T>,         // items of all completed slot reads, in order
    headView: seq<nat>,    // headView[h]: writes ordered before the release-store of head = h
    tailView: seq<nat>,    // tailView[t]: reads ordered before the release-store of tail = t
    writerSees: nat,       // reads the producer has acquired
    readerSees: nat,       // writes the consumer has acquired
    race: bool)

  datatype Step<+T> =
    | PushBegin(item: T)       // load own head, compare with the cached tail
    | PushRefresh(seen: nat)   // acquire-load of tail
    | WriteBegin | WriteEnd    // store the item into the head slot
    | PushPublish              // release-store of head + 1
    | PopBegin                 // load own tail, compare with the cached head
    | PopRefresh(seen': nat)   // acquire-load of head
    | ReadBegin                // load the item from the tail slot
    | ReadEnd(garbage: T)
    | PopPublish               // release-store of tail + 1

  function Init<T>(cap: nat): Ring<T> {
    Ring(cap, 0, 0, PIdle, 0, 0, CIdle, seq(cap, i => Blank), [], [], [0], [0], 0, 0, false)
  }

  function Busy<T>(p: Producer<T>): bool {
    p.HasRoom? || p.Writing? || p.Written?
  }

  predicate Enabled<T>(s: Ring<T>, step: Step<T>) {
    match step
    case PushBegin(_) => s.producer.PIdle?
    case PushRefresh(seen) => s.producer.LooksFull? && s.tailCache <= seen <= s.tail && seen < |s.tailView|
    case WriteBegin => s.producer.HasRoom?
    case WriteEnd => s.producer.Writing? && s.cap == |s.slots| > 0
    case PushPublish => s.producer.Written?
    case PopBegin => s.consumer.CIdle?
    case PopRefresh(seen) => s.consumer.LooksEmpty? && s.headCache <= seen <= s.head && seen < |s.headView|
    case ReadBegin => s.consumer.HasItem? && s.cap == |s.slots| > 0
    case ReadEnd(_) => s.consumer.Reading? && s.cap == |s.slots| > 0
    case PopPublish => s.consumer.Taken?
  }

  // The write of item number head conflicts with the reads of its slot: it is ordered only
  // if the read of number head - cap has been acquired, and no read of the slot is under way.
  predicate WriteRaces<T>(s: Ring<T>) {
    || s.head >= s.cap + s.writerSees
    || (s.consumer.Reading? && s.cap > 0 && s.tail % s.cap == s.head % s.cap)
  }

  // The read of slot tail % cap is ordered only after writes that have been acquired.
  predicate ReadRaces<T>(s: Ring<T>)
    requires s.cap == |s.slots| > 0
  {
    || (s.slots[s.tail % s.cap].Filled? && s.slots[s.tail % s.cap].num >= s.readerSees)
    || (s.producer.Writing? && s.tail % s.cap == s.head % s.cap)
  }

  function Apply<T>(s: Ring<T>, step: Step<T>): Ring<T>
    requires Enabled(s, step)
  {
    match step
    case PushBegin(item) =>
      s.(producer := if s.head - s.tailCache >= s.cap then LooksFull(item) else HasRoom(item))
    case PushRefresh(seen) =>
      s.(tailCache := seen, writerSees := Max(s.writerSees, s.tailView[seen]),
         producer := if s.head - seen >= s.cap then PIdle else HasRoom(s.producer.item))
    case WriteBegin =>
      s.(producer := Writing(s.producer.item), race := s.race || WriteRaces(s))
    case WriteEnd =>
      s.(producer := Written, written := s.written + [s.producer.item],
         slots := s.slots[s.head % s.cap := Filled(s.head, s.producer.item)])
    case PushPublish =>
      s.(producer := PIdle, head := s.head + 1, headView := s.headView + [|s.written|])
    case PopBegin =>
      s.(consumer := if s.tail >= s.headCache then LooksEmpty else HasItem)
    case PopRefresh(seen) =>
      s.(headCache := seen, readerSees := Max(s.readerSees, s.headView[seen]),
         consumer := if s.tail >= seen then CIdle else HasItem)
    case ReadBegin =>
      s.(consumer := Reading, race := s.race || ReadRaces(s))
    case ReadEnd(garbage) =>
      var slot := s.slots[s.tail % s.cap];
      s.(consumer := Taken, taken := s.taken + [if s.race || slot.Blank? then garbage else slot.item])
    case PopPublish =>
      s.(consumer := CIdle, tail := s.tail + 1, tailView := s.tailView + [|s.taken|])
  }

  function Pushed<T>(s: Ring<T>): seq<T> {
    if s.head <= |s.written| then s.written[..s.head] else s.written
  }

  function Popped<T>(s: Ring<T>): seq<T> {
    if s.tail <= |s.taken| then s.taken[..s.tail] else s.taken
  }

  // ---- the inductive invariant -------------------------------------------------------------------

  ghost predicate Indices<T>(s: Ring<T>) {
    && 0 < s.cap == |s.slots|
    && s.tailCache <= s.tail <= s.headCache <= s.head <= s.tailCache + s.cap
    && (Busy(s.producer) ==> s.head < s.tailCache + s.cap)
    && (s.consumer.HasItem? || s.consumer.Reading? || s.consumer.Taken? ==> s.tail < s.headCache)
    && |s.written| == s.head + (if s.producer.Written? then 1 else 0)
    && |s.taken| == s.tail + (if s.consumer.Taken? then 1 else 0)
  }

  ghost predicate Views<T>(s: Ring<T>) {
    && |s.headView| == s.head + 1 && (forall h | 0 <= h <= s.head :: h <= s.headView[h])
    && |s.tailView| == s.tail + 1 && (forall t | 0 <= t <= s.tail :: t <= s.tailView[t])
    && s.headCache <= s.readerSees && s.tailCache <= s.writerSees
  }

  // The last `cap` writes are what the slots hold.
  ghost predicate Window<T>(s: Ring<T>)
    requires 0 < s.cap == |s.slots|
  {
    forall i | 0 <= i < |s.written| && |s.written| - s.cap <= i :: s.slots[i % s.cap] == Filled(i, s.written[i])
  }

  ghost predicate Inv<T>(s: Ring<T>) {
    && Indices(s) && Views(s) && Window(s)
    && !s.race
    && s.taken <= s.written
  }

  lemma InitInv<T>(cap: nat)
    requires cap > 0
    ensures Inv(Init<T>(cap))
  {
  }

  lemma WriteEndInv<T>(s: Ring<T>)
    requires Inv(s) && s.producer.Writing?
    ensures Inv(Apply(s, WriteEnd))
  {
    var s' := Apply(s, WriteEnd);
    forall i | 0 <= i < |s'.written| && |s'.written| - s'.cap <= i
      ensures s'.slots[i % s.cap] == Filled(i, s'.written[i])
    {
      if i < s.head {
        ModDiffers(i, s.head, s.cap);
      }
    }
  }

  lemma WriteBeginInv<T>(s: Ring<T>)
    requires Inv(s) && s.producer.HasRoom?
    ensures Inv(Apply(s, WriteBegin))
  {
    if s.consumer.Reading? {
      ModDiffers(s.tail, s.head, s.cap);
    }
  }

  lemma ReadInv<T>(s: Ring<T>, step: Step<T>)
    requires Inv(s) && Enabled(s, step) && (step.ReadBegin? || step.ReadEnd?)
    ensures Inv(Apply(s, step))
  {
    assert s.slots[s.tail % s.cap] == Filled(s.tail, s.written[s.tail]);
    if s.producer.Writing? {
      ModDiffers(s.tail, s.head, s.cap);
    }
  }

  lemma StepInv<T>(s: Ring<T>, step: Step<T>)
    requires Inv(s) && Enabled(s, step)
    ensures Inv(Apply(s, step))
  {
    match step
    case WriteBegin => WriteBeginInv(s);
    case WriteEnd => WriteEndInv(s);
    case ReadBegin => ReadInv(s, step);
    case ReadEnd(_) => ReadInv(s, step);
    case _ =>
  }

  // ---- every interleaving -----------------------------------------------------------------------------

  ghost predicate Runs<T>(s: Ring<T>, steps: seq<Step<T>>)
    decreases |steps|
  {
    steps == [] || (Enabled(s, steps[0]) && Runs(Apply(s, steps[0]), steps[1..]))
  }

  function After<T>(s: Ring<T>, steps: seq<Step<T>>): Ring<T>
    requires Runs(s, steps)
    decreases |steps|
  {
    if steps == [] then s else After(Apply(s, steps[0]), steps[1..])
  }

  lemma {:induction false} RunInv<T>(s: Ring<T>, steps: seq<Step<T>>)
    requires Inv(s) && Runs(s, steps)
    ensures Inv(After(s, steps))
    decreases |steps|
  {
    if steps != [] {
      StepInv(s, steps[0]);
      RunInv(Apply(s, steps[0]), steps[1..]);
    }
  }

  // Whatever the interleaving and however stale the loads: no slot access races, what was
  // popped is a prefix of what was pushed, and the indices stay within one capacity.
  lemma FifoUnderEveryInterleaving<T>(cap: nat, steps: seq<Step<T>>)
    requires cap > 0 && Runs(Init<T>(cap), steps)
    ensures var s := After(Init<T>(cap), steps);
            && !s.race
            && Popped(s) <= Pushed(s)
            && |Popped(s)| == s.tail <= s.head == |Pushed(s)| <= s.tail + cap
            && !(s.producer.Writing? && s.consumer.Reading? && s.head % cap == s.tail % cap)
  {
    InitInv<T>(cap);
    RunInv(Init<T>(cap), steps);
    CapKept(Init<T>(cap), steps);
    var s := After(Init<T>(cap), steps);
    if s.producer.Writing? && s.consumer.Reading? {
      ModDiffers(s.tail, s.head, cap);
    }
  }

  lemma {:induction false} CapKept<T>(s: Ring<T>, steps: seq<Step<T>>)
    requires Runs(s, steps)
    ensures After(s, steps).cap == s.cap
    decreases |steps|
  {
    if steps != [] {
      CapKept(Apply(s, steps[0]), steps[1..]);
    }
  }

  // ---- the class: each call is a run of micro-steps -------------------------------------------------------

  // The micro-steps of one try_push whose refresh, if any, loads `seen`.
  function PushSteps<T>(s: Ring<T>, item: T, seen: nat): seq<Step<T>> {
    if s.head - s.tailCache < s.cap then [PushBegin(item), WriteBegin, WriteEnd, PushPublish]
    else if s.head - seen < s.cap then [PushBegin(item), PushRefresh(seen), WriteBegin, WriteEnd, PushPublish]
    else [PushBegin(item), PushRefresh(seen)]
  }

  function PopSteps<T>(s: Ring<T>, seen: nat, garbage: T): seq<Step<T>> {
    if s.tail < s.headCache then [PopBegin, ReadBegin, ReadEnd(garbage), PopPublish]
    else if s.tail < seen then [PopBegin, PopRefresh(seen), ReadBegin, ReadEnd(garbage), PopPublish]
    else [PopBegin, PopRefresh(seen)]
  }

  lemma {:induction false} Extend<T>(s: Ring<T>, done: seq<Step<T>>, step: Step<T>)
    requires Runs(s, done) && Enabled(After(s, done), step)
    ensures Runs(s, done + [step]) && After(s, done + [step]) == Apply(After(s, done), step)
    decreases |done|
  {
    if done == [] {
      assert [] + [step] == [step];
    } else {
      Extend(Apply(s, done[0]), done[1..], step);
      assert (done + [step])[1..] == done[1..] + [step];
    }
  }

  lemma Nothing<T>(s: Ring<T>)
    ensures Runs(s, []) && After(s, []) == s
  {
  }

  // One more enabled micro-step.
  lemma Advance<T>(s: Ring<T>, done: seq<Step<T>>, step: Step<T>)
    requires Runs(s, done) && Inv(After(s, done)) && Enabled(After(s, done), step)
    ensures Runs(s, done + [step]) && After(s, done + [step]) == Apply(After(s, done), step)
    ensures Inv(After(s, done + [step]))
  {
    StepInv(After(s, done), step);
    Extend(s, done, step);
  }

  // Writing the slot and publishing it.
  function WriteDone<T>(s: Ring<T>, item: T): Ring<T>
    requires 0 < s.cap == |s.slots|
  {
    s.(producer := PIdle, head := s.head + 1, written := s.written + [item],
       slots := s.slots[s.head % s.cap := Filled(s.head, item)],
       headView := s.headView + [|s.written| + 1])
  }

  // The machine once the producer knows whether there is room.
  function RoomKnown<T>(s: Ring<T>, item: T, seen: nat): Ring<T>
    requires seen < |s.tailView|
  {
    var s1 := if s.head - s.tailCache < s.cap then s
              else s.(tailCache := seen, writerSees := Max(s.writerSees, s.tailView[seen]));
    s1.(producer := if s1.head - s1.tailCache >= s1.cap then PIdle else HasRoom(item))
  }

  // What one whole push does to the machine.
  function PushResult<T>(s: Ring<T>, item: T, seen: nat): Ring<T>
    requires seen < |s.tailView| && 0 < s.cap == |s.slots|
  {
    var s1 := RoomKnown(s, item, seen);
    if s1.producer.PIdle? then s1 else WriteDone(s1, item)
  }

  lemma WriteRuns<T>(s0: Ring<T>, done: seq<Step<T>>, item: T)
    requires Runs(s0, done) && Inv(After(s0, done)) && After(s0, done).producer == HasRoom(item)
    ensures var steps, s := done + [WriteBegin, WriteEnd, PushPublish], After(s0, done);
            && Runs(s0, steps) && Inv(After(s0, steps)) && 0 < s.cap == |s.slots|
            && After(s0, steps) == WriteDone(s, item)
  {
    hide Runs, After, Window, Views;
    var s := After(s0, done);
    assert !s.race && !s.(producer := Writing(item), race := WriteRaces(s)).race by {
      WriteBeginInv(s);
    }
    Advance(s0, done, WriteBegin);
    Advance(s0, done + [WriteBegin], WriteEnd);
    Advance(s0, done + [WriteBegin] + [WriteEnd], PushPublish);
    assert done + [WriteBegin] + [WriteEnd] + [PushPublish] == done + [WriteBegin, WriteEnd, PushPublish];
  }

  lemma InvFacts<T>(s: Ring<T>)
    requires Inv(s)
    ensures |s.tailView| == s.tail + 1 && |s.headView| == s.head + 1 && 0 < s.cap == |s.slots|
    ensures s.tailCache <= s.tail && s.headCache <= s.head <= |s.written|
  {
  }

  // The begin step of a push, and the refresh when the cache makes the ring look full.
  lemma PushBegins<T>(s: Ring<T>, item: T, seen: nat)
    requires Inv(s) && s.producer.PIdle? && s.tailCache <= seen <= s.tail
    ensures seen < |s.tailView|
    ensures var begin := [PushBegin(item)];
            Runs(s, begin) && Inv(After(s, begin)) && After(s, begin) == Apply(s, PushBegin(item))
    ensures var both := [PushBegin(item), PushRefresh(seen)];
            s.head - s.tailCache >= s.cap ==>
              Runs(s, both) && Inv(After(s, both)) && After(s, both) == RoomKnown(s, item, seen)
  {
    InvFacts(s);
    hide Runs, After, Inv;
    Nothing(s);
    Advance(s, [], PushBegin(item));
    assert [] + [PushBegin(item)] == [PushBegin(item)];
    if s.head - s.tailCache >= s.cap {
      Advance(s, [PushBegin(item)], PushRefresh(seen));
      assert [PushBegin(item)] + [PushRefresh(seen)] == [PushBegin(item), PushRefresh(seen)];
    }
  }

  lemma PushRuns<T>(s: Ring<T>, item: T, seen: nat)
    requires Inv(s) && s.producer.PIdle? && s.tailCache <= seen <= s.tail
    ensures Runs(s, PushSteps(s, item, seen)) && seen < |s.tailView| && 0 < s.cap == |s.slots|
    ensures After(s, PushSteps(s, item, seen)) == PushResult(s, item, seen)
    ensures Inv(PushResult(s, item, seen))
  {
    InvFacts(s);
    hide Runs, After, Inv, WriteDone;
    PushBegins(s, item, seen);
    var begin, both := [PushBegin(item)], [PushBegin(item), PushRefresh(seen)];
    var rest := [WriteBegin, WriteEnd, PushPublish];
    if s.head - s.tailCache < s.cap {
      assert PushSteps(s, item, seen) == begin + rest;
      WriteRuns(s, begin, item);
    } else if s.head - seen < s.cap {
      assert PushSteps(s, item, seen) == both + rest;
      WriteRuns(s, both, item);
    } else {
      assert PushSteps(s, item, seen) == both;
    }
  }

  // Taking the oldest item and releasing its slot.
  function ReadDone<T>(s: Ring<T>): Ring<T>
    requires s.tail < |s.written|
  {
    s.(consumer := CIdle, tail := s.tail + 1, taken := s.taken + [s.written[s.tail]],
       tailView := s.tailView + [|s.taken| + 1])
  }

  // The machine once the consumer knows whether there is an item.
  function ItemKnown<T>(s: Ring<T>, seen: nat): Ring<T>
    requires seen < |s.headView|
  {
    var s1 := if s.tail < s.headCache then s
              else s.(headCache := seen, readerSees := Max(s.readerSees, s.headView[seen]));
    s1.(consumer := if s1.tail >= s1.headCache then CIdle else HasItem)
  }

  // What one whole pop does to the machine: it takes the oldest item, never the garbage.
  function PopResult<T>(s: Ring<T>, seen: nat): Ring<T>
    requires seen < |s.headView|
  {
    var s1 := ItemKnown(s, seen);
    if s1.consumer.CIdle? || s1.tail >= |s1.written| then s1 else ReadDone(s1)
  }

  lemma ReadRuns<T>(s0: Ring<T>, done: seq<Step<T>>, garbage: T)
    requires Runs(s0, done) && Inv(After(s0, done)) && After(s0, done).consumer.HasItem?
    ensures var steps, s := done + [ReadBegin, ReadEnd(garbage), PopPublish], After(s0, done);
            && Runs(s0, steps) && Inv(After(s0, steps)) && s.tail < |s.written|
            && After(s0, steps) == ReadDone(s)
  {
    hide Runs, After, Views;
    var s := After(s0, done);
    assert s.slots[s.tail % s.cap] == Filled(s.tail, s.written[s.tail]);
    ReadInv(s, ReadBegin);
    Advance(s0, done, ReadBegin);
    Advance(s0, done + [ReadBegin], ReadEnd(garbage));
    Advance(s0, done + [ReadBegin] + [ReadEnd(garbage)], PopPublish);
    assert done + [ReadBegin] + [ReadEnd(garbage)] + [PopPublish] == done + [ReadBegin, ReadEnd(garbage), PopPublish];
  }

  lemma PopBegins<T>(s: Ring<T>, seen: nat)
    requires Inv(s) && s.consumer.CIdle? && s.headCache <= seen <= s.head
    ensures seen < |s.headView|
    ensures var begin: seq<Step<T>> := [PopBegin];
            Runs(s, begin) && Inv(After(s, begin)) && After(s, begin) == Apply(s, PopBegin)
    ensures var both: seq<Step<T>> := [PopBegin, PopRefresh(seen)];
            s.tail >= s.headCache ==>
              Runs(s, both) && Inv(After(s, both)) && After(s, both) == ItemKnown(s, seen)
  {
    InvFacts(s);
    hide Runs, After, Inv;
    Nothing(s);
    var none: seq<Step<T>>, begin: seq<Step<T>> := [], [PopBegin];
    Advance(s, none, PopBegin);
    assert none + [PopBegin] == begin;
    if s.tail >= s.headCache {
      Advance(s, begin, PopRefresh(seen));
      assert begin + [PopRefresh(seen)] == [PopBegin, PopRefresh(seen)];
    }
  }

  lemma PopRuns<T>(s: Ring<T>, seen: nat, garbage: T)
    requires Inv(s) && s.consumer.CIdle? && s.headCache <= seen <= s.head
    ensures Runs(s, PopSteps(s, seen, garbage)) && seen < |s.headView|
    ensures After(s, PopSteps(s, seen, garbage)) == PopResult(s, seen)
    ensures Inv(PopResult(s, seen))
  {
    InvFacts(s);
    hide Runs, After, Inv, ReadDone;
    PopBegins(s, seen);
    var begin: seq<Step<T>>, both: seq<Step<T>> := [PopBegin], [PopBegin, PopRefresh(seen)];
    var rest := [ReadBegin, ReadEnd(garbage), PopPublish];
    if s.tail < s.headCache {
      assert PopSteps(s, seen, garbage) == begin + rest;
      ReadRuns(s, begin, garbage);
    } else if s.tail < seen {
      assert PopSteps(s, seen, garbage) == both + rest;
      ReadRuns(s, both, garbage);
    } else {
      assert PopSteps(s, seen, garbage) == both;
    }
  }

  class SpscRing<T(0)> {
    const cap: nat
    const buf: array<T>
    var head: nat
    var tailCache: nat
    var tail: nat
    var headCache: nat
    ghost var ring: Ring<T>

    ghost predicate Valid()
      reads this, buf
    {
      && Inv(ring) && ring.cap == cap == buf.Length
      && (head, tailCache, tail, headCache) == (ring.head, ring.tailCache, ring.tail, ring.headCache)
      && ring.producer.PIdle? && ring.consumer.CIdle?
      && forall k | 0 <= k < cap :: ring.slots[k].Filled? ==> buf[k] == ring.slots[k].item
    }

    // What is in flight, oldest first.
    ghost function Contents(): seq<T>
      reads this
      requires ring.tail <= ring.head <= |ring.written|
    {
      ring.written[ring.tail..ring.head]
    }

    constructor (cap: nat)
      requires cap > 0
      ensures Valid() && this.cap == cap && fresh(buf) && ring == Init(cap)
    {
      this.cap := cap;
      buf := new T[cap];
      head, tailCache, tail, headCache := 0, 0, 0, 0;
      ring := Init(cap);
      new;
      InitInv<T>(cap);
    }

    // False if the ring looks full even after loading the consumer's index, which may be stale.
    method TryPush(item: T, seen: nat) returns (ok: bool)
      requires Valid() && tailCache <= seen <= tail
      modifies this, buf
      ensures Valid()
      ensures Runs(old(ring), PushSteps(old(ring), item, seen))
      ensures ring == After(old(ring), PushSteps(old(ring), item, seen))
      ensures Contents() == if ok then old(Contents()) + [item] else old(Contents())
      ensures seen == old(tail) ==> (ok <==> |old(Contents())| < cap)
    {
      hide Window, Views, Runs, After;
      PushRuns(ring, item, seen);
      ring := PushResult(ring, item, seen);
      if head - tailCache >= cap {
        tailCache := seen;
        if head - tailCache >= cap { return false; }
      }
      buf[head % cap] := item;
      head := head + 1;
      return true;
    }

    // None if the ring looks empty even after loading the producer's index, which may be stale.
    method TryPop(seen: nat, ghost garbage: T) returns (out: Option<T>)
      requires Valid() && headCache <= seen <= head
      modifies this
      ensures Valid()
      ensures Runs(old(ring), PopSteps(old(ring), seen, garbage))
      ensures ring == After(old(ring), PopSteps(old(ring), seen, garbage))
      ensures out.Some? ==> old(Contents()) == [out.value] + Contents()
      ensures out.None? ==> Contents() == old(Contents())
      ensures seen == head ==> (out.Some? <==> old(Contents()) != [])
    {
      hide Views, Runs, After;
      PopRuns(ring, seen, garbage);
      ring := PopResult(ring, seen);
      if tail >= headCache {
        headCache := seen;
        if tail >= headCache { return None; }
      }
      assert ring.slots[tail % cap] == Filled(tail, ring.written[tail]);
      out := Some(buf[tail % cap]);
      tail := tail + 1;
    }
  }
}
