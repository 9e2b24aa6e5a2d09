/**
 The zero-copy arena ring: the queue hands out slots, clients write and read the bytes in
 place. Publication is a release fence before a relaxed store of the head; the consumer
 loads the head relaxed and issues ONE acquire fence when it sees a new value. Clients may
 touch their slot any number of times while they hold it.
 */
module ArenaRings {
  import opened Types
  import opened Rings

  datatype Bytes<+B> = Stale | Stamped(num: nat, bytes: B)   // num: the frame it was written for

  datatype Feeder = FIdle | FLooksFull | Acquired | Fenced
  datatype Engine = EIdle | ELooksEmpty | Unfenced | Fronted

  datatype Arena<+B> = Arena(
    cap: nat,
    head: nat, tailCache: nat, feeder: Feeder,
    tail: nat, headCache: nat, engine: Engine,
    slots: seq<Bytes<B>>,
    sent: seq<Bytes<B>>,     // slot contents at each publication
    read: seq<Bytes<B>>,     // what the client has read since it fronted the current slot
    fence: nat,              // frames whose writes precede the latest release fence
    headView: seq<nat>,      // headView[h]: frames ordered before the store of head = h
    tailView: seq<nat>,      // tailView[t]: slots released before the store of tail = t
    writerSees: nat,
    readerSees: nat,
    race: bool)

  datatype Move<+B> =
    | Acquire | AcquireRefresh(seen: nat)
    | ClientWrite(bytes: B)
    | PublishFence | PublishStore
    | Front | FrontLoad(seen': nat) | FrontFence
    | ClientRead(garbage: Bytes<B>)
    | Release

  function Start<B>(cap: nat): Arena<B> {
    Arena(cap, 0, 0, FIdle, 0, 0, EIdle, seq(cap, i => Stale), [], [], 0, [0], [0], 0, 0, false)
  }

  predicate Can<B>(s: Arena<B>, m: Move<B>) {
    match m
    case Acquire => s.feeder.FIdle? || s.feeder.Acquired?
    case AcquireRefresh(seen) => s.feeder.FLooksFull? && s.tailCache <= seen <= s.tail && seen < |s.tailView|
    case ClientWrite(_) => s.feeder.Acquired? && s.cap == |s.slots| > 0
    case PublishFence => s.feeder.Acquired?
    case PublishStore => s.feeder.Fenced? && s.cap == |s.slots| > 0
    case Front => s.engine.EIdle? || s.engine.Fronted?
    case FrontLoad(seen) => s.engine.ELooksEmpty? && s.headCache <= seen <= s.head && seen < |s.headView|
    case FrontFence => s.engine.Unfenced? && s.headCache < |s.headView|
    case ClientRead(_) => s.engine.Fronted? && s.cap == |s.slots| > 0
    case Release => s.engine.Fronted?
  }

  predicate SameSlot<B>(s: Arena<B>) {
    s.cap > 0 && s.head % s.cap == s.tail % s.cap
  }

  // Both clients hold a slot, and it is the same one.
  predicate Collide<B>(s: Arena<B>) {
    s.feeder.Acquired? && s.engine.Fronted? && SameSlot(s)
  }

  predicate UnorderedRead<B>(s: Arena<B>)
    requires s.cap == |s.slots| > 0
  {
    s.slots[s.tail % s.cap].Stamped? && s.slots[s.tail % s.cap].num >= s.readerSees
  }

  function Go<B>(s: Arena<B>, m: Move<B>): Arena<B>
    requires Can(s, m)
  {
    match m
    case Acquire =>
      s.(feeder := if s.head - s.tailCache >= s.cap then FLooksFull else Acquired)
    case AcquireRefresh(seen) =>
      s.(tailCache := seen, writerSees := Max(s.writerSees, s.tailView[seen]),
         feeder := if s.head - seen >= s.cap then FIdle else Acquired)
    case ClientWrite(bytes) =>
      s.(slots := s.slots[s.head % s.cap := Stamped(s.head, bytes)],
         race := s.race || Collide(s) || s.head >= s.cap + s.writerSees)
    case PublishFence =>
      s.(feeder := Fenced, fence := s.head + 1)
    case PublishStore =>
      s.(feeder := FIdle, head := s.head + 1, headView := s.headView + [s.fence],
         sent := s.sent + [s.slots[s.head % s.cap]])
    case Front =>
      if s.tail >= s.headCache then s.(engine := ELooksEmpty)
      else s.(engine := Fronted, read := if s.engine.Fronted? then s.read else [])
    case FrontLoad(seen) =>
      s.(headCache := seen, engine := if s.tail >= seen then EIdle else Unfenced)
    case FrontFence =>
      s.(engine := Fronted, readerSees := Max(s.readerSees, s.headView[s.headCache]), read := [])
    case ClientRead(garbage) =>
      var race := s.race || Collide(s) || UnorderedRead(s);
      s.(race := race, read := s.read + [if race then garbage else s.slots[s.tail % s.cap]])
    case Release =>
      s.(engine := EIdle, tail := s.tail + 1, tailView := s.tailView + [s.tail + 1])
  }

  // ---- the inductive invariant ----------------------------------------------------------------------

  ghost predicate Bounds<B>(s: Arena<B>) {
    && 0 < s.cap == |s.slots|
    && s.tailCache <= s.tail <= s.head <= s.tailCache + s.cap
    && s.headCache <= s.head
    && (s.feeder.Acquired? || s.feeder.Fenced? ==> s.head < s.tailCache + s.cap)
    && (s.feeder.Fenced? ==> s.fence == s.head + 1)
    && (s.engine.Fronted? || s.engine.Unfenced? ==> s.tail < s.headCache)
    && (s.engine.ELooksEmpty? ==> s.tail >= s.headCache)
    && |s.sent| == s.head
  }

  // The acquire fence issued at a refresh covers every slot below head_cache_, so the later
  // fence-free calls are covered as well.
  ghost predicate FenceCovers<B>(s: Arena<B>) {
    && |s.headView| == s.head + 1 && (forall h | 0 <= h <= s.head :: h <= s.headView[h])
    && |s.tailView| == s.tail + 1 && (forall t | 0 <= t <= s.tail :: t <= s.tailView[t])
    && s.tailCache <= s.writerSees
    && s.tail <= s.readerSees
    && (!s.engine.Unfenced? ==> s.headCache <= s.readerSees)
  }

  // Every frame in flight still is what was published, in its slot.
  ghost predicate Stationary<B>(s: Arena<B>)
    requires 0 < s.cap == |s.slots| && |s.sent| == s.head
  {
    forall i | s.tail <= i < s.head ::
      s.slots[i % s.cap] == s.sent[i] && (s.sent[i].Stamped? ==> s.sent[i].num <= i)
  }

  ghost predicate NoSlotAhead<B>(s: Arena<B>)
    requires 0 < s.cap == |s.slots|
  {
    forall k | 0 <= k < s.cap :: s.slots[k].Stamped? ==> s.slots[k].num <= s.head
  }

  ghost predicate Reads<B>(s: Arena<B>)
    requires |s.sent| == s.head
  {
    s.engine.Fronted? ==> s.tail < s.head && forall k | 0 <= k < |s.read| :: s.read[k] == s.sent[s.tail]
  }

  ghost predicate Good<B>(s: Arena<B>) {
    Bounds(s) && FenceCovers(s) && Stationary(s) && NoSlotAhead(s) && Reads(s) && !s.race
  }

  lemma GoodNumbers<B>(s: Arena<B>)
    requires Good(s)
    ensures Bounds(s) && |s.headView| == s.head + 1 && |s.tailView| == s.tail + 1
  {
  }

  lemma FrontIsSent<B>(s: Arena<B>)
    requires Good(s) && s.tail < s.head
    ensures 0 < s.cap == |s.slots| && s.tail < |s.sent| && s.slots[s.tail % s.cap] == s.sent[s.tail]
  {
  }

  lemma StartGood<B>(cap: nat)
    requires cap > 0
    ensures Good(Start<B>(cap))
  {
  }

  lemma NoCollision<B>(s: Arena<B>)
    requires Bounds(s) && s.feeder.Acquired? && s.engine.Fronted?
    ensures !SameSlot(s)
  {
    ModDiffers(s.tail, s.head, s.cap);
  }

  lemma ClientWriteGood<B>(s: Arena<B>, bytes: B)
    requires Good(s) && s.feeder.Acquired?
    ensures Good(Go(s, ClientWrite(bytes)))
  {
    if s.engine.Fronted? {
      NoCollision(s);
    }
    var s' := Go(s, ClientWrite(bytes));
    forall i | s.tail <= i < s.head
      ensures s'.slots[i % s.cap] == s.sent[i]
    {
      ModDiffers(i, s.head, s.cap);
    }
  }

  lemma ClientReadGood<B>(s: Arena<B>, garbage: Bytes<B>)
    requires Good(s) && s.engine.Fronted?
    ensures Good(Go(s, ClientRead(garbage)))
    ensures Go(s, ClientRead(garbage)).read == s.read + [s.sent[s.tail]]
  {
    if s.feeder.Acquired? {
      NoCollision(s);
    }
    assert s.slots[s.tail % s.cap] == s.sent[s.tail];
  }

  lemma PublishGood<B>(s: Arena<B>)
    requires Good(s) && s.feeder.Fenced?
    ensures Good(Go(s, PublishStore))
  {
    var s' := Go(s, PublishStore);
    forall i | s'.tail <= i < s'.head
      ensures s'.slots[i % s'.cap] == s'.sent[i] && (s'.sent[i].Stamped? ==> s'.sent[i].num <= i)
    {
      if i < s.head {
        assert s'.sent[i] == s.sent[i];
      }
    }
  }

  lemma MoveGood<B>(s: Arena<B>, m: Move<B>)
    requires Good(s) && Can(s, m)
    ensures Good(Go(s, m))
  {
    match m
    case ClientWrite(bytes) => ClientWriteGood(s, bytes);
    case ClientRead(garbage) => ClientReadGood(s, garbage);
    case PublishStore => PublishGood(s);
    case _ =>
  }

  // ---- every interleaving -------------------------------------------------------------------------------

  ghost predicate Plays<B>(s: Arena<B>, moves: seq<Move<B>>)
    decreases |moves|
  {
    moves == [] || (Can(s, moves[0]) && Plays(Go(s, moves[0]), moves[1..]))
  }

  function Final<B>(s: Arena<B>, moves: seq<Move<B>>): Arena<B>
    requires Plays(s, moves)
    decreases |moves|
  {
    if moves == [] then s else Final(Go(s, moves[0]), moves[1..])
  }

  lemma {:induction false} PlayGood<B>(s: Arena<B>, moves: seq<Move<B>>)
    requires Good(s) && Plays(s, moves)
    ensures Good(Final(s, moves)) && Final(s, moves).cap == s.cap
    decreases |moves|
  {
    if moves != [] {
      MoveGood(s, moves[0]);
      PlayGood(Go(s, moves[0]), moves[1..]);
    }
  }

  // Under every interleaving the client that fronted slot `tail` reads, each time, exactly
  // the bytes published as frame number `tail`; no access races and no slot is shared.
  lemma StationaryPayload<B>(cap: nat, moves: seq<Move<B>>)
    requires cap > 0 && Plays(Start<B>(cap), moves)
    ensures var s := Final(Start<B>(cap), moves);
            && !s.race && !Collide(s)
            && s.tail <= s.head == |s.sent| <= s.tail + cap
            && (s.engine.Fronted? ==>
                  && s.tail < s.head && |s.slots| == cap && s.slots[s.tail % cap] == s.sent[s.tail]
                  && forall k | 0 <= k < |s.read| :: s.read[k] == s.sent[s.tail])
  {
    StartGood<B>(cap);
    PlayGood(Start<B>(cap), moves);
    var s := Final(Start<B>(cap), moves);
    if s.feeder.Acquired? && s.engine.Fronted? {
      NoCollision(s);
    }
  }

  // While a slot is fronted, nothing the feeder does changes its bytes.
  lemma FrontedBytesFixed<B>(s: Arena<B>, m: Move<B>)
    requires Good(s) && Can(s, m) && s.engine.Fronted?
    ensures var s' := Go(s, m); |s'.slots| == |s.slots| && s'.slots[s.tail % s.cap] == s.slots[s.tail % s.cap]
  {
    if m.ClientWrite? {
      NoCollision(s);
    }
  }

  // ---- the class: each call is a run of moves ---------------------------------------------------------------

  // The moves of one try_acquire whose refresh, if any, loads `seen`.
  function AcquireMoves<B>(s: Arena<B>, seen: nat): seq<Move<B>> {
    if s.head - s.tailCache < s.cap then [Acquire] else [Acquire, AcquireRefresh(seen)]
  }

  function FrontMoves<B>(s: Arena<B>, seen: nat): seq<Move<B>> {
    if s.tail < s.headCache then [Front]
    else if s.tail < seen then [Front, FrontLoad(seen), FrontFence]
    else [Front, FrontLoad(seen)]
  }

  lemma {:induction false} PlayOn<B>(s: Arena<B>, done: seq<Move<B>>, m: Move<B>)
    requires Plays(s, done) && Can(Final(s, done), m)
    ensures Plays(s, done + [m]) && Final(s, done + [m]) == Go(Final(s, done), m)
    decreases |done|
  {
    hide Go, Can;
    if done == [] {
      assert [] + [m] == [m] && [m][1..] == [];
    } else {
      PlayOn(Go(s, done[0]), done[1..], m);
      assert (done + [m])[1..] == done[1..] + [m];
    }
  }

  // One more move of a run.
  lemma Onward<B>(s: Arena<B>, done: seq<Move<B>>, m: Move<B>)
    requires Plays(s, done) && Good(Final(s, done)) && Can(Final(s, done), m)
    ensures Plays(s, done + [m]) && Final(s, done + [m]) == Go(Final(s, done), m)
    ensures Good(Final(s, done + [m]))
  {
    hide Good, Go, Can, Plays, Final;
    MoveGood(Final(s, done), m);
    PlayOn(s, done, m);
  }

  // What one whole try_front does to the machine.
  function FrontDone<B>(s: Arena<B>, seen: nat): Arena<B>
    requires seen < |s.headView|
  {
    if s.tail < s.headCache then s.(engine := Fronted, read := if s.engine.Fronted? then s.read else [])
    else if s.tail < seen then
      s.(headCache := seen, engine := Fronted, readerSees := Max(s.readerSees, s.headView[seen]), read := [])
    else s.(headCache := seen, engine := EIdle)
  }

  lemma FrontRuns<B>(s: Arena<B>, seen: nat)
    requires Good(s) && (s.engine.EIdle? || s.engine.Fronted?) && s.headCache <= seen <= s.head
    ensures seen < |s.headView| && Plays(s, FrontMoves(s, seen))
    ensures Final(s, FrontMoves(s, seen)) == FrontDone(s, seen) && Good(FrontDone(s, seen))
  {
    GoodNumbers(s);
    hide Good, Plays, Final;
    Nowhere(s);
    var none: seq<Move<B>>, one: seq<Move<B>> := [], [Front];
    Onward(s, none, Front);
    assert none + [Front] == one;
    if s.tail >= s.headCache {
      FrontLoads(s, seen);
    }
  }

  // The refresh of a front that looks empty.
  lemma FrontLoads<B>(s: Arena<B>, seen: nat)
    requires s.engine.EIdle? && s.headCache <= seen <= s.head && s.tail >= s.headCache
    requires |s.headView| == s.head + 1
    requires Plays(s, [Front]) && Good(Final(s, [Front])) && Final(s, [Front]) == s.(engine := ELooksEmpty)
    ensures Plays(s, FrontMoves(s, seen))
    ensures Final(s, FrontMoves(s, seen)) == FrontDone(s, seen) && Good(FrontDone(s, seen))
  {
    hide Good, Plays, Final;
    var one: seq<Move<B>>, two: seq<Move<B>> := [Front], [Front, FrontLoad(seen)];
    Onward(s, one, FrontLoad(seen));
    assert one + [FrontLoad(seen)] == two;
    if s.tail < seen {
      Onward(s, two, FrontFence);
      assert two + [FrontFence] == FrontMoves(s, seen);
    }
  }

  lemma Nowhere<B>(s: Arena<B>)
    ensures Plays(s, []) && Final(s, []) == s
  {
  }

  class SpscArenaRing<B(0)> {
    const cap: nat
    const slots: array<B>
    var head: nat         // published
    var headShadow: nat
    var tailCache: nat
    var tail: nat         // published
    var tailShadow: nat
    var headCache: nat
    ghost var arena: Arena<B>

    ghost predicate Valid()
      reads this, slots
    {
      && Good(arena) && arena.cap == cap == slots.Length
      && head == headShadow == arena.head && tail == tailShadow == arena.tail
      && tailCache == arena.tailCache && headCache == arena.headCache
      && (arena.feeder.FIdle? || arena.feeder.Acquired?) && (arena.engine.EIdle? || arena.engine.Fronted?)
      && forall k | 0 <= k < cap :: arena.slots[k].Stamped? ==> slots[k] == arena.slots[k].bytes
    }

    constructor (cap: nat)
      requires cap > 0
      ensures Valid() && this.cap == cap && fresh(slots) && arena == Start(cap)
    {
      this.cap := cap;
      slots := new B[cap];
      head, headShadow, tailCache, tail, tailShadow, headCache := 0, 0, 0, 0, 0, 0;
      arena := Start(cap);
      new;
      StartGood<B>(cap);
    }

    // Make one more move of the run that started in `start`.
    ghost method Play(start: Arena<B>, done: seq<Move<B>>, m: Move<B>) returns (done': seq<Move<B>>)
      requires Plays(start, done) && Final(start, done) == arena && Good(arena) && Can(arena, m)
      modifies this`arena
      ensures arena == Go(old(arena), m) && Good(arena)
      ensures done' == done + [m] && Plays(start, done') && Final(start, done') == arena
    {
      hide Good, Go, Can;
      Onward(start, done, m);
      arena := Go(arena, m);
      done' := done + [m];
    }

    // The slot to write next, or NULL when the ring looks full even after loading `seen`.
    method TryAcquire(seen: nat) returns (slot: int)
      requires Valid() && tailCache <= seen <= tail
      modifies this`tailCache, this`arena
      ensures Valid() && Plays(old(arena), AcquireMoves(old(arena), seen))
      ensures arena == Final(old(arena), AcquireMoves(old(arena), seen))
      ensures arena.engine == old(arena.engine) && arena.sent == old(arena.sent) && arena.slots == old(arena.slots)
      ensures slot == NULL ==> arena.feeder.FIdle?
      ensures seen == tail ==> (slot == NULL <==> head == tail + cap)
      ensures slot != NULL ==> arena.feeder.Acquired? && 0 <= slot < cap && slot == head % cap
    {
      hide Plays, Final, Good;
      ghost var start, done := Begin();
      GoodNumbers(start);
      done := Play(start, done, Acquire);
      if headShadow - tailCache >= cap {
        done := Play(start, done, AcquireRefresh(seen));
        assert done == AcquireMoves(start, seen);
        tailCache := seen;
        if headShadow - tailCache >= cap { return NULL; }
      }
      assert done == AcquireMoves(start, seen);
      return headShadow % cap;
    }

    // A run of no moves yet.
    ghost method Begin() returns (start: Arena<B>, done: seq<Move<B>>)
      ensures start == arena && done == [] && Plays(start, done) && Final(start, done) == arena
    {
      start, done := arena, [];
    }

    // The client stores into the slot it acquired.
    method Write(bytes: B)
      requires Valid() && arena.feeder.Acquired?
      modifies slots, this`arena
      ensures Valid() && Plays(old(arena), [ClientWrite(bytes)])
      ensures arena == Final(old(arena), [ClientWrite(bytes)]) == Go(old(arena), ClientWrite(bytes))
    {
      hide Plays, Final;
      ghost var start, done := Begin();
      done := Play(start, done, ClientWrite(bytes));
      assert done == [ClientWrite(bytes)];
      slots[headShadow % cap] := bytes;
    }

    // Release fence, then a relaxed store of the head.
    method Publish()
      requires Valid() && arena.feeder.Acquired?
      modifies this`head, this`headShadow, this`arena
      ensures Valid() && Plays(old(arena), [PublishFence, PublishStore])
      ensures arena == Final(old(arena), [PublishFence, PublishStore])
      ensures arena.feeder.FIdle? && head == old(head) + 1 && arena.slots == old(arena.slots)
      ensures arena.sent == old(arena.sent) + [old(arena.slots)[old(head) % cap]]
    {
      hide Plays, Final;
      ghost var start, done := Begin();
      done := Play(start, done, PublishFence);
      headShadow := headShadow + 1;
      head := headShadow;
      done := Play(start, done, PublishStore);
      assert done == [PublishFence, PublishStore];
    }

    // The oldest unconsumed slot, or NULL when the ring looks empty even after loading `seen`.
    method TryFront(seen: nat) returns (slot: int)
      requires Valid() && headCache <= seen <= head
      modifies this`headCache, this`arena
      ensures Valid() && Plays(old(arena), FrontMoves(old(arena), seen))
      ensures arena == Final(old(arena), FrontMoves(old(arena), seen))
      ensures arena.feeder == old(arena.feeder) && arena.sent == old(arena.sent) && arena.slots == old(arena.slots)
      ensures slot == NULL ==> arena.engine.EIdle?
      ensures seen == head ==> (slot == NULL <==> head == tail)
      ensures slot != NULL ==> arena.engine.Fronted? && 0 <= slot < cap && slot == tail % cap
      ensures slot != NULL ==> tail < |arena.sent| && arena.slots[slot] == arena.sent[tail]
    {
      hide Plays, Final, Good;
      FrontRuns(arena, seen);
      GoodNumbers(arena);
      arena := FrontDone(arena, seen);
      if tailShadow >= headCache {
        headCache := seen;
        if tailShadow >= headCache { return NULL; }
      }
      FrontIsSent(arena);
      return tailShadow % cap;
    }

    // The client reads the slot it fronted: the bytes stored there before its publication.
    method Read(ghost garbage: Bytes<B>) returns (bytes: B)
      requires Valid() && arena.engine.Fronted?
      modifies this`arena
      ensures Valid() && Plays(old(arena), [ClientRead(garbage)])
      ensures arena == Final(old(arena), [ClientRead(garbage)]) == Go(old(arena), ClientRead(garbage))
      ensures tail < |arena.sent| && (arena.sent[tail].Stamped? ==> bytes == arena.sent[tail].bytes)
    {
      hide Plays, Final;
      assert arena.slots[tail % cap] == arena.sent[tail];
      ghost var start, done := Begin();
      done := Play(start, done, ClientRead(garbage));
      assert done == [ClientRead(garbage)];
      bytes := slots[tailShadow % cap];
    }

    // Hand the slot back.
    method ReleaseFront()
      requires Valid() && arena.engine.Fronted?
      modifies this`tail, this`tailShadow, this`arena
      ensures Valid() && Plays(old(arena), [Release]) && arena == Final(old(arena), [Release])
      ensures arena.engine.EIdle? && tail == old(tail) + 1
      ensures arena.sent == old(arena.sent) && arena.slots == old(arena.slots)
    {
      hide Plays, Final;
      ghost var start, done := Begin();
      tailShadow := tailShadow + 1;
      tail := tailShadow;
      done := Play(start, done, Release);
      assert done == [Release];
    }
  }
}
