/**
 The pre-allocated arena with an intrusive LIFO free list: a dead cell's bytes hold the link
 to the next dead cell. Objects are named by their slot, so index_of and at are the identity.
 */
module MemoryPools {
  import opened Types

  datatype Cell<T> = Free(next: int) | Live(obj: T)

  function Link(free: seq<nat>, k: nat): int {
    if k < |free| then free[k] else NULL
  }

  // `free` is the stack of dead cells, top first, threaded through the cells themselves.
  ghost predicate FreeList<T(!new)>(cells: seq<Cell<T>>, head: int, free: seq<nat>) {
    && head == Link(free, 0)
    && (forall k | 0 <= k < |free| :: free[k] < |cells| && cells[free[k]] == Cell.Free(Link(free, k + 1)))
    && (forall s | 0 <= s < |cells| && cells[s].Free? :: s in free)
    && (forall j, k | 0 <= j < k < |free| :: free[j] != free[k])
  }

  // Writing to live objects does not disturb the free list.
  lemma FreeListFrame<T(!new)>(cells: seq<Cell<T>>, cells': seq<Cell<T>>, head: int, free: seq<nat>)
    requires FreeList(cells, head, free) && |cells'| == |cells|
    requires forall s | 0 <= s < |cells| :: cells[s].Free? || cells'[s].Free? ==> cells'[s] == cells[s]
    ensures FreeList(cells', head, free)
  {
  }

  class MemoryPool<T(0,!new)> {
    const storage: array<Cell<T>>
    var freeHead: int
    ghost var free: seq<nat>

    ghost predicate Valid()
      reads this, storage
    {
      FreeList(storage[..], freeHead, free)
    }

    constructor (capacity: nat)
      ensures Valid() && fresh(storage) && storage.Length == capacity
      ensures |free| == capacity && forall k | 0 <= k < capacity :: free[k] == k
    {
      storage := new Cell<T>[capacity](_ => Cell.Free(NULL));
      freeHead := NULL;
      free := [];
      new;
      var i := capacity;
      while i > 0
        invariant 0 <= i <= capacity && |free| == capacity - i
        invariant forall k | 0 <= k < |free| :: free[k] == i + k
        invariant freeHead == Link(free, 0)
        invariant forall k | 0 <= k < |free| :: storage[free[k]] == Cell.Free(Link(free, k + 1))
        invariant forall s | 0 <= s < capacity :: storage[s].Free?
      {
        i := i - 1;
        storage[i] := Cell.Free(freeHead);
        freeHead := i;
        free := [i] + free;
      }
      forall s | 0 <= s < capacity
        ensures s in free
      {
        assert free[s] == s;
      }
    }

    // Pop a cell and construct `obj` in it; NULL when the arena is exhausted.
    method Acquire(obj: T) returns (slot: int)
      requires Valid()
      modifies this, storage
      ensures Valid()
      ensures old(free) == [] ==> slot == NULL && free == [] && freeHead == old(freeHead)
      ensures old(free) == [] ==> storage[..] == old(storage[..])
      ensures old(free) != [] ==> slot == old(free)[0] && slot < storage.Length && old(storage[slot]).Free?
      ensures old(free) != [] ==> free == old(free)[1..] && storage[..] == old(storage[..])[slot := Live(obj)]
    {
      var n := freeHead;
      if n == NULL { return NULL; }
      freeHead := storage[n].next;
      storage[n] := Live(obj);
      ghost var was := free;
      free := free[1..];
      forall s | 0 <= s < storage.Length && storage[s].Free?
        ensures s in free
      {
        assert s in was && s != was[0];
      }
      return n;
    }

    // Destroy the object and push its cell: the next Acquire hands it out again.
    method Release(slot: nat)
      requires Valid() && slot < storage.Length && storage[slot].Live?
      modifies this, storage
      ensures Valid() && free == [slot] + old(free)
      ensures storage[..] == old(storage[..])[slot := Cell.Free(old(freeHead))]
    {
      storage[slot] := Cell.Free(freeHead);
      freeHead := slot;
      free := [slot] + free;
    }
  }
}
