/** Fixed-unit memory pools.

    A pool is a chain of chunks; each chunk is a block of `numUnits` equal units. Units are
    identified by their index inside the pool (chunk `i` owns the index range
    `[start, start + numUnits)`), so an address into pool memory is a pair (pool, unit).
    The free list is kept in its real order (head first); the allocated list is kept as a set. */
module MemPools {

  /** Size of the free-list header in front of every unit: two pointers on a 64-bit target. */
  const PoolListNodeSize: nat := 16

  /** The bound on a grown chunk's byte size that every pool is initialised with. */
  const DefaultMaxBlockSize: nat := 2097152

  /** The smallest first chunk of a pool that may grow. */
  const MinGrowableUnits: nat := 2

  /** An address handed out by a pool: a unit of pool memory, or a block obtained from the
      system allocator, which lies outside every pool. */
  datatype Addr = PoolUnit(pool: nat, unit: nat) | SystemBlock

  /** A chunk of a pool. `dynamic` says whether its block came from the system allocator
      (as opposed to a buffer supplied by the caller). */
  datatype Chunk = Chunk(start: nat, numUnits: nat, dynamic: bool)

  datatype AllocResult = Granted(addr: Addr) | BadAlloc

  /** Byte size of a block holding `numUnits` units of `unitSize` bytes, headers included. */
  function BlockSize(numUnits: nat, unitSize: nat): nat
  {
    numUnits * (unitSize + PoolListNodeSize)
  }

  predicate InChunk(c: Chunk, unit: nat)
  {
    c.start <= unit < c.start + c.numUnits
  }

  /** The source's ownership test, on bytes: the pointer handed out for a unit lies just past
      the unit's free-list header, and it must lie strictly between the start and the end of the
      chunk's block. */
  predicate InChunkAsWritten(c: Chunk, unit: nat, unitSize: nat)
  {
    c.start <= unit
    && (unit - c.start) * (unitSize + PoolListNodeSize) + PoolListNodeSize < BlockSize(c.numUnits, unitSize)
  }

  /** The byte test agrees with unit membership except for the last unit of a chunk of
      zero-byte units, whose pointer is the end of the block. */
  lemma InChunkAsWrittenExactly(c: Chunk, unit: nat, unitSize: nat)
    ensures InChunkAsWritten(c, unit, unitSize) <==>
      InChunk(c, unit) && (unitSize > 0 || unit + 1 != c.start + c.numUnits)
  {
  }

  /** A growable pool created without a buffer for zero-byte units has the single chunk
      `Chunk(0, 2, true)` and the free list `Threaded(0, 2)`, so its first allocation hands out
      unit 1. The byte test does not claim that unit, so the source hands a pointer into the
      pool's block to the system's free instead of returning the unit to the pool. */
  lemma ZeroSizeLastUnitUnclaimedAsWritten()
    ensures Threaded(0, MinGrowableUnits)[0] == 1
    ensures InChunk(Chunk(0, MinGrowableUnits, true), 1)
    ensures !InChunkAsWritten(Chunk(0, MinGrowableUnits, true), 1, 0)
  {
  }

  /** The free list that results from pushing units `start`, `start + 1`, ..., `start + n - 1`
      one after the other at the head of an empty list. */
  function Threaded(start: nat, n: nat): seq<nat>
  {
    if n == 0 then [] else [start + n - 1] + Threaded(start, n - 1)
  }

  /** Threading lists the units of the chunk from the last to the first, each once. */
  lemma {:induction false} ThreadedAt(start: nat, n: nat)
    ensures |Threaded(start, n)| == n
    ensures forall k :: 0 <= k < n ==> Threaded(start, n)[k] == start + n - 1 - k
  {
    if n > 0 {
      ThreadedAt(start, n - 1);
    }
  }

  /** The threaded list holds exactly the chunk's units, without repetition. */
  lemma ThreadedUnits(start: nat, n: nat)
    ensures forall u :: u in Threaded(start, n) <==> start <= u < start + n
    ensures forall i, j :: 0 <= i < j < |Threaded(start, n)| ==> Threaded(start, n)[i] != Threaded(start, n)[j]
  {
    ThreadedAt(start, n);
    var s := Threaded(start, n);
    forall u | start <= u < start + n ensures u in s {
      assert s[start + n - 1 - u] == u;
    }
  }

  /** Units `0 .. count - 1` are split between a free list without repetition and an
      allocated set. */
  ghost predicate Partitioned(free: seq<nat>, alloc: set<nat>, count: nat)
  {
    && (forall u :: u in free ==> u < count)
    && (forall u :: u in alloc ==> u < count)
    && (forall u :: 0 <= u < count ==> (u in free <==> u !in alloc))
    && (forall i, j :: 0 <= i < j < |free| ==> free[i] != free[j])
  }

  /** Moving the head of the free list to the allocated set keeps the split. */
  lemma PartitionedAlloc(free: seq<nat>, alloc: set<nat>, count: nat)
    requires Partitioned(free, alloc, count) && free != []
    ensures free[0] !in alloc
    ensures Partitioned(free[1..], alloc + {free[0]}, count)
    ensures |alloc + {free[0]}| == |alloc| + 1
  {
    assert free[0] in free;
    forall u | u in free[1..] ensures u in free && u != free[0] {
      var k :| 0 <= k < |free| - 1 && free[1..][k] == u;
      assert free[k + 1] == u;
    }
  }

  /** Moving an allocated unit to the head of the free list keeps the split. */
  lemma PartitionedFree(free: seq<nat>, alloc: set<nat>, count: nat, unit: nat)
    requires Partitioned(free, alloc, count) && unit in alloc
    ensures Partitioned([unit] + free, alloc - {unit}, count)
    ensures |alloc - {unit}| + 1 == |alloc|
  {
    assert unit !in free;
    var free' := [unit] + free;
    forall i, j | 0 <= i < j < |free'| ensures free'[i] != free'[j] {
      assert free'[j] == free[j - 1];
      if i > 0 {
        assert free'[i] == free[i - 1];
      }
    }
    assert alloc == (alloc - {unit}) + {unit};
  }

  /** When every unit is allocated, a new chunk threaded onto the empty free list keeps the
      split over the grown unit range. */
  lemma PartitionedGrow(alloc: set<nat>, count: nat, n: nat)
    requires Partitioned([], alloc, count)
    ensures Partitioned(Threaded(count, n), alloc, count + n)
  {
    ThreadedUnits(count, n);
  }

  /** The chunk chain of a pool, oldest first: the first chunk starts at unit 0, each later
      chunk follows the previous one, has twice its units and was taken from the system; a
      pool that may grow has no empty chunk. */
  ghost predicate Chained(cs: seq<Chunk>, canMalloc: bool)
  {
    && |cs| > 0
    && cs[0].start == 0
    && (forall i :: 0 < i < |cs| ==>
          cs[i].start == cs[i - 1].start + cs[i - 1].numUnits
          && cs[i].numUnits == 2 * cs[i - 1].numUnits
          && cs[i].dynamic)
    && (canMalloc ==> forall i :: 0 <= i < |cs| ==> cs[i].numUnits > 0)
  }

  class MemPool {
    /** Index of the pool in the pool manager. */
    const id: nat
    const unitSize: nat
    /** Whether the pool may grow and fall back to the system allocator. */
    const canMalloc: bool
    const maxBlockSize: nat
    /** The chunk chain, oldest first; the newest chunk is the last one. */
    var chunks: seq<Chunk>
    /** The free list, head first. */
    var freeList: seq<nat>
    /** The units on the allocated list. */
    var allocatedUnits: set<nat>
    var statNumAlloc: nat
    var statNumFree: nat

    function Newest(): Chunk
      reads this
      requires |chunks| > 0
    {
      chunks[|chunks| - 1]
    }

    /** Number of units in all chunks of the pool. */
    function UnitCount(): nat
      reads this
      requires |chunks| > 0
    {
      Newest().start + Newest().numUnits
    }

    /** Every unit of every chunk is on exactly one of the free list and the allocated list,
        and the counters differ by the number of allocated units. */
    ghost predicate Valid()
      reads this
    {
      && Chained(chunks, canMalloc)
      && Partitioned(freeList, allocatedUnits, UnitCount())
      && statNumAlloc == statNumFree + |allocatedUnits|
    }

    /** Whether `ptr` points into one of this pool's chunks. */
    ghost predicate Owns(ptr: Addr)
      reads this
    {
      ptr.PoolUnit? && ptr.pool == id && exists i :: 0 <= i < |chunks| && InChunk(chunks[i], ptr.unit)
    }

    /** The pool's change when `unit` is freed: it goes from the allocated list to the head of
        the free list and the free counter goes up by one. */
    twostate predicate FreedUnit(unit: nat)
      reads this
    {
      && freeList == [unit] + old(freeList)
      && allocatedUnits == old(allocatedUnits) - {unit}
      && statNumFree == old(statNumFree) + 1
      && chunks == old(chunks) && statNumAlloc == old(statNumAlloc)
    }

    /** Initialise a pool with one chunk of `numUnits` units of `unitSize` bytes. Without a
        caller-supplied buffer the block is taken from the system, which requires that the
        pool may allocate. A pool that may grow gets at least two units. */
    constructor Init(id: nat, numUnits: nat, unitSize: nat, staticBuffer: bool, mallocAllowed: bool)
      requires staticBuffer || mallocAllowed
      ensures Valid()
      ensures this.id == id && this.unitSize == unitSize && canMalloc == mallocAllowed
      ensures maxBlockSize == DefaultMaxBlockSize
      ensures var n := if mallocAllowed && numUnits < MinGrowableUnits then MinGrowableUnits else numUnits;
              && chunks == [Chunk(0, n, !staticBuffer)]
              && freeList == Threaded(0, n)
              && allocatedUnits == {}
      ensures statNumAlloc == 0 && statNumFree == 0
    {
      var n := if mallocAllowed && numUnits < MinGrowableUnits then MinGrowableUnits else numUnits;
      this.id := id;
      this.unitSize := unitSize;
      canMalloc := mallocAllowed;
      maxBlockSize := DefaultMaxBlockSize;
      chunks := [Chunk(0, n, !staticBuffer)];
      freeList := [];
      allocatedUnits := {};
      statNumAlloc := 0;
      statNumFree := 0;
      new;
      ThreadUnits(0, n);
      PartitionedGrow({}, 0, n);
    }

    /** Push the units `start .. start + n - 1` of a chunk onto the head of the free list. */
    method ThreadUnits(start: nat, n: nat)
      modifies this`freeList
      ensures freeList == Threaded(start, n) + old(freeList)
    {
      var idx := 0;
      while idx < n
        invariant idx <= n
        invariant freeList == Threaded(start, idx) + old(freeList)
      {
        freeList := [start + idx] + freeList;
        idx := idx + 1;
      }
    }

    /** Take a unit from the pool. With free units, the head of the free list moves to the
        allocated list. An exhausted pool that may not grow raises bad-alloc. An exhausted pool
        that may grow adds a chunk of twice the newest chunk's units, unless that chunk's block
        would exceed `maxBlockSize`, in which case a system block is returned and the pool is
        left as it was. */
    method Alloc() returns (r: AllocResult)
      requires Valid()
      modifies this
      ensures Valid()
      ensures old(freeList) != [] ==>
        && r == Granted(PoolUnit(id, old(freeList[0])))
        && freeList == old(freeList[1..])
        && allocatedUnits == old(allocatedUnits) + {old(freeList[0])}
        && chunks == old(chunks)
        && statNumAlloc == old(statNumAlloc) + 1 && statNumFree == old(statNumFree)
      ensures old(freeList) == [] && !canMalloc ==> r == BadAlloc && unchanged(this)
      ensures old(freeList) == [] && canMalloc
              && BlockSize(2 * old(Newest().numUnits), unitSize) > maxBlockSize ==>
        r == Granted(SystemBlock) && unchanged(this)
      ensures old(freeList) == [] && canMalloc
              && BlockSize(2 * old(Newest().numUnits), unitSize) <= maxBlockSize ==>
        var grown := 2 * old(Newest().numUnits);
        var start := old(UnitCount());
        && chunks == old(chunks) + [Chunk(start, grown, true)]
        && r == Granted(PoolUnit(id, start + grown - 1))
        && freeList == Threaded(start, grown - 1)
        && allocatedUnits == old(allocatedUnits) + {start + grown - 1}
        && statNumAlloc == old(statNumAlloc) + 1 && statNumFree == old(statNumFree)
      ensures r.Granted? && r.addr.PoolUnit? ==>
        && r.addr.pool == id && r.addr.unit !in old(allocatedUnits)
        && allocatedUnits == old(allocatedUnits) + {r.addr.unit}
      ensures !(r.Granted? && r.addr.PoolUnit?) ==> allocatedUnits == old(allocatedUnits)
    {
      if freeList == [] {
        if canMalloc {
          var curNumUnits := Newest().numUnits;
          var newNumUnits := 2 * curNumUnits;
          if BlockSize(newNumUnits, unitSize) > maxBlockSize {
            return Granted(SystemBlock);
          }
          Grow(newNumUnits);
          assert freeList == [UnitCount() - 1] + Threaded(old(UnitCount()), newNumUnits - 1);
        } else {
          return BadAlloc;
        }
      }
      var unit := TakeHead();
      r := Granted(PoolUnit(id, unit));
    }

    /** Move the head of the free list to the allocated list. */
    method TakeHead() returns (unit: nat)
      requires Valid() && freeList != []
      modifies this
      ensures Valid()
      ensures unit == old(freeList[0]) && unit !in old(allocatedUnits)
      ensures freeList == old(freeList[1..]) && allocatedUnits == old(allocatedUnits) + {unit}
      ensures chunks == old(chunks)
      ensures statNumAlloc == old(statNumAlloc) + 1 && statNumFree == old(statNumFree)
    {
      PartitionedAlloc(freeList, allocatedUnits, UnitCount());
      unit := freeList[0];
      freeList := freeList[1..];
      allocatedUnits := allocatedUnits + {unit};
      statNumAlloc := statNumAlloc + 1;
    }

    /** Link a new chunk of `newNumUnits` units (twice the newest chunk's) after the newest
        chunk and thread its units onto the empty free list. */
    method Grow(newNumUnits: nat)
      requires Valid() && freeList == [] && canMalloc
      requires newNumUnits == 2 * Newest().numUnits
      modifies this
      ensures Valid()
      ensures chunks == old(chunks) + [Chunk(old(UnitCount()), newNumUnits, true)]
      ensures freeList == Threaded(old(UnitCount()), newNumUnits)
      ensures allocatedUnits == old(allocatedUnits)
      ensures statNumAlloc == old(statNumAlloc) && statNumFree == old(statNumFree)
    {
      var start := UnitCount();
      GrowthKeepsChain(Chunk(start, newNumUnits, true));
      chunks := chunks + [Chunk(start, newNumUnits, true)];
      ThreadUnits(start, newNumUnits);
      PartitionedGrow(allocatedUnits, start, newNumUnits);
    }

    /** Appending the doubled chunk right after the newest one keeps the chain's shape. */
    lemma GrowthKeepsChain(c: Chunk)
      requires Chained(chunks, canMalloc)
      requires c == Chunk(UnitCount(), 2 * Newest().numUnits, true)
      ensures var cs := chunks + [c];
        && cs[0].start == 0
        && forall i :: 0 < i < |cs| ==>
             cs[i].start == cs[i - 1].start + cs[i - 1].numUnits
             && cs[i].numUnits == 2 * cs[i - 1].numUnits && cs[i].dynamic
    {
    }

    /** Walk the chunk chain from the newest chunk to the oldest and report whether one of
        them holds `ptr`. */
    method FindChunk(ptr: Addr) returns (found: bool)
      requires |chunks| > 0
      ensures found <==> Owns(ptr)
    {
      if !(ptr.PoolUnit? && ptr.pool == id) {
        return false;
      }
      var i := |chunks|;
      found := false;
      while !found && i > 0
        invariant 0 <= i <= |chunks|
        invariant found ==> i < |chunks| && InChunk(chunks[i], ptr.unit)
        invariant !found ==> forall j :: i <= j < |chunks| ==> !InChunk(chunks[j], ptr.unit)
      {
        i := i - 1;
        found := InChunk(chunks[i], ptr.unit);
      }
    }

    /** The chunks of a well-formed chain cover exactly the units below `UnitCount()`. */
    lemma ChunksCover(u: nat)
      requires Chained(chunks, canMalloc)
      ensures (exists i :: 0 <= i < |chunks| && InChunk(chunks[i], u)) <==> u < UnitCount()
    {
      ChainCovers(chunks, |chunks|, u);
    }

    /** Return `ptr` to the pool if it points into one of its chunks: the unit leaves the
        allocated list and goes to the head of the free list. Any other address leaves the
        pool unchanged. A unit that is already free must not be freed again. */
    method Free(ptr: Addr) returns (freed: bool)
      requires Valid()
      requires Owns(ptr) ==> ptr.unit in allocatedUnits
      modifies this
      ensures Valid()
      ensures freed <==> old(Owns(ptr))
      ensures freed ==> FreedUnit(ptr.unit)
      ensures !freed ==> unchanged(this)
    {
      freed := FindChunk(ptr);
      if freed {
        var unit := ptr.unit;
        PartitionedFree(freeList, allocatedUnits, UnitCount(), unit);
        allocatedUnits := allocatedUnits - {unit};
        freeList := [unit] + freeList;
        statNumFree := statNumFree + 1;
      }
    }

    /** Every allocated unit lies in one of the pool's chunks. */
    lemma AllocatedOwned(u: nat)
      requires Valid() && u in allocatedUnits
      ensures Owns(PoolUnit(id, u))
    {
      ChunksCover(u);
    }

    /** Tear the pool down: release the blocks of its chunks (see `Released`) and forget
        the chain. */
    method Destroy() returns (released: seq<Chunk>)
      modifies this
      ensures released == Released(old(chunks), canMalloc)
      ensures chunks == [] && freeList == old(freeList) && allocatedUnits == old(allocatedUnits)
      ensures statNumAlloc == old(statNumAlloc) && statNumFree == old(statNumFree)
    {
      released := Released(chunks, canMalloc);
      chunks := [];
    }
  }

  /** The first `n` chunks of a well-formed chain cover the units below the end of chunk
      `n - 1`. */
  lemma {:induction false} ChainCovers(cs: seq<Chunk>, n: nat, u: nat)
    requires 0 < n <= |cs|
    requires cs[0].start == 0
    requires forall i :: 0 < i < |cs| ==> cs[i].start == cs[i - 1].start + cs[i - 1].numUnits
    ensures (exists i :: 0 <= i < n && InChunk(cs[i], u)) <==> u < cs[n - 1].start + cs[n - 1].numUnits
  {
    if n > 1 {
      ChainCovers(cs, n - 1, u);
      if u < cs[n - 1].start + cs[n - 1].numUnits && !InChunk(cs[n - 1], u) {
        assert u < cs[n - 2].start + cs[n - 2].numUnits;
      }
    }
  }

  /** The blocks a pool releases when it is destroyed, in release order: the recursion reaches
      the oldest chunk first, then releases on the way back, and only a pool that may allocate
      releases anything; a caller-supplied block is never released. */
  function Released(cs: seq<Chunk>, mallocStatus: bool): seq<Chunk>
  {
    if cs == [] then []
    else Released(cs[..|cs| - 1], mallocStatus)
         + (if mallocStatus && cs[|cs| - 1].dynamic then [cs[|cs| - 1]] else [])
  }

  /** Destruction releases every dynamic chunk of a growable pool exactly once, oldest first,
      and never a caller-supplied block. */
  lemma {:induction false} ReleasedSpec(cs: seq<Chunk>, mallocStatus: bool)
    ensures forall c :: c in Released(cs, mallocStatus) ==> c in cs && c.dynamic && mallocStatus
    ensures mallocStatus && (forall c :: c in cs ==> c.dynamic) ==> Released(cs, mallocStatus) == cs
    ensures !mallocStatus ==> Released(cs, mallocStatus) == []
  {
    if cs != [] {
      ReleasedSpec(cs[..|cs| - 1], mallocStatus);
      assert cs[..|cs| - 1] + [cs[|cs| - 1]] == cs;
    }
  }

  /** The blocks the source itself hands back to the system on destruction: a pool that may
      allocate frees the block of every chunk, whether or not the block came from the system. */
  function ReleasedAsWritten(cs: seq<Chunk>, mallocStatus: bool): seq<Chunk>
  {
    if cs == [] then []
    else ReleasedAsWritten(cs[..|cs| - 1], mallocStatus) + (if mallocStatus then [cs[|cs| - 1]] else [])
  }

  /** On a chain whose later chunks are all dynamic, the source releases exactly what
      `Released` releases, plus the first block when it was supplied by the caller of a pool
      that may allocate. */
  lemma {:induction false} ReleasedAsWrittenAddsCallerBlock(cs: seq<Chunk>, mallocStatus: bool)
    requires forall i :: 0 < i < |cs| ==> cs[i].dynamic
    ensures ReleasedAsWritten(cs, mallocStatus) ==
      (if mallocStatus && cs != [] && !cs[0].dynamic then [cs[0]] else []) + Released(cs, mallocStatus)
  {
    if |cs| > 1 {
      var init := cs[..|cs| - 1];
      assert init[0] == cs[0];
      ReleasedAsWrittenAddsCallerBlock(init, mallocStatus);
    } else if |cs| == 1 {
      assert cs[..0] == [];
    }
  }

  /** A growable pool initialised on a caller-supplied buffer, that has grown once: the
      source's destruction hands the caller's buffer to the system's free, while `Released`
      releases only the grown chunk. */
  lemma CallerBufferReleasedAsWritten()
    ensures var cs := [Chunk(0, 2, false), Chunk(2, 4, true)];
      && Chained(cs, true)
      && Chunk(0, 2, false) in ReleasedAsWritten(cs, true)
      && Released(cs, true) == [Chunk(2, 4, true)]
  {
    var cs := [Chunk(0, 2, false), Chunk(2, 4, true)];
    assert cs[..1] == [Chunk(0, 2, false)];
    assert cs[..1][..0] == [];
  }

  /** Each pool of a pool manager is valid and sits at the index that is its id. */
  ghost predicate PoolsValid(pools: seq<MemPool>)
    reads pools
  {
    && (forall i {:trigger pools[i].Valid()} :: 0 <= i < |pools| ==> pools[i].Valid())
    && (forall i :: 0 <= i < |pools| ==> pools[i].id == i)
    && (forall i, j :: 0 <= i < j < |pools| ==> pools[i] != pools[j])
  }

  /** A pool unit handed to `FreeToPools` must still be allocated. */
  ghost predicate NotYetFreed(pools: seq<MemPool>, ptr: Addr)
    reads pools
  {
    ptr.PoolUnit? && ptr.pool < |pools| && pools[ptr.pool].Owns(ptr) ==>
      ptr.unit in pools[ptr.pool].allocatedUnits
  }

  /** Ask each pool in turn to take `ptr` back; the first pool that owns it frees it. An
      address no pool owns was a system allocation and goes back to the system (not modelled),
      leaving every pool unchanged. */
  method FreeToPools(pools: seq<MemPool>, ptr: Addr) returns (freed: bool)
    requires PoolsValid(pools)
    requires NotYetFreed(pools, ptr)
    modifies pools
    ensures PoolsValid(pools)
    ensures freed <==> ptr.PoolUnit? && ptr.pool < |pools| && old(pools[ptr.pool].Owns(ptr))
    ensures forall i :: 0 <= i < |pools| && !(freed && i == ptr.pool) ==> unchanged(pools[i])
    ensures freed ==> pools[ptr.pool].FreedUnit(ptr.unit)
  {
    var i := 0;
    freed := false;
    while i < |pools| && !freed
      invariant 0 <= i <= |pools|
      invariant !freed ==> forall j :: 0 <= j < |pools| ==> unchanged(pools[j])
      invariant !freed && ptr.PoolUnit? && ptr.pool < i ==> !old(pools[ptr.pool].Owns(ptr))
      invariant freed ==>
        && ptr.PoolUnit? && ptr.pool == i - 1 && old(pools[i - 1].Owns(ptr))
        && pools[i - 1].Valid() && pools[i - 1].FreedUnit(ptr.unit)
        && forall j :: 0 <= j < |pools| && j != i - 1 ==> unchanged(pools[j])
    {
      freed := pools[i].Free(ptr);
      i := i + 1;
    }
    forall j | 0 <= j < |pools| ensures pools[j].Valid() {
      if !(freed && j == ptr.pool) {
        assert old(pools[j].Valid());
      }
    }
  }

  /** Destroy every pool of the manager, in index order. */
  method DestroyPools(pools: seq<MemPool>) returns (released: seq<seq<Chunk>>)
    requires forall i, j :: 0 <= i < j < |pools| ==> pools[i] != pools[j]
    modifies pools
    ensures |released| == |pools|
    ensures forall i :: 0 <= i < |pools| ==>
      pools[i].chunks == [] && released[i] == Released(old(pools[i].chunks), pools[i].canMalloc)
  {
    released := [];
    var i := 0;
    while i < |pools|
      invariant 0 <= i <= |pools| && |released| == i
      invariant forall j :: 0 <= j < i ==>
        pools[j].chunks == [] && released[j] == Released(old(pools[j].chunks), pools[j].canMalloc)
      invariant forall j :: i <= j < |pools| ==> unchanged(pools[j])
    {
      var r := pools[i].Destroy();
      released := released + [r];
      i := i + 1;
    }
  }
}
