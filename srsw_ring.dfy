/** The single-reader/single-writer ring of a lock-free FIFO queue: a fixed array of slots
    (payload and message id) with a head index owned by the reader and a tail index owned by
    the writer. One slot is never used, so that a full ring and an empty ring differ. */
module SrswRing {
  import opened QueueOrder

  /** The largest capacity a ring may be declared with. */
  const MaxDeclaredCapacity: nat := 255

  /** An index reduced modulo the capacity; a capacity of 0 leaves the index as it is. */
  function CircularIndex(index: nat, capacity: nat): (r: nat)
    ensures capacity > 0 ==> r < capacity
    ensures index < capacity ==> r == index
  {
    if capacity == 0 then index else index % capacity
  }

  /** Advancing an index of the ring by one wraps from the last slot to slot 0. */
  lemma CircularStep(i: nat, capacity: nat)
    requires i < capacity
    ensures CircularIndex(i + 1, capacity) == if i + 1 == capacity then 0 else i + 1
  {
  }

  /** Number of slots between head and tail, going forward around a ring of `cap` slots. */
  function PendingCount(head: nat, tail: nat, cap: nat): nat
    requires head < cap && tail < cap
  {
    if head <= tail then tail - head else cap - head + tail
  }

  /** The ring is empty exactly when its indices meet, and full, by the source's test on the
      advanced tail, exactly when all but one of its slots are pending. */
  lemma FullEmptyByIndex(head: nat, tail: nat, cap: nat)
    requires head < cap && tail < cap
    ensures head == tail <==> PendingCount(head, tail, cap) == 0
    ensures CircularIndex(tail + 1, cap) == head <==> PendingCount(head, tail, cap) == cap - 1
  {
    CircularStep(tail, cap);
  }

  /** The content of one slot: a payload and the id of the message it came from. */
  datatype Slot = Slot(data: seq<byte>, id: int)

  class Ring {
    /** Number of slots: the declared capacity plus one. */
    const capacity: nat
    const dataSize: nat
    const slots: array<Slot>
    var head: nat
    var tail: nat

    /** The indices lie inside the ring, and every slot holds a payload of the ring's data
        size. */
    ghost predicate Valid()
      reads this, slots
    {
      && 0 < capacity == slots.Length && head < capacity && tail < capacity
      && forall k :: 0 <= k < slots.Length ==> |slots[k].data| == dataSize
    }

    /** The payloads sent and not yet read, oldest first. */
    ghost function Pending(): (p: seq<Slot>)
      reads this, slots
      requires Valid()
      ensures |p| == PendingCount(head, tail, capacity)
    {
      if head <= tail then slots[head..tail] else slots[head..] + slots[..tail]
    }

    /** A ring for `declared` payloads of `dataSize` bytes. */
    constructor Create(declared: nat, dataSize: nat)
      requires declared <= MaxDeclaredCapacity
      ensures Valid() && fresh(slots)
      ensures capacity == declared + 1 && this.dataSize == dataSize
      ensures Pending() == []
    {
      capacity := declared + 1;
      this.dataSize := dataSize;
      slots := new Slot[declared + 1](_ => Slot(seq(dataSize, _ => 0), 0));
      head, tail := 0, 0;
    }

    /** The writer's side. Unless the advanced tail meets the head, copy the payload and the
        id into the slot at the tail and advance the tail; otherwise change nothing. */
    method Send(data: seq<byte>, id: int) returns (accepted: bool)
      requires Valid() && |data| == dataSize
      modifies this, slots
      ensures Valid() && head == old(head)
      ensures accepted <==> old(|Pending()|) < capacity - 1
      ensures accepted ==> Pending() == old(Pending()) + [Slot(data, id)]
      ensures !accepted ==> unchanged(this) && unchanged(slots)
    {
      FullEmptyByIndex(head, tail, capacity);
      CircularStep(tail, capacity);
      if CircularIndex(tail + 1, capacity) != head {
        ghost var before := Pending();
        slots[tail] := Slot(data, id);
        if tail + 1 == capacity {
          assert slots[head..tail] == before;
          tail := 0;
          assert slots[..tail] == [];
        } else {
          if head <= tail {
            assert slots[head..tail] == before;
          } else {
            assert slots[head..] == old(slots[head..]);
            assert slots[..tail] == old(slots[..tail]);
          }
          tail := tail + 1;
        }
        accepted := true;
      } else {
        accepted := false;
      }
    }

    /** The reader's view of the ring: nothing when head and tail meet, otherwise the slot at
        the head, which is the oldest pending payload. */
    function Front(): (slot: Option<Slot>)
      reads this, slots
      requires Valid()
      ensures Pending() == [] ==> slot == None
      ensures Pending() != [] ==> slot == Some(Pending()[0])
      ensures slot.Some? ==> |slot.value.data| == dataSize
    {
      FullEmptyByIndex(head, tail, capacity);
      if head != tail then Some(slots[head]) else None
    }

    /** Pop the oldest payload by advancing the head. */
    method Advance()
      requires Valid() && Pending() != []
      modifies this`head
      ensures Valid() && Pending() == old(Pending())[1..]
    {
      CircularStep(head, capacity);
      ghost var before := Pending();
      if head + 1 == capacity {
        head := 0;
        assert before == [slots[capacity - 1]] + slots[..tail];
      } else {
        head := head + 1;
        if head <= tail {
          assert before == [slots[head - 1]] + slots[head..tail];
        } else {
          assert before == [slots[head - 1]] + slots[head..] + slots[..tail];
        }
      }
    }
  }

  datatype Option<T> = None | Some(value: T)

  // ---------------------------------------------------------------------------------------
  // The ring as the source sizes it: its slot count is kept in 8 bits.

  /** The slot count the source stores for a declared capacity: declared + 1 in an 8-bit
      field, so that 255 is stored as 0 ("0 represents 256"). */
  function StoredRingCapacity(declared: nat): nat
    requires declared <= MaxDeclaredCapacity
  {
    (declared + 1) % 256
  }

  /** The source's full test: a send is accepted unless the advanced tail equals the head. */
  predicate AcceptsAsWritten(head: nat, tail: nat, declared: nat)
    requires declared <= MaxDeclaredCapacity
  {
    CircularIndex(tail + 1, StoredRingCapacity(declared)) != head
  }

  /** The tail after an accepted send, kept in an 8-bit field. */
  function AdvancedTailAsWritten(tail: nat, declared: nat): nat
    requires declared <= MaxDeclaredCapacity
  {
    CircularIndex(tail + 1, StoredRingCapacity(declared)) % 256
  }

  /** At the largest declared capacity, a ring holding 255 payloads (head 0, tail 255) is
      full, yet the source's test accepts a 256th send: the advanced tail is 256 and never
      equals an 8-bit head. The tail then wraps to the head, and the ring reads as empty. */
  lemma FullRingAcceptsAsWritten()
    ensures PendingCount(0, 255, MaxDeclaredCapacity + 1) == MaxDeclaredCapacity
    ensures AcceptsAsWritten(0, 255, MaxDeclaredCapacity)
    ensures AdvancedTailAsWritten(255, MaxDeclaredCapacity) == 0
    ensures PendingCount(0, AdvancedTailAsWritten(255, MaxDeclaredCapacity), MaxDeclaredCapacity + 1) == 0
  {
  }

  /** With the slot count kept without truncation (`Ring.capacity`), the full test accepts a
      send exactly when fewer than `declared` payloads are pending, for every declared
      capacity and every pair of indices. */
  lemma AcceptsExactlyBelowDeclared(head: nat, tail: nat, declared: nat)
    requires declared <= MaxDeclaredCapacity && head <= declared && tail <= declared
    ensures CircularIndex(tail + 1, declared + 1) != head <==> PendingCount(head, tail, declared + 1) < declared
  {
    FullEmptyByIndex(head, tail, declared + 1);
  }

  /** Below the largest declared capacity the source's ring and `Ring` agree: the 8-bit slot
      count is `declared + 1`, the full test accepts exactly when fewer than `declared` payloads
      are pending, and the stored tail is the advanced circular index. The two part only at a
      declared capacity of 255. */
  lemma AsWrittenAgreesBelowMax(head: nat, tail: nat, declared: nat)
    requires declared < MaxDeclaredCapacity && head <= declared && tail <= declared
    ensures StoredRingCapacity(declared) == declared + 1
    ensures AcceptsAsWritten(head, tail, declared) <==> PendingCount(head, tail, declared + 1) < declared
    ensures AdvancedTailAsWritten(tail, declared) == CircularIndex(tail + 1, declared + 1)
  {
    AcceptsExactlyBelowDeclared(head, tail, declared);
  }
}
