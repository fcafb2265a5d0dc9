/** Messages and the doubly linked message queue. A queue threads its messages through their
    `prev`/`next` links from `head` to `tail`; the ghost field `Contents` is that chain, head
    first, and every operation is specified by what it does to `Contents` in terms of the
    ordering functions of `QueueOrder`. */
module MsgQueues {
  import opened QueueOrder
  import opened MemPools
  import SrswRing

  /** The id of no queue: a message that is on no queue, or a port connected to nothing. */
  const Unspecified: int := -1

  class Message {
    const id: int
    /** The entity priority used by the system-priority queues. */
    const priority: int
    const data: seq<byte>
    /** Where the message record and its payload were allocated. */
    const envelope: Addr
    const payload: Addr
    var prev: Message?
    var next: Message?
    /** The queue the message is on, or `Unspecified`. */
    var queueId: int

    constructor Create(id: int, priority: int, data: seq<byte>, envelope: Addr, payload: Addr)
      ensures this.id == id && this.priority == priority && this.data == data
      ensures this.envelope == envelope && this.payload == payload
      ensures Detached(this)
    {
      this.id := id;
      this.priority := priority;
      this.data := data;
      this.envelope := envelope;
      this.payload := payload;
      prev := null;
      next := null;
      queueId := Unspecified;
    }
  }

  /** A message on no queue: unlinked and with no queue id. */
  ghost predicate Detached(m: Message)
    reads m
  {
    m.prev == null && m.next == null && m.queueId == Unspecified
  }

  /** The key a queue of `kind` sorts `m` by: a payload field for the priority queues, the
      entity priority for the system-priority queues. */
  function PriorityKey(m: Message, kind: QueueKind, dataType: DataType, offset: nat): int
  {
    if kind == PriorityAscending || kind == PriorityDescending then PayloadValue(m.data, offset, dataType)
    else m.priority
  }

  /** `c` is a chain of `prev`/`next` links from its first to its last message. */
  ghost predicate Linked(c: seq<Message>)
    reads c
  {
    && (c != [] ==> c[0].prev == null && c[|c| - 1].next == null)
    && (forall k :: 0 <= k < |c| - 1 ==> c[k].next == c[k + 1] && c[k + 1].prev == c[k])
  }

  ghost predicate Distinct(c: seq<Message>)
  {
    forall i, j :: 0 <= i < j < |c| ==> c[i] != c[j]
  }

  /** `head` and `tail` are the ends of `c`, a chain of distinct messages. */
  ghost predicate Chain(c: seq<Message>, head: Message?, tail: Message?)
    reads c
  {
    && (if c == [] then head == null && tail == null else head == c[0] && tail == c[|c| - 1])
    && Linked(c)
    && Distinct(c)
  }

  class MsgQueue {
    const id: nat
    const kind: QueueKind
    /** The stored capacity: for a dropping queue, one more than declared. */
    const capacity: nat
    const dropPolicy: DropPolicy
    const dataSize: nat
    const dataType: DataType
    const priorityOffset: nat
    /** The key the queue sorts by, fixed when the queue is created: `PriorityKey` for its
        kind, data type and priority offset. */
    const key: Message -> int
    /** The pools messages read from this queue are created in. */
    const readerMessagePool: nat
    const readerPayloadPool: nat
    /** The pools messages sent to this queue are created in. */
    const writerMessagePool: nat
    const writerPayloadPool: nat
    /** The ring of an SRSW queue; the other kinds have none. */
    const ring: SrswRing.Ring?
    var head: Message?
    var tail: Message?
    var length: int
    /** The per-queue message id counter. */
    var nextMsgId: int
    var numDropped: nat
    ghost var Contents: seq<Message>

    /** The queue invariant apart from the capacity bound, which an insertion breaks until the
        overflowing message is dropped. */
    ghost predicate Wellformed()
      reads this, Contents, ring, if ring != null then {ring.slots} else {}
    {
      && length == |Contents|
      && Chain(Contents, head, tail)
      && (forall m :: m in Contents ==> m.queueId == id && |m.data| == dataSize)
      && Sorted(Contents, key, kind)
      && (ring == null <==> kind != SrswFifo)
      && (ring != null ==> ring.Valid() && ring.capacity == capacity && ring.dataSize == dataSize && Contents == [])
      && (IsPriority(kind) ==> dataType != NoDataType)
    }

    /** A queue with a drop policy holds fewer messages than its stored capacity. */
    ghost predicate Valid()
      reads this, Contents, ring, if ring != null then {ring.slots} else {}
    {
      Wellformed() && (dropPolicy != DropNone ==> length < capacity)
    }

    /** Create an empty queue that links its messages (every kind but SRSW). Readers and
        writers use the same pools. */
    constructor Create(id: nat, kind: QueueKind, declared: nat, dropPolicy: DropPolicy, dataSize: nat,
                       dataType: DataType, priorityOffset: nat, messagePool: nat, payloadPool: nat)
      requires kind != SrswFifo
      requires IsPriority(kind) ==> dataType != NoDataType
      ensures Valid() && Contents == []
      ensures this.id == id && this.kind == kind && this.dropPolicy == dropPolicy
      ensures capacity == StoredCapacity(declared, dropPolicy)
      ensures this.dataSize == dataSize && this.dataType == dataType && this.priorityOffset == priorityOffset
      ensures forall m :: key(m) == PriorityKey(m, kind, dataType, priorityOffset)
      ensures readerMessagePool == writerMessagePool == messagePool
      ensures readerPayloadPool == writerPayloadPool == payloadPool
      ensures ring == null && nextMsgId == 0 && numDropped == 0
    {
      this.id := id;
      capacity := if dropPolicy == DropNone then declared else declared + 1;
      length := 0;
      this.kind := kind;
      this.dropPolicy := dropPolicy;
      this.dataSize := dataSize;
      this.dataType := dataType;
      readerMessagePool := messagePool;
      readerPayloadPool := payloadPool;
      writerMessagePool := messagePool;
      writerPayloadPool := payloadPool;
      this.priorityOffset := priorityOffset;
      key := (m: Message) => PriorityKey(m, kind, dataType, priorityOffset);
      head := null;
      tail := null;
      nextMsgId := 0;
      numDropped := 0;
      ring := null;
      Contents := [];
    }

    /** Create an SRSW queue: its messages live in a ring of `declared + 1` slots, and its
        linked list stays empty. */
    constructor CreateSrsw(id: nat, declared: nat, dropPolicy: DropPolicy, dataSize: nat,
                           dataType: DataType, priorityOffset: nat,
                           readerMessagePool: nat, writerMessagePool: nat,
                           readerPayloadPool: nat, writerPayloadPool: nat)
      requires declared <= SrswRing.MaxDeclaredCapacity
      ensures Valid() && Contents == []
      ensures this.id == id && kind == SrswFifo && this.dropPolicy == dropPolicy
      ensures capacity == declared + 1
      ensures this.dataSize == dataSize && this.dataType == dataType && this.priorityOffset == priorityOffset
      ensures forall m :: key(m) == PriorityKey(m, SrswFifo, dataType, priorityOffset)
      ensures this.readerMessagePool == readerMessagePool && this.writerMessagePool == writerMessagePool
      ensures this.readerPayloadPool == readerPayloadPool && this.writerPayloadPool == writerPayloadPool
      ensures nextMsgId == 0 && numDropped == 0
      ensures ring != null && fresh(ring) && fresh(ring.slots)
      ensures ring.capacity == declared + 1 && ring.dataSize == dataSize && ring.Pending() == []
    {
      this.id := id;
      capacity := declared + 1;
      length := 0;
      kind := SrswFifo;
      this.dropPolicy := dropPolicy;
      this.dataSize := dataSize;
      this.dataType := dataType;
      this.priorityOffset := priorityOffset;
      key := (m: Message) => PriorityKey(m, SrswFifo, dataType, priorityOffset);
      head := null;
      tail := null;
      this.readerMessagePool := readerMessagePool;
      this.writerMessagePool := writerMessagePool;
      this.readerPayloadPool := readerPayloadPool;
      this.writerPayloadPool := writerPayloadPool;
      nextMsgId := 0;
      numDropped := 0;
      ring := new SrswRing.Ring.Create(declared, dataSize);
      Contents := [];
    }

    /** Unlink `msg`, the message at index `i`: its neighbours are joined, the ends follow,
        and the message leaves detached. The other messages keep their order. */
    method Remove(msg: Message, ghost i: nat)
      requires Wellformed() && i < |Contents| && Contents[i] == msg
      modifies this, Contents
      ensures Wellformed()
      ensures Contents == RemoveAt(old(Contents), i) && length == old(length) - 1
      ensures Detached(msg)
      ensures nextMsgId == old(nextMsgId) && numDropped == old(numDropped)
    {
      ghost var c := Contents;
      Unlink(msg, i);
      msg.queueId := Unspecified;
      length := length - 1;
      RemoveAtSorted(c, i, key, kind);
    }

    /** The link surgery of `Remove`. */
    method Unlink(msg: Message, ghost i: nat)
      requires Chain(Contents, head, tail) && i < |Contents| && Contents[i] == msg
      modifies this`head, this`tail, this`Contents, Contents`prev, Contents`next
      ensures Chain(Contents, head, tail) && Contents == RemoveAt(old(Contents), i)
      ensures msg.prev == null && msg.next == null
    {
      ghost var c := Contents;
      var prev := msg.prev;
      var next := msg.next;
      assert prev == (if i == 0 then null else c[i - 1]);
      assert next == (if i == |c| - 1 then null else c[i + 1]);
      if prev != null {
        prev.next := next;
      }
      if next != null {
        next.prev := prev;
      }
      if msg == head {
        head := next;
      }
      if msg == tail {
        tail := prev;
      }
      msg.next := null;
      msg.prev := null;
      Contents := RemoveAt(c, i);
      var t := Contents;
      assert forall a :: 0 <= a < |t| ==> t[a] == if a < i then c[a] else c[a + 1];
      forall k | 0 <= k < |t| - 1
        ensures t[k].next == t[k + 1] && t[k + 1].prev == t[k]
      {
        if k + 1 < i {
          assert old(c[k].next) == c[k + 1] && old(c[k + 1].prev) == c[k];
        } else if k + 1 == i {
          assert t[k] == prev && t[k + 1] == next;
        } else {
          assert old(c[k + 1].next) == c[k + 2] && old(c[k + 2].prev) == c[k + 1];
        }
      }
    }

    /** Link `msg` as the only message of an empty queue. */
    method LinkFirst(msg: Message)
      requires Chain(Contents, head, tail) && Contents == [] && msg.prev == null && msg.next == null
      modifies this`head, this`tail, this`Contents
      ensures Chain(Contents, head, tail) && Contents == [msg]
    {
      head := msg;
      tail := msg;
      Contents := [msg];
    }

    /** Link `msg` after the tail. */
    method LinkAtTail(msg: Message)
      requires Chain(Contents, head, tail) && Contents != [] && msg !in Contents && msg.prev == null && msg.next == null
      modifies this`tail, this`Contents, tail`next, msg`prev
      ensures Chain(Contents, head, tail) && Contents == old(Contents) + [msg]
    {
      var oldTail := tail;
      oldTail.next := msg;
      msg.prev := oldTail;
      tail := msg;
      Contents := Contents + [msg];
    }

    /** Link `msg` before the head. */
    method LinkAtHead(msg: Message)
      requires Chain(Contents, head, tail) && Contents != [] && msg !in Contents && msg.prev == null && msg.next == null
      modifies this`head, this`Contents, head`prev, msg`next
      ensures Chain(Contents, head, tail) && Contents == [msg] + old(Contents)
    {
      var oldHead := head;
      oldHead.prev := msg;
      msg.next := oldHead;
      head := msg;
      Contents := [msg] + Contents;
    }

    /** Link `msg` between `thisMsg`, the message at index `i > 0`, and its predecessor. */
    method LinkBefore(thisMsg: Message, msg: Message, ghost i: nat)
      requires Chain(Contents, head, tail) && 0 < i < |Contents| && Contents[i] == thisMsg && thisMsg.prev == Contents[i - 1]
      requires msg !in Contents && msg.prev == null && msg.next == null
      modifies this`Contents, thisMsg`prev, thisMsg.prev`next, msg`prev, msg`next
      ensures Chain(Contents, head, tail) && Contents == old(Contents)[..i] + [msg] + old(Contents)[i..]
    {
      ghost var c := Contents;
      var prev := thisMsg.prev;
      prev.next := msg;
      msg.prev := prev;
      msg.next := thisMsg;
      thisMsg.prev := msg;
      Contents := c[..i] + [msg] + c[i..];
      assert forall a :: 0 <= a < |Contents| ==> Contents[a] == if a < i then c[a] else if a == i then msg else c[a - 1];
    }

    /** Add `msg` by the queue's discipline, then, if the queue has reached its stored capacity,
        unlink the message its drop policy names and return it. */
    method AddToQueue(msg: Message) returns (dropped: Message?)
      requires Valid() && kind != SrswFifo
      requires Detached(msg) && |msg.data| == dataSize
      modifies this, Contents, msg
      ensures Valid()
      ensures var s := Enqueued(old(Contents), msg, kind, key);
        if Overflows(|s|, dropPolicy, capacity) then
          var d := DropIndex(|s|, dropPolicy);
          && dropped == s[d] && Contents == RemoveAt(s, d) && Detached(dropped)
          && numDropped == old(numDropped) + 1
        else
          dropped == null && Contents == s && numDropped == old(numDropped)
      ensures nextMsgId == old(nextMsgId)
    {
      ghost var s := Enqueued(Contents, msg, kind, key);
      Enqueue(msg);
      assert Contents == s && length == |s|;
      if dropPolicy != DropNone && length == capacity {
        dropped := DropOverflow();
        assert Overflows(|s|, dropPolicy, capacity);
        assert dropped == s[DropIndex(|s|, dropPolicy)] && Contents == RemoveAt(s, DropIndex(|s|, dropPolicy));
      } else {
        dropped := null;
        assert !Overflows(|s|, dropPolicy, capacity);
      }
    }

    /** The second half of `AddToQueue` for a queue that has reached its stored capacity:
        unlink the head (drop-head) or the tail (drop-tail), count it and return it. */
    method DropOverflow() returns (dropped: Message)
      requires Wellformed() && dropPolicy != DropNone && length == capacity > 0
      modifies this, Contents
      ensures Valid()
      ensures var d := DropIndex(|old(Contents)|, dropPolicy);
        dropped == old(Contents)[d] && Contents == RemoveAt(old(Contents), d) && Detached(dropped)
      ensures numDropped == old(numDropped) + 1 && nextMsgId == old(nextMsgId)
    {
      var msgToDrop := if dropPolicy == DropHead then head else tail;
      numDropped := numDropped + 1;
      Remove(msgToDrop, DropIndex(length, dropPolicy));
      dropped := msgToDrop;
    }

    /** The first half of `AddToQueue`: link `msg`, mark it as on this queue and count it. */
    method Enqueue(msg: Message)
      requires Valid() && kind != SrswFifo
      requires Detached(msg) && |msg.data| == dataSize
      modifies this`head, this`tail, this`Contents, this`length, Contents`prev, Contents`next, msg`prev, msg`next, msg`queueId
      ensures Wellformed() && Contents == Enqueued(old(Contents), msg, kind, key)
      ensures dropPolicy != DropNone ==> length <= capacity
    {
      ghost var c := Contents;
      assert msg !in c && forall m :: m in c ==> m.queueId == id && |m.data| == dataSize;
      // The queue id is set before the links rather than after; nothing reads it in between.
      msg.queueId := id;
      Insert(msg);
      length := length + 1;
      EnqueuedWellformed(c, msg);
    }

    /** A queue whose chain now holds `c` with `msg` added by its discipline, where `c` was
        sorted and every message, `msg` included, is marked as on this queue, is well formed. */
    lemma EnqueuedWellformed(c: seq<Message>, msg: Message)
      requires kind != SrswFifo && ring == null && (IsPriority(kind) ==> dataType != NoDataType)
      requires Sorted(c, key, kind)
      requires Chain(Contents, head, tail) && length == |Contents| && Contents == Enqueued(c, msg, kind, key)
      requires forall m :: m in c ==> m.queueId == id && |m.data| == dataSize
      requires msg.queueId == id && |msg.data| == dataSize
      ensures Wellformed()
    {
      EnqueuedSorted(c, msg, kind, key);
      EnqueuedMembers(c, msg, kind, key);
    }

    /** The linking step of `AddToQueue`: an empty queue takes `msg` as its only message; a
        FIFO queue links it after the tail, a LIFO queue before the head, a priority queue
        where the scan stops. */
    method Insert(msg: Message)
      requires Chain(Contents, head, tail) && kind != SrswFifo
      requires msg.prev == null && msg.next == null && msg !in Contents
      modifies this`head, this`tail, this`Contents, Contents`prev, Contents`next, msg`prev, msg`next
      ensures Chain(Contents, head, tail) && Contents == Enqueued(old(Contents), msg, kind, key)
    {
      if tail == null {
        LinkFirst(msg);
      } else if kind == Fifo {
        LinkAtTail(msg);
      } else if kind == Lifo {
        LinkAtHead(msg);
      } else {
        InsertByPriority(msg);
      }
    }

    /** The priority branch: link the new message in front of the first message its key goes
        before, or after the tail if there is none. */
    method InsertByPriority(msg: Message)
      requires Chain(Contents, head, tail) && Contents != [] && IsPriority(kind)
      requires msg !in Contents && msg.prev == null && msg.next == null
      modifies this`head, this`tail, this`Contents, Contents`prev, Contents`next, msg`prev, msg`next
      ensures Chain(Contents, head, tail) && Contents == Enqueued(old(Contents), msg, kind, key)
    {
      ghost var c := Contents;
      var thisMsg, i := FindInsertPoint(key(msg));
      ghost var s := Enqueued(c, msg, kind, key);
      assert s == c[..i] + [msg] + c[i..];
      if thisMsg != null && i > 0 {
        assert c[i].prev == c[i - 1];
      }
      if thisMsg == null {
        assert c[..i] == c && c[i..] == [];
        LinkAtTail(msg);
      } else if thisMsg.prev == null {
        assert c[..i] == [] && c[i..] == c;
        LinkAtHead(msg);
      } else {
        LinkBefore(thisMsg, msg, i);
      }
    }

    /** The scan of the priority branch: walk from the head to the first message that a new
        key `newVal` goes before; none when it goes after every message. */
    method FindInsertPoint(newVal: int) returns (thisMsg: Message?, ghost i: nat)
      requires Chain(Contents, head, tail)
      ensures i == InsertPos(Contents, key, kind, newVal)
      ensures var p := InsertPos(Contents, key, kind, newVal);
        thisMsg == if p < |Contents| then Contents[p] else null
    {
      thisMsg := head;
      i := 0;
      while thisMsg != null && !GoesBefore(kind, newVal, key(thisMsg))
        invariant 0 <= i <= |Contents|
        invariant thisMsg == if i < |Contents| then Contents[i] else null
        invariant forall j :: 0 <= j < i ==> !GoesBefore(kind, newVal, key(Contents[j]))
        decreases |Contents| - i
      {
        thisMsg := thisMsg.next;
        i := i + 1;
      }
      InsertPosUnique(Contents, key, kind, newVal, i);
    }

    /** The message at index `idx`, found by walking from the head; none when `idx` is not
        an index of the queue. */
    method PeekAt(idx: int) returns (msg: Message?)
      requires Valid()
      ensures msg == if 0 <= idx < |Contents| then Contents[idx] else null
    {
      msg := null;
      if length > idx {
        msg := head;
        var counter := 0;
        while counter != idx && msg != null
          invariant 0 <= counter <= |Contents|
          invariant msg == if counter < |Contents| then Contents[counter] else null
          invariant idx >= 0 ==> counter <= idx
          decreases |Contents| - counter
        {
          msg := msg.next;
          counter := counter + 1;
        }
      }
    }

    /** The number of messages on the queue. */
    function NumMsgs(): (n: int)
      reads this, Contents, ring, if ring != null then {ring.slots} else {}
      requires Valid()
      ensures n == |Contents|
    {
      length
    }

    /** Unlink and return the head message, or return none from an empty queue. */
    method Pop() returns (msg: Message?)
      requires Valid()
      modifies this, Contents
      ensures Valid()
      ensures old(Contents) == [] ==> msg == null && unchanged(this)
      ensures old(Contents) != [] ==>
        msg == old(Contents[0]) && Contents == old(Contents[1..]) && Detached(msg)
      ensures nextMsgId == old(nextMsgId) && numDropped == old(numDropped)
    {
      msg := null;
      if length > 0 {
        msg := head;
        Remove(msg, 0);
      }
    }
  }
}
