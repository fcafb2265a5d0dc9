/** The message manager: the memory pools and the queues of a model, and the messages created
    from them. Every message the manager has created and not yet destroyed is in the ghost set
    `Live`; the pool units those messages hold are allocated in their pools and belong to one
    message each. */
module MsgManagers {
  import opened QueueOrder
  import opened MemPools
  import opened MsgQueues
  import opened SrswRing

  /** The id per-queue numbering gives the message made when the counter of queue `q` reaches
      `n`: the counter in the low 16 bits and the queue id above them. */
  function PerQueueMsgId(q: nat, n: int): int
  {
    n + q * 65536
  }

  /** While every counter stays below 2^16, per-queue ids from different queues or different
      counter values differ. */
  lemma PerQueueMsgIdsDistinct(q1: nat, n1: int, q2: nat, n2: int)
    requires 0 <= n1 < 65536 && 0 <= n2 < 65536
    ensures PerQueueMsgId(q1, n1) == PerQueueMsgId(q2, n2) <==> q1 == q2 && n1 == n2
  {
    if q1 < q2 {
      assert PerQueueMsgId(q2, n2) >= n2 + (q1 + 1) * 65536;
    } else if q2 < q1 {
      assert PerQueueMsgId(q1, n1) >= n1 + (q2 + 1) * 65536;
    }
  }

  /** Past 2^16 messages a queue's ids run into the next queue's: the 65537th message of
      queue 0 gets the id of the first message of queue 1. */
  lemma PerQueueMsgIdsOverlapPastCounterWidth()
    ensures PerQueueMsgId(0, 65537) == PerQueueMsgId(1, 1)
  {
  }

  /** A payload of `n` zero bytes. */
  function Zeros(n: nat): (z: seq<byte>)
    ensures |z| == n && forall k :: 0 <= k < n ==> z[k] == 0
  {
    seq(n, _ => 0)
  }

  /** The pool units message `m` holds: its record and its payload, where they came from a
      pool. */
  function Units(m: Message): set<Addr>
  {
    (if m.envelope.PoolUnit? then {m.envelope} else {}) + (if m.payload.PoolUnit? then {m.payload} else {})
  }

  /** The units of pool `p` that message `m` holds. */
  function PoolUnits(m: Message, p: nat): (us: set<nat>)
    ensures forall u :: u in us <==> PoolUnit(p, u) in Units(m)
  {
    (if m.envelope.PoolUnit? && m.envelope.pool == p then {m.envelope.unit} else {})
    + (if m.payload.PoolUnit? && m.payload.pool == p then {m.payload.unit} else {})
  }

  /** The allocated units of every pool, by pool index. */
  ghost function Allocation(pools: seq<MemPool>): (a: seq<set<nat>>)
    reads pools
    ensures |a| == |pools| && forall i :: 0 <= i < |pools| ==> a[i] == pools[i].allocatedUnits
  {
    if pools == [] then [] else Allocation(pools[..|pools| - 1]) + [pools[|pools| - 1].allocatedUnits]
  }

  /** `a`, if a pool unit, is allocated in its pool according to `alloc`. */
  predicate Held(alloc: seq<set<nat>>, a: Addr)
  {
    a.PoolUnit? ==> a.pool < |alloc| && a.unit in alloc[a.pool]
  }

  /** Every message of `live` holds allocated units, its record and payload are different
      units, and no unit is held by two messages. */
  ghost predicate MessagesOk(live: set<Message>, alloc: seq<set<nat>>)
  {
    && (forall m :: m in live ==>
          Held(alloc, m.envelope) && Held(alloc, m.payload) && (m.envelope.PoolUnit? ==> m.envelope != m.payload))
    && (forall m1, m2 :: m1 in live && m2 in live && m1 != m2 ==> Units(m1) !! Units(m2))
  }

  /** `a` is a unit that `alloc` does not hold yet (or a system block). */
  predicate Unheld(alloc: seq<set<nat>>, a: Addr)
  {
    a.PoolUnit? ==> a.pool < |alloc| && a.unit !in alloc[a.pool]
  }

  /** `alloc` after unit `a`, if a pool unit, is allocated. */
  function Grant(alloc: seq<set<nat>>, a: Addr): (r: seq<set<nat>>)
    requires a.PoolUnit? ==> a.pool < |alloc|
    ensures |r| == |alloc|
  {
    if a.PoolUnit? then alloc[a.pool := alloc[a.pool] + {a.unit}] else alloc
  }

  /** `alloc` after unit `a`, if a pool unit, is freed. */
  function Release(alloc: seq<set<nat>>, a: Addr): (r: seq<set<nat>>)
    requires a.PoolUnit? ==> a.pool < |alloc|
    ensures |r| == |alloc|
  {
    if a.PoolUnit? then alloc[a.pool := alloc[a.pool] - {a.unit}] else alloc
  }

  /** `alloc` with the units of message `m` added to their pools. */
  function WithUnits(alloc: seq<set<nat>>, m: Message): (r: seq<set<nat>>)
    ensures |r| == |alloc| && forall p :: 0 <= p < |r| ==> r[p] == alloc[p] + PoolUnits(m, p)
  {
    seq(|alloc|, p requires 0 <= p < |alloc| => alloc[p] + PoolUnits(m, p))
  }

  /** `alloc` with the units of message `m` taken out of their pools. */
  function WithoutUnits(alloc: seq<set<nat>>, m: Message): (r: seq<set<nat>>)
    ensures |r| == |alloc| && forall p :: 0 <= p < |r| ==> r[p] == alloc[p] - PoolUnits(m, p)
  {
    seq(|alloc|, p requires 0 <= p < |alloc| => alloc[p] - PoolUnits(m, p))
  }

  /** `alloc` with the units of every message of `ms` taken out of their pools. */
  function WithoutUnitsOf(alloc: seq<set<nat>>, ms: set<Message>): (r: seq<set<nat>>)
    ensures |r| == |alloc|
  {
    seq(|alloc|, p requires 0 <= p < |alloc| => alloc[p] - set m, u | m in ms && u in PoolUnits(m, p) :: u)
  }

  /** A unit stays in `WithoutUnitsOf(alloc, ms)` exactly when it was allocated and no message
      of `ms` holds it. */
  lemma WithoutUnitsOfSpec(alloc: seq<set<nat>>, ms: set<Message>, p: nat, u: nat)
    requires p < |alloc|
    ensures u in WithoutUnitsOf(alloc, ms)[p] <==> u in alloc[p] && forall m :: m in ms ==> u !in PoolUnits(m, p)
  {
  }

  /** Removing the units of no message leaves the allocation as it is. */
  lemma WithoutUnitsOfNone(alloc: seq<set<nat>>)
    ensures WithoutUnitsOf(alloc, {}) == alloc
  {
    var r := WithoutUnitsOf(alloc, {});
    forall p | 0 <= p < |alloc| ensures r[p] == alloc[p] {
      forall u ensures u in r[p] <==> u in alloc[p] {
        WithoutUnitsOfSpec(alloc, {}, p, u);
      }
    }
  }

  /** Removing the units of the messages of `s`, then of `t`, removes those of `s + t`. */
  lemma WithoutUnitsOfUnion(alloc: seq<set<nat>>, s: set<Message>, t: set<Message>)
    ensures WithoutUnitsOf(WithoutUnitsOf(alloc, s), t) == WithoutUnitsOf(alloc, s + t)
  {
    var r0 := WithoutUnitsOf(alloc, s);
    var r1, r2 := WithoutUnitsOf(r0, t), WithoutUnitsOf(alloc, s + t);
    forall p | 0 <= p < |alloc| ensures r1[p] == r2[p] {
      forall u ensures u in r1[p] <==> u in r2[p] {
        WithoutUnitsOfSpec(alloc, s, p, u);
        WithoutUnitsOfSpec(r0, t, p, u);
        WithoutUnitsOfSpec(alloc, s + t, p, u);
      }
    }
  }

  /** Removing one more message's units extends the set of messages removed by it. */
  lemma WithoutUnitsOfAdd(alloc: seq<set<nat>>, ms: set<Message>, m: Message)
    ensures WithoutUnits(WithoutUnitsOf(alloc, ms), m) == WithoutUnitsOf(alloc, ms + {m})
  {
    var r0 := WithoutUnitsOf(alloc, ms);
    var r1, r2 := WithoutUnits(r0, m), WithoutUnitsOf(alloc, ms + {m});
    forall p | 0 <= p < |alloc| ensures r1[p] == r2[p] {
      forall u ensures u in r1[p] <==> u in r2[p] {
        WithoutUnitsOfSpec(alloc, ms, p, u);
        WithoutUnitsOfSpec(alloc, ms + {m}, p, u);
      }
    }
  }

  /** Allocating one more unit keeps every live message's units allocated. */
  lemma MessagesOkGrant(live: set<Message>, a0: seq<set<nat>>, a: Addr)
    requires MessagesOk(live, a0) && (a.PoolUnit? ==> a.pool < |a0|)
    ensures MessagesOk(live, Grant(a0, a))
  {
    forall m | m in live ensures Held(Grant(a0, a), m.envelope) && Held(Grant(a0, a), m.payload) {
      assert Held(a0, m.envelope) && Held(a0, m.payload);
    }
  }

  /** A message made of two fresh units, record first, is held, apart from every live
      message, and the allocation afterwards has exactly its units added. */
  lemma MessagesOkAdd(live: set<Message>, a0: seq<set<nat>>, m: Message)
    requires MessagesOk(live, a0) && m !in live
    requires Unheld(a0, m.envelope) && Unheld(Grant(a0, m.envelope), m.payload)
    ensures Grant(Grant(a0, m.envelope), m.payload) == WithUnits(a0, m)
    ensures MessagesOk(live + {m}, WithUnits(a0, m))
  {
    var a2 := Grant(Grant(a0, m.envelope), m.payload);
    forall p | 0 <= p < |a0| ensures a2[p] == a0[p] + PoolUnits(m, p) {
      assert a2[p] == Grant(a0, m.envelope)[p] + (if m.payload.PoolUnit? && m.payload.pool == p then {m.payload.unit} else {});
    }
    assert a2 == WithUnits(a0, m);
    forall m' | m' in live
      ensures Held(a2, m'.envelope) && Held(a2, m'.payload) && Units(m') !! Units(m)
    {
      assert Held(a0, m'.envelope) && Held(a0, m'.payload);
    }
  }

  /** Freeing the payload, then the record, of a live message frees exactly its units and
      keeps the accounting for the others. */
  lemma MessagesOkRemove(live: set<Message>, a0: seq<set<nat>>, m: Message)
    requires MessagesOk(live, a0) && m in live
    ensures Release(Release(a0, m.payload), m.envelope) == WithoutUnits(a0, m)
    ensures MessagesOk(live - {m}, WithoutUnits(a0, m))
  {
    var a2 := Release(Release(a0, m.payload), m.envelope);
    forall p | 0 <= p < |a0| ensures a2[p] == a0[p] - PoolUnits(m, p) {
      assert a2[p] == Release(a0, m.payload)[p] - (if m.envelope.PoolUnit? && m.envelope.pool == p then {m.envelope.unit} else {});
    }
    assert a2 == WithoutUnits(a0, m);
    forall m' | m' in live - {m} ensures Held(a2, m'.envelope) && Held(a2, m'.payload) {
      assert Units(m') !! Units(m);
      assert Held(a0, m'.envelope) && Held(a0, m'.payload);
    }
  }

  /** The rings of the SRSW queues, with their slot arrays. */
  ghost function Rings(queues: seq<MsgQueue>): set<object?>
  {
    (set i | 0 <= i < |queues| :: queues[i].ring as object?)
    + (set i | 0 <= i < |queues| && queues[i].ring != null :: queues[i].ring.slots as object?)
  }

  /** Each queue sits at the index that is its id, owns its ring and the ring's slots alone,
      creates its messages in pools that exist, and is valid; every queued message is in
      `live`. */
  ghost predicate QueuesOk(queues: seq<MsgQueue>, numPools: nat, live: set<Message>)
    reads queues, live, Rings(queues)
  {
    && (forall i :: 0 <= i < |queues| ==> queues[i].id == i)
    && (forall i, j :: 0 <= i < |queues| && 0 <= j < |queues| && i != j && queues[i].ring != null ==>
          queues[i].ring != queues[j].ring
          && (queues[j].ring != null ==> queues[i].ring.slots != queues[j].ring.slots))
    && (forall i :: 0 <= i < |queues| ==>
          queues[i].writerMessagePool < numPools && queues[i].writerPayloadPool < numPools)
    && (forall i, m :: 0 <= i < |queues| && m in queues[i].Contents ==> m in live)
    && (forall i {:trigger queues[i].Valid()} :: 0 <= i < |queues| ==> queues[i].Valid())
  }

  /** Queued messages stay within a bigger set of live messages. */
  lemma QueuesOkGrow(queues: seq<MsgQueue>, numPools: nat, live: set<Message>, live': set<Message>)
    requires QueuesOk(queues, numPools, live) && live <= live'
    ensures QueuesOk(queues, numPools, live')
  {
  }

  /** A message on no queue can leave the live set without leaving a queue's message behind. */
  lemma QueuesOkShrink(queues: seq<MsgQueue>, numPools: nat, live: set<Message>, m: Message)
    requires QueuesOk(queues, numPools, live) && m.queueId == Unspecified
    ensures QueuesOk(queues, numPools, live - {m})
  {
    forall i, m' | 0 <= i < |queues| && m' in queues[i].Contents ensures m' != m {
      assert queues[i].Valid();
    }
  }

  /** The messages of two different queues are different, and a detached message is on no
      queue. */
  lemma QueuesApart(queues: seq<MsgQueue>, numPools: nat, live: set<Message>, q: nat)
    requires QueuesOk(queues, numPools, live) && q < |queues|
    ensures forall j :: 0 <= j < |queues| && j != q ==> queues[j] != queues[q]
    ensures forall j, m :: 0 <= j < |queues| && j != q && m in queues[j].Contents ==>
      m !in queues[q].Contents && m.queueId != Unspecified
  {
    forall j, m | 0 <= j < |queues| && j != q && m in queues[j].Contents
      ensures m !in queues[q].Contents && m.queueId != Unspecified
    {
      assert queues[j].Valid() && queues[q].Valid();
    }
  }

  /** A send to a queue of live messages leaves only live messages on it, and drops a live
      one. */
  lemma SendKeepsLive(c: seq<Message>, msg: Message, kind: QueueKind, key: Message -> int,
                      policy: DropPolicy, capacity: nat, live: set<Message>)
    requires kind != SrswFifo && msg in live && forall m :: m in c ==> m in live
    ensures var s := Enqueued(c, msg, kind, key);
      && (forall m :: m in s ==> m in live)
      && (Overflows(|s|, policy, capacity) ==>
            var d := DropIndex(|s|, policy); s[d] in live && forall m :: m in RemoveAt(s, d) ==> m in live)
  {
    var s := Enqueued(c, msg, kind, key);
    EnqueuedMembers(c, msg, kind, key);
    if Overflows(|s|, policy, capacity) {
      RemoveAtMembers(s, DropIndex(|s|, policy));
    }
  }

  /** A queue none of whose objects changed stays valid with the same messages. */
  twostate lemma QueueUnchanged(queue: MsgQueue)
    requires old(queue.Valid()) && unchanged(queue)
    requires forall m :: m in old(queue.Contents) ==> unchanged(m)
    requires queue.ring != null ==> unchanged(queue.ring) && unchanged(queue.ring.slots)
    ensures queue.Valid() && queue.Contents == old(queue.Contents)
  {
    var c := queue.Contents;
    forall k | 0 <= k < |c| ensures unchanged(c[k]) {
      assert c[k] in old(queue.Contents);
    }
  }

  /** The queue of a ring whose own fields did not change stays valid while its ring does. */
  twostate lemma RingQueueStays(queue: MsgQueue)
    requires old(queue.Valid()) && unchanged(queue) && queue.ring != null && queue.ring.Valid()
    ensures queue.Valid() && queue.Contents == old(queue.Contents)
  {
  }

  class MsgManager {
    const pools: seq<MemPool>
    const queues: seq<MsgQueue>
    /** The entity priority a new message starts with. */
    const defaultPriority: int
    /** Whether message ids come from the manager's counter rather than the queues'. */
    var useGlobalMsgIds: bool
    /** The manager's message id counter. */
    var nextMsgId: int
    /** The messages created and not yet destroyed. */
    ghost var Live: set<Message>

    ghost predicate Valid()
      reads this, pools, queues, Live, Rings(queues)
    {
      PoolsOk() && QueuesOk(queues, |pools|, Live)
    }

    /** The pools are valid and every live message holds its units. */
    ghost predicate PoolsOk()
      reads this, pools
    {
      PoolsValid(pools) && MessagesOk(Live, Allocation(pools))
    }

    /** Pools that did not change keep their accounting. */
    twostate lemma PoolsStay()
      requires old(PoolsOk()) && unchanged(this)
      requires forall i :: 0 <= i < |pools| ==> unchanged(pools[i])
      ensures PoolsOk()
    {
    }

    /** A step that changed only queue `q`, its ring, its messages and the detached message
        `msg` keeps the manager valid when it left queue `q` valid and holding live messages;
        every other queue keeps its messages. */
    twostate lemma StepInQueue(q: nat, new msg: Message?)
      requires old(Valid()) && q < |queues|
      requires msg != null ==> old(allocated(msg)) && old(msg.queueId) == Unspecified
      requires forall o: object ::
                 old(allocated(o)) && o !in old(QueueFrame(q)) && o !in old(RingFrame(q)) && o != msg ==> unchanged(o)
      requires queues[q].Valid() && forall m :: m in queues[q].Contents ==> m in Live
      ensures Valid() && Live == old(Live) && Allocation(pools) == old(Allocation(pools))
      ensures forall j :: 0 <= j < |queues| && j != q ==> queues[j].Contents == old(queues[j].Contents)
    {
      OtherQueuesStay(q, msg);
      assert old(allocated(this)) && this !in old(QueueFrame(q)) && this !in old(RingFrame(q));
      forall i | 0 <= i < |pools| ensures unchanged(pools[i]) {
        assert old(allocated(pools[i])) && pools[i] !in old(QueueFrame(q)) && pools[i] !in old(RingFrame(q));
      }
      PoolsStay();
    }

    /** The part of `StepInQueue` about the other queues: each of them, its ring and its
        messages lie outside what the step changed, so it stays valid with the same messages. */
    twostate lemma OtherQueuesStay(q: nat, new msg: Message?)
      requires old(Valid()) && q < |queues|
      requires msg != null ==> old(allocated(msg)) && old(msg.queueId) == Unspecified
      requires forall o: object ::
                 old(allocated(o)) && o !in old(QueueFrame(q)) && o !in old(RingFrame(q)) && o != msg ==> unchanged(o)
      ensures forall j :: 0 <= j < |queues| && j != q ==> queues[j].Valid() && queues[j].Contents == old(queues[j].Contents)
    {
      assert old(queues[q].Valid());
      forall j | 0 <= j < |queues| && j != q
        ensures queues[j].Valid() && queues[j].Contents == old(queues[j].Contents)
      {
        assert old(queues[j].Valid());
        forall m | m in old(queues[j].Contents) ensures unchanged(m) {
          assert old(m.queueId) == j;
          assert old(allocated(m)) && m !in old(QueueFrame(q)) && m !in old(RingFrame(q)) && m != msg;
        }
        var r := queues[j].ring;
        assert old(allocated(queues[j])) && queues[j] !in old(QueueFrame(q)) && queues[j] !in old(RingFrame(q));
        if r != null {
          assert old(allocated(r)) && r !in old(QueueFrame(q)) && r !in old(RingFrame(q));
          assert old(allocated(r.slots)) && r.slots !in old(QueueFrame(q)) && r.slots !in old(RingFrame(q));
        }
        QueueUnchanged(queues[j]);
      }
    }

    /** What sending to, popping from or draining queue `q` may change: the queue and the
        messages on it. */
    ghost function QueueFrame(q: int): set<object>
      reads queues
    {
      if 0 <= q < |queues| then {queues[q] as object} + set m: Message | m in queues[q].Contents
      else {}
    }

    /** What an SRSW send to or read from queue `q` may change: its ring and the ring's slots. */
    ghost function RingFrame(q: int): set<object>
      reads queues
    {
      if 0 <= q < |queues| && queues[q].ring != null then {queues[q].ring as object, queues[q].ring.slots}
      else {}
    }

    /** The payloads pending in the ring of queue `q`; none for a queue without a ring. */
    ghost function RingPending(q: int): seq<Slot>
      reads Rings(queues)
    {
      if 0 <= q < |queues| && queues[q].ring != null && queues[q].ring.Valid() then queues[q].ring.Pending() else []
    }

    /** Every message on some queue. */
    ghost function Queued(): set<Message>
      reads queues
    {
      set i, m | 0 <= i < |queues| && m in queues[i].Contents :: m
    }

    /** A manager over pools and queues that have just been set up: message ids start at 1
        and come from the queues' counters. */
    constructor Init(pools: seq<MemPool>, queues: seq<MsgQueue>, defaultPriority: int)
      requires PoolsValid(pools) && QueuesOk(queues, |pools|, {})
      ensures Valid() && Live == {}
      ensures this.pools == pools && this.queues == queues && this.defaultPriority == defaultPriority
      ensures !useGlobalMsgIds && nextMsgId == 1
    {
      this.pools := pools;
      this.queues := queues;
      this.defaultPriority := defaultPriority;
      useGlobalMsgIds := false;
      nextMsgId := 1;
      Live := {};
    }

    /** The id of the next message created for queue `queueId`: the manager's counter, post-
        incremented, when ids are global; otherwise the queue's counter, pre-incremented, with
        the queue id in the upper bits. */
    method NextMsgId(queueId: nat) returns (msgId: int)
      requires Valid() && queueId < |queues|
      modifies this`nextMsgId, {queues[queueId]}`nextMsgId
      ensures Valid() && Live == old(Live) && Allocation(pools) == old(Allocation(pools))
      ensures forall q :: RingPending(q) == old(RingPending(q))
      ensures useGlobalMsgIds ==>
        msgId == old(nextMsgId) && nextMsgId == old(nextMsgId) + 1
        && queues[queueId].nextMsgId == old(queues[queueId].nextMsgId)
      ensures !useGlobalMsgIds ==>
        && queues[queueId].nextMsgId == old(queues[queueId].nextMsgId) + 1
        && msgId == PerQueueMsgId(queueId, queues[queueId].nextMsgId)
        && nextMsgId == old(nextMsgId)
    {
      if useGlobalMsgIds {
        msgId := nextMsgId;
        nextMsgId := nextMsgId + 1;
      } else {
        var q := queues[queueId];
        QueuesApart(queues, |pools|, Live, queueId);
        assert q.Valid();
        q.nextMsgId := q.nextMsgId + 1;
        msgId := q.nextMsgId + queueId * 65536;
        StepInQueue(queueId, null);
      }
    }

    /** Create a detached message with id `msgId` for queue `queueId`: its record comes from
        the queue's writer message pool, its payload from the writer payload pool, and the
        payload is `dataSize` zero bytes without `data`, the first `dataSize` bytes of `data`
        otherwise. When a pool cannot supply a unit there is no message. */
    method CreateMsgWithId(data: Option<seq<byte>>, dataSize: nat, queueId: nat, msgId: int)
      returns (msg: Message?)
      requires Valid() && queueId < |queues|
      requires data.Some? ==> dataSize <= |data.value|
      modifies pools, this`Live
      ensures Valid()
      ensures msg == null ==> Live == old(Live)
      ensures msg != null ==>
        && fresh(msg) && Live == old(Live) + {msg} && Detached(msg)
        && msg.id == msgId && msg.priority == defaultPriority
        && msg.data == (if data.Some? then data.value[..dataSize] else Zeros(dataSize))
        && (msg.envelope.PoolUnit? ==> msg.envelope.pool == queues[queueId].writerMessagePool)
        && (msg.payload.PoolUnit? ==> msg.payload.pool == queues[queueId].writerPayloadPool)
        && Allocation(pools) == WithUnits(old(Allocation(pools)), msg)
    {
      var q := queues[queueId];
      msg := NewMsg(data, dataSize, q.writerMessagePool, q.writerPayloadPool, msgId);
      QueuesOkGrow(queues, |pools|, old(Live), Live);
    }

    /** The pool side of `CreateMsgWithId`: a record from pool `recordPool`, a payload from
        pool `payloadPool`, and the new message among the live ones. */
    method NewMsg(data: Option<seq<byte>>, dataSize: nat, recordPool: nat, payloadPool: nat, msgId: int)
      returns (msg: Message?)
      requires PoolsOk() && recordPool < |pools| && payloadPool < |pools|
      requires data.Some? ==> dataSize <= |data.value|
      modifies pools, this`Live
      ensures PoolsOk() && old(Live) <= Live
      ensures msg == null ==> Live == old(Live)
      ensures msg != null ==>
        && fresh(msg) && Live == old(Live) + {msg} && Detached(msg)
        && msg.id == msgId && msg.priority == defaultPriority
        && msg.data == (if data.Some? then data.value[..dataSize] else Zeros(dataSize))
        && (msg.envelope.PoolUnit? ==> msg.envelope.pool == recordPool)
        && (msg.payload.PoolUnit? ==> msg.payload.pool == payloadPool)
        && Allocation(pools) == WithUnits(old(Allocation(pools)), msg)
    {
      ghost var a0 := Allocation(pools);
      var envelope := AllocFrom(recordPool);
      if envelope.BadAlloc? {
        return null;
      }
      var payload := AllocFrom(payloadPool);
      if payload.BadAlloc? {
        return null;
      }
      var bytes := if data.Some? then data.value[..dataSize] else Zeros(dataSize);
      ghost var a2 := Allocation(pools);
      var m := new Message.Create(msgId, defaultPriority, bytes, envelope.addr, payload.addr);
      assert PoolsValid(pools) && Allocation(pools) == a2;
      MessagesOkAdd(Live, a0, m);
      Live := Live + {m};
      msg := m;
    }

    /** Take a unit from pool `p`; the live messages keep theirs. */
    method AllocFrom(p: nat) returns (r: AllocResult)
      requires PoolsOk() && p < |pools|
      modifies pools[p]
      ensures PoolsOk()
      ensures r.Granted? ==>
        && (r.addr.PoolUnit? ==> r.addr.pool == p)
        && Unheld(old(Allocation(pools)), r.addr)
        && Allocation(pools) == Grant(old(Allocation(pools)), r.addr)
      ensures r.BadAlloc? ==> Allocation(pools) == old(Allocation(pools))
    {
      ghost var a0 := Allocation(pools);
      r := pools[p].Alloc();
      assert forall i :: 0 <= i < |pools| && i != p ==> pools[i] != pools[p];
      assert Allocation(pools) == a0[p := pools[p].allocatedUnits];
      if r.Granted? {
        MessagesOkGrant(Live, a0, r.addr);
      }
    }

    /** Create a message for queue `queueId` with the next id: the manager's counter when ids
        are global, the queue's otherwise. */
    method CreateMsg(data: Option<seq<byte>>, dataSize: nat, queueId: nat) returns (msg: Message?)
      requires Valid() && queueId < |queues|
      requires data.Some? ==> dataSize <= |data.value|
      modifies this`nextMsgId, {queues[queueId]}`nextMsgId, pools, this`Live
      ensures Valid()
      ensures useGlobalMsgIds ==>
        nextMsgId == old(nextMsgId) + 1 && queues[queueId].nextMsgId == old(queues[queueId].nextMsgId)
      ensures !useGlobalMsgIds ==>
        queues[queueId].nextMsgId == old(queues[queueId].nextMsgId) + 1 && nextMsgId == old(nextMsgId)
      ensures msg == null ==> Live == old(Live)
      ensures msg != null ==>
        && fresh(msg) && Live == old(Live) + {msg} && Detached(msg)
        && msg.id == (if useGlobalMsgIds then old(nextMsgId) else PerQueueMsgId(queueId, queues[queueId].nextMsgId))
        && msg.priority == defaultPriority
        && msg.data == (if data.Some? then data.value[..dataSize] else Zeros(dataSize))
        && (msg.envelope.PoolUnit? ==> msg.envelope.pool == queues[queueId].writerMessagePool)
        && (msg.payload.PoolUnit? ==> msg.payload.pool == queues[queueId].writerPayloadPool)
        && Allocation(pools) == WithUnits(old(Allocation(pools)), msg)
    {
      var msgId := NextMsgId(queueId);
      msg := CreateMsgWithId(data, dataSize, queueId, msgId);
    }

    /** Destroy a message that is on no queue: its payload, then its record, go back to their
        pools. */
    method DestroyMsg(msg: Message)
      requires Valid() && msg in Live && msg.queueId == Unspecified
      modifies pools, this`Live
      ensures Valid() && Live == old(Live) - {msg}
      ensures Allocation(pools) == WithoutUnits(old(Allocation(pools)), msg)
      ensures forall q :: 0 <= q < |queues| ==> queues[q].Contents == old(queues[q].Contents)
      ensures forall q :: RingPending(q) == old(RingPending(q))
    {
      QueuesOkShrink(queues, |pools|, Live, msg);
      FreeMsg(msg);
    }

    /** The pool side of `DestroyMsg`. */
    method FreeMsg(msg: Message)
      requires PoolsOk() && msg in Live
      modifies pools, this`Live
      ensures PoolsOk() && Live == old(Live) - {msg}
      ensures Allocation(pools) == WithoutUnits(old(Allocation(pools)), msg)
    {
      ghost var a0 := Allocation(pools);
      MessagesOkRemove(Live, a0, msg);
      ReturnToPool(msg.payload);
      ReturnToPool(msg.envelope);
      Live := Live - {msg};
    }

    /** Free one allocated unit; a system block leaves the pools as they are. */
    method ReturnToPool(a: Addr)
      requires PoolsValid(pools) && Held(Allocation(pools), a)
      modifies pools
      ensures PoolsValid(pools)
      ensures Allocation(pools) == Release(old(Allocation(pools)), a)
    {
      if a.PoolUnit? {
        pools[a.pool].AllocatedOwned(a.unit);
      }
      var _ := FreeToPools(pools, a);
    }

    /** Send a detached message to linked queue `queueId` and return the message the queue
        dropped, if any; with no destination queue the message itself comes back. */
    method SendMsg(msg: Message, queueId: int) returns (dropped: Message?)
      requires Valid() && msg in Live && Detached(msg)
      requires queueId == Unspecified
        || (0 <= queueId < |queues| && queues[queueId].kind != SrswFifo && |msg.data| == queues[queueId].dataSize)
      modifies QueueFrame(queueId), msg
      ensures Valid() && Live == old(Live) && Allocation(pools) == old(Allocation(pools))
      ensures dropped != null ==> dropped in Live
      ensures queueId == Unspecified ==> dropped == msg && unchanged(msg)
      ensures queueId != Unspecified ==>
        var q := queues[queueId];
        var s := Enqueued(old(q.Contents), msg, q.kind, q.key);
        if Overflows(|s|, q.dropPolicy, q.capacity) then
          var d := DropIndex(|s|, q.dropPolicy);
          dropped == s[d] && q.Contents == RemoveAt(s, d) && Detached(dropped)
        else
          dropped == null && q.Contents == s
    {
      if queueId == Unspecified {
        return msg;
      }
      var q := queues[queueId];
      assert q.Valid();
      SendKeepsLive(q.Contents, msg, q.kind, q.key, q.dropPolicy, q.capacity, Live);
      dropped := q.AddToQueue(msg);
      StepInQueue(queueId, msg);
    }

    /** Unlink and return the head of linked queue `queueId`, or return none from an empty
        queue. */
    method PopMsgFromQueue(queueId: nat) returns (msg: Message?)
      requires Valid() && queueId < |queues|
      modifies QueueFrame(queueId)
      ensures Valid() && Live == old(Live) && Allocation(pools) == old(Allocation(pools))
      ensures queues[queueId].nextMsgId == old(queues[queueId].nextMsgId)
      ensures old(queues[queueId].Contents) == [] ==> msg == null
      ensures old(queues[queueId].Contents) != [] ==>
        && msg == old(queues[queueId].Contents[0]) && msg in Live && Detached(msg)
        && queues[queueId].Contents == old(queues[queueId].Contents[1..])
    {
      QueuesApart(queues, |pools|, Live, queueId);
      msg := queues[queueId].Pop();
      StepInQueue(queueId, null);
    }

    /** Remove `msg`, the message at index `i` of queue `qId`, from that queue; with no queue
        there is nothing to do. */
    method RemoveFromQueue(msg: Message, qId: int, ghost i: nat)
      requires Valid()
      requires qId == Unspecified || (0 <= qId < |queues| && i < |queues[qId].Contents| && queues[qId].Contents[i] == msg)
      modifies QueueFrame(qId)
      ensures Valid() && Live == old(Live)
      ensures qId != Unspecified ==>
        queues[qId].Contents == RemoveAt(old(queues[qId].Contents), i) && Detached(msg)
    {
      if qId == Unspecified {
        return;
      }
      QueuesApart(queues, |pools|, Live, qId);
      assert queues[qId].Valid();
      queues[qId].Remove(msg, i);
      RemoveAtMembers(old(queues[qId].Contents), i);
      StepInQueue(qId, null);
    }

    /** The number of messages on queue `queueId`; an SRSW queue links none. */
    function NumMsgsInQueue(queueId: nat): (n: int)
      reads this, pools, queues, Live, Rings(queues)
      requires Valid() && queueId < |queues|
      ensures n == |queues[queueId].Contents|
    {
      assert queues[queueId].Valid();
      queues[queueId].NumMsgs()
    }

    /** The message at index `idx` of queue `queueId`, or none past its end. */
    method PeekMsgFromQueueAtIndex(queueId: nat, idx: int) returns (msg: Message?)
      requires Valid() && queueId < |queues|
      ensures var c := queues[queueId].Contents; msg == if 0 <= idx < |c| then c[idx] else null
    {
      msg := queues[queueId].PeekAt(idx);
    }

    /** The message at the head of queue `queueId`, or none when it is empty. */
    method PeekMsgFromQueue(queueId: nat) returns (msg: Message?)
      requires Valid() && queueId < |queues|
      ensures var c := queues[queueId].Contents; msg == if c == [] then null else c[0]
    {
      msg := PeekMsgFromQueueAtIndex(queueId, 0);
    }

    /** Copy the payload and id of a detached message into the ring of SRSW queue `queueId`
        and destroy the message; a full ring rejects it and hands it back. With no destination
        queue the message itself comes back. */
    method SrswSendMsg(msg: Message, queueId: int) returns (dropped: Message?)
      requires Valid() && msg in Live && Detached(msg)
      requires queueId == Unspecified
        || (0 <= queueId < |queues| && queues[queueId].kind == SrswFifo && |msg.data| == queues[queueId].dataSize)
      modifies RingFrame(queueId), pools, this`Live
      ensures Valid()
      ensures dropped == null ==>
        Live == old(Live) - {msg} && Allocation(pools) == WithoutUnits(old(Allocation(pools)), msg)
      ensures dropped != null ==>
        dropped == msg && Live == old(Live) && Allocation(pools) == old(Allocation(pools))
      ensures queueId == Unspecified ==> dropped == msg
      ensures queueId != Unspecified ==>
        && (dropped == null <==> old(|RingPending(queueId)|) < queues[queueId].capacity - 1)
        && RingPending(queueId) == if dropped == null then old(RingPending(queueId)) + [Slot(msg.data, msg.id)] else old(RingPending(queueId))
    {
      if queueId == Unspecified {
        return msg;
      }
      var accepted := RingSend(queueId, msg);
      if accepted {
        DestroyMsg(msg);
        dropped := null;
      } else {
        dropped := msg;
      }
    }

    /** The ring side of `SrswSendMsg`. */
    method RingSend(queueId: nat, msg: Message) returns (accepted: bool)
      requires Valid() && queueId < |queues|
      requires queues[queueId].kind == SrswFifo && |msg.data| == queues[queueId].dataSize
      modifies RingFrame(queueId)
      ensures Valid() && Live == old(Live) && Allocation(pools) == old(Allocation(pools))
      ensures accepted <==> old(|RingPending(queueId)|) < queues[queueId].capacity - 1
      ensures RingPending(queueId) == if accepted then old(RingPending(queueId)) + [Slot(msg.data, msg.id)] else old(RingPending(queueId))
    {
      var q := queues[queueId];
      assert q.Valid();
      accepted := q.ring.Send(msg.data, msg.id);
      RingQueueStays(q);
      StepInQueue(queueId, null);
    }

    /** Pop the oldest payload of the ring of SRSW queue `queueId`. */
    method RingAdvance(queueId: nat)
      requires Valid() && queueId < |queues| && queues[queueId].kind == SrswFifo
      requires RingPending(queueId) != []
      modifies RingFrame(queueId)
      ensures Valid() && Live == old(Live) && Allocation(pools) == old(Allocation(pools))
      ensures RingPending(queueId) == old(RingPending(queueId))[1..]
    {
      var q := queues[queueId];
      assert q.Valid();
      q.ring.Advance();
      RingQueueStays(q);
      StepInQueue(queueId, null);
    }

    /** Read the oldest payload of SRSW queue `queueId` into a new message that carries the
        id stored with it, and pop it from the ring when `pop` is set; an empty ring gives no
        message. */
    method SrswReadMsgFromQueue(queueId: nat, pop: bool) returns (msg: Message?)
      requires Valid() && queueId < |queues| && queues[queueId].kind == SrswFifo
      modifies this`nextMsgId, {queues[queueId]}`nextMsgId, pools, this`Live, RingFrame(queueId)
      ensures Valid()
      ensures old(RingPending(queueId)) == [] ==>
        && msg == null && RingPending(queueId) == old(RingPending(queueId)) && Live == old(Live)
        && Allocation(pools) == old(Allocation(pools))
        && nextMsgId == old(nextMsgId) && queues[queueId].nextMsgId == old(queues[queueId].nextMsgId)
      ensures old(RingPending(queueId)) != [] ==>
        && RingPending(queueId) == (if pop then old(RingPending(queueId))[1..] else old(RingPending(queueId)))
        && (useGlobalMsgIds ==>
              nextMsgId == old(nextMsgId) + 1 && queues[queueId].nextMsgId == old(queues[queueId].nextMsgId))
        && (!useGlobalMsgIds ==>
              queues[queueId].nextMsgId == old(queues[queueId].nextMsgId) + 1 && nextMsgId == old(nextMsgId))
        && (msg == null ==> Live == old(Live))
        && (msg != null ==>
              && fresh(msg) && Live == old(Live) + {msg} && Detached(msg)
              && msg.data == old(RingPending(queueId))[0].data && msg.id == old(RingPending(queueId))[0].id
              && msg.priority == defaultPriority
              && (msg.envelope.PoolUnit? ==> msg.envelope.pool == queues[queueId].writerMessagePool)
              && (msg.payload.PoolUnit? ==> msg.payload.pool == queues[queueId].writerPayloadPool)
              && Allocation(pools) == WithUnits(old(Allocation(pools)), msg))
    {
      var present;
      present, msg := CopyFront(queueId);
      if present && pop {
        RingAdvance(queueId);
      }
    }

    /** The copying side of `SrswReadMsgFromQueue`: whether the ring holds a payload, and the
        message made from the oldest one. */
    method CopyFront(queueId: nat) returns (present: bool, msg: Message?)
      requires Valid() && queueId < |queues| && queues[queueId].kind == SrswFifo
      modifies this`nextMsgId, {queues[queueId]}`nextMsgId, pools, this`Live
      ensures Valid() && RingPending(queueId) == old(RingPending(queueId))
      ensures present <==> RingPending(queueId) != []
      ensures !present ==>
        && msg == null && Allocation(pools) == old(Allocation(pools))
        && nextMsgId == old(nextMsgId) && queues[queueId].nextMsgId == old(queues[queueId].nextMsgId)
      ensures present && useGlobalMsgIds ==>
        nextMsgId == old(nextMsgId) + 1 && queues[queueId].nextMsgId == old(queues[queueId].nextMsgId)
      ensures present && !useGlobalMsgIds ==>
        queues[queueId].nextMsgId == old(queues[queueId].nextMsgId) + 1 && nextMsgId == old(nextMsgId)
      ensures msg == null ==> Live == old(Live)
      ensures msg != null ==>
        && present && fresh(msg) && Live == old(Live) + {msg} && Detached(msg)
        && msg.data == RingPending(queueId)[0].data && msg.id == RingPending(queueId)[0].id
        && msg.priority == defaultPriority
        && (msg.envelope.PoolUnit? ==> msg.envelope.pool == queues[queueId].writerMessagePool)
        && (msg.payload.PoolUnit? ==> msg.payload.pool == queues[queueId].writerPayloadPool)
        && Allocation(pools) == WithUnits(old(Allocation(pools)), msg)
    {
      var q := queues[queueId];
      assert q.Valid();
      var slot := q.ring.Front();
      present := slot.Some?;
      if present {
        var _ := NextMsgId(queueId);
        msg := CreateMsgWithId(Some(slot.value.data), q.dataSize, queueId, slot.value.id);
      } else {
        msg := null;
      }
    }

    /** Send a detached message to queue `queueId` by the queue's kind and destroy whatever
        comes back: the message a linked queue dropped, the message a full ring rejected, or
        the message itself when there is no queue. Report whether the sent message was
        kept. */
    method SendMsgToQueue(msg: Message, queueId: int) returns (accepted: bool)
      requires Valid() && msg in Live && Detached(msg)
      requires queueId == Unspecified || (0 <= queueId < |queues| && |msg.data| == queues[queueId].dataSize)
      modifies QueueFrame(queueId), msg, RingFrame(queueId), pools, this`Live
      ensures Valid()
      ensures queueId == Unspecified ==>
        !accepted && Live == old(Live) - {msg} && Allocation(pools) == WithoutUnits(old(Allocation(pools)), msg)
      ensures queueId != Unspecified && queues[queueId].kind == SrswFifo ==>
        && (accepted <==> old(|RingPending(queueId)|) < queues[queueId].capacity - 1)
        && RingPending(queueId) == (if accepted then old(RingPending(queueId)) + [Slot(msg.data, msg.id)] else old(RingPending(queueId)))
        && Live == old(Live) - {msg} && Allocation(pools) == WithoutUnits(old(Allocation(pools)), msg)
      ensures queueId != Unspecified && queues[queueId].kind != SrswFifo ==>
        var q := queues[queueId];
        var s := Enqueued(old(q.Contents), msg, q.kind, q.key);
        if Overflows(|s|, q.dropPolicy, q.capacity) then
          var d := DropIndex(|s|, q.dropPolicy);
          && q.Contents == RemoveAt(s, d) && Live == old(Live) - {s[d]}
          && Allocation(pools) == WithoutUnits(old(Allocation(pools)), s[d])
          && (accepted <==> s[d] != msg)
        else
          q.Contents == s && Live == old(Live) && Allocation(pools) == old(Allocation(pools)) && accepted
    {
      var dropped: Message?;
      // The source reads the queue's kind before it looks at the id; an unspecified id has no
      // queue whose kind could be read, so it goes straight to `SendMsg`, which hands it back.
      if queueId == Unspecified {
        dropped := SendMsg(msg, queueId);
      } else if queues[queueId].kind == SrswFifo {
        dropped := SrswSendMsg(msg, queueId);
      } else {
        dropped := SendMsg(msg, queueId);
      }
      if dropped != null {
        DestroyMsg(dropped);
      }
      accepted := dropped != msg;
    }

    /** Pop the head of queue `queueId`: from the ring of an SRSW queue into a new message,
        otherwise by unlinking it. */
    method PopFromQueue(queueId: nat) returns (msg: Message?)
      requires Valid() && queueId < |queues|
      modifies this`nextMsgId, {queues[queueId]}`nextMsgId, pools, this`Live, RingFrame(queueId), QueueFrame(queueId)
      ensures Valid()
      ensures queues[queueId].kind == SrswFifo ==>
        && (old(RingPending(queueId)) == [] ==>
              && msg == null && Live == old(Live) && Allocation(pools) == old(Allocation(pools))
              && nextMsgId == old(nextMsgId) && queues[queueId].nextMsgId == old(queues[queueId].nextMsgId))
        && (old(RingPending(queueId)) != [] ==>
              && RingPending(queueId) == old(RingPending(queueId))[1..]
              && (useGlobalMsgIds ==>
                    nextMsgId == old(nextMsgId) + 1 && queues[queueId].nextMsgId == old(queues[queueId].nextMsgId))
              && (!useGlobalMsgIds ==>
                    queues[queueId].nextMsgId == old(queues[queueId].nextMsgId) + 1 && nextMsgId == old(nextMsgId))
              && (msg == null ==> Live == old(Live))
              && (msg != null ==>
                    && fresh(msg) && Live == old(Live) + {msg} && Detached(msg)
                    && msg.data == old(RingPending(queueId))[0].data && msg.id == old(RingPending(queueId))[0].id
                    && msg.priority == defaultPriority
                    && Allocation(pools) == WithUnits(old(Allocation(pools)), msg)))
      ensures queues[queueId].kind != SrswFifo ==>
        && Live == old(Live) && Allocation(pools) == old(Allocation(pools))
        && nextMsgId == old(nextMsgId) && queues[queueId].nextMsgId == old(queues[queueId].nextMsgId)
        && (old(queues[queueId].Contents) == [] ==> msg == null)
        && (old(queues[queueId].Contents) != [] ==>
              && msg == old(queues[queueId].Contents[0]) && Detached(msg)
              && queues[queueId].Contents == old(queues[queueId].Contents[1..]))
    {
      if queues[queueId].kind == SrswFifo {
        msg := SrswReadMsgFromQueue(queueId, true);
      } else {
        msg := PopMsgFromQueue(queueId);
      }
    }

    /** Pop and destroy every message of queue `k`. */
    method DrainQueue(k: nat)
      requires Valid() && k < |queues|
      modifies pools, this`Live, QueueFrame(k)
      ensures Valid() && queues[k].Contents == []
      ensures Live == old(Live) - set m | m in old(queues[k].Contents)
      ensures Allocation(pools) == WithoutUnitsOf(old(Allocation(pools)), set m | m in old(queues[k].Contents))
      ensures forall j :: 0 <= j < |queues| && j != k ==> queues[j].Contents == old(queues[j].Contents)
    {
      ghost var c := queues[k].Contents;
      ghost var a0 := Allocation(pools);
      ghost var i := 0;
      ghost var gone: set<Message> := {};
      WithoutUnitsOfNone(a0);
      var n := NumMsgsInQueue(k);
      while n > 0
        invariant Valid() && 0 <= i <= |c|
        invariant queues[k].Contents == c[i..] && n == |c| - i
        invariant gone == set m | m in c[..i]
        invariant Live == old(Live) - gone
        invariant Allocation(pools) == WithoutUnitsOf(a0, gone)
        invariant forall j :: 0 <= j < |queues| && j != k ==> queues[j].Contents == old(queues[j].Contents)
        decreases n
      {
        DiscardHead(k);
        WithoutUnitsOfAdd(a0, gone, c[i]);
        assert c[..i + 1] == c[..i] + [c[i]];
        gone := gone + {c[i]};
        i := i + 1;
        n := NumMsgsInQueue(k);
      }
      assert c[..i] == c;
    }

    /** Pop the head of linked queue `k` and destroy it. */
    method DiscardHead(k: nat)
      requires Valid() && k < |queues| && queues[k].Contents != []
      modifies pools, this`Live, QueueFrame(k)
      ensures Valid() && queues[k].Contents == old(queues[k].Contents[1..])
      ensures Live == old(Live) - {old(queues[k].Contents[0])}
      ensures Allocation(pools) == WithoutUnits(old(Allocation(pools)), old(queues[k].Contents[0]))
      ensures forall j :: 0 <= j < |queues| && j != k ==> queues[j].Contents == old(queues[j].Contents)
    {
      var msg := PopMsgFromQueue(k);
      DestroyMsg(msg);
    }

    /** Empty every queue, destroying its messages. */
    method Finalize()
      requires Valid()
      modifies pools, this`Live, queues, Queued()
      ensures Valid()
      ensures forall j :: 0 <= j < |queues| ==> queues[j].Contents == []
      ensures Live == old(Live) - old(Queued())
      ensures Allocation(pools) == WithoutUnitsOf(old(Allocation(pools)), old(Queued()))
    {
      ghost var a0 := Allocation(pools);
      ghost var gone: set<Message> := {};
      WithoutUnitsOfNone(a0);
      var k := 0;
      while k < |queues|
        invariant 0 <= k <= |queues| && Valid()
        invariant forall j :: 0 <= j < k ==> queues[j].Contents == []
        invariant forall j :: k <= j < |queues| ==> queues[j].Contents == old(queues[j].Contents)
        invariant gone == set j, m | 0 <= j < k && m in old(queues[j].Contents) :: m
        invariant Live == old(Live) - gone
        invariant Allocation(pools) == WithoutUnitsOf(a0, gone)
      {
        assert forall m :: m in queues[k].Contents ==> m in old(Queued());
        ghost var drained := set m | m in queues[k].Contents;
        DrainQueue(k);
        WithoutUnitsOfUnion(a0, gone, drained);
        gone := gone + drained;
        k := k + 1;
      }
      assert (set j, m | 0 <= j < k && m in old(queues[j].Contents) :: m) == old(Queued());
    }

    /** Release every chunk of every pool. */
    method Terminate() returns (released: seq<seq<Chunk>>)
      requires Valid()
      modifies pools
      ensures |released| == |pools|
      ensures forall i :: 0 <= i < |pools| ==>
        pools[i].chunks == [] && released[i] == Released(old(pools[i].chunks), pools[i].canMalloc)
    {
      released := DestroyPools(pools);
    }
  }
}
