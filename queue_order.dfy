/** The ordering discipline of message queues, as pure functions over the sequence of queued
    items (head first), and what each discipline guarantees. */
module QueueOrder {

  datatype QueueKind =
    | Fifo
    | Lifo
    | PriorityAscending
    | PriorityDescending
    | SysPriorityAscending
    | SysPriorityDescending
    | SrswFifo

  datatype DropPolicy = DropNone | DropHead | DropTail

  predicate IsAscending(kind: QueueKind)
  {
    kind == PriorityAscending || kind == SysPriorityAscending
  }

  predicate IsDescending(kind: QueueKind)
  {
    kind == PriorityDescending || kind == SysPriorityDescending
  }

  predicate IsPriority(kind: QueueKind)
  {
    IsAscending(kind) || IsDescending(kind)
  }

  /** The test of the priority scan: a new key goes in front of an existing key that is
      strictly smaller (descending queue) or strictly larger (ascending queue). */
  predicate GoesBefore(kind: QueueKind, newVal: int, thisVal: int)
  {
    (IsDescending(kind) && thisVal < newVal) || (IsAscending(kind) && thisVal > newVal)
  }

  /** Where the scan from the head inserts a new key: in front of the first item it goes
      before, or at the tail when there is none. */
  function InsertPos<T>(s: seq<T>, key: T -> int, kind: QueueKind, newVal: int): (i: nat)
    ensures i <= |s|
    ensures forall j :: 0 <= j < i ==> !GoesBefore(kind, newVal, key(s[j]))
    ensures i < |s| ==> GoesBefore(kind, newVal, key(s[i]))
  {
    if s == [] then 0
    else if GoesBefore(kind, newVal, key(s[0])) then 0
    else 1 + InsertPos(s[1..], key, kind, newVal)
  }

  /** `InsertPos` is the only position with the scan's stopping property. */
  lemma InsertPosUnique<T>(s: seq<T>, key: T -> int, kind: QueueKind, newVal: int, i: nat)
    requires i <= |s|
    requires forall j :: 0 <= j < i ==> !GoesBefore(kind, newVal, key(s[j]))
    requires i < |s| ==> GoesBefore(kind, newVal, key(s[i]))
    ensures i == InsertPos(s, key, kind, newVal)
  {
  }

  /** The queue after `x` is added: an empty queue holds just `x`; a FIFO queue appends it,
      a LIFO queue prepends it, a priority queue inserts it at `InsertPos`. */
  function Enqueued<T>(s: seq<T>, x: T, kind: QueueKind, key: T -> int): seq<T>
    requires kind != SrswFifo
  {
    if s == [] then [x]
    else if kind == Fifo then s + [x]
    else if kind == Lifo then [x] + s
    else var i := InsertPos(s, key, kind, key(x)); s[..i] + [x] + s[i..]
  }

  function RemoveAt<T>(s: seq<T>, i: nat): seq<T>
    requires i < |s|
  {
    s[..i] + s[i + 1..]
  }

  /** The capacity a queue stores: one more than declared when it drops, so that the
      overflow shows only after the insertion. */
  function StoredCapacity(declared: nat, policy: DropPolicy): nat
  {
    if policy == DropNone then declared else declared + 1
  }

  /** Whether a queue of `len` items just after an insertion must drop one. */
  predicate Overflows(len: nat, policy: DropPolicy, capacity: nat)
  {
    policy != DropNone && len == capacity
  }

  /** Which item an overflowing queue drops. */
  function DropIndex(len: nat, policy: DropPolicy): nat
    requires len > 0
  {
    if policy == DropHead then 0 else len - 1
  }

  /** Keys are non-decreasing from head to tail in an ascending queue and non-increasing in a
      descending one; other disciplines promise no order. */
  ghost predicate Sorted<T>(s: seq<T>, key: T -> int, kind: QueueKind)
  {
    && (IsAscending(kind) ==> forall i, j :: 0 <= i < j < |s| ==> key(s[i]) <= key(s[j]))
    && (IsDescending(kind) ==> forall i, j :: 0 <= i < j < |s| ==> key(s[i]) >= key(s[j]))
  }

  /** Adding an item adds exactly that item: the queue is a permutation of the old one plus `x`. */
  lemma EnqueuedContents<T>(s: seq<T>, x: T, kind: QueueKind, key: T -> int)
    requires kind != SrswFifo
    ensures |Enqueued(s, x, kind, key)| == |s| + 1
    ensures multiset(Enqueued(s, x, kind, key)) == multiset(s) + multiset{x}
  {
    if s != [] && IsPriority(kind) {
      var i := InsertPos(s, key, kind, key(x));
      assert s == s[..i] + s[i..];
    }
  }

  /** The items of a queue after adding `x` are the old items and `x`. */
  lemma EnqueuedMembers<T>(s: seq<T>, x: T, kind: QueueKind, key: T -> int)
    requires kind != SrswFifo
    ensures forall y :: y in Enqueued(s, x, kind, key) <==> y in s || y == x
  {
    EnqueuedContents(s, x, kind, key);
    forall y ensures y in Enqueued(s, x, kind, key) <==> y in multiset(s) + multiset{x} {
      assert y in Enqueued(s, x, kind, key) <==> y in multiset(Enqueued(s, x, kind, key));
    }
  }

  /** The old items keep their relative order: removing `x` again gives back the old queue. */
  lemma EnqueuedKeepsOrder<T>(s: seq<T>, x: T, kind: QueueKind, key: T -> int)
    requires kind != SrswFifo
    ensures var t := Enqueued(s, x, kind, key);
      exists i :: 0 <= i < |t| && t[i] == x && RemoveAt(t, i) == s
  {
    var t := Enqueued(s, x, kind, key);
    if s == [] {
      assert RemoveAt(t, 0) == s;
    } else if kind == Fifo {
      assert RemoveAt(t, |s|) == s;
    } else if kind == Lifo {
      assert RemoveAt(t, 0) == s;
    } else {
      var i := InsertPos(s, key, kind, key(x));
      assert t[i] == x;
      assert RemoveAt(t, i) == s[..i] + s[i..] == s;
    }
  }

  /** In a sorted priority queue the new item lands after every item whose key is not worse
      than its own and before every item whose key is worse; in particular it lands after every
      item with an equal key, so equal keys leave in the order they were sent. */
  lemma {:induction false} EnqueuedPlacement<T>(s: seq<T>, x: T, kind: QueueKind, key: T -> int)
    requires IsPriority(kind) && Sorted(s, key, kind)
    ensures var i := InsertPos(s, key, kind, key(x));
      && Enqueued(s, x, kind, key) == s[..i] + [x] + s[i..]
      && (forall j :: 0 <= j < i ==> !GoesBefore(kind, key(x), key(s[j])))
      && (forall j :: i <= j < |s| ==> GoesBefore(kind, key(x), key(s[j])))
      && (forall j :: 0 <= j < |s| && key(s[j]) == key(x) ==> j < i)
  {
    var i := InsertPos(s, key, kind, key(x));
    forall j | i <= j < |s| ensures GoesBefore(kind, key(x), key(s[j])) {
      assert key(s[i]) <= key(s[j]) || key(s[i]) >= key(s[j]);
    }
  }

  /** Adding an item keeps a priority queue sorted. */
  lemma EnqueuedSorted<T>(s: seq<T>, x: T, kind: QueueKind, key: T -> int)
    requires kind != SrswFifo && Sorted(s, key, kind)
    ensures Sorted(Enqueued(s, x, kind, key), key, kind)
  {
    if s != [] && IsPriority(kind) {
      EnqueuedPlacement(s, x, kind, key);
      var i := InsertPos(s, key, kind, key(x));
      var t := Enqueued(s, x, kind, key);
      assert t == s[..i] + [x] + s[i..];
      if IsAscending(kind) {
        forall a, b | 0 <= a < b < |t| ensures key(t[a]) <= key(t[b]) {
          SortedPair(s, x, i, a, b, key, kind);
        }
      } else {
        forall a, b | 0 <= a < b < |t| ensures key(t[a]) >= key(t[b]) {
          SortedPair(s, x, i, a, b, key, kind);
        }
      }
    }
  }

  /** One pair of positions of a sorted queue after `x` is inserted at `i`. */
  lemma SortedPair<T>(s: seq<T>, x: T, i: nat, a: nat, b: nat, key: T -> int, kind: QueueKind)
    requires IsPriority(kind) && Sorted(s, key, kind) && i <= |s|
    requires forall j :: 0 <= j < i ==> !GoesBefore(kind, key(x), key(s[j]))
    requires forall j :: i <= j < |s| ==> GoesBefore(kind, key(x), key(s[j]))
    requires a < b <= |s|
    ensures var t := s[..i] + [x] + s[i..];
      && (IsAscending(kind) ==> key(t[a]) <= key(t[b]))
      && (IsDescending(kind) ==> key(t[a]) >= key(t[b]))
  {
    var t := s[..i] + [x] + s[i..];
    assert t[a] == if a < i then s[a] else if a == i then x else s[a - 1];
    assert t[b] == if b < i then s[b] else if b == i then x else s[b - 1];
  }

  /** Removing the element at `i` takes exactly that element out of the sequence's multiset. */
  lemma RemoveAtContents<T>(s: seq<T>, i: nat)
    requires i < |s|
    ensures multiset(RemoveAt(s, i)) == multiset(s) - multiset{s[i]}
  {
    assert s == s[..i] + [s[i]] + s[i + 1..];
  }

  /** Removing an item leaves only items that were there. */
  lemma RemoveAtMembers<T>(s: seq<T>, i: nat)
    requires i < |s|
    ensures forall y :: y in RemoveAt(s, i) ==> y in s
  {
  }

  /** Removing any item keeps a priority queue sorted. */
  lemma RemoveAtSorted<T>(s: seq<T>, i: nat, key: T -> int, kind: QueueKind)
    requires i < |s| && Sorted(s, key, kind)
    ensures Sorted(RemoveAt(s, i), key, kind)
  {
    var t := RemoveAt(s, i);
    assert forall a :: 0 <= a < |t| ==> t[a] == if a < i then s[a] else s[a + 1];
  }

  /** The head of a sorted priority queue has the best key: the smallest in an ascending
      queue, the largest in a descending one. */
  lemma HeadIsBest<T>(s: seq<T>, key: T -> int, kind: QueueKind)
    requires IsPriority(kind) && Sorted(s, key, kind) && s != []
    ensures forall j :: 0 <= j < |s| ==> !GoesBefore(kind, key(s[j]), key(s[0]))
  {
    forall j | 0 < j < |s| ensures !GoesBefore(kind, key(s[j]), key(s[0])) {
      assert key(s[0]) <= key(s[j]) || key(s[0]) >= key(s[j]);
    }
  }

  /** A queue with a drop policy never holds more than its declared capacity after an
      insertion: it grows by one, and when it reaches the stored capacity it drops one. */
  lemma AddStaysBounded(len: nat, declared: nat, policy: DropPolicy)
    requires policy != DropNone && len <= declared
    ensures var cap := StoredCapacity(declared, policy);
      (if Overflows(len + 1, policy, cap) then len else len + 1) <= declared
  {
  }

  /** A FIFO queue that is full at its declared capacity: with drop-tail the message just
      sent is the one dropped and the queue is unchanged; with drop-head the oldest message is
      dropped and the new one is at the tail. */
  lemma FifoOverflow<T>(s: seq<T>, x: T, policy: DropPolicy, key: T -> int)
    requires policy != DropNone && s != []
    ensures var t := Enqueued(s, x, Fifo, key);
      var cap := StoredCapacity(|s|, policy);
      && Overflows(|t|, policy, cap)
      && (policy == DropTail ==> t[DropIndex(|t|, policy)] == x && RemoveAt(t, DropIndex(|t|, policy)) == s)
      && (policy == DropHead ==> t[DropIndex(|t|, policy)] == s[0] && RemoveAt(t, DropIndex(|t|, policy)) == s[1..] + [x])
  {
    var t := Enqueued(s, x, Fifo, key);
    assert RemoveAt(t, |t| - 1) == s;
    assert RemoveAt(t, 0) == s[1..] + [x];
  }

  /** A LIFO queue that is full at its declared capacity: drop-head drops the message just
      sent, drop-tail drops the oldest message. */
  lemma LifoOverflow<T>(s: seq<T>, x: T, policy: DropPolicy, key: T -> int)
    requires policy != DropNone && s != []
    ensures var t := Enqueued(s, x, Lifo, key);
      var cap := StoredCapacity(|s|, policy);
      && Overflows(|t|, policy, cap)
      && (policy == DropHead ==> t[DropIndex(|t|, policy)] == x && RemoveAt(t, DropIndex(|t|, policy)) == s)
      && (policy == DropTail ==> t[DropIndex(|t|, policy)] == s[|s| - 1]
                                 && RemoveAt(t, DropIndex(|t|, policy)) == [x] + s[..|s| - 1])
  {
    var t := Enqueued(s, x, Lifo, key);
    assert RemoveAt(t, 0) == s;
    assert RemoveAt(t, |t| - 1) == [x] + s[..|s| - 1];
  }

  // ---------------------------------------------------------------------------------------
  // Priority values read from a payload

  newtype byte = x: int | 0 <= x < 256

  /** The primitive types a priority field may have; queues that are not sorted by payload
      carry no type. */
  datatype DataType = Double | Single | Int8 | UInt8 | Int16 | UInt16 | Int32 | UInt32 | Boolean | NoDataType

  function Width(t: DataType): nat
  {
    match t
    case Double => 8
    case Single => 4
    case Int8 => 1
    case UInt8 => 1
    case Boolean => 1
    case Int16 => 2
    case UInt16 => 2
    case Int32 => 4
    case UInt32 => 4
    case NoDataType => 0
  }

  function Pow2(n: nat): nat
  {
    if n == 0 then 1 else 2 * Pow2(n - 1)
  }

  /** The unsigned value of bytes stored least significant first. */
  function LittleEndian(b: seq<byte>): nat
  {
    if b == [] then 0 else b[0] as nat + 256 * LittleEndian(b[1..])
  }

  lemma {:induction false} LittleEndianBound(b: seq<byte>)
    ensures LittleEndian(b) < Pow2(8 * |b|)
  {
    if b != [] {
      LittleEndianBound(b[1..]);
      assert Pow2(8 * |b|) == 256 * Pow2(8 * |b[1..]|) by {
        Pow2Add(8 * |b[1..]|, 8);
      }
    }
  }

  lemma {:induction false} Pow2Add(a: nat, b: nat)
    ensures Pow2(a + b) == Pow2(a) * Pow2(b)
  {
    if b > 0 {
      Pow2Add(a, b - 1);
    } else {
      assert Pow2(b) == 1;
    }
  }

  /** Two's complement reading of an unsigned value whose sign bit is worth `signBit`. */
  function Signed(u: nat, signBit: nat): int
  {
    if u >= signBit then u - 2 * signBit else u
  }

  /** An integer with the order of the IEEE-754 value whose bit pattern is `u`, for every
      pattern that is not a NaN, where the sign bit is worth `signBit`: the sign bit selects
      the sign, the remaining bits the magnitude, so that both zeros meet at 0. */
  function FloatOrderKey(u: nat, signBit: nat): int
  {
    if u >= signBit then -(u - signBit) else u
  }

  /** The priority value of a payload: the field of type `t` at byte `offset`, stored least
      significant byte first. A field that does not fit in the payload reads as 0; queues
      never configure one. */
  function PayloadValue(data: seq<byte>, offset: nat, t: DataType): int
  {
    if offset + Width(t) > |data| then 0
    else
      var u := LittleEndian(data[offset..offset + Width(t)]);
      match t
      case Double => FloatOrderKey(u, 0x8000_0000_0000_0000)
      case Single => FloatOrderKey(u, 0x8000_0000)
      case Int8 => Signed(u, 0x80)
      case Int16 => Signed(u, 0x8000)
      case Int32 => Signed(u, 0x8000_0000)
      case UInt8 => u
      case UInt16 => u
      case UInt32 => u
      case Boolean => u
      case NoDataType => 0
  }

  /** Integer fields read back within the range of their type. */
  lemma PayloadValueRange(data: seq<byte>, offset: nat, t: DataType)
    requires offset + Width(t) <= |data|
    ensures t == Int8 ==> -128 <= PayloadValue(data, offset, t) < 128
    ensures t == UInt8 || t == Boolean ==> 0 <= PayloadValue(data, offset, t) < 256
    ensures t == Int16 ==> -32768 <= PayloadValue(data, offset, t) < 32768
    ensures t == UInt16 ==> 0 <= PayloadValue(data, offset, t) < 65536
    ensures t == Int32 ==> -2147483648 <= PayloadValue(data, offset, t) < 2147483648
    ensures t == UInt32 ==> 0 <= PayloadValue(data, offset, t) < 4294967296
  {
    LittleEndianBound(data[offset..offset + Width(t)]);
    Pow2Values();
  }

  lemma Pow2Values()
    ensures Pow2(7) == 128 && Pow2(8) == 256
    ensures Pow2(15) == 32768 && Pow2(16) == 65536
    ensures Pow2(31) == 2147483648 && Pow2(32) == 4294967296
  {
    assert Pow2(8) == 256 && Pow2(7) == 128;
    Pow2Add(8, 8);
    Pow2Add(8, 7);
    Pow2Add(16, 16);
    Pow2Add(16, 15);
  }
}
