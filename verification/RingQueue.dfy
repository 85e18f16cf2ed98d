/** The queue of idf_compat/src/freertos_queue.c. */
module RingQueue {
  // A ring of fixed-size items in one buffer. The lock makes each call one step; a wait that
  // runs out is the answer "full" or "empty". A semaphore is a queue whose items have no
  // bytes.

  import opened Prelude

  /** The slot `i` places after `head`. */
  function Slot(head: nat, i: nat, length: nat): (k: nat)
    requires head < length && i <= length
    ensures k < length
  {
    if head + i < length then head + i else head + i - length
  }

  lemma SlotIsMod(x: nat, length: nat)
    requires 0 < length && x < 2 * length
    ensures x % length == if x < length then x else x - length
  {
    if x < length { DivUnique(x, length, 0, x); } else { DivUnique(x, length, 1, x - length); }
  }

  /** The queued items, oldest first. */
  function Items(bytes: seq<byte>, head: nat, count: nat, length: nat, size: nat): (r: seq<seq<byte>>)
    requires head < length && count <= length && |bytes| == length * size
    ensures |r| == count
    ensures forall i | 0 <= i < count :: r[i] == Item(bytes, Slot(head, i, length), length, size)
  {
    seq(count, i requires 0 <= i < count => Item(bytes, Slot(head, i, length), length, size))
  }

  /** Different places after the head are different slots. */
  lemma SlotsDiffer(head: nat, i: nat, j: nat, length: nat)
    requires head < length && i <= length && j <= length && i != j && (i < length || j > 0) && (j < length || i > 0)
    ensures Slot(head, i, length) != Slot(head, j, length)
  {
  }

  lemma SendBack(bytes: seq<byte>, head: nat, count: nat, length: nat, size: nat, item: seq<byte>)
    requires head < length && count < length && |bytes| == length * size && |item| == size
    ensures var k := Slot(head, count, length);
            && k * size + size <= |bytes|
            && Items(Splice(bytes, k * size, item), head, count + 1, length, size) == Items(bytes, head, count, length, size) + [item]
  {
    var k := Slot(head, count, length);
    SlotFits(k, length, size);
    var after, before := Items(Splice(bytes, k * size, item), head, count + 1, length, size), Items(bytes, head, count, length, size);
    forall i | 0 <= i <= count ensures after[i] == (before + [item])[i] {
      WriteItem(bytes, k, Slot(head, i, length), length, size, item);
      if i < count { SlotsDiffer(head, i, count, length); }
    }
  }

  lemma SendFront(bytes: seq<byte>, head: nat, count: nat, length: nat, size: nat, item: seq<byte>)
    requires head < length && count < length && |bytes| == length * size && |item| == size
    ensures var k := Slot(head, length - 1, length);
            && k * size + size <= |bytes|
            && Items(Splice(bytes, k * size, item), k, count + 1, length, size) == [item] + Items(bytes, head, count, length, size)
  {
    var k := Slot(head, length - 1, length);
    SlotFits(k, length, size);
    var after, before := Items(Splice(bytes, k * size, item), k, count + 1, length, size), Items(bytes, head, count, length, size);
    forall i | 0 <= i <= count ensures after[i] == ([item] + before)[i] {
      WriteItem(bytes, k, Slot(k, i, length), length, size, item);
      if i > 0 {
        assert Slot(k, i, length) == Slot(head, i - 1, length) != k;
      }
    }
  }

  lemma TakeFront(bytes: seq<byte>, head: nat, count: nat, length: nat, size: nat)
    requires head < length && 0 < count <= length && |bytes| == length * size
    ensures var items := Items(bytes, head, count, length, size);
            && items[0] == Item(bytes, head, length, size)
            && Items(bytes, Slot(head, 1, length), count - 1, length, size) == items[1..]
  {
    var items, rest := Items(bytes, head, count, length, size), Items(bytes, Slot(head, 1, length), count - 1, length, size);
    forall i | 0 <= i < count - 1 ensures rest[i] == items[1..][i] {
      assert Slot(Slot(head, 1, length), i, length) == Slot(head, i + 1, length);
    }
  }

  class Queue {
    const itemSize: nat
    const length: nat
    const storage: array<byte>
    var count: nat
    var head: nat

    ghost predicate Valid()
      reads this
    {
      head < length && count <= length && storage.Length == length * itemSize
    }

    ghost function Contents(): (r: seq<seq<byte>>)
      reads this, storage
      requires Valid()
    {
      Items(storage[..], head, count, length, itemSize)
    }

    /** `xQueueCreate`; a queue of length 0 gets one slot. */
    constructor (queueLength: nat, itemSize: nat)
      ensures Valid() && fresh(storage) && Contents() == []
      ensures length == (if queueLength > 0 then queueLength else 1) && this.itemSize == itemSize
    {
      var n := if queueLength > 0 then queueLength else 1;
      this.itemSize, length, count, head := itemSize, n, 0, 0;
      storage := new byte[n * itemSize](_ => 0);
    }

    method CopyIn(at: nat, item: seq<byte>)
      requires at + |item| <= storage.Length
      modifies storage
      ensures storage[..] == Splice(old(storage[..]), at, item)
    {
      forall i | 0 <= i < |item| { storage[at + i] := item[i]; }
      assert storage[..] == Splice(old(storage[..]), at, item);
    }

    /** The index arithmetic of the ring, modulo its length. */
    method Ahead(i: nat) returns (k: nat)
      requires Valid() && i <= length
      ensures k == Slot(head, i, length)
    {
      SlotIsMod(head + i, length);
      k := (head + i) % length;
    }

    /** The bytes of an item put in front, where the head moves to. */
    method PutFront(item: seq<byte>)
      requires Valid() && |item| == itemSize && count < length
      modifies this`head, storage
      ensures Valid()
      ensures Items(storage[..], head, count + 1, length, itemSize) == [item] + old(Contents())
    {
      hide Items, Slot, Splice;
      SendFront(storage[..], head, count, length, itemSize, item);
      var front := Ahead(length - 1);
      CopyIn(front * itemSize, item);
      head := front;
    }

    /** The bytes of an item put behind the last one. */
    method PutBack(item: seq<byte>)
      requires Valid() && |item| == itemSize && count < length
      modifies storage
      ensures Valid()
      ensures Items(storage[..], head, count + 1, length, itemSize) == old(Contents()) + [item]
    {
      hide Items, Slot, Splice;
      SendBack(storage[..], head, count, length, itemSize, item);
      var tail := Ahead(count);
      CopyIn(tail * itemSize, item);
    }

    /** `xQueueGenericSend` */
    method Send(item: seq<byte>, toFront: bool) returns (ok: bool)
      requires Valid() && |item| == itemSize
      modifies this`head, this`count, storage
      ensures Valid() && ok == (|old(Contents())| < length)
      ensures Contents() == if !ok then old(Contents()) else if toFront then [item] + old(Contents()) else old(Contents()) + [item]
    {
      hide Items;
      if count == length { return false; }
      if itemSize > 0 {
        if toFront { PutFront(item); } else { PutBack(item); }
      } else {
        EmptyItems(storage[..], head, count, length, item);
      }
      count := count + 1;
      return true;
    }

    /** `queue_recv`: the oldest item, removed unless only peeked at. */
    method Receive(peek: bool) returns (ok: bool, item: seq<byte>)
      requires Valid()
      modifies this`head, this`count
      ensures Valid() && ok == (old(Contents()) != [])
      ensures ok ==> item == old(Contents())[0]
      ensures Contents() == if ok && !peek then old(Contents())[1..] else old(Contents())
    {
      hide Items, Slot, Item;
      item := [];
      if count == 0 { return false, item; }
      TakeFront(storage[..], head, count, length, itemSize);
      item := CopyOut();
      if !peek {
        head := Ahead(1);
        count := count - 1;
      }
      ok := true;
    }

    method CopyOut() returns (item: seq<byte>)
      requires Valid()
      ensures item == Item(storage[..], head, length, itemSize)
    {
      SlotFits(head, length, itemSize);
      item := storage[head * itemSize..head * itemSize + itemSize];
      assert item == storage[..][head * itemSize..head * itemSize + itemSize];
    }

    /** `xQueueReset` */
    method Reset()
      requires Valid()
      modifies this`head, this`count
      ensures Valid() && Contents() == []
    {
      count, head := 0, 0;
    }
  }

  /** Items without bytes are all alike, so a semaphore only counts. */
  lemma EmptyItems(bytes: seq<byte>, head: nat, count: nat, length: nat, item: seq<byte>)
    requires head < length && count < length && |bytes| == length * 0 && |item| == 0
    ensures Items(bytes, head, count + 1, length, 0) == Items(bytes, head, count, length, 0) + [item]
    ensures Items(bytes, head, count + 1, length, 0) == [item] + Items(bytes, head, count, length, 0)
  {
    var more, fewer := Items(bytes, head, count + 1, length, 0), Items(bytes, head, count, length, 0);
    assert forall i | 0 <= i <= count :: more[i] == item;
    assert forall i | 0 <= i < count :: fewer[i] == item;
  }
}
