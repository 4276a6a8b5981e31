/** A ring buffer of bounded capacity that overruns its oldest item when full.  One slot stays free, to
    tell a full buffer from an empty one. */
module CircularQueue {
  /** The values of a `size_t`. */
  const SIZE_LIMIT := 0x1_0000_0000_0000_0000

  /** The last n items of a sequence, or all of a shorter one. */
  function LastN<T>(s: seq<T>, n: nat): seq<T> {
    if |s| <= n then s else s[|s| - n..]
  }

  /** Keeping the last n items after each push is keeping the last n of all items pushed. */
  lemma LastNPush<T>(s: seq<T>, x: T, n: nat)
    ensures LastN(LastN(s, n) + [x], n) == LastN(s + [x], n)
  {
    if |s| > n {
      assert s == s[..|s| - n] + LastN(s, n);
    }
  }

  /** A position within two turns of the ring. */
  function Turned(i: nat, n: nat): (r: nat)
    requires i < 2 * n
    ensures r == if i < n then i else i - n
  {
    i % n
  }

  /** The slots from `head` up to `tail`, round the end if need be. */
  function Ring<T>(slots: seq<T>, head: nat, tail: nat): seq<T>
    requires head <= |slots| && tail <= |slots|
  {
    if head <= tail then slots[head..tail] else slots[head..] + slots[..tail]
  }

  /** Filling the free slot appends the item; when that leaves no free slot, the first item gives way. */
  lemma RingPush<T>(slots: seq<T>, head: nat, tail: nat, item: T)
    requires head < |slots| && tail < |slots|
    ensures var before, after, next := Ring(slots, head, tail), slots[tail := item], Turned(tail + 1, |slots|);
            && (next == head <==> |before| == |slots| - 1)
            && (next != head ==> Ring(after, head, next) == before + [item])
            && (next == head ==> Ring(after, Turned(head + 1, |slots|), next) == (before + [item])[1..])
  {
    hide Turned;
    var after, next := slots[tail := item], Turned(tail + 1, |slots|);
    if next == head {
      var first := Turned(head + 1, |slots|);
      if head == 0 {
        assert Ring(after, first, next) == (Ring(slots, head, tail) + [item])[1..];
      } else {
        assert Ring(slots, head, tail) + [item] == slots[head..] + slots[..tail] + [item];
        assert Ring(after, first, next) == (Ring(slots, head, tail) + [item])[1..];
      }
    } else {
      assert Ring(after, head, next) == Ring(slots, head, tail) + [item];
    }
  }

  /** So the ring comes to hold the newest items up to its capacity, wherever its first item then is. */
  lemma RingPushLast<T>(slots: seq<T>, head: nat, tail: nat, item: T, first: nat)
    requires head < |slots| && tail < |slots|
    requires first == if Turned(tail + 1, |slots|) == head then Turned(head + 1, |slots|) else head
    ensures Ring(slots[tail := item], first, Turned(tail + 1, |slots|)) ==
            LastN(Ring(slots, head, tail) + [item], |slots| - 1)
    ensures Turned(tail + 1, |slots|) == head <==> |Ring(slots, head, tail)| == |slots| - 1
  {
    hide Turned;
    RingPush(slots, head, tail, item);
    RingShort(slots, head, tail);
  }

  lemma RingShort<T>(slots: seq<T>, head: nat, tail: nat)
    requires head < |slots| && tail < |slots|
    ensures |Ring(slots, head, tail)| < |slots|
  {
  }

  lemma RingNothing<T>(slots: seq<T>, item: T)
    requires slots == []
    ensures Ring(slots, 0, 0) == [] && LastN([item], 0) == []
  {
  }

  class CircularQueue<T(0)> {
    var maxItems: nat
    var head: nat
    var tail: nat
    var overrunCounter: nat
    var v: array<T>

    ghost predicate Valid()
      reads this
    {
      && v.Length == maxItems
      && (if maxItems == 0 then head == tail == 0 else head < maxItems && tail < maxItems)
    }

    /** What the queue holds, oldest first. */
    ghost function Contents(): seq<T>
      requires Valid()
      reads this, v
    {
      Ring(v[..], head, tail)
    }

    /** The most items held at once; none by a disabled queue. */
    ghost function Capacity(): nat
      reads this
    {
      if maxItems == 0 then 0 else maxItems - 1
    }

    /** A disabled queue. */
    constructor Disabled()
      ensures Valid() && maxItems == 0 && Contents() == [] && overrunCounter == 0 && fresh(v)
    {
      maxItems, head, tail, overrunCounter := 0, 0, 0, 0;
      v := new T[0];
    }

    /** One slot more than asked for; the largest `size_t` wraps round to a disabled queue. */
    constructor (n: nat)
      requires n < SIZE_LIMIT
      ensures Valid() && Contents() == [] && overrunCounter == 0 && fresh(v)
      ensures if n == SIZE_LIMIT - 1 then maxItems == 0 else maxItems > 0 && Capacity() == n
    {
      var size := (n + 1) % SIZE_LIMIT;
      maxItems, head, tail, overrunCounter := size, 0, 0, 0;
      v := new T[size];
    }

    /** Takes over another queue, which is left disabled. */
    constructor Moved(other: CircularQueue<T>)
      requires other.Valid()
      modifies other
      ensures Valid() && Contents() == old(other.Contents()) && maxItems == old(other.maxItems)
      ensures overrunCounter == old(other.overrunCounter)
      ensures other.Valid() && other.maxItems == 0 && other.Contents() == [] && other.overrunCounter == 0
    {
      maxItems, head, tail := other.maxItems, other.head, other.tail;
      overrunCounter, v := other.overrunCounter, other.v;
      new;
      other.v := new T[0];
      other.maxItems, other.head, other.tail, other.overrunCounter := 0, 0, 0, 0;
    }

    /** Appends an item; a full queue loses its oldest one, and counts that. */
    method PushBack(item: T)
      requires Valid()
      modifies this`head, this`tail, this`overrunCounter, v
      ensures Valid() && Contents() == LastN(old(Contents()) + [item], Capacity())
      ensures overrunCounter == old(overrunCounter) + if maxItems > 0 && |old(Contents())| == Capacity() then 1 else 0
    {
      hide Turned, Ring, LastN;
      if maxItems > 0 {
        ghost var first := if Turned(tail + 1, maxItems) == head then Turned(head + 1, maxItems) else head;
        RingPushLast(v[..], head, tail, item, first);
        ghost var slots := v[..][tail := item];
        v[tail] := item;
        assert v[..] == slots;
        tail := Turned(tail + 1, maxItems);
        if tail == head {
          head := Turned(head + 1, maxItems);
          overrunCounter := overrunCounter + 1;
        }
      } else {
        RingNothing(v[..], item);
        assert Contents() + [item] == [item];
      }
    }

    method PopFront()
      requires Valid() && !Empty()
      modifies this`head
      ensures Valid() && Contents() == old(Contents())[1..]
    {
      hide Turned;
      head := Turned(head + 1, maxItems);
    }

    function Front(): (item: T)
      requires Valid() && !Empty()
      reads this, v
      ensures item == Contents()[0]
    {
      v[head]
    }

    function Size(): (size: nat)
      requires Valid()
      reads this, v
      ensures size == |Contents()| <= Capacity()
    {
      if tail >= head then tail - head else maxItems - (head - tail)
    }

    function At(i: nat): (item: T)
      requires Valid() && i < Size()
      reads this, v
      ensures item == Contents()[i]
    {
      hide Turned;
      v[Turned(head + i, maxItems)]
    }

    predicate Empty()
      requires Valid()
      reads this, v
      ensures Empty() <==> Contents() == []
    {
      tail == head
    }

    /** A disabled queue is never full; one of capacity 0 always is. */
    predicate Full()
      requires Valid()
      reads this, v
      ensures Full() <==> maxItems > 0 && |Contents()| == Capacity()
    {
      hide Turned;
      maxItems > 0 && Turned(tail + 1, maxItems) == head
    }

    method ResetOverrunCounter()
      modifies this`overrunCounter
      ensures overrunCounter == 0
    {
      overrunCounter := 0;
    }
  }
}
