/** The blocking queue between loggers and workers.  Every operation runs under the queue's lock and is
    one atomic step; waiting for room or for an item is a precondition. */
module BlockingQueue {
  import opened CircularQueue

  /** The items whose mark is true. */
  function Picked<T>(items: seq<T>, marks: seq<bool>): seq<T>
    requires |items| == |marks|
  {
    if items == [] then []
    else
      var n := |items| - 1;
      Picked(items[..n], marks[..n]) + if marks[n] then [items[n]] else []
  }

  function CountFalse(marks: seq<bool>): nat {
    if marks == [] then 0 else CountFalse(marks[..|marks| - 1]) + if marks[|marks| - 1] then 0 else 1
  }

  lemma {:induction false} PickedOrNot<T>(items: seq<T>, marks: seq<bool>)
    requires |items| == |marks|
    ensures |Picked(items, marks)| + CountFalse(marks) == |items|
  {
    if items == [] {
    } else {
      PickedOrNot(items[..|items| - 1], marks[..|items| - 1]);
    }
  }

  /** A queue with its history: the items that entered it, and for those that left, in order, whether
      they were dequeued or overrun. */
  datatype Queue<T> = Queue(
    enabled: bool, capacity: nat, posted: nat, accepted: seq<T>, fates: seq<bool>, discarded: nat, lost: nat)
  {
    predicate Valid() {
      && |fates| <= |accepted| <= |fates| + capacity
      && posted == |accepted| + discarded + lost
      && (if enabled then lost == 0 else capacity == 0 && accepted == [])
    }

    function Items(): seq<T>
      requires Valid()
    {
      accepted[|fates|..]
    }

    function Dequeued(): seq<T>
      requires Valid()
    {
      Picked(accepted[..|fates|], fates)
    }

    predicate Full()
      requires Valid()
    {
      enabled && |Items()| == capacity
    }

    /** An item enters; a full queue overruns its oldest item, and a disabled one loses the new one. */
    function Push(item: T): Queue<T>
      requires Valid()
    {
      if !enabled then this.(posted := posted + 1, lost := lost + 1)
      else
        var after := this.(posted := posted + 1, accepted := accepted + [item]);
        if Full() then after.(fates := fates + [false]) else after
    }

    function Discard(): Queue<T> {
      this.(posted := posted + 1, discarded := discarded + 1)
    }

    function Pop(): Queue<T>
      requires Valid() && Items() != []
    {
      this.(fates := fates + [true])
    }

    /** What a push leaves in the queue is the newest of what it held and the new item. */
    lemma PushKeeps(item: T)
      requires Valid()
      ensures Push(item).Valid() && Push(item).Dequeued() == Dequeued()
      ensures Push(item).Items() == LastN(Items() + [item], capacity)
      ensures CountFalse(Push(item).fates) == CountFalse(fates) + if Full() then 1 else 0
    {
      var after := Push(item);
      if enabled {
        assert after.accepted[|fates|..] == Items() + [item];
        if Full() {
          assert after.fates[..|fates|] == fates;
          assert after.accepted[..|after.fates|][..|fates|] == accepted[..|fates|];
        } else {
          assert after.accepted[..|fates|] == accepted[..|fates|];
        }
      }
    }

    /** A pop takes the oldest item. */
    lemma PopKeeps()
      requires Valid() && Items() != []
      ensures Pop().Valid() && Pop().Items() == Items()[1..] && Pop().Dequeued() == Dequeued() + [Items()[0]]
      ensures CountFalse(Pop().fates) == CountFalse(fates)
    {
      var after := Pop();
      assert after.fates[..|fates|] == fates;
      assert accepted[..|after.fates|][..|fates|] == accepted[..|fates|];
    }

    /** Every item posted has been dequeued, is queued, was overrun, was discarded or was lost to a disabled
        queue. */
    lemma Conserved()
      requires Valid()
      ensures posted == |Dequeued()| + |Items()| + CountFalse(fates) + discarded + lost
      ensures enabled ==> lost == 0
    {
      PickedOrNot(accepted[..|fates|], fates);
    }
  }

  class BlockingQueue<T(0)> {
    const q: CircularQueue<T>
    var discardCounter: nat

    ghost var state: Queue<T>
    /** What the counters would read but for their resets. */
    ghost var forgottenOverruns: nat
    ghost var forgottenDiscards: nat

    ghost predicate Valid()
      reads this, q, q.v
    {
      && q.Valid() && state.Valid()
      && q.Contents() == state.Items() && q.Capacity() == state.capacity && (q.maxItems > 0) == state.enabled
      && q.overrunCounter + forgottenOverruns == CountFalse(state.fates)
      && discardCounter + forgottenDiscards == state.discarded
    }

    constructor (maxItems: nat)
      requires maxItems < SIZE_LIMIT
      ensures Valid() && fresh(q) && fresh(q.v) && forgottenOverruns == 0 && forgottenDiscards == 0
      ensures state.posted == 0 && state.accepted == []
      ensures state.fates == [] && state.discarded == state.lost == 0
      ensures if maxItems < SIZE_LIMIT - 1 then state.enabled && state.capacity == maxItems else !state.enabled
    {
      var ring := new CircularQueue<T>(maxItems);
      q, discardCounter := ring, 0;
      state := Queue(ring.maxItems > 0, ring.Capacity(), 0, [], [], 0, 0);
      forgottenOverruns, forgottenDiscards := 0, 0;
    }

    /** The items posted, against the items dequeued, those queued and the counters. */
    lemma Conservation()
      requires Valid()
      ensures state.posted == |state.Dequeued()| + |q.Contents()| + q.overrunCounter + discardCounter
                              + forgottenOverruns + forgottenDiscards + state.lost
      ensures q.maxItems > 0 ==> state.lost == 0
    {
      state.Conserved();
    }

    method Push(item: T)
      requires Valid()
      modifies this`state, q`head, q`tail, q`overrunCounter, q.v
      ensures Valid() && state == old(state).Push(item)
    {
      state.PushKeeps(item);
      q.PushBack(item);
      state := state.Push(item);
    }

    /** `enqueue`, once there is room. */
    method Enqueue(item: T)
      requires Valid() && !q.Full()
      modifies this`state, q`head, q`tail, q`overrunCounter, q.v
      ensures Valid() && state == old(state).Push(item) && CountFalse(state.fates) == CountFalse(old(state).fates)
    {
      state.PushKeeps(item);
      Push(item);
    }

    method EnqueueNowait(item: T)
      requires Valid()
      modifies this`state, q`head, q`tail, q`overrunCounter, q.v
      ensures Valid() && state == old(state).Push(item)
    {
      Push(item);
    }

    method EnqueueIfHaveRoom(item: T)
      requires Valid()
      modifies this`state, this`discardCounter, q`head, q`tail, q`overrunCounter, q.v
      ensures Valid() && state == if old(state).Full() then old(state).Discard() else old(state).Push(item)
    {
      var pushed := false;
      if !q.Full() {
        Push(item);
        pushed := true;
      }
      if !pushed {
        discardCounter := discardCounter + 1;
        state := state.Discard();
      }
    }

    /** `dequeue`, once there is an item. */
    method Dequeue() returns (item: T)
      requires Valid() && !q.Empty()
      modifies this`state, q`head
      ensures Valid() && state == old(state).Pop() && item == old(state).Items()[0]
    {
      state.PopKeeps();
      item := q.Front();
      q.PopFront();
      state := state.Pop();
    }

    /** `dequeue_for`, when it stops waiting. */
    method DequeueFor(timedOut: T) returns (ok: bool, item: T)
      requires Valid()
      modifies this`state, q`head
      ensures Valid() && ok == (old(state).Items() != [])
      ensures if ok then state == old(state).Pop() && item == old(state).Items()[0]
              else state == old(state) && item == timedOut
    {
      ok, item := !q.Empty(), timedOut;
      if ok {
        item := Dequeue();
      }
    }

    method ResetOverrunCounter()
      requires Valid()
      modifies this`forgottenOverruns, q`overrunCounter
      ensures Valid() && q.overrunCounter == 0
    {
      forgottenOverruns := forgottenOverruns + q.overrunCounter;
      q.ResetOverrunCounter();
    }

    method ResetDiscardCounter()
      requires Valid()
      modifies this`forgottenDiscards, this`discardCounter
      ensures Valid() && discardCounter == 0
    {
      forgottenDiscards := forgottenDiscards + discardCounter;
      discardCounter := 0;
    }
  }
}
