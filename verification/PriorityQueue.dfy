/** The queue of messages to publish: by priority number, lowest first, and by arrival among equals.  Each
    operation runs under the queue's lock and is one atomic step. */
module PriorityQueue {
  import Sequences

  datatype Item<T> = Item(content: T, priority: int)

  datatype Option<T> = Some(value: T) | None

  ghost predicate Sorted<T>(items: seq<Item<T>>) {
    forall i, j | 0 <= i < j < |items| :: items[i].priority <= items[j].priority
  }

  /** The contents of one priority, in order. */
  function OfPriority<T>(items: seq<Item<T>>, priority: int): seq<T> {
    if items == [] then []
    else
      var last := items[|items| - 1];
      OfPriority(items[..|items| - 1], priority) + if last.priority == priority then [last.content] else []
  }

  lemma {:induction false} OfPriorityConcat<T>(a: seq<Item<T>>, b: seq<Item<T>>, priority: int)
    ensures OfPriority(a + b, priority) == OfPriority(a, priority) + OfPriority(b, priority)
  {
    if b == [] {
      assert a + b == a;
    } else {
      assert (a + b)[..|a + b| - 1] == a + b[..|b| - 1];
      OfPriorityConcat(a, b[..|b| - 1], priority);
    }
  }

  /** Nothing of a priority is left once all priorities are greater. */
  lemma {:induction false} NoneOfPriority<T>(items: seq<Item<T>>, priority: int)
    requires forall i | 0 <= i < |items| :: items[i].priority != priority
    ensures OfPriority(items, priority) == []
  {
    if items == [] {
    } else {
      NoneOfPriority(items[..|items| - 1], priority);
    }
  }

  /** Where `put` inserts: after everything of its priority or a lower one, before everything of a higher. */
  ghost predicate Place<T>(items: seq<Item<T>>, at: nat, priority: int) {
    && at <= |items|
    && (forall i | 0 <= i < at :: items[i].priority <= priority)
    && (forall i | at <= i < |items| :: priority < items[i].priority)
  }

  lemma InsertSorted<T>(items: seq<Item<T>>, at: nat, item: Item<T>)
    requires Sorted(items) && Place(items, at, item.priority)
    ensures Sorted(items[..at] + [item] + items[at..])
  {
  }

  lemma InsertLast<T>(items: seq<Item<T>>, at: nat, item: Item<T>, p: int)
    requires Place(items, at, item.priority)
    ensures OfPriority(items[..at] + [item] + items[at..], p) ==
            OfPriority(items, p) + if p == item.priority then [item.content] else []
  {
    assert items == items[..at] + items[at..];
    OfPriorityConcat(items[..at], items[at..], p);
    OfPriorityConcat(items[..at], [item], p);
    OfPriorityConcat(items[..at] + [item], items[at..], p);
    if p == item.priority {
      NoneOfPriority(items[at..], p);
    }
  }

  /** Any contents of the lowest priority come off the front in order. */
  lemma FrontKeeps<T>(items: seq<Item<T>>, p: int)
    requires items != [] && Sorted(items)
    ensures OfPriority(items, p) ==
            (if p == items[0].priority then [items[0].content] else []) + OfPriority(items[1..], p)
    ensures p < items[0].priority ==> OfPriority(items, p) == []
  {
    assert items == [items[0]] + items[1..];
    OfPriorityConcat([items[0]], items[1..], p);
    if p < items[0].priority {
      NoneOfPriority(items, p);
    }
  }

  /** What was accepted is what was delivered and what is queued. */
  ghost predicate Conserved<T>(accepted: seq<Item<T>>, delivered: seq<Item<T>>, queue: seq<Item<T>>) {
    multiset(accepted) == multiset(delivered) + multiset(queue)
  }

  /** For each priority, what was accepted is what was delivered and then what is queued. */
  ghost predicate Accounted<T>(accepted: seq<Item<T>>, delivered: seq<Item<T>>, queue: seq<Item<T>>) {
    forall p :: OfPriority(accepted, p) == OfPriority(delivered, p) + OfPriority(queue, p)
  }

  lemma PutAccounted<T>(accepted: seq<Item<T>>, delivered: seq<Item<T>>, queue: seq<Item<T>>, at: nat, item: Item<T>)
    requires Accounted(accepted, delivered, queue) && Place(queue, at, item.priority)
    ensures Accounted(accepted + [item], delivered, queue[..at] + [item] + queue[at..])
  {
    forall p
      ensures OfPriority(accepted + [item], p) ==
              OfPriority(delivered, p) + OfPriority(queue[..at] + [item] + queue[at..], p)
    {
      InsertLast(queue, at, item, p);
      OfPriorityConcat(accepted, [item], p);
    }
  }

  lemma PutConserved<T>(accepted: seq<Item<T>>, delivered: seq<Item<T>>, queue: seq<Item<T>>, at: nat, item: Item<T>)
    requires Conserved(accepted, delivered, queue) && at <= |queue|
    ensures Conserved(accepted + [item], delivered, queue[..at] + [item] + queue[at..])
  {
    assert queue == queue[..at] + queue[at..];
  }

  lemma GetConserved<T>(accepted: seq<Item<T>>, delivered: seq<Item<T>>, queue: seq<Item<T>>)
    requires Conserved(accepted, delivered, queue) && queue != []
    ensures Conserved(accepted, delivered + [queue[0]], queue[1..])
  {
    assert queue == [queue[0]] + queue[1..];
  }

  lemma GetAccounted<T>(accepted: seq<Item<T>>, delivered: seq<Item<T>>, queue: seq<Item<T>>)
    requires Accounted(accepted, delivered, queue) && Sorted(queue) && queue != []
    ensures Accounted(accepted, delivered + [queue[0]], queue[1..])
  {
    forall p
      ensures OfPriority(accepted, p) == OfPriority(delivered + [queue[0]], p) + OfPriority(queue[1..], p)
    {
      FrontKeeps(queue, p);
      OfPriorityConcat(delivered, [queue[0]], p);
    }
  }

  class PriorityQueue<T> {
    var queue: seq<Item<T>>
    var unavailable: bool

    /** Everything accepted and everything delivered so far, in order. */
    ghost var accepted: seq<Item<T>>
    ghost var delivered: seq<Item<T>>

    ghost predicate Valid()
      reads this
    {
      Sorted(queue) && Conserved(accepted, delivered, queue) && Accounted(accepted, delivered, queue)
    }

    constructor ()
      ensures Valid() && !unavailable && queue == [] && accepted == [] && delivered == []
    {
      queue, unavailable, accepted, delivered := [], false, [], [];
    }

    method FindPlace(priority: int) returns (i: nat)
      requires Sorted(queue)
      ensures i <= |queue| && Place(queue, i, priority)
    {
      i := 0;
      while i < |queue| && priority >= queue[i].priority
        invariant 0 <= i <= |queue|
        invariant forall j | 0 <= j < i :: queue[j].priority <= priority
      {
        i := i + 1;
      }
    }

    /** Accepts an item unless stopped. */
    method Put(content: T, priority: int)
      requires Valid()
      modifies this`queue, this`accepted
      ensures Valid() && accepted == if unavailable then old(accepted) else old(accepted) + [Item(content, priority)]
      ensures unavailable ==> queue == old(queue)
      ensures multiset(queue) == if unavailable then multiset(old(queue))
                                 else multiset(old(queue)) + multiset{Item(content, priority)}
    {
      if unavailable {
        return;
      }
      hide Accounted, Conserved, Sorted, Place;
      var item := Item(content, priority);
      var i := FindPlace(priority);
      InsertSorted(queue, i, item);
      PutConserved(accepted, delivered, queue, i, item);
      PutAccounted(accepted, delivered, queue, i, item);
      Sequences.InsertedMultiset(queue, i, item);
      queue := queue[..i] + [item] + queue[i..];
      accepted := accepted + [item];
    }

    /** Once there is an item or the queue is stopped: the oldest item of the lowest priority number, or
        nothing when stopped. */
    method Get() returns (r: Option<T>)
      requires Valid() && (queue != [] || unavailable)
      modifies this`queue, this`delivered
      ensures Valid()
      ensures unavailable ==> r == None && queue == old(queue) && delivered == old(delivered)
      ensures !unavailable ==>
                && r == Some(old(queue)[0].content) && queue == old(queue)[1..]
                && delivered == old(delivered) + [old(queue)[0]]
                && (forall item | item in old(queue) :: old(queue)[0].priority <= item.priority)
                && var p := old(queue)[0].priority;
                   OfPriority(accepted, p)[|OfPriority(old(delivered), p)|] == r.value
    {
      if unavailable {
        return None;
      }
      var item := queue[0];
      GetConserved(accepted, delivered, queue);
      GetAccounted(accepted, delivered, queue);
      FrontKeeps(queue, item.priority);
      queue := queue[1..];
      delivered := delivered + [item];
      r := Some(item.content);
    }

    /** Nothing is accepted or delivered any more. */
    method Stop()
      requires Valid()
      modifies this`unavailable
      ensures Valid() && unavailable
    {
      unavailable := true;
    }

    method Size() returns (size: nat)
      ensures size == |queue|
    {
      size := |queue|;
    }
  }
}
