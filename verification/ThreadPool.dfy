/** The pool of workers that drain the log queue, and its shutdown. */
module ThreadPool {
  import opened CircularQueue
  import opened BlockingQueue
  import opened Results
  import Sequences

  datatype Message = Log(content: string) | Flush | Terminate

  datatype Policy = Block | OverrunOldest | DiscardNew

  datatype Action =
    | Post(message: Message, policy: Policy)
    | Stop
    | PostTerminate
    | Process(worker: nat)

  const MAX_THREADS := 1000

  /** The pool: its queue, the workers still in their loop, and the terminate messages that the
      destructor has yet to post. */
  datatype Pool = Pool(queue: Queue<Message>, threads: nat, live: set<nat>, stopping: bool, unposted: nat)
  {
    ghost predicate Valid() {
      && queue.Valid()
      && 1 <= threads <= MAX_THREADS && unposted <= threads
      && (!stopping ==> unposted == threads && Terminate !in queue.Items())
      && (queue.enabled ==> |live| == Terminates(queue.Items()) + unposted)
      && (!queue.enabled ==> |live| == threads)
      && (|live| < threads ==> AllTerminate(queue.Items())) && TerminatesLast(queue.Items())
    }

    /** What each action waits for.  The owner posts no message once it destroys the pool. */
    predicate Enabled(a: Action)
      requires queue.Valid()
    {
      match a
      case Post(m, policy) => !stopping && m != Terminate && (policy == Block ==> !queue.Full())
      case Stop => !stopping
      case PostTerminate => stopping && unposted > 0 && !queue.Full()
      case Process(worker) => worker in live && queue.Items() != []
    }

    function Posted(m: Message, policy: Policy): Queue<Message>
      requires queue.Valid()
    {
      if policy == DiscardNew && queue.Full() then queue.Discard() else queue.Push(m)
    }

    function Step(a: Action): Pool
      requires queue.Valid() && Enabled(a)
    {
      match a
      case Post(m, policy) => this.(queue := Posted(m, policy))
      case Stop => this.(stopping := true)
      case PostTerminate => this.(queue := queue.Push(Terminate), unposted := unposted - 1)
      case Process(worker) =>
        this.(queue := queue.Pop(), live := if queue.Items()[0] == Terminate then live - {worker} else live)
    }

    /** With room a message is queued last, whatever the policy.  On a full queue the policies differ: the
        oldest message gives way to it, or the queue stays as it is and the message is counted as discarded. */
    lemma PolicyDecides(m: Message, policy: Policy)
      requires queue.Valid() && queue.enabled && queue.capacity >= 1 && (policy == Block ==> !queue.Full())
      ensures Posted(m, policy).Valid()
      ensures var items, after := queue.Items(), Posted(m, policy);
              if !queue.Full() then
                && after.Items() == items + [m]
                && CountFalse(after.fates) == CountFalse(queue.fates) && after.discarded == queue.discarded
              else if policy == OverrunOldest then
                && after.Items() == items[1..] + [m]
                && CountFalse(after.fates) == CountFalse(queue.fates) + 1 && after.discarded == queue.discarded
              else
                && after.Items() == items && after.accepted == queue.accepted
                && after.fates == queue.fates && after.discarded == queue.discarded + 1
    {
      queue.PushKeeps(m);
      if queue.Items() != [] {
        assert (queue.Items() + [m])[1..] == queue.Items()[1..] + [m];
      }
    }

    /** The destructor has joined every worker. */
    predicate Done() {
      unposted == 0 && live == {}
    }

    /** An upper bound on the steps that a shutdown still takes. */
    function Remaining(): nat
      requires queue.Valid()
    {
      2 * unposted + |queue.Items()|
    }

    lemma StepKeeps(a: Action)
      requires Valid() && Enabled(a)
      ensures Step(a).Valid()
      ensures Step(a).threads == threads && Step(a).queue.capacity == queue.capacity
      ensures Step(a).queue.enabled == queue.enabled
    {
      match a
      case Post(m, policy) =>
        if Posted(m, policy) == queue.Push(m) {
          queue.PushKeeps(m);
          PushItems(queue.Items(), m, queue.capacity);
        }
      case Stop =>
      case PostTerminate =>
        queue.PushKeeps(Terminate);
        if queue.enabled {
          PushItems(queue.Items(), Terminate, queue.capacity);
        }
      case Process(worker) =>
        queue.PopKeeps();
        PopItems(queue.Items());
    }

    lemma AfterPostTerminate()
      requires Valid() && Enabled(PostTerminate)
      ensures unposted > 0 && !queue.Full() && Step(PostTerminate).Valid()
      ensures Step(PostTerminate) == Pool(Posted(Terminate, Block), threads, live, stopping, unposted - 1)
    {
      StepKeeps(PostTerminate);
    }

    /** The live workers for whom no terminate message is queued or yet to be posted. */
    function Surplus(): int
      requires queue.Valid()
    {
      |live| - Terminates(queue.Items()) - unposted
    }

    /** A pool that shuts down, with a queue that holds anything at all. */
    predicate Stopping() {
      stopping && queue.Valid() && queue.enabled && queue.capacity >= 1
    }

    /** Every step of a shutdown makes progress, and no step changes the surplus. */
    lemma StepProgresses(a: Action)
      requires Stopping() && Enabled(a)
      ensures Step(a).Stopping() && Step(a).Remaining() < Remaining() && Step(a).Surplus() == Surplus()
    {
      match a
      case PostTerminate =>
        queue.PushKeeps(Terminate);
      case Process(worker) =>
        queue.PopKeeps();
        assert queue.Items() == [queue.Items()[0]] + queue.Items()[1..];
    }

    lemma ValidSurplus()
      requires Valid() && stopping && queue.capacity >= 1
      ensures Stopping() && Surplus() == 0
    {
    }

    /** A shutdown never gets stuck: until it is done some worker is live, and there is something to do. */
    lemma NotStuck()
      requires Stopping() && Surplus() == 0 && !Done()
      ensures live != {} && (queue.Items() == [] ==> unposted > 0)
      ensures Enabled(PostTerminate) || exists worker :: Enabled(Process(worker))
    {
      if unposted == 0 || queue.Full() {
        var worker := Member(live);
        assert Enabled(Process(worker));
      }
    }

    /** A finished shutdown leaves nothing behind: every accepted message was dequeued, in order, unless it
        was overrun. */
    lemma DoneDrained()
      requires Valid() && Done() && queue.capacity >= 1
      ensures queue.Items() == [] && queue.Dequeued() == Picked(queue.accepted, queue.fates)
      ensures |queue.fates| == |queue.accepted|
    {
      assert queue.accepted[..|queue.fates|] == queue.accepted;
    }
  }

  function Terminates(items: seq<Message>): nat {
    multiset(items)[Terminate]
  }

  predicate AllTerminate(items: seq<Message>) {
    forall i | 0 <= i < |items| :: items[i] == Terminate
  }

  /** Nothing follows a terminate message but terminate messages. */
  predicate TerminatesLast(items: seq<Message>) {
    forall i, j | 0 <= i < j < |items| && items[i] == Terminate :: items[j] == Terminate
  }

  /** A push that overruns no terminate message. */
  lemma PushItems(items: seq<Message>, m: Message, capacity: nat)
    requires |items| <= capacity && TerminatesLast(items) && (m != Terminate ==> Terminate !in items)
    requires m == Terminate ==> |items| < capacity
    ensures var after := LastN(items + [m], capacity);
            && TerminatesLast(after) && Terminates(after) == Terminates(items) + (if m == Terminate then 1 else 0)
            && (m == Terminate && AllTerminate(items) ==> AllTerminate(after))
            && (m != Terminate ==> Terminate !in after)
  {
    if |items| == capacity {
      assert Terminates(items + [m]) == Terminates(items) == 0;
    }
  }

  lemma PopItems(items: seq<Message>)
    requires items != [] && TerminatesLast(items)
    ensures TerminatesLast(items[1..]) && (items[0] == Terminate ==> AllTerminate(items[1..]))
    ensures Terminates(items) == Terminates(items[1..]) + if items[0] == Terminate then 1 else 0
  {
    assert items == [items[0]] + items[1..];
  }

  function Workers(threads: nat): (workers: set<nat>)
    ensures |workers| == threads && forall i | i in workers :: i < threads
  {
    if threads == 0 then {} else Workers(threads - 1) + {threads - 1}
  }

  /** A pool just made. */
  function Started(enabled: bool, capacity: nat, threads: nat): Pool {
    Pool(Queue(enabled, capacity, 0, [], [], 0, 0), threads, Workers(threads), false, threads)
  }

  lemma StartedValid(enabled: bool, capacity: nat, threads: nat)
    requires 1 <= threads <= MAX_THREADS && (!enabled ==> capacity == 0)
    ensures Started(enabled, capacity, threads).Valid()
  {
  }

  // ----- Runs

  /** The actions can be taken one after the other. */
  ghost predicate Run(s: Pool, actions: seq<Action>, t: Pool)
    decreases |actions|
  {
    if actions == [] then s == t
    else s.queue.Valid() && s.Enabled(actions[0]) && Run(s.Step(actions[0]), actions[1..], t)
  }

  lemma {:induction false} RunKeeps(s: Pool, actions: seq<Action>, t: Pool)
    requires s.Valid() && Run(s, actions, t)
    ensures t.Valid() && t.threads == s.threads
    ensures t.queue.capacity == s.queue.capacity && t.queue.enabled == s.queue.enabled
    decreases |actions|
  {
    if actions == [] {
    } else {
      s.StepKeeps(actions[0]);
      RunKeeps(s.Step(actions[0]), actions[1..], t);
    }
  }

  /** However the steps of a shutdown are interleaved, there are only so many of them. */
  lemma {:induction false} ShutdownEnds(s: Pool, actions: seq<Action>, t: Pool)
    requires s.Stopping() && Run(s, actions, t)
    ensures t.Stopping() && |actions| + t.Remaining() <= s.Remaining() && t.Surplus() == s.Surplus()
    decreases |actions|
  {
    if actions == [] {
    } else {
      s.StepProgresses(actions[0]);
      ShutdownEnds(s.Step(actions[0]), actions[1..], t);
    }
  }

  /** A worker leaves its loop only by taking a terminate message out of the queue, which a queue of
      capacity 0 never holds: its shutdown never ends. */
  lemma {:induction false} NoCapacityNeverDone(s: Pool, actions: seq<Action>, t: Pool)
    requires s.Valid() && s.queue.capacity == 0 && Run(s, actions, t) && s.live != {}
    ensures t.live == s.live && !t.Done()
    decreases |actions|
  {
    if actions == [] {
    } else {
      s.StepKeeps(actions[0]);
      NoCapacityNeverDone(s.Step(actions[0]), actions[1..], t);
    }
  }

  ghost predicate Completes(s: Pool, actions: seq<Action>, t: Pool) {
    Run(s, actions, t) && t.Done()
  }

  /** From any state that a pool reaches while it shuts down, the shutdown can be completed exactly when
      its queue holds anything at all. */
  lemma ShutdownCompletes(enabled: bool, capacity: nat, threads: nat, actions: seq<Action>, s: Pool)
    requires 1 <= threads <= MAX_THREADS && (!enabled ==> capacity == 0)
    requires Run(Started(enabled, capacity, threads), actions, s) && s.stopping
    ensures (exists rest, t :: Completes(s, rest, t)) <==> capacity >= 1
  {
    var start := Started(enabled, capacity, threads);
    StartedValid(enabled, capacity, threads);
    RunKeeps(start, actions, s);
    if capacity >= 1 {
      var rest, t := Completion(s);
    } else {
      NoCapacityNeverDone(start, actions, s);
      if rest, t :| Completes(s, rest, t) {
        NoCapacityNeverDone(s, rest, t);
      }
    }
  }

  lemma Completion(s: Pool) returns (actions: seq<Action>, t: Pool)
    requires s.Stopping() && s.Surplus() == 0
    ensures Completes(s, actions, t)
    decreases s.Remaining()
  {
    if s.Done() {
      actions, t := [], s;
    } else {
      s.NotStuck();
      var a :| s.Enabled(a) && (a == PostTerminate || a.Process?);
      s.StepProgresses(a);
      var rest, end := Completion(s.Step(a));
      actions, t := [a] + rest, end;
      assert actions[1..] == rest;
    }
  }

  // ----- What is delivered

  /** The messages of a run's posts, in order. */
  function PostedBy(actions: seq<Action>): seq<Message> {
    if actions == [] then []
    else
      (match actions[0]
       case Post(m, _) => [m]
       case PostTerminate => [Terminate]
       case _ => [])
      + PostedBy(actions[1..])
  }

  ghost predicate AllBlock(actions: seq<Action>) {
    forall i | 0 <= i < |actions| && actions[i].Post? :: actions[i].policy == Block
  }

  lemma BlockingStep(s: Pool, a: Action)
    requires s.Valid() && s.queue.enabled && s.Enabled(a) && (a.Post? ==> a.policy == Block)
    ensures Gained(s, s.Step(a), PostedBy([a]))
  {
    match a
    case Post(m, _) => s.queue.PushKeeps(m);
    case PostTerminate => s.queue.PushKeeps(Terminate);
    case Process(_) => s.queue.PopKeeps();
    case Stop =>
  }

  /** From s to t the queue has accepted just these messages, and overrun none. */
  ghost predicate Gained(s: Pool, t: Pool, messages: seq<Message>) {
    t.queue.accepted == s.queue.accepted + messages && CountFalse(t.queue.fates) == CountFalse(s.queue.fates)
  }

  lemma GainedNothing(s: Pool)
    ensures Gained(s, s, PostedBy([]))
  {
  }

  lemma PostedFirst(actions: seq<Action>)
    requires actions != []
    ensures PostedBy(actions) == PostedBy([actions[0]]) + PostedBy(actions[1..])
  {
  }

  lemma GainedFirst(s: Pool, next: Pool, t: Pool, actions: seq<Action>)
    requires actions != [] && Gained(s, next, PostedBy([actions[0]])) && Gained(next, t, PostedBy(actions[1..]))
    ensures Gained(s, t, PostedBy(actions))
  {
    hide PostedBy, CountFalse;
    PostedFirst(actions);
    Sequences.Associative(s.queue.accepted, PostedBy([actions[0]]), PostedBy(actions[1..]));
  }

  /** Posts that wait for room are all accepted, and none is overrun. */
  lemma {:induction false} BlockingKeepsAll(s: Pool, actions: seq<Action>, t: Pool)
    requires s.Valid() && s.queue.enabled && Run(s, actions, t) && AllBlock(actions)
    ensures Gained(s, t, PostedBy(actions))
    decreases |actions|
  {
    hide Gained, PostedBy, Pool.Valid, Pool.Step, Pool.Enabled;
    if actions == [] {
      GainedNothing(s);
    } else {
      var next := s.Step(actions[0]);
      s.StepKeeps(actions[0]);
      BlockingStep(s, actions[0]);
      BlockingKeepsAll(next, actions[1..], t);
      GainedFirst(s, next, t, actions);
    }
  }

  lemma {:induction false} PickedAll<T>(items: seq<T>, marks: seq<bool>)
    requires |items| == |marks| && CountFalse(marks) == 0
    ensures Picked(items, marks) == items
  {
    if items == [] {
    } else {
      var n := |items| - 1;
      PickedAll(items[..n], marks[..n]);
      assert items == items[..n] + [items[n]];
    }
  }

  /** A pool whose loggers wait for room processes every message posted to it, once and in order. */
  lemma BlockingDeliversAll(capacity: nat, threads: nat, actions: seq<Action>, t: Pool)
    requires 1 <= threads <= MAX_THREADS && capacity >= 1
    requires Run(Started(true, capacity, threads), actions, t) && AllBlock(actions) && t.Done()
    ensures t.queue.Valid() && t.queue.Dequeued() == PostedBy(actions) && t.queue.Items() == []
  {
    var s := Started(true, capacity, threads);
    StartedValid(true, capacity, threads);
    RunKeeps(s, actions, t);
    BlockingKeepsAll(s, actions, t);
    t.DoneDrained();
    PickedAll(t.queue.accepted, t.queue.fates);
  }

  /** In no run does a policy lose messages in the other's way: without posts that overrun none is overrun,
      and without posts that discard none is discarded. */
  lemma {:induction false} PolicyLosses(s: Pool, actions: seq<Action>, t: Pool)
    requires s.Valid() && s.queue.enabled && s.queue.capacity >= 1 && Run(s, actions, t)
    ensures NoneOf(actions, OverrunOldest) ==> CountFalse(t.queue.fates) == CountFalse(s.queue.fates)
    ensures NoneOf(actions, DiscardNew) ==> t.queue.discarded == s.queue.discarded
    decreases |actions|
  {
    hide Pool.Posted, CountFalse;
    if actions == [] {
    } else {
      s.StepKeeps(actions[0]);
      PolicyLosses(s.Step(actions[0]), actions[1..], t);
      match actions[0]
      case Post(m, policy) => s.PolicyDecides(m, policy);
      case PostTerminate => s.queue.PushKeeps(Terminate);
      case Process(_) => s.queue.PopKeeps();
      case Stop =>
    }
  }

  ghost predicate NoneOf(actions: seq<Action>, policy: Policy) {
    forall i | 0 <= i < |actions| && actions[i].Post? :: actions[i].policy != policy
  }

  /** So loggers that discard lose nothing that the queue accepted. */
  lemma AcceptedDelivered(capacity: nat, threads: nat, actions: seq<Action>, t: Pool)
    requires 1 <= threads <= MAX_THREADS && capacity >= 1
    requires Run(Started(true, capacity, threads), actions, t) && NoneOf(actions, OverrunOldest) && t.Done()
    ensures t.queue.Valid() && t.queue.Dequeued() == t.queue.accepted
    ensures t.queue.posted == |t.queue.Dequeued()| + t.queue.discarded
  {
    var s := Started(true, capacity, threads);
    StartedValid(true, capacity, threads);
    RunKeeps(s, actions, t);
    PolicyLosses(s, actions, t);
    t.DoneDrained();
    PickedAll(t.queue.accepted, t.queue.fates);
  }

  // ----- Posts during a shutdown

  /** Loggers post only through a `weak_ptr` to the pool, which no longer locks once the destructor runs.
      Without that, a shutdown would still complete after a late post, except exactly when the post
      overruns a terminate message: then one worker is never told to end. */
  lemma LatePostStrands(s: Pool, m: Message, policy: Policy)
    requires s.Valid() && s.stopping && s.queue.capacity >= 1
    requires m != Terminate && (policy == Block ==> !s.queue.Full())
    ensures var late := s.(queue := s.Posted(m, policy));
            (exists actions, t :: Completes(late, actions, t)) <==>
            !(policy == OverrunOldest && s.queue.Full() && s.queue.Items()[0] == Terminate)
  {
    var late := s.(queue := s.Posted(m, policy));
    s.ValidSurplus();
    LateSurplus(s, m, policy);
    if late.Surplus() == 0 {
      var actions, t := Completion(late);
    } else if actions, t :| Completes(late, actions, t) {
      ShutdownEnds(late, actions, t);
    }
  }

  /** A late post adds a worker to the surplus exactly when it overruns a terminate message. */
  lemma LateSurplus(s: Pool, m: Message, policy: Policy)
    requires s.Stopping() && s.Surplus() == 0 && m != Terminate && (policy == Block ==> !s.queue.Full())
    ensures var late := s.(queue := s.Posted(m, policy));
            && late.Stopping()
            && late.Surplus() ==
               if policy == OverrunOldest && s.queue.Full() && s.queue.Items()[0] == Terminate then 1 else 0
  {
    if policy == DiscardNew && s.queue.Full() {
      DiscardKeeps(s.queue);
    } else {
      PushSurplus(s, m);
    }
  }

  lemma PushSurplus(s: Pool, m: Message)
    requires s.Stopping() && m != Terminate
    ensures var late := s.(queue := s.queue.Push(m));
            && late.Stopping()
            && late.Surplus() == s.Surplus() + if s.queue.Full() && s.queue.Items()[0] == Terminate then 1 else 0
  {
    assert |s.queue.Items()| <= s.queue.capacity;
    s.queue.PushKeeps(m);
    hide Terminates, Queue.Items, Queue.Push;
    PushCounts(s.queue.Items(), m, s.queue.capacity);
  }

  lemma DiscardKeeps(q: Queue<Message>)
    requires q.Valid()
    ensures q.Discard().Valid() && q.Discard().Items() == q.Items()
  {
  }

  lemma PushCounts(items: seq<Message>, m: Message, capacity: nat)
    requires |items| <= capacity && capacity >= 1 && m != Terminate
    ensures Terminates(LastN(items + [m], capacity)) ==
            Terminates(items) - if |items| == capacity && items[0] == Terminate then 1 else 0
  {
    if |items| == capacity {
      assert items == [items[0]] + items[1..];
      assert LastN(items + [m], capacity) == items[1..] + [m];
    }
  }

  /** A shutdown comes to a full queue with a terminate message in front exactly when there are threads
      enough to fill it. */
  lemma StrandingReachable(capacity: nat, threads: nat)
    requires 1 <= threads <= MAX_THREADS
    ensures (exists actions, s :: Reaches(Started(true, capacity, threads), actions, s))
            <==> 1 <= capacity <= threads
  {
    var start := Started(true, capacity, threads);
    StartedValid(true, capacity, threads);
    if actions, s :| Reaches(start, actions, s) {
      RunKeeps(start, actions, s);
      LiveShrinks(start, actions, s);
      AllCounted(s.queue.Items());
    }
    if 1 <= capacity <= threads {
      var stopped := start.Step(Stop);
      start.StepKeeps(Stop);
      var rest, s := Filled(stopped, capacity);
      var actions := [Stop] + rest;
      assert actions[1..] == rest;
      assert Reaches(start, actions, s);
    }
  }

  /** The run comes to a state in which a late post that overruns strands a worker. */
  ghost predicate Reaches(start: Pool, actions: seq<Action>, s: Pool) {
    && Run(start, actions, s)
    && s.queue.Valid() && s.stopping && s.queue.Full() && s.queue.Items() != [] && s.queue.Items()[0] == Terminate
  }

  lemma AllCounted(items: seq<Message>)
    requires TerminatesLast(items) && items != [] && items[0] == Terminate
    ensures Terminates(items) == |items|
  {
    if |items| > 1 {
      AllCounted(items[1..]);
    }
    assert items == [items[0]] + items[1..];
  }

  lemma {:induction false} LiveShrinks(s: Pool, actions: seq<Action>, t: Pool)
    requires Run(s, actions, t)
    ensures |t.live| <= |s.live|
    decreases |actions|
  {
    if actions == [] {
    } else {
      LiveShrinks(s.Step(actions[0]), actions[1..], t);
    }
  }

  /** The destructor posts k terminate messages before any worker runs. */
  lemma {:induction false} Filled(s: Pool, k: nat) returns (actions: seq<Action>, t: Pool)
    requires s.Valid() && s.stopping && s.queue.enabled && k <= s.unposted
    requires AllTerminate(s.queue.Items()) && |s.queue.Items()| + k == s.queue.capacity
    ensures Run(s, actions, t) && t.Valid() && t.stopping && t.queue.Full()
    ensures AllTerminate(t.queue.Items()) && |t.queue.Items()| == s.queue.capacity
    decreases k
  {
    if k == 0 {
      actions, t := [], s;
    } else {
      s.StepKeeps(PostTerminate);
      s.queue.PushKeeps(Terminate);
      var rest, end := Filled(s.Step(PostTerminate), k - 1);
      actions, t := [PostTerminate] + rest, end;
      assert actions[1..] == rest;
    }
  }

  // ----- The pool itself

  /** The pool.  Each method is one locked step of the queue and what its thread does with it. */
  class ThreadPool {
    const q: BlockingQueue<Message>
    const threads: nat
    var live: set<nat>
    var stopping: bool
    var unposted: nat

    ghost function State(): Pool
      reads this, q
    {
      Pool(q.state, threads, live, stopping, unposted)
    }

    ghost predicate Valid()
      reads this, q, q.q, q.q.v
    {
      q.Valid() && State().Valid()
    }

    constructor (maxItems: nat, threads: nat)
      requires maxItems < SIZE_LIMIT && 1 <= threads <= MAX_THREADS
      ensures Valid() && fresh(q) && fresh(q.q) && fresh(q.q.v)
      ensures if maxItems < SIZE_LIMIT - 1 then State() == Started(true, maxItems, threads)
              else State() == Started(false, 0, threads)
    {
      q := new BlockingQueue<Message>(maxItems);
      this.threads, live, stopping, unposted := threads, Workers(threads), false, threads;
      new;
      StartedValid(q.state.enabled, q.state.capacity, threads);
    }

    method PostAsyncMessage(m: Message, policy: Policy)
      requires Valid() && State().Enabled(Post(m, policy))
      modifies q`state, q`discardCounter, q.q`head, q.q`tail, q.q`overrunCounter, q.q.v
      ensures Valid() && State() == old(State()).Step(Post(m, policy))
    {
      hide Pool.Valid, Pool.Posted, Queue.Full;
      State().StepKeeps(Post(m, policy));
      Enqueue(m, policy);
    }

    method Enqueue(m: Message, policy: Policy)
      requires q.Valid() && (policy == Block ==> !q.state.Full())
      modifies q`state, q`discardCounter, q.q`head, q.q`tail, q.q`overrunCounter, q.q.v
      ensures q.Valid() && q.state == old(State()).Posted(m, policy)
    {
      if policy == Block {
        q.Enqueue(m);
      } else if policy == OverrunOldest {
        q.EnqueueNowait(m);
      } else {
        q.EnqueueIfHaveRoom(m);
      }
    }

    /** `process_next_msg_`: false once the worker has taken a terminate message. */
    method ProcessNextMessage(worker: nat) returns (active: bool)
      requires Valid() && State().Enabled(Process(worker))
      modifies this`live, q`state, q.q`head
      ensures Valid() && State() == old(State()).Step(Process(worker)) && active == (worker in live)
    {
      hide Pool.Valid;
      State().StepKeeps(Process(worker));
      var m := q.Dequeue();
      active := m != Terminate;
      if !active {
        live := live - {worker};
      }
    }

    method PostNextTerminate()
      requires Valid() && State().Enabled(PostTerminate)
      modifies this`unposted, q`state, q`discardCounter, q.q`head, q.q`tail, q.q`overrunCounter, q.q.v
      ensures Valid() && State() == old(State()).Step(PostTerminate)
    {
      hide Pool.Valid, Pool.Step, Pool.Posted, Pool.Enabled, Queue.Full, Queue.Items, Queue.Push, Queue.Valid;
      State().AfterPostTerminate();
      Enqueue(Terminate, Block);
      unposted := unposted - 1;
    }

    /** Some step of the shutdown: the destructor posts or a worker processes, whichever can. */
    method ShutdownStep(ghost before: seq<Message>)
      requires Valid() && stopping && q.state.capacity >= 1 && !State().Done()
      requires unposted <= threads && Terminated(q.state.accepted, before, threads - unposted)
      modifies this`live, this`unposted
      modifies q`state, q`discardCounter, q.q`head, q.q`tail, q.q`overrunCounter, q.q.v
      ensures Valid() && q.state.capacity == old(q.state.capacity)
      ensures State().Remaining() < old(State().Remaining())
      ensures unposted <= threads && Terminated(q.state.accepted, before, threads - unposted)
    {
      hide Pool.Valid, Pool.Surplus, Terminated;
      State().ValidSurplus();
      State().NotStuck();
      TerminatedNext(q.state.accepted, before, threads - unposted);
      if
      case unposted > 0 && !q.q.Full() =>
        State().StepProgresses(PostTerminate);
        PostNextTerminate();
      case live != {} && !q.q.Empty() =>
        var worker :| worker in live;
        State().StepProgresses(Process(worker));
        var active := ProcessNextMessage(worker);
    }

    /** The destructor, with its posts and the workers' loops interleaved in any order: it always comes to
        an end, with every accepted message dequeued in order unless overrun. */
    method Destroy()
      requires Valid() && !stopping && q.state.capacity >= 1
      modifies this, q`state, q`discardCounter, q.q`head, q.q`tail, q.q`overrunCounter, q.q.v
      ensures Valid() && State().Done() && q.state.Items() == []
      ensures q.state.Dequeued() == Picked(q.state.accepted, q.state.fates)
      ensures Terminated(q.state.accepted, old(q.state.accepted), threads)
    {
      assert unposted == threads;
      hide Pool.Valid, Pool.Remaining, Terminated;
      State().StepKeeps(Stop);
      TerminatedNone(q.state.accepted);
      stopping := true;
      while !(unposted == 0 && live == {})
        invariant Valid() && stopping && q.state.capacity >= 1 && unposted <= threads
        invariant Terminated(q.state.accepted, old(q.state.accepted), threads - unposted)
        decreases State().Remaining()
      {
        ShutdownStep(old(q.state.accepted));
      }
      State().DoneDrained();
    }
  }

  /** The constructor, which throws for a bad number of threads. */
  method Create(maxItems: nat, threads: nat) returns (r: Result<ThreadPool>)
    requires maxItems < SIZE_LIMIT
    ensures r.Err? <==> threads == 0 || threads > MAX_THREADS
    ensures r.Ok? ==>
              && fresh(r.value) && r.value.Valid()
              && r.value.State() == if maxItems < SIZE_LIMIT - 1 then Started(true, maxItems, threads)
                                    else Started(false, 0, threads)
  {
    if threads == 0 || threads > MAX_THREADS {
      return Err("invalid number of threads");
    }
    var pool := new ThreadPool(maxItems, threads);
    r := Ok(pool);
  }

  /** The messages before, and then n terminate messages. */
  ghost predicate Terminated(accepted: seq<Message>, before: seq<Message>, n: nat) {
    accepted == before + seq(n, _ => Terminate)
  }

  lemma TerminatedNone(before: seq<Message>)
    ensures Terminated(before, before, 0)
  {
  }

  lemma TerminatedNext(accepted: seq<Message>, before: seq<Message>, n: nat)
    requires Terminated(accepted, before, n)
    ensures Terminated(accepted + [Terminate], before, n + 1)
  {
  }

  lemma Member<T>(s: set<T>) returns (x: T)
    requires s != {}
    ensures x in s
  {
    x :| x in s;
  }
}
