/**
  The ready queues of the scheduler (Kernel/Scheduler.cpp): 32 buckets of threads, a mask of
  the buckets that are not empty, and in every thread the bucket it is in.
 */
module ReadyQueues {
  import opened Common

  const THREAD_PRIORITY_MIN: nat := 1
  const THREAD_PRIORITY_MAX: nat := 99
  const BUCKETS: nat := 32

  class Thread {
    var priority: nat
    var runnablePriority: int
    var active: bool
    const affinity: set<nat>

    constructor (priority: nat, affinity: set<nat>)
      ensures this.priority == priority && this.affinity == affinity && runnablePriority == -1 && !active
    {
      this.priority, this.affinity, runnablePriority, active := priority, affinity, -1, false;
    }
  }

  /** thread_priority_to_priority_index: unsigned division before the multiplication. */
  function PriorityIndex(priority: nat): (bucket: nat)
    requires THREAD_PRIORITY_MIN <= priority <= THREAD_PRIORITY_MAX
    ensures bucket == if priority == THREAD_PRIORITY_MIN then BUCKETS - 1 else 0
  {
    var count := THREAD_PRIORITY_MAX - THREAD_PRIORITY_MIN + 1;
    (count - (priority - THREAD_PRIORITY_MIN)) / count * (BUCKETS - 1)
  }

  /** The lowest set bit: __builtin_ffsl - 1. */
  function LowestBit(mask: seq<bool>): (b: nat)
    requires exists i | 0 <= i < |mask| :: mask[i]
    ensures b < |mask| && mask[b] && forall i | 0 <= i < b :: !mask[i]
  {
    if mask[0] then 0 else
      assert forall i | 0 < i < |mask| && mask[i] :: mask[1..][i - 1];
      1 + LowestBit(mask[1..])
  }

  // ----- what a run of the scheduler does to the ready threads -----

  /** The threads of each bucket in order, and the threads that are on a processor. */
  datatype State = State(buckets: seq<seq<Thread>>, active: set<Thread>)

  const Start := State(seq(BUCKETS, _ => []), {})

  /** idle is the idle thread of the processor that takes the step. */
  datatype Op =
    | Queue(thread: Thread, priority: nat, idle: Thread)
    | Dequeue(thread: Thread, checkAffinity: bool, processor: nat, idle: Thread)
    | Pull(processor: nat, idle: Thread)
    | SwitchFrom(thread: Thread)

  predicate IsReady(buckets: seq<seq<Thread>>, t: Thread) {
    exists b | 0 <= b < |buckets| :: t in buckets[b]
  }

  predicate Enabled(s: State, op: Op) {
    op.Queue? && op.thread != op.idle ==>
      !IsReady(s.buckets, op.thread) && THREAD_PRIORITY_MIN <= op.priority <= THREAD_PRIORITY_MAX
  }

  function Drop(list: seq<Thread>, t: Thread): seq<Thread> {
    if list == [] then [] else if list[0] == t then list[1..] else [list[0]] + Drop(list[1..], t)
  }

  function DropAll(buckets: seq<seq<Thread>>, t: Thread): seq<seq<Thread>> {
    seq(|buckets|, b requires 0 <= b < |buckets| => Drop(buckets[b], t))
  }

  /** All ready threads, the most urgent bucket first. */
  function Flatten(buckets: seq<seq<Thread>>): seq<Thread> {
    if buckets == [] then [] else buckets[0] + Flatten(buckets[1..])
  }

  predicate MayRun(t: Thread, active: set<Thread>, processor: nat) {
    t !in active && processor in t.affinity
  }

  function First(list: seq<Thread>, active: set<Thread>, processor: nat): Option<Thread> {
    if list == [] then None
    else if MayRun(list[0], active, processor) then Some(list[0])
    else First(list[1..], active, processor)
  }

  /** The thread a processor gets. */
  function Choice(s: State, processor: nat): Option<Thread> { First(Flatten(s.buckets), s.active, processor) }

  function Step(s: State, op: Op): State
    requires |s.buckets| == BUCKETS && Enabled(s, op)
  {
    match op
    case Queue(t, priority, idle) =>
      if t == idle then s else var b := PriorityIndex(priority); s.(buckets := s.buckets[b := s.buckets[b] + [t]])
    case Dequeue(t, checkAffinity, processor, idle) =>
      if t == idle || (checkAffinity && processor !in t.affinity) then s else s.(buckets := DropAll(s.buckets, t))
    case Pull(processor, _) =>
      (match Choice(s, processor)
       case Some(t) => State(DropAll(s.buckets, t), s.active + {t})
       case None => s)
    case SwitchFrom(t) => s.(active := s.active - {t})
  }

  predicate Feasible(s: State, ops: seq<Op>)
    decreases |ops|
  {
    |s.buckets| == BUCKETS && (ops == [] || (Enabled(s, ops[0]) && Feasible(Step(s, ops[0]), ops[1..])))
  }

  function After(s: State, ops: seq<Op>): (r: State)
    requires Feasible(s, ops)
    ensures |r.buckets| == BUCKETS
    decreases |ops|
  {
    if ops == [] then s else After(Step(s, ops[0]), ops[1..])
  }

  lemma {:induction false} FirstIs(list: seq<Thread>, active: set<Thread>, processor: nat)
    ensures
      match First(list, active, processor)
      case Some(t) => t in list && MayRun(t, active, processor)
      case None => forall t | t in list :: !MayRun(t, active, processor)
  {
    if list != [] && !MayRun(list[0], active, processor) {
      FirstIs(list[1..], active, processor);
    }
  }

  /** A thread on a processor stays there until the processor switches from it. */
  lemma {:induction false} StaysActive(s: State, ops: seq<Op>, t: Thread)
    requires Feasible(s, ops) && t in s.active && SwitchFrom(t) !in ops
    ensures t in After(s, ops).active
    decreases |ops|
  {
    if ops != [] {
      StaysActive(Step(s, ops[0]), ops[1..], t);
    }
  }

  /**
    No two processors run a thread: what was pulled is not pulled again, even if it is queued
    in between, before the processor that pulled it has switched from it.
   */
  lemma PulledOnce(s: State, first: Op, between: seq<Op>, second: Op, t: Thread)
    requires Feasible(s, [first] + between) && first.Pull? && second.Pull?
    requires Choice(s, first.processor) == Some(t) && SwitchFrom(t) !in between
    ensures Choice(After(s, [first] + between), second.processor) != Some(t)
  {
    assert ([first] + between)[1..] == between;
    StaysActive(Step(s, first), between, t);
    var last := After(Step(s, first), between);
    FirstIs(Flatten(last.buckets), last.active, second.processor);
  }

  // ----- the same on buckets and positions -----

  lemma {:induction false} DropIs(list: seq<Thread>, k: nat)
    requires k < |list| && forall i, j | 0 <= i < j < |list| :: list[i] != list[j]
    ensures Drop(list, list[k]) == Without(list, k)
  {
    if k > 0 {
      DropIs(list[1..], k - 1);
      assert Without(list, k) == [list[0]] + Without(list[1..], k - 1);
    }
  }

  lemma {:induction false} DropAbsent(list: seq<Thread>, t: Thread)
    requires t !in list
    ensures Drop(list, t) == list
  {
    if list != [] {
      DropAbsent(list[1..], t);
    }
  }

  /** A thread that is in one bucket only. */
  lemma DropOne(buckets: seq<seq<Thread>>, b: nat, k: nat)
    requires b < |buckets| && k < |buckets[b]|
      && forall i, j | 0 <= i < j < |buckets[b]| :: buckets[b][i] != buckets[b][j]
    requires forall j | 0 <= j < |buckets| && j != b :: buckets[b][k] !in buckets[j]
    ensures DropAll(buckets, buckets[b][k]) == buckets[b := Without(buckets[b], k)]
  {
    DropIs(buckets[b], k);
    forall j | 0 <= j < |buckets| && j != b ensures Drop(buckets[j], buckets[b][k]) == buckets[j] {
      DropAbsent(buckets[j], buckets[b][k]);
    }
  }

  lemma DropNone(buckets: seq<seq<Thread>>, t: Thread)
    requires !IsReady(buckets, t)
    ensures DropAll(buckets, t) == buckets
  {
    forall j | 0 <= j < |buckets| ensures Drop(buckets[j], t) == buckets[j] {
      DropAbsent(buckets[j], t);
    }
  }

  lemma {:induction false} FirstSkips(skip: seq<Thread>, rest: seq<Thread>, active: set<Thread>, processor: nat)
    requires forall i | 0 <= i < |skip| :: !MayRun(skip[i], active, processor)
    ensures First(skip + rest, active, processor) == First(rest, active, processor)
  {
    if skip == [] {
      assert skip + rest == rest;
    } else {
      FirstSkips(skip[1..], rest, active, processor);
      assert (skip + rest)[1..] == skip[1..] + rest;
    }
  }

  ghost predicate NoneMayRun(list: seq<Thread>, active: set<Thread>, processor: nat) {
    forall i | 0 <= i < |list| :: !MayRun(list[i], active, processor)
  }

  /** The first thread that may run, of the lowest bucket that has one. */
  lemma {:induction false} ChoiceAt(buckets: seq<seq<Thread>>, active: set<Thread>, processor: nat, b: nat, k: nat)
    requires b < |buckets| && k < |buckets[b]| && MayRun(buckets[b][k], active, processor)
    requires NoneMayRun(buckets[b][..k], active, processor)
    requires forall j | 0 <= j < b :: NoneMayRun(buckets[j], active, processor)
    ensures First(Flatten(buckets), active, processor) == Some(buckets[b][k])
  {
    if b > 0 {
      ChoiceAt(buckets[1..], active, processor, b - 1, k);
      FirstSkips(buckets[0], Flatten(buckets[1..]), active, processor);
    } else {
      FirstSkips(buckets[0][..k], buckets[0][k..] + Flatten(buckets[1..]), active, processor);
      assert Flatten(buckets) == buckets[0][..k] + (buckets[0][k..] + Flatten(buckets[1..]));
    }
  }

  lemma {:induction false} NoChoice(buckets: seq<seq<Thread>>, active: set<Thread>, processor: nat)
    requires forall j | 0 <= j < |buckets| :: NoneMayRun(buckets[j], active, processor)
    ensures First(Flatten(buckets), active, processor) == None
  {
    if buckets != [] {
      NoChoice(buckets[1..], active, processor);
      FirstSkips(buckets[0], Flatten(buckets[1..]), active, processor);
    }
  }

  /** Once its processor has switched from it, a ready thread is the next one again where none before it may run. */
  lemma SwitchedBack(s: State, t: Thread, processor: nat, k: nat)
    requires |s.buckets| == BUCKETS && processor in t.affinity
    requires
      var ready := Flatten(s.buckets);
      k < |ready| && ready[k] == t && NoneMayRun(ready[..k], s.active - {t}, processor)
    ensures Choice(Step(s, SwitchFrom(t)), processor) == Some(t)
  {
    var ready := Flatten(s.buckets);
    FirstSkips(ready[..k], ready[k..], s.active - {t}, processor);
    assert ready == ready[..k] + ready[k..];
  }

  // ----- the scheduler -----

  class Scheduler {
    const queues: array<seq<Thread>>
    var mask: seq<bool>
    /** Every thread that the scheduler may be asked to queue. */
    ghost var threads: set<Thread>

    constructor ()
      ensures Shows(Start) && threads == {} && fresh(queues)
    {
      queues := new seq<Thread>[BUCKETS](_ => []);
      mask := seq(BUCKETS, _ => false);
      threads := {};
    }

    /** Bucket b: its mask bit is set exactly when it is not empty, and its threads name it. */
    ghost predicate BucketOk(b: nat)
      requires b < queues.Length && b < |mask|
      reads this, queues, threads`runnablePriority
    {
      && (mask[b] <==> queues[b] != [])
      && (forall i, j | 0 <= i < j < |queues[b]| :: queues[b][i] != queues[b][j])
      && (forall t | t in queues[b] :: t in threads && t.runnablePriority == b)
    }

    /** A thread is in the bucket it names, or in none. */
    ghost predicate ThreadOk(t: Thread)
      requires queues.Length == BUCKETS
      reads queues, t`runnablePriority
    {
      t.runnablePriority == -1 || (0 <= t.runnablePriority < BUCKETS && t in queues[t.runnablePriority])
    }

    ghost predicate Valid()
      reads this, queues, threads`runnablePriority
    {
      && queues.Length == BUCKETS && |mask| == BUCKETS
      && (forall b | 0 <= b < BUCKETS :: BucketOk(b))
      && (forall t | t in threads :: ThreadOk(t))
    }

    predicate Eligible(t: Thread, processor: nat)
      reads t
    {
      !t.active && processor in t.affinity
    }

    /** The buckets are those of the state, and the threads know whether they are active. */
    ghost predicate Shows(s: State)
      reads this, queues, threads`runnablePriority, threads`active
    {
      Valid() && queues[..] == s.buckets && forall t | t in threads :: t.active <==> t in s.active
    }

    /** Threads that were just created can be queued from now on. */
    ghost method Enrol(more: set<Thread>, s: State)
      requires Shows(s) && forall t | t in more :: t.runnablePriority == -1 && !t.active && t !in s.active
      modifies this`threads
      ensures Shows(s) && threads == old(threads) + more
    {
      threads := threads + more;
      forall b | 0 <= b < BUCKETS ensures BucketOk(b) {
        assert old(BucketOk(b));
      }
      forall t | t in threads ensures ThreadOk(t) {
        assert t !in more ==> old(ThreadOk(t));
      }
    }

    /** The thread, unless it is the idle thread of the processor, which is never touched. */
    ghost function Busy(thread: Thread, idle: Thread): set<Thread> { if thread == idle then {} else {thread} }

    /** queue_runnable_thread. */
    method QueueRunnableThread(thread: Thread, idle: Thread)
      requires Valid() && (thread == idle || thread in threads)
      requires thread != idle ==>
                 thread.runnablePriority < 0 && THREAD_PRIORITY_MIN <= thread.priority <= THREAD_PRIORITY_MAX
      modifies this`mask, queues, Busy(thread, idle)`runnablePriority
      ensures Valid()
      ensures thread == idle ==>
                queues[..] == old(queues[..]) && thread.runnablePriority == old(thread.runnablePriority)
      ensures thread != idle ==>
                var b := PriorityIndex(thread.priority);
                thread.runnablePriority == b && queues[..] == old(queues[..])[b := old(queues[b]) + [thread]]
    {
      if thread == idle {
        return;
      }
      var b := PriorityIndex(thread.priority);
      assert forall k | 0 <= k < BUCKETS :: BucketOk(k) && thread !in queues[k];
      thread.runnablePriority := b;
      var wasEmpty := queues[b] == [];
      queues[b] := queues[b] + [thread];
      if wasEmpty {
        mask := mask[b := true];
      }
      assert BucketOk(b);
      forall k | 0 <= k < BUCKETS && k != b ensures BucketOk(k) {
        assert old(BucketOk(k));
      }
      forall t | t in threads ensures ThreadOk(t) {
        assert t != thread ==> old(ThreadOk(t));
      }
    }

    /** Takes the thread at position k of bucket b out of it. */
    method TakeOut(thread: Thread, b: nat, k: nat)
      requires Valid() && b < BUCKETS && k < |queues[b]| && queues[b][k] == thread
      modifies this`mask, queues, thread`runnablePriority
      ensures Valid() && queues[..] == old(queues[..])[b := Without(old(queues[b]), k)]
      ensures thread.runnablePriority == -1
    {
      assert BucketOk(b) && thread in queues[b];
      WithoutOne(queues[b], k);
      assert forall j | 0 <= j < BUCKETS && j != b :: BucketOk(j) && thread !in queues[j];
      thread.runnablePriority := -1;
      queues[b] := Without(queues[b], k);
      if queues[b] == [] {
        mask := mask[b := false];
      }
      assert BucketOk(b);
      forall j | 0 <= j < BUCKETS && j != b ensures BucketOk(j) {
        assert old(BucketOk(j));
      }
      forall t | t in threads ensures ThreadOk(t) {
        assert t != thread ==> old(ThreadOk(t));
      }
    }

    /** dequeue_runnable_thread. */
    method DequeueRunnableThread(thread: Thread, checkAffinity: bool, processor: nat, idle: Thread)
      returns (done: bool, ghost k: nat)
      requires Valid() && (thread == idle || thread in threads)
      modifies this`mask, queues, Busy(thread, idle)`runnablePriority
      ensures Valid()
      ensures done <==>
                || thread == idle
                || (old(thread.runnablePriority) >= 0 && (checkAffinity ==> processor in thread.affinity))
      ensures !done || thread == idle ==>
                queues[..] == old(queues[..]) && thread.runnablePriority == old(thread.runnablePriority)
      ensures done && thread != idle ==>
                var b := old(thread.runnablePriority);
                && thread.runnablePriority == -1 && 0 <= b < BUCKETS && k < |old(queues[..])[b]|
                && old(queues[..])[b][k] == thread
                && queues[..] == old(queues[..])[b := Without(old(queues[..])[b], k)]
    {
      k := 0;
      if thread == idle {
        return true, k;
      }
      var b := thread.runnablePriority;
      assert ThreadOk(thread);
      if b < 0 {
        assert forall j | 0 <= j < BUCKETS :: BucketOk(j) && thread !in queues[j];
        return false, k;
      }
      if checkAffinity && processor !in thread.affinity {
        return false, k;
      }
      assert BucketOk(b) && mask[b];
      var i :| 0 <= i < |queues[b]| && queues[b][i] == thread;
      k := i;
      TakeOut(thread, b, i);
      return true, k;
    }

    /** The first eligible thread of a bucket; its length if there is none. */
    method FirstEligible(b: nat, processor: nat) returns (k: nat)
      requires Valid() && b < BUCKETS
      ensures k <= |queues[b]| && forall i | 0 <= i < k :: !Eligible(queues[b][i], processor)
      ensures k < |queues[b]| ==> Eligible(queues[b][k], processor)
    {
      assert BucketOk(b);
      k := 0;
      while k < |queues[b]| && !Eligible(queues[b][k], processor)
        invariant k <= |queues[b]| && forall i | 0 <= i < k :: !Eligible(queues[b][i], processor)
      {
        assert queues[b][k] in queues[b] && queues[b][k].runnablePriority == b;
        k := k + 1;
      }
    }

    ghost predicate NoneEligible(b: nat, processor: nat)
      requires b < queues.Length
      reads queues, queues[b]
    {
      forall t | t in queues[b] :: !Eligible(t, processor)
    }

    /** The first eligible thread of the lowest bucket that has one. */
    method FindEligible(processor: nat) returns (found: bool, b: nat, k: nat)
      requires Valid()
      ensures found ==>
                && b < BUCKETS && k < |queues[b]| && Eligible(queues[b][k], processor)
                && (forall i | 0 <= i < k :: !Eligible(queues[b][i], processor))
                && (forall j | 0 <= j < b :: NoneEligible(j, processor))
      ensures !found ==> forall j | 0 <= j < BUCKETS :: NoneEligible(j, processor)
    {
      var left := mask;
      forall j | 0 <= j < BUCKETS && !left[j] ensures NoneEligible(j, processor) {
        assert BucketOk(j);
      }
      while exists i | 0 <= i < BUCKETS :: left[i]
        invariant |left| == BUCKETS && forall j | 0 <= j < BUCKETS && !left[j] :: NoneEligible(j, processor)
        decreases Ones(left)
      {
        b := LowestBit(left);
        k := FirstEligible(b, processor);
        if k < |queues[b]| {
          return true, b, k;
        }
        ClearOne(left, b);
        left := left[b := false];
      }
      return false, 0, 0;
    }

    /** pull_next_runnable_thread: (b, k) is where the thread was, when one was found. */
    method PullNextRunnableThread(processor: nat, idle: Thread)
      returns (thread: Thread, ghost found: bool, ghost b: nat, ghost k: nat)
      requires Valid()
      modifies this`mask, queues, threads`runnablePriority, threads`active
      ensures Valid()
      ensures !found ==>
                && thread == idle && queues[..] == old(queues[..])
                && forall j | 0 <= j < BUCKETS :: old(NoneEligible(j, processor))
      ensures found ==>
                && b < BUCKETS && k < |old(queues[..])[b]| && thread == old(queues[..])[b][k]
                && old(Eligible(thread, processor))
                && (forall i | 0 <= i < k :: old(!Eligible(queues[b][i], processor)))
                && (forall j | 0 <= j < b :: old(NoneEligible(j, processor)))
                && thread.active && thread.runnablePriority == -1
                && queues[..] == old(queues[..])[b := Without(old(queues[..])[b], k)]
      ensures forall t | t in threads && (found ==> t != thread) ::
                t.active == old(t.active) && t.runnablePriority == old(t.runnablePriority)
    {
      var any, p, i := FindEligible(processor);
      found, b, k := any, p, i;
      forall j | 0 <= j < BUCKETS && NoneEligible(j, processor) ensures old(NoneEligible(j, processor)) {
        assert queues[j] == old(queues[j]);
        assert forall t | t in queues[j] :: !Eligible(t, processor);
      }
      if !any {
        return idle, found, b, k;
      }
      assert BucketOk(p);
      thread := queues[p][i];
      TakeOut(thread, p, i);
      thread.active := true;
    }

    /** No thread is ready twice. */
    lemma InOneBucket(b: nat, k: nat)
      requires Valid() && b < BUCKETS && k < |queues[b]|
      ensures DropAll(queues[..], queues[b][k]) == queues[..][b := Without(queues[b], k)]
    {
      assert BucketOk(b) && queues[b][k] in queues[b];
      assert forall j | 0 <= j < BUCKETS && j != b :: BucketOk(j) && queues[b][k] !in queues[j];
      DropOne(queues[..], b, k);
    }

    lemma NotReady(t: Thread)
      requires Valid() && t in threads
      ensures IsReady(queues[..], t) <==> t.runnablePriority >= 0
    {
      assert ThreadOk(t);
      if t.runnablePriority >= 0 {
        assert t in queues[..][t.runnablePriority];
      }
      if IsReady(queues[..], t) {
        var b :| 0 <= b < BUCKETS && t in queues[..][b];
        assert BucketOk(b);
      }
    }

    method PerformQueue(thread: Thread, priority: nat, idle: Thread, ghost s: State)
      requires Shows(s) && Enabled(s, Queue(thread, priority, idle)) && (thread == idle || thread in threads)
      modifies this`mask, queues, Busy(thread, idle)`runnablePriority, Busy(thread, idle)`priority
      ensures Shows(Step(s, Queue(thread, priority, idle)))
    {
      if thread != idle {
        NotReady(thread);
        thread.priority := priority;
      }
      QueueRunnableThread(thread, idle);
    }

    method PerformDequeue(thread: Thread, checkAffinity: bool, processor: nat, idle: Thread, ghost s: State)
      returns (done: bool)
      requires Shows(s) && (thread == idle || thread in threads)
      modifies this`mask, queues, Busy(thread, idle)`runnablePriority
      ensures Shows(Step(s, Dequeue(thread, checkAffinity, processor, idle)))
      ensures done <==>
                || thread == idle
                || (IsReady(s.buckets, thread) && (checkAffinity ==> processor in thread.affinity))
    {
      ghost var b := thread.runnablePriority;
      if thread != idle {
        NotReady(thread);
        assert ThreadOk(thread);
        if b < 0 {
          DropNone(s.buckets, thread);
        } else {
          forall i | 0 <= i < |s.buckets[b]| && s.buckets[b][i] == thread
            ensures DropAll(s.buckets, thread) == s.buckets[b := Without(s.buckets[b], i)]
          {
            InOneBucket(b, i);
          }
        }
      }
      ghost var k;
      done, k := DequeueRunnableThread(thread, checkAffinity, processor, idle);
    }

    method PerformPull(processor: nat, idle: Thread, ghost s: State) returns (thread: Thread)
      requires Shows(s)
      modifies this`mask, queues, threads`runnablePriority, threads`active
      ensures Shows(Step(s, Pull(processor, idle)))
      ensures thread == match Choice(s, processor) case Some(t) => t case None => idle
    {
      forall b, k | 0 <= b < BUCKETS && 0 <= k < |s.buckets[b]|
        ensures DropAll(s.buckets, s.buckets[b][k]) == s.buckets[b := Without(s.buckets[b], k)]
        ensures s.buckets[b][k] in threads
      {
        InOneBucket(b, k);
        assert BucketOk(b);
      }
      forall b | 0 <= b < BUCKETS && NoneEligible(b, processor) ensures NoneMayRun(s.buckets[b], s.active, processor) {
        assert forall i | 0 <= i < |s.buckets[b]| :: s.buckets[b][i] in queues[b];
      }
      ghost var found, b, k;
      thread, found, b, k := PullNextRunnableThread(processor, idle);
      if found {
        assert forall i | 0 <= i < k :: old(!Eligible(queues[b][i], processor)) && s.buckets[b][i] in threads;
        ChoiceAt(s.buckets, s.active, processor, b, k);
      } else {
        NoChoice(s.buckets, s.active, processor);
      }
    }

    /** Any one step. */
    method Perform(op: Op, ghost s: State)
      requires Shows(s) && Enabled(s, op) && From(op, threads)
      modifies this`mask, queues, threads
      ensures Shows(Step(s, op))
    {
      match op
      case Queue(thread, priority, idle) => PerformQueue(thread, priority, idle, s);
      case Dequeue(thread, checkAffinity, processor, idle) =>
        var _ := PerformDequeue(thread, checkAffinity, processor, idle, s);
      case Pull(processor, idle) => var _ := PerformPull(processor, idle, s);
      case SwitchFrom(thread) => thread.active := false;
    }

    /** A whole run: throughout, mask, buckets and threads agree and show the state. */
    method RunFrom(ops: seq<Op>, ghost s: State)
      requires Shows(s) && Feasible(s, ops) && forall i | 0 <= i < |ops| :: From(ops[i], threads)
      modifies this`mask, queues, threads
      ensures Shows(After(s, ops))
      decreases |ops|
    {
      if ops != [] {
        Perform(ops[0], s);
        RunFrom(ops[1..], Step(s, ops[0]));
      }
    }
  }

  /** A step queues, takes out or switches from known threads only; an idle thread may be passed to it. */
  ghost predicate From(op: Op, threads: set<Thread>) {
    match op
    case Queue(thread, _, idle) => thread == idle || thread in threads
    case Dequeue(thread, _, _, idle) => thread == idle || thread in threads
    case Pull(_, _) => true
    case SwitchFrom(thread) => thread in threads
  }

  /** Every run from empty queues. */
  method Run(ops: seq<Op>, ghost threads: set<Thread>) returns (scheduler: Scheduler)
    requires Feasible(Start, ops) && forall i | 0 <= i < |ops| :: From(ops[i], threads)
    requires forall t | t in threads :: t.runnablePriority == -1 && !t.active
    modifies threads
    ensures scheduler.Shows(After(Start, ops)) && scheduler.threads == threads
  {
    scheduler := new Scheduler();
    scheduler.Enrol(threads, Start);
    scheduler.RunFrom(ops, Start);
  }

  ghost function Ones(mask: seq<bool>): nat {
    if mask == [] then 0 else (if mask[0] then 1 else 0) + Ones(mask[1..])
  }

  lemma {:induction false} ClearOne(mask: seq<bool>, p: nat)
    requires p < |mask| && mask[p]
    ensures Ones(mask[p := false]) < Ones(mask)
  {
    if p > 0 {
      ClearOne(mask[1..], p - 1);
      assert mask[p := false][1..] == mask[1..][p - 1 := false];
    } else {
      assert mask[p := false][1..] == mask[1..];
    }
  }
}
