/**
  Every run of the timer queue (Kernel/TimeQueue.cpp): adding, cancelling, firing and
  finishing timers, as the sections of code between taking and releasing g_timerqueue_lock,
  interleaved over any number of threads.  Clock readings are inputs of the steps.
 */
module TimerRuns {
  import opened Common
  import opened InlineLinkedLists

  // ----- the queues -----

  /** A timer in a list, with the id it was given and a stamp that numbers this queueing. */
  datatype Entry = Entry(timer: Timer, id: nat, stamp: nat)

  datatype Queue = Queue(list: seq<Entry>, due: int)

  datatype Core = Core(monoQueue: Queue, realQueue: Queue, executing: seq<Entry>, idCount: nat) {
    function Of(realtime: bool): Queue { if realtime then realQueue else monoQueue }

    function With(realtime: bool, q: Queue): Core { if realtime then this.(realQueue := q) else this.(monoQueue := q) }
  }

  /** The three lists a timer can be in. */
  datatype Part = MonoPart | RealPart | ExecutingPart

  function EntriesOf(core: Core, p: Part): seq<Entry> {
    match p
    case MonoPart => core.monoQueue.list
    case RealPart => core.realQueue.list
    case ExecutingPart => core.executing
  }

  /** What next_timer_due should be: the expiry of the head, or zero. */
  function DueOf(list: seq<Entry>): int {
    if list == [] then 0 else list[0].timer.expires
  }

  /** Where add_timer_locked puts a timer: before the first that expires later. */
  function Place(list: seq<Entry>, expires: int): (k: nat)
    ensures k <= |list| && (forall i | 0 <= i < k :: list[i].timer.expires <= expires)
    ensures k < |list| ==> list[k].timer.expires > expires
  {
    if list == [] || list[0].timer.expires > expires then 0 else 1 + Place(list[1..], expires)
  }

  function Insert(q: Queue, e: Entry): Queue {
    var k := Place(q.list, e.timer.expires);
    Queue(InsertAt(q.list, k, e), if k == 0 then e.timer.expires else q.due)
  }

  function RemoveAt(q: Queue, k: nat): Queue
    requires k < |q.list|
  {
    var list := Without(q.list, k);
    Queue(list, if k == 0 then DueOf(list) else q.due)
  }

  /** Moves the head of a queue to the executing list. */
  function Pop(core: Core, realtime: bool): Core
    requires core.Of(realtime).list != []
  {
    var q := core.Of(realtime);
    core.With(realtime, RemoveAt(q, 0)).(executing := core.executing + [q.list[0]])
  }

  // ----- threads and history -----

  /** What cancel_timer is asked for. */
  datatype Target = ByTimer(timer: Timer) | ById(id: nat)

  predicate Hits(target: Target, timer: Timer, id: nat) {
    match target
    case ByTimer(t) => t == timer
    case ById(i) => i == id
  }

  function IndexOf(list: seq<Entry>, target: Target): (k: nat)
    ensures k <= |list| && (forall i | 0 <= i < k :: !Hits(target, list[i].timer, list[i].id))
    ensures k < |list| ==> Hits(target, list[k].timer, list[k].id)
  {
    if list == [] || Hits(target, list[0].timer, list[0].id) then 0 else 1 + IndexOf(list[1..], target)
  }

  /** The queue and index where cancel_timer finds its target. */
  function Locate(core: Core, target: Target): Option<(bool, nat)> {
    match target
    case ByTimer(t) =>
      var k := IndexOf(core.Of(t.realtime).list, target);
      if k < |core.Of(t.realtime).list| then Some((t.realtime, k)) else None
    case ById(_) =>
      var m, r := IndexOf(core.monoQueue.list, target), IndexOf(core.realQueue.list, target);
      if m < |core.monoQueue.list| then Some((false, m))
        else if r < |core.realQueue.list| then Some((true, r)) else None
  }

  /** What became of one queueing of a timer. */
  datatype Status = Queued | Executing(ran: bool) | Finished | Cancelled

  datatype Queueing = Queueing(timer: Timer, id: nat, status: Status)

  /** Where a thread is while it does not hold the lock. */
  datatype Pc = Idle | Firing(realtime: bool) | Waiting(target: Target, since: nat)

  datatype Sys = Sys(core: Core, history: seq<Queueing>, pcs: map<nat, Pc>) {
    function PcOf(thread: nat): Pc { if thread in pcs then pcs[thread] else Idle }

    function Mark(stamp: nat, status: Status): Sys
      requires stamp < |history|
    {
      this.(history := history[stamp := history[stamp].(status := status)])
    }

    function Goto(thread: nat, pc: Pc): Sys { this.(pcs := pcs[thread := pc]) }
  }

  datatype Event =
    | Add(timer: Timer, withId: bool)
    | Cancel(thread: nat, target: Target)
    | Recheck(thread: nat)
    | Fire(thread: nat, nowMono: int, nowReal: int)
    | Resume(thread: nat, nowMono: int, nowReal: int)
    | RunCallback(k: nat)
    | FinishCallback(k: nat)

  datatype Reply = NoReply | DidCancel(stamp: nat) | DidNotCancel(target: Target, since: nat)

  datatype Outcome = Done(next: Sys, reply: Reply) | VerifyFailed

  predicate Listed(list: seq<Entry>, timer: Timer) {
    exists i | 0 <= i < |list| :: list[i].timer == timer
  }

  /** When a step can happen.  A timer is only added while no list holds it. */
  predicate Enabled(s: Sys, ev: Event) {
    match ev
    case Add(t, _) => !Listed(s.core.monoQueue.list, t) && !Listed(s.core.realQueue.list, t)
      && !Listed(s.core.executing, t)
    case Cancel(thread, _) => s.PcOf(thread) == Idle
    case Recheck(thread) => s.PcOf(thread).Waiting?
    case Fire(thread, _, _) => s.PcOf(thread) == Idle
    case Resume(thread, _, _) => s.PcOf(thread).Firing?
    case RunCallback(k) =>
      && k < |s.core.executing| && s.core.executing[k].stamp < |s.history|
      && s.history[s.core.executing[k].stamp].status == Executing(false)
    case FinishCallback(k) =>
      && k < |s.core.executing| && s.core.executing[k].stamp < |s.history|
      && s.history[s.core.executing[k].stamp].status == Executing(true)
  }

  /** add_timer and add_timer_without_id, once the deadline is in the future. */
  function AddStep(s: Sys, timer: Timer, withId: bool): Sys {
    var core := Added(s.core, timer, withId, |s.history|);
    s.(core := core, history := s.history + [Queueing(timer, if withId then core.idCount else 0, Queued)])
  }

  function NewId(core: Core, withId: bool): nat { if withId then core.idCount + 1 else 0 }

  function Added(core: Core, timer: Timer, withId: bool, stamp: nat): Core {
    var count := if withId then core.idCount + 1 else core.idCount;
    var id := if withId then count else 0;
    core.With(timer.realtime, Insert(core.Of(timer.realtime), Entry(timer, id, stamp))).(idCount := count)
  }

  /** The part of cancel_timer after the target was not found in a queue. */
  function CheckExecuting(s: Sys, thread: nat, target: Target, since: nat): Outcome {
    if IndexOf(s.core.executing, target) < |s.core.executing| then Done(s.Goto(thread, Waiting(target, since)), NoReply)
    else Done(s.Goto(thread, Idle), DidNotCancel(target, since))
  }

  function CancelStep(s: Sys, thread: nat, target: Target): Outcome {
    match Locate(s.core, target)
    case Some((realtime, k)) =>
      var q := s.core.Of(realtime);
      if k < |q.list| && q.list[k].stamp < |s.history| then
        Done(s.(core := s.core.With(realtime, RemoveAt(q, k))).Mark(q.list[k].stamp, Status.Cancelled),
          DidCancel(q.list[k].stamp))
      else VerifyFailed
    case None => CheckExecuting(s, thread, target, |s.history|)
  }

  /** fire_timers on one queue up to the next release of the lock, and on to the next queue. */
  function FireStep(s: Sys, thread: nat, realtime: bool, entering: bool, nowMono: int, nowReal: int): Outcome
    decreases !realtime
  {
    var q := s.core.Of(realtime);
    var now := if realtime then nowReal else nowMono;
    if entering && q.list != [] && q.due != q.list[0].timer.expires then VerifyFailed
    else if q.list != [] && now > q.list[0].timer.expires then
      var st := q.list[0].stamp;
      if st < |s.history| then
        Done(s.(core := Pop(s.core, realtime)).Mark(st, Status.Executing(false)).Goto(thread, Firing(realtime)),
          NoReply)
      else VerifyFailed
    else if realtime then Done(s.Goto(thread, Idle), NoReply)
    else FireStep(s, thread, true, true, nowMono, nowReal)
  }

  function FinishStep(s: Sys, k: nat): Sys
    requires Enabled(s, FinishCallback(k))
  {
    var core := s.core.(executing := Without(s.core.executing, k));
    s.(core := core).Mark(s.core.executing[k].stamp, Status.Finished)
  }

  function Step(s: Sys, ev: Event): Outcome
    requires Enabled(s, ev)
  {
    match ev
    case Add(t, withId) => Done(AddStep(s, t, withId), NoReply)
    case Cancel(thread, target) => CancelStep(s, thread, target)
    case Recheck(thread) => CheckExecuting(s, thread, s.PcOf(thread).target, s.PcOf(thread).since)
    case Fire(thread, nowMono, nowReal) => FireStep(s, thread, false, true, nowMono, nowReal)
    case Resume(thread, nowMono, nowReal) => FireStep(s, thread, s.PcOf(thread).realtime, false, nowMono, nowReal)
    case RunCallback(k) => Done(s.Mark(s.core.executing[k].stamp, Status.Executing(true)), NoReply)
    case FinishCallback(k) => Done(FinishStep(s, k), NoReply)
  }

  // ----- the invariant -----

  function EntryOf(history: seq<Queueing>, stamp: nat): Entry
    requires stamp < |history|
  {
    Entry(history[stamp].timer, history[stamp].id, stamp)
  }

  predicate Before(a: Entry, b: Entry) {
    a.timer.expires < b.timer.expires || (a.timer.expires == b.timer.expires && a.stamp < b.stamp)
  }

  /** Sorted by expiry, and in order of arrival among equals. */
  predicate Ordered(list: seq<Entry>) {
    forall i, j | 0 <= i < j < |list| :: Before(list[i], list[j])
  }

  predicate Proper(history: seq<Queueing>, e: Entry) {
    e.stamp < |history| && e == EntryOf(history, e.stamp)
  }

  predicate QueuedOk(history: seq<Queueing>, e: Entry, realtime: bool) {
    Proper(history, e) && e.timer.realtime == realtime && history[e.stamp].status == Queued
  }

  /** One of the two queues: ordered, its due time that of its head, its entries queued. */
  predicate QueueOk(history: seq<Queueing>, q: Queue, realtime: bool) {
    Ordered(q.list) && q.due == DueOf(q.list) && forall i | 0 <= i < |q.list| :: QueuedOk(history, q.list[i], realtime)
  }

  predicate RunningOk(history: seq<Queueing>, e: Entry) {
    Proper(history, e) && history[e.stamp].status.Executing?
  }

  predicate ExecutingOk(history: seq<Queueing>, list: seq<Entry>) {
    && (forall i, j | 0 <= i < j < |list| :: list[i].stamp != list[j].stamp)
    && (forall i | 0 <= i < |list| :: RunningOk(history, list[i]))
  }

  /** A queueing that is still queued or executing is in the list that says so. */
  predicate StampOk(s: Sys, stamp: nat)
    requires stamp < |s.history|
  {
    var e := EntryOf(s.history, stamp);
    && (s.history[stamp].status == Queued ==> e in s.core.Of(e.timer.realtime).list)
    && (s.history[stamp].status.Executing? ==> e in s.core.executing)
    && e.id <= s.core.idCount
  }

  predicate Live(history: seq<Queueing>, stamp: nat)
    requires stamp < |history|
  {
    history[stamp].status == Queued || history[stamp].status.Executing?
  }

  /** No timer is live twice, and no id is given twice. */
  predicate Unique(history: seq<Queueing>) {
    forall i, j | 0 <= i < j < |history| ::
      && (Live(history, i) && Live(history, j) ==> history[i].timer != history[j].timer)
      && (history[i].id == history[j].id ==> history[i].id == 0)
  }

  /** A waiting canceller has seen that no earlier queueing of its target is queued. */
  predicate PcOk(s: Sys, pc: Pc) {
    pc.Waiting? ==> pc.since <= |s.history| && NoneQueued(s.history, pc.target, pc.since)
  }

  predicate NoneQueued(history: seq<Queueing>, target: Target, since: nat) {
    forall st | 0 <= st < since && st < |history|
      && Hits(target, history[st].timer, history[st].id) :: history[st].status != Queued
  }

  predicate Inv(s: Sys) {
    && QueueOk(s.history, s.core.monoQueue, false) && QueueOk(s.history, s.core.realQueue, true)
    && ExecutingOk(s.history, s.core.executing) && Unique(s.history)
    && (forall st | 0 <= st < |s.history| :: StampOk(s, st))
    && (forall thread | thread in s.pcs :: PcOk(s, s.pcs[thread]))
  }

  const Start := Sys(Core(Queue([], 0), Queue([], 0), [], 0), [], map[])

  // ----- every step keeps it -----

  /** A queue after inserting an entry newer than all of its own. */
  lemma InsertKeeps(q: Queue, e: Entry)
    requires Ordered(q.list) && q.due == DueOf(q.list)
    requires forall i | 0 <= i < |q.list| :: q.list[i].stamp < e.stamp
    ensures
      var r := Insert(q, e);
      && Ordered(r.list) && r.due == DueOf(r.list) && |r.list| == |q.list| + 1
      && (forall x :: x in r.list <==> x in q.list || x == e)
  {
    var k := Place(q.list, e.timer.expires);
    var r := Insert(q, e);
    forall x ensures x in r.list <==> x in q.list || x == e {
      assert q.list == q.list[..k] + q.list[k..];
    }
    forall i, j | 0 <= i < j < |r.list| ensures Before(r.list[i], r.list[j]) {
      if j == k {
        assert r.list[i] == q.list[i];
      } else if i == k {
        assert r.list[j] == q.list[j - 1];
        assert k == j - 1 || Before(q.list[k], q.list[j - 1]);
      }
    }
  }

  lemma RemoveKeeps(q: Queue, k: nat)
    requires Ordered(q.list) && q.due == DueOf(q.list) && k < |q.list|
    ensures
      var r := RemoveAt(q, k);
      && Ordered(r.list) && r.due == DueOf(r.list)
      && (forall x :: x in r.list <==> x in q.list && x != q.list[k])
  {
    var r := RemoveAt(q, k);
    forall x ensures x in r.list <==> x in q.list && x != q.list[k] {
      if x in q.list && x != q.list[k] {
        var i :| 0 <= i < |q.list| && q.list[i] == x;
        assert r.list[if i < k then i else i - 1] == x;
      }
      if x in r.list {
        var i :| 0 <= i < |r.list| && r.list[i] == x;
        assert x == q.list[if i < k then i else i + 1];
      }
    }
  }

  lemma AddQueues(s: Sys, timer: Timer, withId: bool)
    requires Inv(s)
    ensures
      var t := AddStep(s, timer, withId);
      var e := EntryOf(t.history, |s.history|);
      && QueueOk(t.history, t.core.monoQueue, false) && QueueOk(t.history, t.core.realQueue, true)
      && ExecutingOk(t.history, t.core.executing)
      && (forall x :: x in t.core.Of(timer.realtime).list <==> x in s.core.Of(timer.realtime).list || x == e)
  {
    var t := AddStep(s, timer, withId);
    var q := s.core.Of(timer.realtime);
    LongerHistory(s.history, t.history, s.core.monoQueue, false);
    LongerHistory(s.history, t.history, s.core.realQueue, true);
    InsertKeeps(q, EntryOf(t.history, |s.history|));
    var r := Insert(q, EntryOf(t.history, |s.history|));
    forall i | 0 <= i < |r.list| ensures QueuedOk(t.history, r.list[i], timer.realtime) {
      assert r.list[i] in r.list;
    }
    forall i | 0 <= i < |s.core.executing| ensures RunningOk(t.history, s.core.executing[i]) {
      assert RunningOk(s.history, s.core.executing[i]);
    }
  }

  lemma LongerHistory(h: seq<Queueing>, longer: seq<Queueing>, q: Queue, realtime: bool)
    requires h <= longer && QueueOk(h, q, realtime)
    ensures QueueOk(longer, q, realtime)
  {
    forall i | 0 <= i < |q.list| ensures QueuedOk(longer, q.list[i], realtime) {
      assert QueuedOk(h, q.list[i], realtime);
    }
  }

  lemma AddUnique(s: Sys, timer: Timer, withId: bool)
    requires Inv(s) && Enabled(s, Add(timer, withId))
    ensures Unique(AddStep(s, timer, withId).history)
  {
    var h := AddStep(s, timer, withId).history;
    forall st | 0 <= st < |s.history|
      ensures (Live(s.history, st) ==> s.history[st].timer != timer) && s.history[st].id <= s.core.idCount
    {
      assert StampOk(s, st);
    }
    forall i, j | 0 <= i < j < |h|
      ensures (Live(h, i) && Live(h, j) ==> h[i].timer != h[j].timer) && (h[i].id == h[j].id ==> h[i].id == 0)
    {
      assert Live(h, i) == Live(s.history, i);
      if j < |s.history| {
        assert Live(h, j) == Live(s.history, j);
      }
    }
  }

  lemma AddInv(s: Sys, timer: Timer, withId: bool)
    requires Inv(s) && Enabled(s, Add(timer, withId))
    ensures Inv(AddStep(s, timer, withId))
  {
    var t := AddStep(s, timer, withId);
    AddQueues(s, timer, withId);
    AddUnique(s, timer, withId);
    forall st | 0 <= st < |t.history| ensures StampOk(t, st) {
      if st < |s.history| {
        assert StampOk(s, st) && EntryOf(t.history, st) == EntryOf(s.history, st);
      }
    }
    forall thread | thread in t.pcs ensures PcOk(t, t.pcs[thread]) {
      assert PcOk(s, s.pcs[thread]);
    }
  }

  // A status that changes, in lists that do not hold the queueing.

  lemma MarkQueue(h: seq<Queueing>, st: nat, status: Status, q: Queue, realtime: bool)
    requires st < |h| && QueueOk(h, q, realtime) && forall i | 0 <= i < |q.list| :: q.list[i].stamp != st
    ensures QueueOk(h[st := h[st].(status := status)], q, realtime)
  {
    forall i | 0 <= i < |q.list| ensures QueuedOk(h[st := h[st].(status := status)], q.list[i], realtime) {
      assert QueuedOk(h, q.list[i], realtime);
    }
  }

  lemma MarkExecuting(h: seq<Queueing>, st: nat, status: Status, list: seq<Entry>)
    requires st < |h| && ExecutingOk(h, list)
    requires status.Executing? || forall i | 0 <= i < |list| :: list[i].stamp != st
    ensures ExecutingOk(h[st := h[st].(status := status)], list)
  {
    forall i | 0 <= i < |list| ensures RunningOk(h[st := h[st].(status := status)], list[i]) {
      assert RunningOk(h, list[i]);
    }
  }

  lemma MarkUnique(h: seq<Queueing>, st: nat, status: Status)
    requires st < |h| && Unique(h) && Live(h, st)
    ensures Unique(h[st := h[st].(status := status)])
  {
    var t := h[st := h[st].(status := status)];
    forall i | 0 <= i < |h| ensures t[i].timer == h[i].timer && t[i].id == h[i].id && (Live(t, i) ==> Live(h, i)) {
    }
    forall i, j | 0 <= i < j < |t|
      ensures (Live(t, i) && Live(t, j) ==> t[i].timer != t[j].timer) && (t[i].id == t[j].id ==> t[i].id == 0)
    {
      assert Live(h, i) && Live(h, j) ==> h[i].timer != h[j].timer;
    }
  }

  lemma MarkPcs(s: Sys, t: Sys, st: nat, status: Status)
    requires st < |s.history| && t.history == s.history[st := s.history[st].(status := status)] && status != Queued
    requires t.pcs == s.pcs && forall thread | thread in s.pcs :: PcOk(s, s.pcs[thread])
    ensures forall thread | thread in t.pcs :: PcOk(t, t.pcs[thread])
  {
    forall thread | thread in t.pcs ensures PcOk(t, t.pcs[thread]) {
      assert PcOk(s, s.pcs[thread]);
    }
  }

  /** The state after entry k of a queue was taken out and marked. */
  function Taken(s: Sys, realtime: bool, k: nat, status: Status, executing: seq<Entry>): Sys
    requires k < |s.core.Of(realtime).list| && s.core.Of(realtime).list[k].stamp < |s.history|
  {
    var q := s.core.Of(realtime);
    s.(core := s.core.With(realtime, RemoveAt(q, k)).(executing := executing)).Mark(q.list[k].stamp, status)
  }

  /** Entries of one history with one stamp are one entry. */
  lemma OtherStamps(h: seq<Queueing>, e: Entry, list: seq<Entry>)
    requires Proper(h, e) && e !in list && forall i | 0 <= i < |list| :: Proper(h, list[i])
    ensures forall i | 0 <= i < |list| :: list[i].stamp != e.stamp
  {
    forall i | 0 <= i < |list| ensures list[i].stamp != e.stamp {
      assert list[i] in list;
    }
  }

  lemma TakenLists(s: Sys, realtime: bool, k: nat, status: Status)
    requires Inv(s) && k < |s.core.Of(realtime).list| && status != Queued
    ensures
      var e := s.core.Of(realtime).list[k];
      var t := Taken(s, realtime, k, status, s.core.executing);
      && QueueOk(t.history, t.core.monoQueue, false) && QueueOk(t.history, t.core.realQueue, true)
      && ExecutingOk(t.history, s.core.executing)
      && (forall i | 0 <= i < |s.core.executing| :: s.core.executing[i].stamp != e.stamp)
      && (forall x :: x in t.core.Of(realtime).list <==> x in s.core.Of(realtime).list && x != e)
  {
    var q, o := s.core.Of(realtime), s.core.Of(!realtime);
    var e := q.list[k];
    assert QueuedOk(s.history, e, realtime);
    RemoveKeeps(q, k);
    var r := RemoveAt(q, k);
    forall i | 0 <= i < |r.list| ensures QueuedOk(s.history, r.list[i], realtime) {
      assert r.list[i] in r.list;
    }
    OtherStamps(s.history, e, r.list);
    MarkQueue(s.history, e.stamp, status, r, realtime);
    forall i | 0 <= i < |o.list| ensures o.list[i].stamp != e.stamp {
      assert QueuedOk(s.history, o.list[i], !realtime);
    }
    MarkQueue(s.history, e.stamp, status, o, !realtime);
    forall i | 0 <= i < |s.core.executing| ensures s.core.executing[i].stamp != e.stamp {
      assert RunningOk(s.history, s.core.executing[i]);
    }
    MarkExecuting(s.history, e.stamp, status, s.core.executing);
  }

  lemma TakenStamps(s: Sys, t: Sys, realtime: bool, k: nat, status: Status, executing: seq<Entry>)
    requires Inv(s) && k < |s.core.Of(realtime).list| && QueuedOk(s.history, s.core.Of(realtime).list[k], realtime)
    requires t == Taken(s, realtime, k, status, executing) && status != Queued
    requires forall x :: x in t.core.Of(realtime).list <==>
                           x in s.core.Of(realtime).list && x != s.core.Of(realtime).list[k]
    requires s.core.executing <= executing && (status.Executing? ==> s.core.Of(realtime).list[k] in executing)
    ensures forall st | 0 <= st < |t.history| :: StampOk(t, st)
  {
    var e := s.core.Of(realtime).list[k];
    assert t.core.Of(!realtime) == s.core.Of(!realtime);
    forall st | 0 <= st < |t.history| ensures StampOk(t, st) {
      assert StampOk(s, st) && EntryOf(t.history, st) == EntryOf(s.history, st);
      if t.history[st].status.Executing? && st != e.stamp {
        assert EntryOf(s.history, st) in s.core.executing;
      }
    }
  }

  /** Taking an entry out of a queue to cancel it or to execute it. */
  lemma TakenInv(s: Sys, realtime: bool, k: nat, status: Status, executing: seq<Entry>)
    requires Inv(s) && k < |s.core.Of(realtime).list|
    requires
      || (status == Status.Cancelled && executing == s.core.executing)
      || (status == Status.Executing(false) && executing == s.core.executing + [s.core.Of(realtime).list[k]])
    ensures QueuedOk(s.history, s.core.Of(realtime).list[k], realtime)
    ensures Inv(Taken(s, realtime, k, status, executing))
  {
    var e := s.core.Of(realtime).list[k];
    assert QueuedOk(s.history, e, realtime);
    var t := Taken(s, realtime, k, status, executing);
    TakenLists(s, realtime, k, status);
    TakenStamps(s, t, realtime, k, status, executing);
    MarkUnique(s.history, e.stamp, status);
    MarkPcs(s, t, e.stamp, status);
    forall i | 0 <= i < |executing| ensures RunningOk(t.history, executing[i]) {
      if i < |s.core.executing| {
        assert RunningOk(t.history, s.core.executing[i]);
      }
    }
  }

  lemma GotoInv(s: Sys, thread: nat, pc: Pc)
    requires Inv(s) && PcOk(s, pc)
    ensures Inv(s.Goto(thread, pc))
  {
    var t := s.Goto(thread, pc);
    forall st | 0 <= st < |t.history| ensures StampOk(t, st) {
      assert StampOk(s, st);
    }
    forall th | th in t.pcs ensures PcOk(t, t.pcs[th]) {
      assert th != thread ==> PcOk(s, s.pcs[th]);
    }
  }

  /** A target that is in no queue has no queueing that is queued. */
  lemma NotLocated(s: Sys, target: Target)
    requires Inv(s) && Locate(s.core, target) == None
    ensures NoneQueued(s.history, target, |s.history|)
  {
    forall st | 0 <= st < |s.history| && Hits(target, s.history[st].timer, s.history[st].id)
      ensures s.history[st].status != Queued
    {
      assert StampOk(s, st);
    }
  }

  lemma RunInv(s: Sys, k: nat)
    requires Inv(s) && Enabled(s, RunCallback(k))
    ensures Inv(s.Mark(s.core.executing[k].stamp, Status.Executing(true)))
  {
    var st := s.core.executing[k].stamp;
    var t := s.Mark(st, Status.Executing(true));
    assert forall i | 0 <= i < |s.core.monoQueue.list| :: QueuedOk(s.history, s.core.monoQueue.list[i], false);
    assert forall i | 0 <= i < |s.core.realQueue.list| :: QueuedOk(s.history, s.core.realQueue.list[i], true);
    MarkQueue(s.history, st, Status.Executing(true), s.core.monoQueue, false);
    MarkQueue(s.history, st, Status.Executing(true), s.core.realQueue, true);
    MarkExecuting(s.history, st, Status.Executing(true), s.core.executing);
    MarkUnique(s.history, st, Status.Executing(true));
    MarkPcs(s, t, st, Status.Executing(true));
    forall i | 0 <= i < |t.history| ensures StampOk(t, i) {
      assert StampOk(s, i) && EntryOf(t.history, i) == EntryOf(s.history, i);
    }
  }

  /** The executing list without entry k. */
  lemma WithoutExecuting(h: seq<Queueing>, list: seq<Entry>, k: nat)
    requires ExecutingOk(h, list) && k < |list|
    ensures
      var rest := Without(list, k);
      && ExecutingOk(h, rest) && (forall i | 0 <= i < |rest| :: rest[i].stamp != list[k].stamp)
      && (forall x | x in list && x != list[k] :: x in rest)
  {
    var rest := Without(list, k);
    forall i | 0 <= i < |rest| ensures RunningOk(h, rest[i]) && rest[i].stamp != list[k].stamp {
      assert rest[i] == list[if i < k then i else i + 1];
    }
    forall x | x in list && x != list[k] ensures x in rest {
      var i :| 0 <= i < |list| && list[i] == x;
      assert rest[if i < k then i else i - 1] == x;
    }
  }

  lemma FinishInv(s: Sys, k: nat)
    requires Inv(s) && Enabled(s, FinishCallback(k))
    ensures Inv(FinishStep(s, k))
  {
    var e := s.core.executing[k];
    var st := e.stamp;
    var t := FinishStep(s, k);
    assert RunningOk(s.history, e);
    WithoutExecuting(s.history, s.core.executing, k);
    assert forall i | 0 <= i < |s.core.monoQueue.list| :: QueuedOk(s.history, s.core.monoQueue.list[i], false);
    assert forall i | 0 <= i < |s.core.realQueue.list| :: QueuedOk(s.history, s.core.realQueue.list[i], true);
    MarkQueue(s.history, st, Status.Finished, s.core.monoQueue, false);
    MarkQueue(s.history, st, Status.Finished, s.core.realQueue, true);
    MarkExecuting(s.history, st, Status.Finished, t.core.executing);
    MarkUnique(s.history, st, Status.Finished);
    MarkPcs(s, t, st, Status.Finished);
    forall i | 0 <= i < |t.history| ensures StampOk(t, i) {
      assert StampOk(s, i) && EntryOf(t.history, i) == EntryOf(s.history, i);
    }
  }

  lemma CancelInv(s: Sys, thread: nat, target: Target)
    requires Inv(s)
    ensures CancelStep(s, thread, target).Done? && Inv(CancelStep(s, thread, target).next)
  {
    match Locate(s.core, target)
    case Some((realtime, k)) => TakenInv(s, realtime, k, Status.Cancelled, s.core.executing);
    case None =>
      NotLocated(s, target);
      CheckInv(s, thread, target, |s.history|);
  }

  lemma CheckInv(s: Sys, thread: nat, target: Target, since: nat)
    requires Inv(s) && PcOk(s, Waiting(target, since))
    ensures CheckExecuting(s, thread, target, since).Done? && Inv(CheckExecuting(s, thread, target, since).next)
  {
    GotoInv(s, thread, Waiting(target, since));
    GotoInv(s, thread, Idle);
  }

  lemma {:induction false} FireInv(s: Sys, thread: nat, realtime: bool, entering: bool, nowMono: int, nowReal: int)
    requires Inv(s)
    ensures
      var r := FireStep(s, thread, realtime, entering, nowMono, nowReal);
      r.Done? && Inv(r.next)
    decreases !realtime
  {
    var q := s.core.Of(realtime);
    var now := if realtime then nowReal else nowMono;
    if q.list != [] && now > q.list[0].timer.expires {
      TakenInv(s, realtime, 0, Status.Executing(false), s.core.executing + [q.list[0]]);
      var t := Taken(s, realtime, 0, Status.Executing(false), s.core.executing + [q.list[0]]);
      GotoInv(t, thread, Firing(realtime));
      assert s.(core := Pop(s.core, realtime)).Mark(q.list[0].stamp, Status.Executing(false)) == t;
    } else if realtime {
      GotoInv(s, thread, Idle);
    } else {
      FireInv(s, thread, true, true, nowMono, nowReal);
    }
  }

  /** Every step from a good state passes its VERIFYs and leaves a good state. */
  lemma StepInv(s: Sys, ev: Event)
    requires Inv(s) && Enabled(s, ev)
    ensures Step(s, ev).Done? && Inv(Step(s, ev).next)
  {
    match ev
    case Add(t, withId) => AddInv(s, t, withId);
    case Cancel(thread, target) => CancelInv(s, thread, target);
    case Recheck(thread) =>
      assert PcOk(s, s.pcs[thread]);
      CheckInv(s, thread, s.PcOf(thread).target, s.PcOf(thread).since);
    case Fire(thread, nowMono, nowReal) => FireInv(s, thread, false, true, nowMono, nowReal);
    case Resume(thread, nowMono, nowReal) => FireInv(s, thread, s.PcOf(thread).realtime, false, nowMono, nowReal);
    case RunCallback(k) => RunInv(s, k);
    case FinishCallback(k) => FinishInv(s, k);
  }

  // ----- whole runs -----

  predicate Feasible(s: Sys, events: seq<Event>)
    decreases |events|
  {
    events == [] || (Enabled(s, events[0])
      && (Step(s, events[0]).Done? ==> Feasible(Step(s, events[0]).next, events[1..])))
  }

  /** The state after a run; None if a VERIFY failed. */
  function After(s: Sys, events: seq<Event>): Option<Sys>
    requires Feasible(s, events)
    decreases |events|
  {
    if events == [] then Some(s)
    else
      match Step(s, events[0])
      case VerifyFailed => None
      case Done(next, _) => After(next, events[1..])
  }

  /** How the status of a queueing can change. */
  predicate Progress(a: Status, b: Status) {
    || a == b
    || a == Queued
    || (a == Status.Executing(false) && (b.Executing? || b == Status.Finished))
    || (a == Status.Executing(true) && b == Status.Finished)
  }

  predicate Forward(h: seq<Queueing>, g: seq<Queueing>) {
    |h| <= |g| && forall st | 0 <= st < |h| ::
      g[st].timer == h[st].timer && g[st].id == h[st].id && Progress(h[st].status, g[st].status)
  }

  lemma {:induction false} FireForward(s: Sys, thread: nat, realtime: bool, entering: bool, nowMono: int, nowReal: int)
    requires Inv(s)
    ensures
      var r := FireStep(s, thread, realtime, entering, nowMono, nowReal);
      r.Done? ==> Forward(s.history, r.next.history) && r.reply == NoReply
    decreases !realtime
  {
    var q := s.core.Of(realtime);
    assert q.list != [] ==> QueuedOk(s.history, q.list[0], realtime);
    if !realtime {
      FireForward(s, thread, true, true, nowMono, nowReal);
    }
  }

  lemma StepForward(s: Sys, ev: Event)
    requires Inv(s) && Enabled(s, ev)
    ensures Step(s, ev).Done? ==> Forward(s.history, Step(s, ev).next.history)
  {
    match ev
    case Cancel(thread, target) =>
      match Locate(s.core, target) {
        case Some((realtime, k)) => assert QueuedOk(s.history, s.core.Of(realtime).list[k], realtime);
        case None =>
      }
    case Fire(thread, nowMono, nowReal) => FireForward(s, thread, false, true, nowMono, nowReal);
    case Resume(thread, nowMono, nowReal) => FireForward(s, thread, s.PcOf(thread).realtime, false, nowMono, nowReal);
    case _ =>
  }

  /** Every run passes its VERIFYs, ends in a good state, and only moves queueings forward. */
  lemma {:induction false} RunSafe(s: Sys, events: seq<Event>)
    requires Inv(s) && Feasible(s, events)
    ensures After(s, events).Some? && Inv(After(s, events).value) && Forward(s.history, After(s, events).value.history)
    decreases |events|
  {
    if events != [] {
      StepInv(s, events[0]);
      StepForward(s, events[0]);
      RunSafe(Step(s, events[0]).next, events[1..]);
    }
  }

  lemma ReachableStates(events: seq<Event>)
    requires Feasible(Start, events)
    ensures After(Start, events).Some? && Inv(After(Start, events).value)
  {
    assert Inv(Start);
    RunSafe(Start, events);
  }

  /** In a good state no timer is twice in the three lists, in particular not in two of them. */
  lemma NoTimerTwice(s: Sys, p: Part, i: nat, q: Part, j: nat)
    requires Inv(s) && i < |EntriesOf(s.core, p)| && j < |EntriesOf(s.core, q)| && (p != q || i != j)
    ensures EntriesOf(s.core, p)[i].timer != EntriesOf(s.core, q)[j].timer
  {
    EntryHere(s, p, i);
    EntryHere(s, q, j);
    if p == q && p != ExecutingPart {
      var list := EntriesOf(s.core, p);
      assert i < j ==> Before(list[i], list[j]);
      assert j < i ==> Before(list[j], list[i]);
    }
  }

  /** What the history says of an entry of one list. */
  lemma EntryHere(s: Sys, p: Part, i: nat)
    requires Inv(s) && i < |EntriesOf(s.core, p)|
    ensures
      var e := EntriesOf(s.core, p)[i];
      if p == ExecutingPart then RunningOk(s.history, e) else QueuedOk(s.history, e, p == RealPart)
  {
  }

  /** A cancel that returns true took a queueing of its target that had not executed, and it never will. */
  lemma CancelledNeverRuns(s: Sys, thread: nat, target: Target, stamp: nat, later: seq<Event>)
    requires Inv(s) && Enabled(s, Cancel(thread, target)) && Step(s, Cancel(thread, target)).Done?
    requires Step(s, Cancel(thread, target)).reply == DidCancel(stamp)
    requires Feasible(Step(s, Cancel(thread, target)).next, later)
    ensures stamp < |s.history| && Hits(target, s.history[stamp].timer, s.history[stamp].id)
    ensures s.history[stamp].status == Queued
    ensures
      var end := After(Step(s, Cancel(thread, target)).next, later);
      end.Some? && stamp < |end.value.history| && end.value.history[stamp].status == Status.Cancelled
  {
    var (realtime, k) := Locate(s.core, target).value;
    assert QueuedOk(s.history, s.core.Of(realtime).list[k], realtime);
    StepInv(s, Cancel(thread, target));
    RunSafe(Step(s, Cancel(thread, target)).next, later);
  }

  /**
    A cancel that returns false: no queueing of the target is executing, whenever it was made, and
    every one made before the call is finished or was cancelled.
   */
  lemma NotCancelledIsOver(s: Sys, ev: Event, target: Target, since: nat, stamp: nat)
    requires Inv(s) && Enabled(s, ev) && Step(s, ev).Done? && Step(s, ev).reply == DidNotCancel(target, since)
    requires stamp < |s.history| && Hits(target, s.history[stamp].timer, s.history[stamp].id)
    ensures !s.history[stamp].status.Executing?
    ensures stamp < since ==> s.history[stamp].status == Status.Finished || s.history[stamp].status == Status.Cancelled
    ensures Step(s, ev).next.history == s.history && Step(s, ev).next.core == s.core
    ensures ev.Cancel? ==> since == |s.history| && target == ev.target
    ensures ev.Recheck? ==> s.PcOf(ev.thread) == Waiting(target, since)
  {
    assert StampOk(s, stamp);
    match ev
    case Cancel(thread, _) => NotLocated(s, target);
    case Recheck(thread) => assert PcOk(s, s.pcs[thread]);
    case Fire(thread, nowMono, nowReal) => FireForward(s, thread, false, true, nowMono, nowReal);
    case Resume(thread, nowMono, nowReal) => FireForward(s, thread, s.PcOf(thread).realtime, false, nowMono, nowReal);
    case _ =>
  }

  /** A callback runs at most once for each queueing. */
  lemma RunsOnce(s: Sys, k: nat, later: seq<Event>, j: nat)
    requires Inv(s) && Enabled(s, RunCallback(k)) && Feasible(Step(s, RunCallback(k)).next, later)
    requires After(Step(s, RunCallback(k)).next, later).Some?
    requires Enabled(After(Step(s, RunCallback(k)).next, later).value, RunCallback(j))
    ensures After(Step(s, RunCallback(k)).next, later).value.core.executing[j].stamp != s.core.executing[k].stamp
  {
    StepInv(s, RunCallback(k));
    RunSafe(Step(s, RunCallback(k)).next, later);
  }

  // ----- which timers start, and when -----

  /** The reading of a clock in a firing step. */
  function Reading(ev: Event, realtime: bool): int
    requires ev.Fire? || ev.Resume?
  {
    if realtime then ev.nowReal else ev.nowMono
  }

  /** The queues a firing step still has to visit: fire both, its continuation from where it stopped. */
  predicate Visits(s: Sys, ev: Event, realtime: bool)
    requires ev.Fire? || ev.Resume?
  {
    ev.Fire? || (s.PcOf(ev.thread).Firing? && (s.PcOf(ev.thread).realtime ==> realtime))
  }

  predicate NoneDue(list: seq<Entry>, now: int) {
    forall i | 0 <= i < |list| :: list[i].timer.expires >= now
  }

  /** In an ordered queue the head is the first to be due. */
  lemma HeadFirst(list: seq<Entry>, now: int)
    requires Ordered(list)
    ensures NoneDue(list, now) <==> list == [] || list[0].timer.expires >= now
  {
    if list != [] && list[0].timer.expires >= now {
      forall i | 0 <= i < |list| ensures list[i].timer.expires >= now {
        assert i == 0 || Before(list[0], list[i]);
      }
    }
  }

  /** The queue whose head a firing step starts; None if no entry that it visits is due. */
  function Starting(s: Sys, realtime: bool, nowMono: int, nowReal: int): Option<bool> {
    if !realtime && !NoneDue(s.core.monoQueue.list, nowMono) then Some(false)
    else if !NoneDue(s.core.realQueue.list, nowReal) then Some(true)
    else None
  }

  lemma {:induction false} FireExact(s: Sys, thread: nat, realtime: bool, entering: bool, nowMono: int, nowReal: int)
    requires Inv(s)
    ensures
      var r := FireStep(s, thread, realtime, entering, nowMono, nowReal);
      && r.Done?
      && match Starting(s, realtime, nowMono, nowReal)
         case None => r.next == s.Goto(thread, Idle)
         case Some(from) =>
           var q := s.core.Of(from).list;
           && q != [] && q[0].stamp < |s.history|
           && r.next == s.(core := Pop(s.core, from)).Mark(q[0].stamp, Status.Executing(false))
                         .Goto(thread, Firing(from))
    decreases !realtime
  {
    FireInv(s, thread, realtime, entering, nowMono, nowReal);
    HeadFirst(s.core.monoQueue.list, nowMono);
    HeadFirst(s.core.realQueue.list, nowReal);
    if !realtime && NoneDue(s.core.monoQueue.list, nowMono) {
      FireExact(s, thread, true, true, nowMono, nowReal);
    }
  }

  /** Whether and where a firing step starts a timer. */
  lemma FiringSteps(s: Sys, ev: Event)
    requires Inv(s) && Enabled(s, ev) && (ev.Fire? || ev.Resume?)
    ensures Step(s, ev).Done?
    ensures Step(s, ev).next.PcOf(ev.thread) == Idle <==>
              forall realtime | Visits(s, ev, realtime) :: NoneDue(s.core.Of(realtime).list, Reading(ev, realtime))
    ensures Step(s, ev).next.PcOf(ev.thread) == Idle ==> Step(s, ev).next.core == s.core
  {
    var first := if ev.Fire? then false else s.PcOf(ev.thread).realtime;
    FireExact(s, ev.thread, first, ev.Fire?, ev.nowMono, ev.nowReal);
    assert Visits(s, ev, true) && (Visits(s, ev, false) <==> !first);
    assert s.core.Of(true) == s.core.realQueue && s.core.Of(false) == s.core.monoQueue;
  }

  lemma OnlyFiringStarts(s: Sys, ev: Event, stamp: nat)
    requires Inv(s) && Enabled(s, ev) && !ev.Fire? && !ev.Resume? && Step(s, ev).Done? && stamp < |s.history|
    requires s.history[stamp].status == Queued
    ensures stamp < |Step(s, ev).next.history| ==> !Step(s, ev).next.history[stamp].status.Executing?
  {
  }

  lemma StartsFrom(s: Sys, thread: nat, realtime: bool, entering: bool, nowMono: int, nowReal: int, stamp: nat)
    requires Inv(s) && stamp < |s.history| && s.history[stamp].status == Queued
    requires
      var r := FireStep(s, thread, realtime, entering, nowMono, nowReal);
      r.Done? && stamp < |r.next.history| && r.next.history[stamp].status.Executing?
    ensures
      var timer := s.history[stamp].timer;
      var q := s.core.Of(timer.realtime).list;
      && (realtime ==> timer.realtime) && timer.expires < (if timer.realtime then nowReal else nowMono)
      && q != [] && q[0] == EntryOf(s.history, stamp)
      && (timer.realtime && !realtime ==> NoneDue(s.core.monoQueue.list, nowMono))
      && FireStep(s, thread, realtime, entering, nowMono, nowReal).next.history ==
         s.history[stamp := s.history[stamp].(status := Status.Executing(false))]
  {
    FireExact(s, thread, realtime, entering, nowMono, nowReal);
    HeadFirst(s.core.monoQueue.list, nowMono);
    HeadFirst(s.core.realQueue.list, nowReal);
    var from := Starting(s, realtime, nowMono, nowReal).value;
    assert QueuedOk(s.history, s.core.Of(from).list[0], from);
  }

  /**
    A queueing starts only in a firing step, only when its own clock has passed its expiry, only
    from the head of its queue, and a realtime one only when no monotonic one that is still to be
    visited is due; nothing else starts with it.
   */
  lemma StartsOnlyDue(s: Sys, ev: Event, stamp: nat)
    requires Inv(s) && Enabled(s, ev) && Step(s, ev).Done? && stamp < |s.history| <= |Step(s, ev).next.history|
    requires s.history[stamp].status == Queued && Step(s, ev).next.history[stamp].status.Executing?
    ensures ev.Fire? || ev.Resume?
    ensures
      var timer := s.history[stamp].timer;
      var q := s.core.Of(timer.realtime).list;
      && Visits(s, ev, timer.realtime) && timer.expires < Reading(ev, timer.realtime)
      && q != [] && q[0] == EntryOf(s.history, stamp)
      && (timer.realtime && Visits(s, ev, false) ==> NoneDue(s.core.monoQueue.list, ev.nowMono))
      && Step(s, ev).next.history == s.history[stamp := s.history[stamp].(status := Status.Executing(false))]
  {
    if ev.Fire? || ev.Resume? {
      var first := if ev.Fire? then false else s.PcOf(ev.thread).realtime;
      StartsFrom(s, ev.thread, first, ev.Fire?, ev.nowMono, ev.nowReal, stamp);
    } else {
      OnlyFiringStarts(s, ev, stamp);
    }
  }

  /** A callback runs and returns: its queueing has run, then is over and executes no more; nothing else changes. */
  lemma CallbackSteps(s: Sys, k: nat)
    requires Inv(s) && Enabled(s, RunCallback(k))
    ensures
      var stamp := s.core.executing[k].stamp;
      var ran := Step(s, RunCallback(k)).next;
      && ran.core == s.core && ran.history == s.history[stamp := s.history[stamp].(status := Status.Executing(true))]
      && Enabled(ran, FinishCallback(k))
      && var over := Step(ran, FinishCallback(k)).next;
         && over.history == s.history[stamp := s.history[stamp].(status := Status.Finished)]
         && (forall e :: e in over.core.executing <==> e in s.core.executing && e.stamp != stamp)
         && over.core.monoQueue == s.core.monoQueue && over.core.realQueue == s.core.realQueue
  {
    assert RunningOk(s.history, s.core.executing[k]);
    var list := s.core.executing;
    forall e ensures e in Without(list, k) <==> e in list && e.stamp != list[k].stamp {
      if e in list && e.stamp != list[k].stamp {
        var i :| 0 <= i < |list| && list[i] == e;
        assert Without(list, k)[if i < k then i else i - 1] == e;
      }
      if e in Without(list, k) {
        var i :| 0 <= i < |list| - 1 && Without(list, k)[i] == e;
        assert e == list[if i < k then i else i + 1];
      }
    }
  }

  // ----- what a canceller finds -----

  /** A new queueing is queued last in the history; its id, if it gets one, was never given before. */
  lemma NewQueueing(s: Sys, timer: Timer, withId: bool)
    requires Inv(s)
    ensures
      var r := AddStep(s, timer, withId);
      && |r.history| == |s.history| + 1 && r.history[..|s.history|] == s.history
      && r.history[|s.history|].timer == timer && r.history[|s.history|].status == Queued
      && r.history[|s.history|].id == NewId(s.core, withId)
      && (withId ==> forall i | 0 <= i < |s.history| :: s.history[i].id != r.history[|s.history|].id)
  {
    forall i | 0 <= i < |s.history| ensures s.history[i].id <= s.core.idCount {
      assert StampOk(s, i);
    }
  }

  /** The queueing is the only one that a canceller can mean. */
  predicate Means(target: Target, queueing: Queueing) {
    match target
    case ByTimer(t) => t == queueing.timer
    case ById(i) => i == queueing.id != 0
  }

  lemma OnlyQueued(s: Sys, target: Target, stamp: nat, realtime: bool, k: nat)
    requires Inv(s) && stamp < |s.history| && s.history[stamp].status == Queued && Means(target, s.history[stamp])
    requires k < |s.core.Of(realtime).list|
    requires Hits(target, s.core.Of(realtime).list[k].timer, s.core.Of(realtime).list[k].id)
    ensures s.core.Of(realtime).list[k] == EntryOf(s.history, stamp)
  {
    var e := s.core.Of(realtime).list[k];
    assert QueuedOk(s.history, e, realtime);
    assert Live(s.history, e.stamp) && Live(s.history, stamp);
  }

  /** Cancelling a queued timer, by itself or by its id, cancels it and nothing else. */
  lemma CancelFinds(s: Sys, thread: nat, target: Target, stamp: nat)
    requires Inv(s) && Enabled(s, Cancel(thread, target))
    requires stamp < |s.history| && s.history[stamp].status == Queued && Means(target, s.history[stamp])
    ensures
      var r := Step(s, Cancel(thread, target));
      && r.Done? && r.reply == DidCancel(stamp)
      && r.next.history == s.history[stamp := s.history[stamp].(status := Status.Cancelled)]
  {
    var e := EntryOf(s.history, stamp);
    assert StampOk(s, stamp);
    var list := s.core.Of(e.timer.realtime).list;
    var k :| 0 <= k < |list| && list[k] == e;
    assert Hits(target, list[k].timer, list[k].id);
    assert IndexOf(list, target) < |list|;
    CancelInv(s, thread, target);
    var (realtime, found) := Locate(s.core, target).value;
    OnlyQueued(s, target, stamp, realtime, found);
  }

  /** A canceller that found nothing queued waits exactly as long as something it means is executing. */
  lemma WaitsExactly(s: Sys, thread: nat, target: Target, since: nat)
    requires Inv(s)
    ensures CheckExecuting(s, thread, target, since).Done?
    ensures CheckExecuting(s, thread, target, since).reply.NoReply? <==>
              exists st | 0 <= st < |s.history| ::
                Hits(target, s.history[st].timer, s.history[st].id) && s.history[st].status.Executing?
  {
    var list := s.core.executing;
    var k := IndexOf(list, target);
    if k < |list| {
      assert RunningOk(s.history, list[k]);
      var st := list[k].stamp;
      assert Hits(target, s.history[st].timer, s.history[st].id);
    } else {
      forall st | 0 <= st < |s.history| && s.history[st].status.Executing?
        ensures !Hits(target, s.history[st].timer, s.history[st].id)
      {
        assert StampOk(s, st);
        var i :| 0 <= i < |list| && list[i] == EntryOf(s.history, st);
      }
    }
  }
}
