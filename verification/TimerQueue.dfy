/**
  TimerQueue (Kernel/TimeQueue.cpp) on linked lists: what the code does while it holds
  g_timerqueue_lock.  The three lists run through the same links of the timers; each method
  takes a queue that shows a state of module TimerRuns to one that shows the state after the
  step, all three lists included.
 */
module TimerQueues {
  import opened Common
  import opened InlineLinkedLists
  import opened TimerRuns

  /** The timers of a list, with their ids, are the entries. */
  ghost predicate Matches(items: seq<Timer>, list: seq<Entry>)
    reads items`id
  {
    |items| == |list| && forall i | 0 <= i < |items| :: list[i].timer == items[i] && list[i].id == items[i].id
  }

  lemma MatchesInsert(items: seq<Timer>, list: seq<Entry>, k: nat, e: Entry)
    requires Matches(items, list) && k <= |items| && e.id == e.timer.id
    ensures Matches(InsertAt(items, k, e.timer), InsertAt(list, k, e))
  {
  }

  lemma MatchesRemove(items: seq<Timer>, list: seq<Entry>, k: nat)
    requires Matches(items, list) && k < |items|
    ensures Matches(Without(items, k), Without(list, k))
  {
  }

  /** A list of timers and next_timer_due. */
  class TimerList {
    const list: InlineLinkedList
    var due: int

    constructor ()
      ensures fresh(list) && Shows(Queue([], 0)) && list.items == []
    {
      list := new InlineLinkedList();
      due := 0;
    }

    ghost predicate Shows(q: Queue)
      reads this, list, list.items`id, list.items`next, list.items`prev
    {
      list.Valid() && due == q.due && Matches(list.items, q.list)
    }

    /** add_timer_locked, once the queue of the timer is known. */
    method AddLocked(timer: Timer, ghost q: Queue, ghost e: Entry)
      requires Shows(q) && timer !in list.items && e.timer == timer && e.id == timer.id
      modifies this`due, list, list.items`next, list.items`prev, timer`next, timer`prev
      ensures Shows(Insert(q, e))
    {
      ghost var items := list.items;
      ghost var k := InsertInOrder(timer);
      PlaceIs(q.list, timer.expires, k);
      MatchesInsert(items, q.list, k, e);
    }

    /** The two branches of add_timer_locked. */
    method InsertInOrder(timer: Timer) returns (ghost k: nat)
      requires list.Valid() && timer !in list.items
      modifies this`due, list, list.items`next, list.items`prev, timer`next, timer`prev
      ensures list.Valid() && k <= |old(list.items)| && list.items == InsertAt(old(list.items), k, timer)
      ensures forall i | 0 <= i < k :: old(list.items)[i].expires <= timer.expires
      ensures k < |old(list.items)| ==> old(list.items)[k].expires > timer.expires
      ensures due == if k == 0 then timer.expires else old(due)
    {
      if list.IsEmpty() {
        list.Append(timer);
        due := timer.expires;
        return 0;
      }
      var following;
      following, k := list.FirstLater(timer.expires);
      if following != null {
        var nextNeedsUpdate := list.head == following;
        list.InsertBefore(following, timer, k);
        if nextNeedsUpdate {
          due := timer.expires;
        }
      } else {
        list.Append(timer);
      }
    }

    /** update_next_timer_due. */
    method UpdateNextTimerDue(ghost entries: seq<Entry>)
      requires list.Valid() && Matches(list.items, entries)
      modifies this`due
      ensures due == DueOf(entries)
    {
      if list.head != null {
        due := list.head.expires;
      } else {
        due := 0;
      }
    }

    /** remove_timer_locked. */
    method RemoveLocked(timer: Timer, ghost q: Queue, ghost k: nat)
      requires Shows(q) && k < |q.list| && list.items[k] == timer
      modifies this`due, list, list.items`next, list.items`prev
      ensures Shows(RemoveAt(q, k)) && list.items == Without(old(list.items), k)
    {
      MatchesRemove(list.items, q.list, k);
      var wasNext := list.head == timer;
      assert wasNext <==> k == 0;
      list.Remove(timer, k);
      if wasNext {
        UpdateNextTimerDue(Without(q.list, k));
      }
    }
  }

  /** Place is the only such index. */
  lemma PlaceIs(list: seq<Entry>, expires: int, k: nat)
    requires k <= |list| && (forall i | 0 <= i < k :: list[i].timer.expires <= expires)
    requires k < |list| ==> list[k].timer.expires > expires
    ensures Place(list, expires) == k
  {
  }

  lemma IndexIs(list: seq<Entry>, target: Target, k: nat)
    requires k <= |list| && (forall i | 0 <= i < k :: !Hits(target, list[i].timer, list[i].id))
    requires k < |list| ==> Hits(target, list[k].timer, list[k].id)
    ensures IndexOf(list, target) == k
  {
  }

  // ----- the three lists together -----

  ghost predicate Apart(a: seq<Timer>, b: seq<Timer>) {
    (forall i | 0 <= i < |a| :: a[i] !in b) && (forall i | 0 <= i < |b| :: b[i] !in a)
  }

  lemma FewerApart(a: seq<Timer>, k: nat, b: seq<Timer>)
    requires k < |a| && Apart(a, b)
    ensures Apart(Without(a, k), b) && a[k] !in b
  {
    forall i | 0 <= i < |Without(a, k)| ensures Without(a, k)[i] !in b {
      assert Without(a, k)[i] == a[if i < k then i else i + 1];
    }
    forall i | 0 <= i < |b| ensures b[i] !in Without(a, k) {
      assert forall j | 0 <= j < |Without(a, k)| :: Without(a, k)[j] == a[if j < k then j else j + 1];
    }
  }

  /** Two queues and the executing list, all different lists. */
  ghost predicate Shown(a: TimerList, b: TimerList, c: InlineLinkedList, q: Queue, r: Queue, running: seq<Entry>)
    reads a, a.list, a.list.items`id, a.list.items`next, a.list.items`prev
    reads b, b.list, b.list.items`id, b.list.items`next, b.list.items`prev
    reads c, c.items`id, c.items`next, c.items`prev
  {
    && a != b && a.list != b.list && a.list != c && b.list != c
    && a.Shows(q) && b.Shows(r) && c.Valid() && Matches(c.items, running)
  }

  /** No two of them share a timer. */
  ghost predicate NoneShared(a: TimerList, b: TimerList, c: InlineLinkedList)
    reads a.list, b.list, c
  {
    Apart(a.list.items, b.list.items) && Apart(a.list.items, c.items) && Apart(b.list.items, c.items)
  }

  /** A list whose links did not change is as good as before. */
  twostate lemma Untouched(l: InlineLinkedList)
    requires old(l.Valid()) && unchanged(l)
    requires forall i | 0 <= i < |l.items| ::
               l.items[i].next == old(l.items[i].next) && l.items[i].prev == old(l.items[i].prev)
    ensures l.Valid()
  {
    forall i | 0 <= i < |l.items| ensures l.LinkedAt(i) {
      assert old(l.LinkedAt(i));
    }
  }

  /** Giving an id to a timer that is in no list changes none of them. */
  method NumberBeside(timer: Timer, id: nat, a: TimerList, b: TimerList, c: InlineLinkedList,
                      ghost q: Queue, ghost r: Queue, ghost running: seq<Entry>)
    requires Shown(a, b, c, q, r, running)
    requires timer !in a.list.items && timer !in b.list.items && timer !in c.items
    modifies timer`id
    ensures Shown(a, b, c, q, r, running) && timer.id == id
  {
    timer.id := id;
    Untouched(a.list);
    Untouched(b.list);
    Untouched(c);
  }

  /** Adding to one of the queues leaves the other two lists alone. */
  method AddBeside(timer: Timer, a: TimerList, b: TimerList, c: InlineLinkedList,
                   ghost q: Queue, ghost r: Queue, ghost running: seq<Entry>, ghost e: Entry)
    requires Shown(a, b, c, q, r, running) && NoneShared(a, b, c) && e.timer == timer && e.id == timer.id
    requires timer !in a.list.items && timer !in b.list.items && timer !in c.items
    modifies a`due, a.list, a.list.items`next, a.list.items`prev, timer`next, timer`prev
    ensures Shown(a, b, c, Insert(q, e), r, running)
  {
    a.AddLocked(timer, q, e);
    Untouched(b.list);
    Untouched(c);
  }

  /** Both in turn. */
  method AddNewBeside(timer: Timer, id: nat, a: TimerList, b: TimerList, c: InlineLinkedList,
                      ghost q: Queue, ghost r: Queue, ghost running: seq<Entry>, ghost stamp: nat)
    requires Shown(a, b, c, q, r, running) && NoneShared(a, b, c)
    requires timer !in a.list.items && timer !in b.list.items && timer !in c.items
    modifies timer`id, a`due, a.list, a.list.items`next, a.list.items`prev, timer`next, timer`prev
    ensures Shown(a, b, c, Insert(q, Entry(timer, id, stamp)), r, running)
  {
    NumberBeside(timer, id, a, b, c, q, r, running);
    AddBeside(timer, a, b, c, q, r, running, Entry(timer, id, stamp));
  }

  /** So does removing. */
  method RemoveBeside(timer: Timer, a: TimerList, b: TimerList, c: InlineLinkedList,
                      ghost q: Queue, ghost r: Queue, ghost running: seq<Entry>, ghost k: nat)
    requires Shown(a, b, c, q, r, running) && NoneShared(a, b, c)
    requires k < |q.list| && a.list.items[k] == timer
    modifies a`due, a.list, a.list.items`next, a.list.items`prev
    ensures Shown(a, b, c, RemoveAt(q, k), r, running)
    ensures NoneShared(a, b, c) && timer !in a.list.items && timer !in b.list.items && timer !in c.items
  {
    WithoutOne(a.list.items, k);
    FewerApart(a.list.items, k, b.list.items);
    FewerApart(a.list.items, k, c.items);
    a.RemoveLocked(timer, q, k);
    Untouched(b.list);
    Untouched(c);
  }

  /** The executing list takes a timer that is in no list. */
  method StartBeside(timer: Timer, a: TimerList, b: TimerList, c: InlineLinkedList,
                     ghost q: Queue, ghost r: Queue, ghost running: seq<Entry>, ghost e: Entry)
    requires Shown(a, b, c, q, r, running) && NoneShared(a, b, c) && e.timer == timer && e.id == timer.id
    requires timer !in a.list.items && timer !in b.list.items && timer !in c.items
    modifies c, c.items`next, timer`next, timer`prev
    ensures Shown(a, b, c, q, r, running + [e])
  {
    c.Append(timer);
    Untouched(a.list);
    Untouched(b.list);
  }

  /** The body of the loop in fire_timers: the head of a queue starts executing. */
  method FireBeside(timer: Timer, a: TimerList, b: TimerList, c: InlineLinkedList,
                    ghost q: Queue, ghost r: Queue, ghost running: seq<Entry>)
    requires Shown(a, b, c, q, r, running) && NoneShared(a, b, c) && q.list != [] && a.list.items[0] == timer
    modifies a`due, a.list, a.list.items`next, a.list.items`prev, c, c.items`next
    ensures Shown(a, b, c, RemoveAt(q, 0), r, running + [q.list[0]])
  {
    RemoveBeside(timer, a, b, c, q, r, running, 0);
    StartBeside(timer, a, b, c, RemoveAt(q, 0), r, running, q.list[0]);
  }

  /** The end of a deferred callback. */
  method FinishBeside(timer: Timer, a: TimerList, b: TimerList, c: InlineLinkedList,
                      ghost q: Queue, ghost r: Queue, ghost running: seq<Entry>, ghost k: nat)
    requires Shown(a, b, c, q, r, running) && NoneShared(a, b, c)
    requires k < |running| && c.items[k] == timer
    modifies c, c.items`next, c.items`prev
    ensures Shown(a, b, c, q, r, Without(running, k))
  {
    MatchesRemove(c.items, running, k);
    c.Remove(timer, k);
    Untouched(a.list);
    Untouched(b.list);
  }

  lemma AddedParts(core: Core, timer: Timer, withId: bool, stamp: nat)
    ensures
      var count := if withId then core.idCount + 1 else core.idCount;
      var after := Added(core, timer, withId, stamp);
      && after.Of(timer.realtime) == Insert(core.Of(timer.realtime), Entry(timer, if withId then count else 0, stamp))
      && after.Of(!timer.realtime) == core.Of(!timer.realtime) && after.executing == core.executing
      && after.idCount == count
  {
  }

  function Removed(core: Core, realtime: bool, k: nat): Core
    requires k < |core.Of(realtime).list|
  {
    core.With(realtime, RemoveAt(core.Of(realtime), k))
  }

  lemma CancelCore(s: Sys, thread: nat, target: Target)
    requires Inv(s) && Enabled(s, Cancel(thread, target)) && Locate(s.core, target).Some?
    ensures
      var (realtime, k) := Locate(s.core, target).value;
      var r := Step(s, Cancel(thread, target));
      && k < |s.core.Of(realtime).list| && r.Done? && r.reply.DidCancel?
      && r.next.core == Removed(s.core, realtime, k)
  {
    StepInv(s, Cancel(thread, target));
  }

  /** Lists that show the lists of a good state share no timer. */
  lemma ItemsApart(s: Sys, p: Part, a: seq<Timer>, q: Part, b: seq<Timer>)
    requires Inv(s) && p != q && Matches(a, EntriesOf(s.core, p)) && Matches(b, EntriesOf(s.core, q))
    ensures Apart(a, b)
  {
    forall i, j | 0 <= i < |a| && 0 <= j < |b| ensures a[i] != b[j] {
      NoTimerTwice(s, p, i, q, j);
    }
  }

  ghost predicate AllFrom(history: seq<Queueing>, timers: set<Timer>) {
    forall st | 0 <= st < |history| :: history[st].timer in timers
  }

  ghost predicate AddsFrom(events: seq<Event>, timers: set<Timer>) {
    forall i | 0 <= i < |events| && events[i].Add? :: events[i].timer in timers
  }

  lemma {:induction false} FireFrom(s: Sys, thread: nat, realtime: bool, entering: bool, nowMono: int, nowReal: int,
                                    timers: set<Timer>)
    requires AllFrom(s.history, timers)
    ensures
      var r := FireStep(s, thread, realtime, entering, nowMono, nowReal);
      r.Done? ==> AllFrom(r.next.history, timers)
    decreases !realtime
  {
    if !realtime {
      FireFrom(s, thread, true, true, nowMono, nowReal, timers);
    }
  }

  /** Steps bring in no timer but those that are added. */
  lemma StepFrom(s: Sys, ev: Event, timers: set<Timer>)
    requires Enabled(s, ev) && AllFrom(s.history, timers) && (ev.Add? ==> ev.timer in timers)
    ensures Step(s, ev).Done? ==> AllFrom(Step(s, ev).next.history, timers)
  {
    match ev
    case Fire(thread, nowMono, nowReal) => FireFrom(s, thread, false, true, nowMono, nowReal, timers);
    case Resume(thread, nowMono, nowReal) =>
      FireFrom(s, thread, s.PcOf(thread).realtime, false, nowMono, nowReal, timers);
    case _ =>
  }

  class TimerQueue {
    const monoQueue: TimerList
    const realQueue: TimerList
    const executing: InlineLinkedList
    var idCount: nat

    constructor ()
      ensures Shows(Start) && fresh(Repr())
    {
      monoQueue := new TimerList();
      realQueue := new TimerList();
      executing := new InlineLinkedList();
      idCount := 0;
    }

    /** The queues, the lists and the timers in them. */
    ghost function Repr(): set<object>
      reads this, monoQueue.list, realQueue.list, executing
    {
      {monoQueue, realQueue, monoQueue.list, realQueue.list, executing}
      + (set t | t in monoQueue.list.items) + (set t | t in realQueue.list.items) + (set t | t in executing.items)
    }

    ghost predicate ShowsCore(core: Core)
      reads this, Repr()
    {
      Shown(monoQueue, realQueue, executing, core.monoQueue, core.realQueue, core.executing) && idCount == core.idCount
    }

    /** The three linked lists, the due times and the id counter are those of a good state. */
    ghost predicate Shows(s: Sys)
      reads this, Repr()
    {
      ShowsCore(s.core) && Inv(s)
    }

    function QueueFor(realtime: bool): TimerList { if realtime then realQueue else monoQueue }

    ghost predicate IsAt(timer: Timer, realtime: bool, k: nat)
      reads QueueFor(realtime).list
    {
      k < |QueueFor(realtime).list.items| && QueueFor(realtime).list.items[k] == timer
    }

    /** The same seen from one of the two queues. */
    ghost predicate ShownFrom(realtime: bool, core: Core)
      reads this, Repr()
    {
      Shown(QueueFor(realtime), QueueFor(!realtime), executing, core.Of(realtime), core.Of(!realtime), core.executing)
    }

    lemma Turned(realtime: bool, core: Core)
      ensures ShownFrom(realtime, core) <==> Shown(monoQueue, realQueue, executing, core.monoQueue, core.realQueue,
        core.executing)
    {
    }

    lemma NoneInTwo(s: Sys, realtime: bool)
      requires Shows(s)
      ensures ShownFrom(realtime, s.core) && NoneShared(QueueFor(realtime), QueueFor(!realtime), executing)
    {
      Turned(realtime, s.core);
      ItemsApart(s, MonoPart, monoQueue.list.items, RealPart, realQueue.list.items);
      ItemsApart(s, MonoPart, monoQueue.list.items, ExecutingPart, executing.items);
      ItemsApart(s, RealPart, realQueue.list.items, ExecutingPart, executing.items);
    }

    /** The step was taken without a failing VERIFY, and the lists show where it led. */
    ghost predicate ShowsNext(r: Outcome)
      reads this, Repr()
    {
      r.Done? && Shows(r.next)
    }

    lemma Arrived(s: Sys, ev: Event, core: Core)
      requires Inv(s) && Enabled(s, ev) && (Step(s, ev).Done? ==> Step(s, ev).next.core == core) && ShowsCore(core)
      ensures ShowsNext(Step(s, ev))
    {
      StepInv(s, ev);
    }

    /** A timer that no list of the state holds is in no linked list. */
    lemma InNoList(s: Sys, timer: Timer, withId: bool)
      requires Shows(s) && Enabled(s, Add(timer, withId))
      ensures timer !in monoQueue.list.items && timer !in realQueue.list.items && timer !in executing.items
    {
    }

    /** add_timer, or add_timer_without_id once the deadline is in the future: the id of the new queueing. */
    method AddTimer(timer: Timer, withId: bool, ghost s: Sys) returns (id: nat)
      requires Shows(s) && Enabled(s, Add(timer, withId))
      modifies this`idCount, timer`id, timer`next, timer`prev
      modifies QueueFor(timer.realtime)`due, QueueFor(timer.realtime).list
      modifies QueueFor(timer.realtime).list.items`next, QueueFor(timer.realtime).list.items`prev
      ensures ShowsNext(Step(s, Add(timer, withId)))
      ensures id == NewId(s.core, withId)
    {
      NoneInTwo(s, timer.realtime);
      InNoList(s, timer, withId);
      id := AddToCore(timer, withId, s.core, |s.history|);
      Arrived(s, Add(timer, withId), Added(s.core, timer, withId, |s.history|));
    }

    method AddToCore(timer: Timer, withId: bool, ghost core: Core, ghost stamp: nat) returns (id: nat)
      requires ShownFrom(timer.realtime, core) && idCount == core.idCount
      requires NoneShared(QueueFor(timer.realtime), QueueFor(!timer.realtime), executing)
      requires timer !in monoQueue.list.items && timer !in realQueue.list.items && timer !in executing.items
      modifies this`idCount, timer`id, timer`next, timer`prev
      modifies QueueFor(timer.realtime)`due, QueueFor(timer.realtime).list
      modifies QueueFor(timer.realtime).list.items`next, QueueFor(timer.realtime).list.items`prev
      ensures ShowsCore(Added(core, timer, withId, stamp))
      ensures id == NewId(core, withId)
    {
      if withId {
        idCount := idCount + 1;
      }
      id := if withId then idCount else 0;
      AddNewBeside(timer, id, QueueFor(timer.realtime), QueueFor(!timer.realtime), executing,
                   core.Of(timer.realtime), core.Of(!timer.realtime), core.executing, stamp);
      AddedParts(core, timer, withId, stamp);
      Turned(timer.realtime, Added(core, timer, withId, stamp));
    }

    /** remove_timer_locked on behalf of a canceller. */
    method RemoveFound(timer: Timer, realtime: bool, ghost s: Sys, ghost k: nat, ghost thread: nat,
                       ghost target: Target)
      requires Shows(s) && Enabled(s, Cancel(thread, target)) && Locate(s.core, target) == Some((realtime, k))
      requires IsAt(timer, realtime, k)
      modifies QueueFor(realtime)`due, QueueFor(realtime).list
      modifies QueueFor(realtime).list.items`next, QueueFor(realtime).list.items`prev
      ensures ShowsNext(Step(s, Cancel(thread, target))) && Step(s, Cancel(thread, target)).reply.DidCancel?
    {
      NoneInTwo(s, realtime);
      CancelCore(s, thread, target);
      RemoveFromCore(timer, realtime, s.core, k);
      Arrived(s, Cancel(thread, target), Removed(s.core, realtime, k));
    }

    method RemoveFromCore(timer: Timer, realtime: bool, ghost core: Core, ghost k: nat)
      requires ShownFrom(realtime, core) && idCount == core.idCount
      requires NoneShared(QueueFor(realtime), QueueFor(!realtime), executing)
      requires k < |core.Of(realtime).list| && IsAt(timer, realtime, k)
      modifies QueueFor(realtime)`due, QueueFor(realtime).list
      modifies QueueFor(realtime).list.items`next, QueueFor(realtime).list.items`prev
      ensures ShowsCore(Removed(core, realtime, k))
    {
      RemoveBeside(timer, QueueFor(realtime), QueueFor(!realtime), executing,
                   core.Of(realtime), core.Of(!realtime), core.executing, k);
      Turned(realtime, Removed(core, realtime, k));
    }

    /** What a canceller that found nothing in the queues does. */
    lemma NotQueued(s: Sys, thread: nat, target: Target)
      requires Shows(s) && Enabled(s, Cancel(thread, target)) && Locate(s.core, target) == None
      ensures
        var r := Step(s, Cancel(thread, target));
        && ShowsNext(r) && !r.reply.DidCancel?
        && (r.reply.NoReply? <==> IndexOf(s.core.executing, target) < |s.core.executing|)
    {
      Arrived(s, Cancel(thread, target), s.core);
    }

    method FindTimer(timer: Timer, ghost core: Core) returns (found: bool, ghost k: nat)
      requires ShowsCore(core)
      ensures Locate(core, ByTimer(timer)) == if found then Some((timer.realtime, k)) else None
      ensures found ==> IsAt(timer, timer.realtime, k)
      ensures ShowsCore(core)
    {
      found, k := QueueFor(timer.realtime).list.ContainsSlow(timer);
      IndexIs(core.Of(timer.realtime).list, ByTimer(timer), if found then k else |core.Of(timer.realtime).list|);
    }

    method FindId(id: nat, ghost core: Core) returns (timer: Timer?, realtime: bool, ghost k: nat)
      requires ShowsCore(core)
      ensures Locate(core, ById(id)) == if timer != null then Some((realtime, k)) else None
      ensures timer != null ==> IsAt(timer, realtime, k)
      ensures ShowsCore(core)
    {
      timer, k := monoQueue.list.FirstWithId(id);
      IndexIs(core.monoQueue.list, ById(id), k);
      if timer != null {
        return timer, false, k;
      }
      timer, k := realQueue.list.FirstWithId(id);
      IndexIs(core.realQueue.list, ById(id), k);
      return timer, true, k;
    }

    /** cancel_timer(Timer&) up to the point where it returns or starts to wait. */
    method CancelTimer(timer: Timer, ghost thread: nat, ghost s: Sys) returns (cancelled: bool, waits: bool)
      requires Shows(s) && Enabled(s, Cancel(thread, ByTimer(timer)))
      modifies QueueFor(timer.realtime)`due, QueueFor(timer.realtime).list
      modifies QueueFor(timer.realtime).list.items`next, QueueFor(timer.realtime).list.items`prev
      ensures
        var r := Step(s, Cancel(thread, ByTimer(timer)));
        ShowsNext(r) && (cancelled <==> r.reply.DidCancel?) && (waits <==> r.reply.NoReply?)
    {
      ghost var k;
      cancelled, k := FindTimer(timer, s.core);
      if cancelled {
        RemoveFound(timer, timer.realtime, s, k, thread, ByTimer(timer));
        return true, false;
      }
      waits := IsExecuting(ByTimer(timer), s.core);
      NotQueued(s, thread, ByTimer(timer));
    }

    /** cancel_timer(TimerId) up to that point: both queues are searched, then the executing list. */
    method CancelTimerById(id: nat, ghost thread: nat, ghost s: Sys) returns (cancelled: bool, waits: bool)
      requires Shows(s) && Enabled(s, Cancel(thread, ById(id)))
      modifies monoQueue`due, monoQueue.list, monoQueue.list.items`next, monoQueue.list.items`prev
      modifies realQueue`due, realQueue.list, realQueue.list.items`next, realQueue.list.items`prev
      ensures
        var r := Step(s, Cancel(thread, ById(id)));
        ShowsNext(r) && (cancelled <==> r.reply.DidCancel?) && (waits <==> r.reply.NoReply?)
    {
      var timer, realtime;
      ghost var k;
      timer, realtime, k := FindId(id, s.core);
      if timer != null {
        RemoveFound(timer, realtime, s, k, thread, ById(id));
        return true, false;
      }
      waits := IsExecuting(ById(id), s.core);
      NotQueued(s, thread, ById(id));
      return false, waits;
    }

    /** The condition of the loop in which a canceller waits. */
    method IsExecuting(target: Target, ghost core: Core) returns (found: bool)
      requires ShowsCore(core)
      ensures found <==> IndexOf(core.executing, target) < |core.executing|
      ensures ShowsCore(core)
    {
      ghost var k;
      match target
      case ByTimer(timer) =>
        found, k := executing.ContainsSlow(timer);
        IndexIs(core.executing, target, if found then k else |executing.items|);
      case ById(id) =>
        var timer;
        timer, k := executing.FirstWithId(id);
        IndexIs(core.executing, target, k);
        found := timer != null;
    }

    /** The same condition again, after the lock was released for a while. */
    method Recheck(target: Target, ghost thread: nat, ghost s: Sys) returns (waits: bool)
      requires Shows(s) && Enabled(s, TimerRuns.Recheck(thread)) && s.PcOf(thread).target == target
      ensures
        var r := Step(s, TimerRuns.Recheck(thread));
        ShowsNext(r) && (waits <==> r.reply.NoReply?) && (!waits <==> r.reply.DidNotCancel?)
    {
      waits := IsExecuting(target, s.core);
      Arrived(s, TimerRuns.Recheck(thread), s.core);
    }

    /** After the head of a queue has started. */
    lemma Fired(s: Sys, thread: nat, realtime: bool, entering: bool, nowMono: int, nowReal: int)
      requires Inv(s) && s.core.Of(realtime).list != [] && ShowsCore(Pop(s.core, realtime))
      requires (if realtime then nowReal else nowMono) > s.core.Of(realtime).list[0].timer.expires
      ensures
        var r := FireStep(s, thread, realtime, entering, nowMono, nowReal);
        ShowsNext(r) && r.next.PcOf(thread) == Firing(realtime)
    {
      FireInv(s, thread, realtime, entering, nowMono, nowReal);
    }

    lemma NoneFired(s: Sys, thread: nat, entering: bool, nowMono: int, nowReal: int)
      requires Shows(s)
      requires s.core.realQueue.list == [] || nowReal <= s.core.realQueue.list[0].timer.expires
      ensures
        var r := FireStep(s, thread, true, entering, nowMono, nowReal);
        ShowsNext(r) && r.next.PcOf(thread) == Idle
    {
      FireInv(s, thread, true, entering, nowMono, nowReal);
    }

    /**
      fire, or its continuation after a timer was handed to the deferred calls: up to the next
      release of the lock.  Where the thread is then: still firing a queue, or done.
     */
    method FireSection(realtime: bool, entering: bool, nowMono: int, nowReal: int, ghost thread: nat, ghost s: Sys)
      returns (firing: Option<bool>)
      requires Shows(s)
      modifies monoQueue`due, monoQueue.list, monoQueue.list.items`next, monoQueue.list.items`prev
      modifies realQueue`due, realQueue.list, realQueue.list.items`next, realQueue.list.items`prev
      modifies executing, executing.items`next
      ensures
        var r := FireStep(s, thread, realtime, entering, nowMono, nowReal);
        ShowsNext(r) && r.next.PcOf(thread) == if firing.Some? then Firing(firing.value) else Idle
      decreases !realtime
    {
      var queue := QueueFor(realtime);
      var timer := queue.list.head;
      if entering && timer != null {
        assert queue.due == timer.expires;
      }
      if timer != null && (if realtime then nowReal else nowMono) > timer.expires {
        NoneInTwo(s, realtime);
        FireFromCore(timer, realtime, s.core);
        Fired(s, thread, realtime, entering, nowMono, nowReal);
        return Some(realtime);
      }
      if realtime {
        NoneFired(s, thread, entering, nowMono, nowReal);
        return None;
      }
      firing := FireSection(true, true, nowMono, nowReal, thread, s);
    }

    method FireFromCore(timer: Timer, realtime: bool, ghost core: Core)
      requires ShownFrom(realtime, core) && idCount == core.idCount
      requires NoneShared(QueueFor(realtime), QueueFor(!realtime), executing)
      requires core.Of(realtime).list != [] && IsAt(timer, realtime, 0)
      modifies QueueFor(realtime)`due, QueueFor(realtime).list
      modifies QueueFor(realtime).list.items`next, QueueFor(realtime).list.items`prev, executing, executing.items`next
      ensures ShowsCore(Pop(core, realtime))
    {
      FireBeside(timer, QueueFor(realtime), QueueFor(!realtime), executing,
                 core.Of(realtime), core.Of(!realtime), core.executing);
      Turned(realtime, Pop(core, realtime));
    }

    /** The end of a deferred callback, which holds on to its timer. */
    method FinishCallback(timer: Timer, ghost k: nat, ghost s: Sys)
      requires Shows(s) && Enabled(s, TimerRuns.FinishCallback(k)) && s.core.executing[k].timer == timer
      modifies executing, executing.items`next, executing.items`prev
      ensures ShowsNext(Step(s, TimerRuns.FinishCallback(k)))
    {
      NoneInTwo(s, false);
      FinishBeside(timer, monoQueue, realQueue, executing, s.core.monoQueue, s.core.realQueue, s.core.executing, k);
      Arrived(s, TimerRuns.FinishCallback(k), s.core.(executing := Without(s.core.executing, k)));
    }

    /** Running a callback changes no list. */
    lemma CallbackShows(s: Sys, k: nat)
      requires Shows(s) && Enabled(s, RunCallback(k))
      ensures ShowsNext(Step(s, RunCallback(k)))
    {
      Arrived(s, RunCallback(k), s.core);
    }

    lemma ItemsFrom(s: Sys, timers: set<Timer>)
      requires Shows(s) && AllFrom(s.history, timers)
      ensures forall t | t in monoQueue.list.items || t in realQueue.list.items || t in executing.items :: t in timers
    {
      forall p: Part, i: nat | i < |EntriesOf(s.core, p)| ensures EntriesOf(s.core, p)[i].timer in timers {
        EntryHere(s, p, i);
      }
      assert forall i | 0 <= i < |monoQueue.list.items| ::
        monoQueue.list.items[i] == EntriesOf(s.core, MonoPart)[i].timer;
      assert forall i | 0 <= i < |realQueue.list.items| ::
        realQueue.list.items[i] == EntriesOf(s.core, RealPart)[i].timer;
      assert forall i | 0 <= i < |executing.items| :: executing.items[i] == EntriesOf(s.core, ExecutingPart)[i].timer;
    }

    /** Any one step.  The state says where the threads are and which timer a callback holds. */
    method Perform(ev: Event, s: Sys, ghost timers: set<Timer>)
      requires Shows(s) && Enabled(s, ev) && AllFrom(s.history, timers) && (ev.Add? ==> ev.timer in timers)
      modifies this`idCount, monoQueue`due, realQueue`due, monoQueue.list, realQueue.list, executing, timers
      ensures ShowsNext(Step(s, ev))
    {
      ItemsFrom(s, timers);
      match ev
      case Add(timer, withId) => var _ := AddTimer(timer, withId, s);
      case Cancel(thread, ByTimer(timer)) => var _, _ := CancelTimer(timer, thread, s);
      case Cancel(thread, ById(id)) => var _, _ := CancelTimerById(id, thread, s);
      case Recheck(thread) => var _ := Recheck(s.PcOf(thread).target, thread, s);
      case Fire(thread, nowMono, nowReal) => var _ := FireSection(false, true, nowMono, nowReal, thread, s);
      case Resume(thread, nowMono, nowReal) =>
        var _ := FireSection(s.PcOf(thread).realtime, false, nowMono, nowReal, thread, s);
      case RunCallback(k) => CallbackShows(s, k);
      case FinishCallback(k) => FinishCallback(s.core.executing[k].timer, k, s);
    }

    /** A whole run: no VERIFY fails, and the three lists show the state that the run leads to. */
    method RunFrom(s: Sys, events: seq<Event>, ghost timers: set<Timer>)
      requires Shows(s) && Feasible(s, events) && AllFrom(s.history, timers) && AddsFrom(events, timers)
      modifies this`idCount, monoQueue`due, realQueue`due, monoQueue.list, realQueue.list, executing, timers
      ensures After(s, events).Some? && Shows(After(s, events).value)
      decreases |events|
    {
      if events != [] {
        Perform(events[0], s, timers);
        StepFrom(s, events[0], timers);
        RunFrom(Step(s, events[0]).next, events[1..], timers);
      }
    }
  }

  /** Every run from an empty queue, over timers of which nothing is known. */
  method Run(events: seq<Event>, ghost timers: set<Timer>) returns (q: TimerQueue)
    requires Feasible(Start, events) && AddsFrom(events, timers)
    modifies timers
    ensures After(Start, events).Some? && q.Shows(After(Start, events).value)
  {
    q := new TimerQueue();
    q.RunFrom(Start, events, timers);
  }
}
