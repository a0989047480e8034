/**
  AK/Weakable.h and AK/RefCounted.h as a protocol: any number of threads copy, drop and
  upgrade references to one object, one atomic operation at a time, in any order.
  Memory is sequentially consistent and counters do not overflow.  The link itself stays
  allocated: every caller of strong_ref holds a RefPtr to it.
 */
module WeakLinks {
  import opened Common

  type Thread = nat

  /** Where a thread is between two atomic operations. */
  datatype Counter =
    | Idle
    // WeakLink::strong_ref
    | LoadPtr
    | LoadCount
    | TryRef(expected: nat)
    | Leave
    // RefCounted::unref after the count reached zero, then ~Weakable and WeakLink::revoke
    | Revoke
    | Spin(current: nat)
    | ClearPtr
    | Free

  datatype Action =
    | Upgrade  // strong_ref()
    | Copy     // ref() through a reference the thread owns
    | Drop     // unref() of a reference the thread owns
    | Give(to: Thread) // moving a reference the thread owns to another thread
    | Continue // the next operation of the call in progress

  datatype State = State(
    count: nat,                // m_ref_count
    consumers: nat,            // m_consumers: twice the callers inside, plus the revocation bit
    ptr: bool,                 // m_ptr is not null
    destroyed: nat,            // how often the object's memory was released
    owned: multiset<Thread>,   // who owns counted references
    destroyer: Option<Thread>, // who is running the destructor (bookkeeping only)
    pc: map<Thread, Counter>
  )

  datatype Outcome = Ok(s: State) | VerifyFailed | UseAfterFree

  ghost predicate Initial(s: State, creator: Thread) {
    && s.count == 1 && s.consumers == 0 && s.ptr && s.destroyed == 0
    && creator in s.pc && s.owned == multiset{creator} && s.destroyer == None
    && forall t | t in s.pc :: s.pc[t] == Idle
  }

  function At(s: State, t: Thread, c: Counter): State {
    s.(pc := s.pc[t := c])
  }

  /** One atomic operation of thread `t`; an action that is not possible here changes nothing. */
  function Exec(s: State, t: Thread, a: Action): Outcome {
    if t !in s.pc then Ok(s)
    else match a
      case Upgrade =>
        if s.pc[t] != Idle then Ok(s)
        else if s.consumers % 2 == 0 then Ok(At(s.(consumers := s.consumers + 2), t, LoadPtr))
        else Ok(At(s.(consumers := s.consumers + 2), t, Leave))
      case Copy =>
        if s.pc[t] != Idle || t !in s.owned then Ok(s)
        else if s.destroyed > 0 then UseAfterFree
        else if s.count == 0 then VerifyFailed
        else Ok(s.(count := s.count + 1, owned := s.owned + multiset{t}))
      case Drop =>
        if s.pc[t] != Idle || t !in s.owned then Ok(s)
        else if s.destroyed > 0 then UseAfterFree
        else if s.count == 0 then VerifyFailed
        else
          var s' := s.(count := s.count - 1, owned := s.owned - multiset{t});
          Ok(if s'.count == 0 then At(s'.(destroyer := Some(t)), t, Revoke) else s')
      case Give(to) =>
        if s.pc[t] != Idle || t !in s.owned || to !in s.pc then Ok(s)
        else Ok(s.(owned := s.owned - multiset{t} + multiset{to}))
      case Continue => Resume(s, t)
  }

  function Resume(s: State, t: Thread): Outcome
    requires t in s.pc
  {
    match s.pc[t]
    case Idle => Ok(s)
    case LoadPtr => Ok(At(s, t, if s.ptr then LoadCount else Leave))
    case LoadCount =>
      if s.destroyed > 0 then UseAfterFree else Ok(At(s, t, TryRef(s.count)))
    case TryRef(expected) =>
      if expected == 0 then Ok(At(s, t, Leave))
      else if s.destroyed > 0 then UseAfterFree
      else if s.count == expected then
        Ok(At(s.(count := s.count + 1, owned := s.owned + multiset{t}), t, Leave))
      else Ok(At(s, t, TryRef(s.count)))
    case Leave =>
      if s.consumers < 2 then VerifyFailed else Ok(At(s.(consumers := s.consumers - 2), t, Idle))
    case Revoke =>
      if s.destroyed > 0 then UseAfterFree
      else if s.consumers % 2 == 1 then VerifyFailed
      else Ok(At(s.(consumers := s.consumers + 1), t, Spin(s.consumers)))
    case Spin(current) =>
      Ok(At(s, t, if current > 0 then Spin(s.consumers - s.consumers % 2) else ClearPtr))
    case ClearPtr => Ok(At(s.(ptr := false), t, Free))
    case Free =>
      if s.destroyed > 0 then UseAfterFree
      else if s.count != 0 then VerifyFailed
      else Ok(At(s.(destroyed := s.destroyed + 1, destroyer := None), t, Idle))
  }

  datatype Event = Event(t: Thread, a: Action)

  function Run(s: State, events: seq<Event>): Outcome
    decreases |events|
  {
    if events == [] then Ok(s)
    else
      match Exec(s, events[0].t, events[0].a)
      case Ok(s') => Run(s', events[1..])
      case bad => bad
  }

  // ----- the invariant -----

  predicate Inside(c: Counter) {
    c.LoadPtr? || c.LoadCount? || c.TryRef? || c.Leave?
  }

  /** Inside strong_ref and entitled to look at the object. */
  predicate Looking(c: Counter) {
    c.LoadPtr? || c.LoadCount? || c.TryRef?
  }

  predicate Destroying(c: Counter) {
    c.Revoke? || c.Spin? || c.ClearPtr? || c.Free?
  }

  /** The destructor has seen that nobody is looking any more. */
  predicate Drained(c: Counter) {
    (c.Spin? && c.current == 0) || c.ClearPtr? || c.Free?
  }

  ghost function Consumers(pc: map<Thread, Counter>): set<Thread> {
    set t | t in pc && Inside(pc[t])
  }

  ghost predicate PointerInv(s: State) {
    !s.ptr <==> s.destroyed > 0 || (s.destroyer.Some? && s.destroyer.value in s.pc && s.pc[s.destroyer.value] == Free)
  }

  ghost predicate Inv(s: State) {
    && s.count == |s.owned|
    && s.consumers / 2 == |Consumers(s.pc)|
    // one destructor at most, run once, and only after the last reference went
    && (forall t | t in s.pc :: Destroying(s.pc[t]) <==> s.destroyer == Some(t))
    && (s.destroyer.Some? ==> s.destroyer.value in s.pc)
    && s.destroyed == (if s.count == 0 && s.destroyer == None then 1 else 0)
    && (s.destroyer.Some? ==> s.count == 0)
    // the revocation bit
    && (s.consumers % 2 == 1 <==> s.count == 0 && !(s.destroyer.Some? && s.pc[s.destroyer.value] == Revoke))
    // the pointer is cleared by the destructor and by nobody else
    && PointerInv(s)
    // a count once seen as zero is zero
    && (forall t | t in s.pc :: s.pc[t] == TryRef(0) ==> s.count == 0)
    // nobody looks once the destructor has drained the link
    && (GoneQuiet(s) ==> forall t | t in s.pc :: !Looking(s.pc[t]))
  }

  ghost predicate GoneQuiet(s: State)
    requires s.destroyer.Some? ==> s.destroyer.value in s.pc
  {
    s.destroyed > 0 || (s.destroyer.Some? && Drained(s.pc[s.destroyer.value]))
  }

  lemma ConsumersUpdate(pc: map<Thread, Counter>, t: Thread, c: Counter)
    requires t in pc
    ensures |Consumers(pc[t := c])| ==
            |Consumers(pc)| + (if Inside(c) then 1 else 0) - (if Inside(pc[t]) then 1 else 0)
  {
    var rest := Consumers(pc) - {t};
    assert Consumers(pc[t := c]) == if Inside(c) then rest + {t} else rest;
    assert Consumers(pc) == if Inside(pc[t]) then rest + {t} else rest;
  }

  /** There is an initial state for any threads. */
  lemma InitialExists(threads: set<Thread>, creator: Thread)
    requires creator in threads
    ensures Initial(State(1, 0, true, 0, multiset{creator}, None, map t | t in threads :: Idle), creator)
  {
  }

  lemma InitialInv(s: State, creator: Thread)
    requires Initial(s, creator)
    ensures Inv(s)
  {
    assert Consumers(s.pc) == {};
  }

  lemma ConsumersEmpty(pc: map<Thread, Counter>)
    ensures |Consumers(pc)| == 0 <==> forall t | t in pc :: !Inside(pc[t])
  {
    if |Consumers(pc)| == 0 {
      forall t | t in pc ensures !Inside(pc[t]) {
        assert t !in Consumers(pc);
      }
    } else {
      var t :| t in Consumers(pc);
    }
  }

  lemma UpgradeInv(s: State, t: Thread)
    requires Inv(s) && t in s.pc && s.pc[t] == Idle
    ensures Exec(s, t, Upgrade).Ok? && Inv(Exec(s, t, Upgrade).s)
  {
    ConsumersUpdate(s.pc, t, if s.consumers % 2 == 0 then LoadPtr else Leave);
  }

  lemma DropInv(s: State, t: Thread)
    requires Inv(s) && t in s.pc && s.pc[t] == Idle && t in s.owned
    ensures Exec(s, t, Drop).Ok? && Inv(Exec(s, t, Drop).s)
  {
    ConsumersUpdate(s.pc, t, Revoke);
  }

  lemma LookInv(s: State, t: Thread)
    requires Inv(s) && t in s.pc && Inside(s.pc[t])
    ensures Resume(s, t).Ok? && Inv(Resume(s, t).s)
  {
    assert t in Consumers(s.pc);
    if s.pc[t] == Leave {
      LeaveInv(s, t);
    } else {
      StayInv(s, t);
    }
  }

  lemma LeaveInv(s: State, t: Thread)
    requires Inv(s) && t in s.pc && s.pc[t] == Leave && t in Consumers(s.pc)
    ensures Resume(s, t).Ok? && Inv(Resume(s, t).s)
  {
    ConsumersUpdate(s.pc, t, Idle);
  }

  /** The steps inside strong_ref other than the last. */
  lemma StayInv(s: State, t: Thread)
    requires Inv(s) && t in s.pc && Looking(s.pc[t])
    ensures Resume(s, t).Ok? && Inv(Resume(s, t).s)
  {
    ConsumersUpdate(s.pc, t, Resume(s, t).s.pc[t]);
  }

  lemma DestroyInv(s: State, t: Thread)
    requires Inv(s) && t in s.pc && Destroying(s.pc[t])
    ensures Resume(s, t).Ok? && Inv(Resume(s, t).s)
  {
    ConsumersEmpty(s.pc);
    ConsumersUpdate(s.pc, t, Resume(s, t).s.pc[t]);
  }

  /** No operation, by any thread in any reachable state, fails a VERIFY or touches freed memory. */
  lemma StepInv(s: State, t: Thread, a: Action)
    requires Inv(s)
    ensures Exec(s, t, a).Ok? && Inv(Exec(s, t, a).s)
  {
    if t in s.pc {
      if a == Upgrade && s.pc[t] == Idle {
        UpgradeInv(s, t);
      } else if a == Drop && s.pc[t] == Idle && t in s.owned {
        DropInv(s, t);
      } else if a == Continue && Inside(s.pc[t]) {
        LookInv(s, t);
      } else if a == Continue && Destroying(s.pc[t]) {
        DestroyInv(s, t);
      }
    }
  }

  // ----- whole runs -----

  /** Every interleaving: no failed VERIFY, no access to freed memory, and the invariant at the end. */
  lemma {:induction false} RunSafe(s: State, events: seq<Event>)
    requires Inv(s)
    ensures Run(s, events).Ok? && Inv(Run(s, events).s)
    decreases |events|
  {
    if events != [] {
      StepInv(s, events[0].t, events[0].a);
      RunSafe(Exec(s, events[0].t, events[0].a).s, events[1..]);
    }
  }

  /** A count that reached zero never rises again, and the object is released at most once. */
  lemma {:induction false} ZeroIsFinal(s: State, events: seq<Event>)
    requires Inv(s) && s.count == 0
    ensures Run(s, events).Ok?
    ensures Run(s, events).s.count == 0 && Run(s, events).s.owned == multiset{}
    ensures s.destroyed <= Run(s, events).s.destroyed <= 1
    decreases |events|
  {
    if events != [] {
      StepInv(s, events[0].t, events[0].a);
      ZeroIsFinal(Exec(s, events[0].t, events[0].a).s, events[1..]);
    }
  }

  /** From the creation of the object on: what every reachable state looks like. */
  lemma ReachableStates(s: State, creator: Thread, events: seq<Event>)
    requires Initial(s, creator)
    ensures Run(s, events).Ok?
    ensures
      var r := Run(s, events).s;
      && r.count == |r.owned|
      && r.destroyed <= 1
      && (r.destroyed == 1 ==> r.count == 0 && !r.ptr && forall t | t in r.pc :: !Looking(r.pc[t]))
      && (r.count == 0 && (forall t | t in r.pc :: r.pc[t] == Idle) ==> r.destroyed == 1)
  {
    InitialInv(s, creator);
    RunSafe(s, events);
    PointerCleared(s, events);
  }

  lemma PointerCleared(s: State, events: seq<Event>)
    requires Inv(s)
    ensures Run(s, events).Ok? && PointerInv(Run(s, events).s)
  {
    RunSafe(s, events);
  }

  // ----- the destructor can always finish -----

  lemma {:induction false} RunConcat(s: State, a: seq<Event>, b: seq<Event>)
    requires Run(s, a).Ok?
    ensures Run(s, a + b) == Run(Run(s, a).s, b)
    decreases |a|
  {
    if a == [] {
      assert a + b == b;
    } else {
      assert (a + b)[1..] == a[1..] + b;
      RunConcat(Exec(s, a[0].t, a[0].a).s, a[1..], b);
    }
  }

  lemma RunOne(s: State, t: Thread)
    requires t in s.pc && Resume(s, t).Ok?
    ensures Run(s, [Event(t, Continue)]) == Resume(s, t)
  {
    assert [Event(t, Continue)][1..] == [];
  }

  function Remaining(c: Counter): nat {
    match c
    case LoadPtr => 5
    case LoadCount => 4
    case TryRef(e) => if e != 0 then 3 else 2
    case Leave => 1
    case Revoke => 5
    case Spin(n) => if n > 0 then 4 else 3
    case ClearPtr => 2
    case Free => 1
    case Idle => 0
  }

  /** Once the count is zero a caller inside strong_ref leaves within five of its own steps. */
  lemma {:induction false} LeaveOne(s: State, t: Thread) returns (events: seq<Event>)
    requires Inv(s) && s.count == 0 && t in s.pc && Inside(s.pc[t])
    ensures Run(s, events).Ok? && Inv(Run(s, events).s) && Run(s, events).s.count == 0
    ensures |Consumers(Run(s, events).s.pc)| < |Consumers(s.pc)|
    decreases Remaining(s.pc[t])
  {
    LookInv(s, t);
    RunOne(s, t);
    var next := Resume(s, t).s;
    ConsumersUpdate(s.pc, t, next.pc[t]);
    if s.pc[t] == Leave {
      events := [Event(t, Continue)];
    } else {
      var more := LeaveOne(next, t);
      events := [Event(t, Continue)] + more;
      RunConcat(s, [Event(t, Continue)], more);
    }
  }

  lemma {:induction false} DestroyerFinishes(s: State) returns (events: seq<Event>)
    requires Inv(s) && s.destroyer.Some? && Consumers(s.pc) == {}
    ensures Run(s, events).Ok? && Run(s, events).s.destroyed == 1
    decreases Remaining(s.pc[s.destroyer.value])
  {
    var t := s.destroyer.value;
    DestroyInv(s, t);
    RunOne(s, t);
    var next := Resume(s, t).s;
    ConsumersUpdate(s.pc, t, next.pc[t]);
    events := [Event(t, Continue)];
    if s.pc[t] != Free {
      var more := DestroyerFinishes(next);
      RunConcat(s, events, more);
      events := events + more;
    }
  }

  /** Whatever has happened, once the count is zero some continuation releases the object. */
  lemma {:induction false} CanFinish(s: State) returns (events: seq<Event>)
    requires Inv(s) && s.count == 0
    ensures Run(s, events).Ok? && Run(s, events).s.destroyed == 1
    decreases |Consumers(s.pc)|
  {
    if s.destroyed == 1 {
      events := [];
    } else if Consumers(s.pc) == {} {
      events := DestroyerFinishes(s);
    } else {
      var t :| t in Consumers(s.pc);
      var first := LeaveOne(s, t);
      var more := CanFinish(Run(s, first).s);
      RunConcat(s, first, more);
      events := first + more;
    }
  }

  // ----- who owns references -----

  /** A caller that owns a reference: ref adds one, unref takes one, and handing on moves one. */
  lemma OwnerSteps(s: State, t: Thread, u: Thread)
    requires Inv(s) && t in s.pc && s.pc[t] == Idle && t in s.owned && u in s.pc
    ensures
      var copied, dropped, given := Exec(s, t, Copy).s, Exec(s, t, Drop).s, Exec(s, t, Give(u)).s;
      && copied.owned == s.owned + multiset{t} && copied.count == s.count + 1
      && dropped.owned == s.owned - multiset{t} && dropped.count == s.count - 1
      && given.owned == s.owned - multiset{t} + multiset{u} && given.count == s.count
  {
  }

  /** The step hands a reference to t. */
  predicate GivesTo(s: State, e: Event, t: Thread) {
    e.a == Give(t) && e.t != t && e.t in s.owned && t in s.pc && e.t in s.pc && s.pc[e.t] == Idle
  }

  lemma ResumeKeeps(s: State, u: Thread, t: Thread)
    requires u in s.pc && u != t && Resume(s, u).Ok?
    ensures Resume(s, u).s.owned[t] == s.owned[t]
    ensures t in s.pc ==> t in Resume(s, u).s.pc && Resume(s, u).s.pc[t] == s.pc[t]
  {
  }

  /** What the other threads do to the references of t. */
  lemma OthersGive(s: State, e: Event, t: Thread)
    requires e.t != t && Exec(s, e.t, e.a).Ok?
    ensures Exec(s, e.t, e.a).s.owned[t] == s.owned[t] + if GivesTo(s, e, t) then 1 else 0
    ensures t in s.pc ==> t in Exec(s, e.t, e.a).s.pc && Exec(s, e.t, e.a).s.pc[t] == s.pc[t]
  {
    if e.t in s.pc && e.a == Continue {
      ResumeKeeps(s, e.t, t);
    }
  }

  /** A step inside strong_ref takes a reference when it stops looking at a live object, and otherwise none. */
  lemma OwnStep(s: State, t: Thread)
    requires Inv(s) && t in s.pc && Inside(s.pc[t])
    ensures Resume(s, t).Ok? && Inv(Resume(s, t).s)
    ensures
      var next := Resume(s, t).s;
      var more := if Looking(s.pc[t]) && !Looking(next.pc[t]) && s.count > 0 then 1 else 0;
      && (next.pc[t] == Idle || Inside(next.pc[t])) && (next.pc[t] == Idle ==> s.pc[t] == Leave)
      && s.consumers >= 2
      && next == s.(count := s.count + more, owned := s.owned[t := s.owned[t] + more],
                    consumers := if next.pc[t] == Idle then s.consumers - 2 else s.consumers,
                    pc := s.pc[t := next.pc[t]])
  {
    LookInv(s, t);
    assert t in Consumers(s.pc);
    assert s.owned[t := s.owned[t] + 1] == s.owned + multiset{t};
    assert s.owned[t := s.owned[t]] == s.owned;
  }

  function GivenTo(s: State, events: seq<Event>, t: Thread): nat
    decreases |events|
  {
    if events == [] then 0
    else
      (if GivesTo(s, events[0], t) then 1 else 0)
      + match Exec(s, events[0].t, events[0].a)
        case Ok(s') => GivenTo(s', events[1..], t)
        case _ => 0
  }

  /** The call that t is in returns with the last of the events, whatever the others do meanwhile. */
  predicate Returns(s: State, events: seq<Event>, t: Thread)
    decreases |events|
  {
    && t in s.pc
    && if events == [] then s.pc[t] == Idle
       else
         && s.pc[t] != Idle && Exec(s, events[0].t, events[0].a).Ok?
         && Returns(Exec(s, events[0].t, events[0].a).s, events[1..], t)
  }

  lemma BusyStays(s: State, t: Thread, a: Action)
    requires t in s.pc && s.pc[t] != Idle && a != Continue
    ensures Exec(s, t, a) == Ok(s)
  {
  }

  /** One step of any thread while t is inside strong_ref. */
  lemma StepGains(s: State, e: Event, t: Thread)
    requires Inv(s) && t in s.pc && Inside(s.pc[t])
    ensures Exec(s, e.t, e.a).Ok? && Inv(Exec(s, e.t, e.a).s)
    ensures
      var next := Exec(s, e.t, e.a).s;
      && t in next.pc && (next.pc[t] == Idle || Inside(next.pc[t])) && (next.pc[t] == Idle ==> s.pc[t] == Leave)
      && (Looking(next.pc[t]) ==> Looking(s.pc[t]))
      && next.owned[t] == s.owned[t] + (if GivesTo(s, e, t) then 1 else 0)
                          + if Looking(s.pc[t]) && !Looking(next.pc[t]) && s.count > 0 then 1 else 0
  {
    StepInv(s, e.t, e.a);
    if e.t != t {
      OthersGive(s, e, t);
    } else if e.a != Continue {
      BusyStays(s, t, e.a);
    } else {
      OwnStep(s, t);
    }
  }

  lemma {:induction false} CallGains(s: State, events: seq<Event>, t: Thread)
    requires Inv(s) && t in s.pc && Inside(s.pc[t]) && Returns(s, events, t)
    ensures Run(s, events).Ok?
    ensures
      var r := Run(s, events).s;
      r.owned[t] == s.owned[t] + GivenTo(s, events, t) + if Looking(s.pc[t]) && r.count > 0 then 1 else 0
    decreases |events|
  {
    StepGains(s, events[0], t);
    RunSafe(s, events);
    if s.count == 0 {
      ZeroIsFinal(s, events);
    }
    var next := Exec(s, events[0].t, events[0].a).s;
    if next.pc[t] != Idle {
      CallGains(next, events[1..], t);
    }
  }

  /**
    strong_ref among any steps of the other threads: apart from what they hand to it, the caller
    gets one reference if the object is still alive when it returns, and none otherwise.
   */
  lemma StrongRefGives(s: State, events: seq<Event>, t: Thread)
    requires Inv(s) && t in s.pc && s.pc[t] == Idle && Returns(Exec(s, t, Upgrade).s, events, t)
    ensures Run(s, [Event(t, Upgrade)] + events).Ok?
    ensures
      var r := Run(s, [Event(t, Upgrade)] + events).s;
      r.owned[t] == s.owned[t] + GivenTo(Exec(s, t, Upgrade).s, events, t) + if r.count > 0 then 1 else 0
  {
    var next := Exec(s, t, Upgrade).s;
    UpgradeInv(s, t);
    assert ([Event(t, Upgrade)] + events)[1..] == events;
    CallGains(next, events, t);
    if s.count == 0 {
      ZeroIsFinal(next, events);
    }
  }

  /** n operations of t with nobody else running. */
  function Alone(t: Thread, n: nat): seq<Event> {
    if n == 0 then [] else [Event(t, Continue)] + Alone(t, n - 1)
  }

  function Left(s: State, c: Counter): nat {
    match c
    case LoadPtr => 5
    case LoadCount => 4
    case TryRef(e) => if e == 0 then 1 else if e == s.count then 2 else 3
    case Leave => 0
    case _ => 0
  }

  lemma {:induction false} AloneFrom(s: State, t: Thread) returns (n: nat)
    requires Inv(s) && t in s.pc && Inside(s.pc[t])
    ensures Returns(s, Alone(t, n), t) && s.consumers >= 2
    ensures
      var more := if Looking(s.pc[t]) && s.count > 0 then 1 else 0;
      Run(s, Alone(t, n)) == Ok(s.(count := s.count + more, owned := s.owned[t := s.owned[t] + more],
                                   consumers := s.consumers - 2, pc := s.pc[t := Idle]))
    decreases Left(s, s.pc[t])
  {
    OwnStep(s, t);
    var next := Resume(s, t).s;
    if next.pc[t] == Idle {
      n := 1;
      assert Alone(t, 1)[1..] == [];
    } else {
      var k := AloneFrom(next, t);
      n := k + 1;
      assert Alone(t, n)[1..] == Alone(t, k);
    }
  }

  /** strong_ref on its own: one reference more if the object is alive, and nothing else changes. */
  lemma StrongRefAlone(s: State, t: Thread) returns (n: nat)
    requires Inv(s) && t in s.pc && s.pc[t] == Idle
    ensures Returns(Exec(s, t, Upgrade).s, Alone(t, n), t)
    ensures
      Run(s, [Event(t, Upgrade)] + Alone(t, n)) ==
      Ok(if s.count > 0 then s.(count := s.count + 1, owned := s.owned + multiset{t}) else s)
  {
    UpgradeInv(s, t);
    n := AloneFrom(Exec(s, t, Upgrade).s, t);
    assert ([Event(t, Upgrade)] + Alone(t, n))[1..] == Alone(t, n);
    assert s.pc[t := Exec(s, t, Upgrade).s.pc[t]][t := Idle] == s.pc;
    assert s.owned[t := s.owned[t] + 1] == s.owned + multiset{t};
    assert s.owned[t := s.owned[t]] == s.owned;
  }
}
