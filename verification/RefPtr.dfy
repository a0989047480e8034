/**
  AK/RefPtr.h as a protocol: any number of threads copy, move, assign and clear RefPtr
  objects (here: slots) that they share, one atomic operation at a time, in any order.
  Memory is sequentially consistent and counters do not overflow.
 */
module RefPtrs {
  import opened Common

  type Thread = nat
  type Slot = nat
  /** The address of an object; once the object is deleted, a new one can get it. */
  type Obj = nat

  /** m_bits: a pointer and the lock bit; `locker` is who set the bit. */
  datatype Bits = Bits(ptr: Option<Obj>, locker: Option<Thread>)

  datatype Status = Live | Dying(killer: Thread) | Deleted

  datatype Object = Object(count: nat, status: Status)

  /** Where a thread is between two atomic operations. */
  datatype Counter =
    | Idle
    // add_ref_raw(src): lock, ref, unlock
    | Lock(src: Slot, dst: Slot)
    | Ref(src: Slot, dst: Slot, bits: Option<Obj>)
    | Unlock(src: Slot, dst: Slot, bits: Option<Obj>)
    // leak_ref_raw(src): exchange with null
    | LeakLoad(src: Slot, dst: Slot)
    | LeakSwap(src: Slot, dst: Slot, expected: Option<Obj>)
    // assign_raw(dst, bits): exchange, then unref what was there
    | AssignLoad(dst: Slot, bits: Option<Obj>)
    | AssignSwap(dst: Slot, bits: Option<Obj>, expected: Option<Obj>)
    | Unref(prev: Option<Obj>)
    | Delete(obj: Obj)

  datatype Action =
    | Create(obj: Obj, dst: Slot)  // dst = adopt_ref(*new T)
    | Copy(src: Slot, dst: Slot)   // dst = src
    | Move(src: Slot, dst: Slot)   // dst = move(src)
    | Clear(dst: Slot)             // dst = nullptr
    | Continue                     // the next operation of the call in progress

  datatype State = State(slots: map<Slot, Bits>, objs: map<Obj, Object>, pc: map<Thread, Counter>)

  datatype Outcome = Ok(s: State) | VerifyFailed | UseAfterFree

  ghost predicate Initial(s: State) {
    && s.objs == map[]
    && (forall x | x in s.slots :: s.slots[x] == Bits(None, None))
    && (forall t | t in s.pc :: s.pc[t] == Idle)
  }

  function At(s: State, t: Thread, c: Counter): State {
    s.(pc := s.pc[t := c])
  }

  predicate Vacant(s: State, o: Obj) { o in s.objs ==> s.objs[o].status == Deleted }

  /** The start of a call; a call that is not possible here changes nothing. */
  function Exec(s: State, t: Thread, a: Action): Outcome {
    if t !in s.pc then Ok(s)
    else if a == Continue then Resume(s, t)
    else if s.pc[t] != Idle || a.dst !in s.slots then Ok(s)
    else match a
      case Create(o, dst) =>
        if !Vacant(s, o) then Ok(s)
        else Ok(At(s.(objs := s.objs[o := Object(1, Live)]), t, AssignLoad(dst, Some(o))))
      case Copy(src, dst) =>
        if src !in s.slots || src == dst then Ok(s) else Ok(At(s, t, Lock(src, dst)))
      case Move(src, dst) =>
        if src !in s.slots || src == dst then Ok(s) else Ok(At(s, t, LeakLoad(src, dst)))
      case Clear(dst) => Ok(At(s, t, AssignLoad(dst, None)))
  }

  /** RefCounted::ref on the object behind `bits`, if any. */
  function AddRef(s: State, bits: Option<Obj>): Outcome {
    if bits == None then Ok(s)
    else if bits.value !in s.objs || s.objs[bits.value].status == Deleted then UseAfterFree
    else
      var o := s.objs[bits.value];
      if o.count == 0 then VerifyFailed
      else Ok(s.(objs := s.objs[bits.value := o.(count := o.count + 1)]))
  }

  /** RefCounted::unref, up to the decision to delete. */
  function DropRef(s: State, t: Thread, prev: Option<Obj>): Outcome {
    if prev == None then Ok(At(s, t, Idle))
    else if prev.value !in s.objs || s.objs[prev.value].status == Deleted then UseAfterFree
    else
      var o := s.objs[prev.value];
      if o.count == 0 then VerifyFailed
      else if o.count == 1 then Ok(At(s.(objs := s.objs[prev.value := Object(0, Dying(t))]), t, Delete(prev.value)))
      else Ok(At(s.(objs := s.objs[prev.value := o.(count := o.count - 1)]), t, Idle))
  }

  /** compare_exchange_strong(expected, new): it succeeds only on the expected pointer with the lock bit clear. */
  predicate SwapSucceeds(s: State, x: Slot, expected: Option<Obj>) {
    x in s.slots && s.slots[x] == Bits(expected, None)
  }

  function PtrAt(s: State, x: Slot): Option<Obj> {
    if x in s.slots then s.slots[x].ptr else None
  }

  function Resume(s: State, t: Thread): Outcome
    requires t in s.pc
  {
    match s.pc[t]
    case Idle => Ok(s)
    case Lock(src, dst) =>
      if src in s.slots && s.slots[src].locker == None
      then Ok(At(s.(slots := s.slots[src := Bits(s.slots[src].ptr, Some(t))]), t, Ref(src, dst, s.slots[src].ptr)))
      else Ok(s)
    case Ref(src, dst, bits) =>
      var r := AddRef(s, bits);
      if r.Ok? then Ok(At(r.s, t, Unlock(src, dst, bits))) else r
    case Unlock(src, dst, bits) =>
      Ok(At(s.(slots := s.slots[src := Bits(bits, None)]), t, AssignLoad(dst, bits)))
    case LeakLoad(src, dst) => Ok(At(s, t, LeakSwap(src, dst, PtrAt(s, src))))
    case LeakSwap(src, dst, expected) =>
      if SwapSucceeds(s, src, expected)
      then Ok(At(s.(slots := s.slots[src := Bits(None, None)]), t, AssignLoad(dst, expected)))
      else Ok(At(s, t, LeakSwap(src, dst, PtrAt(s, src))))
    case AssignLoad(dst, bits) => Ok(At(s, t, AssignSwap(dst, bits, PtrAt(s, dst))))
    case AssignSwap(dst, bits, expected) =>
      if SwapSucceeds(s, dst, expected)
      then Ok(At(s.(slots := s.slots[dst := Bits(bits, None)]), t, Unref(expected)))
      else Ok(At(s, t, AssignSwap(dst, bits, PtrAt(s, dst))))
    case Unref(prev) => DropRef(s, t, prev)
    case Delete(o) =>
      if o !in s.objs || s.objs[o].status == Deleted then UseAfterFree
      else if s.objs[o].count != 0 then VerifyFailed
      else Ok(At(s.(objs := s.objs[o := Object(0, Deleted)]), t, Idle))
  }

  datatype Event = Event(t: Thread, a: Action)

  function Run(s: State, events: seq<Event>): Outcome
    decreases |events|
  {
    if events == [] then Ok(s)
    else
      match Exec(s, events[0].t, events[0].a)
      case Ok(s') => Run(s', events[1..])
      case bad => bad
  }

  // ----- where the references are -----

  /** The reference a thread carries between two slots. */
  function InFlight(c: Counter): Option<Obj> {
    match c
    case Unlock(_, _, bits) => bits
    case AssignLoad(_, bits) => bits
    case AssignSwap(_, bits, _) => bits
    case Unref(prev) => prev
    case _ => None
  }

  ghost function SlotRefs(slots: map<Slot, Bits>, o: Obj): set<Slot> {
    set x | x in slots && slots[x].ptr == Some(o)
  }

  ghost function ThreadRefs(pc: map<Thread, Counter>, o: Obj): set<Thread> {
    set t | t in pc && InFlight(pc[t]) == Some(o)
  }

  ghost function Refs(s: State, o: Obj): nat {
    |SlotRefs(s.slots, o)| + |ThreadRefs(s.pc, o)|
  }

  function One(p: Option<Obj>, o: Obj): nat {
    if p == Some(o) then 1 else 0
  }

  lemma SlotWrite(slots: map<Slot, Bits>, x: Slot, b: Bits, o: Obj)
    requires x in slots
    ensures |SlotRefs(slots[x := b], o)| == |SlotRefs(slots, o)| + One(b.ptr, o) - One(slots[x].ptr, o)
  {
    var rest := SlotRefs(slots, o) - {x};
    assert SlotRefs(slots[x := b], o) == if b.ptr == Some(o) then rest + {x} else rest;
    assert SlotRefs(slots, o) == if slots[x].ptr == Some(o) then rest + {x} else rest;
  }

  lemma ThreadMoves(pc: map<Thread, Counter>, t: Thread, c: Counter, o: Obj)
    requires t in pc
    ensures |ThreadRefs(pc[t := c], o)| == |ThreadRefs(pc, o)| + One(InFlight(c), o) - One(InFlight(pc[t]), o)
  {
    var rest := ThreadRefs(pc, o) - {t};
    assert ThreadRefs(pc[t := c], o) == if InFlight(c) == Some(o) then rest + {t} else rest;
    assert ThreadRefs(pc, o) == if InFlight(pc[t]) == Some(o) then rest + {t} else rest;
  }

  // ----- the invariant -----

  /** The slot whose lock bit the thread has set. */
  function Locked(c: Counter): Option<Slot> {
    match c
    case Ref(src, _, _) => Some(src)
    case Unlock(src, _, _) => Some(src)
    case _ => None
  }

  predicate Known(s: State, p: Option<Obj>) {
    p == None || p.value in s.objs
  }

  /** A thread's own view agrees with the slots and the objects. */
  ghost predicate ThreadOk(s: State, t: Thread)
    requires t in s.pc
  {
    var c := s.pc[t];
    && Known(s, InFlight(c))
    && (Locked(c).Some? ==>
        Locked(c).value in s.slots && s.slots[Locked(c).value] == Bits(c.bits, Some(t)))
    && (c.Lock? || c.Ref? || c.Unlock? || c.LeakLoad? || c.LeakSwap? ==> c.src in s.slots && c.dst in s.slots)
    && (c.AssignLoad? || c.AssignSwap? ==> c.dst in s.slots)
    && (c.Delete? ==> c.obj in s.objs && s.objs[c.obj].status == Dying(t))
  }

  ghost predicate SlotOk(s: State, x: Slot)
    requires x in s.slots
  {
    && Known(s, s.slots[x].ptr)
    && (s.slots[x].locker.Some? ==>
        s.slots[x].locker.value in s.pc && Locked(s.pc[s.slots[x].locker.value]) == Some(x))
  }

  ghost predicate ObjOk(s: State, o: Obj)
    requires o in s.objs
  {
    && s.objs[o].count == Refs(s, o)
    && (s.objs[o].count > 0 <==> s.objs[o].status == Live)
    && (s.objs[o].status.Dying? ==> s.objs[o].status.killer in s.pc && s.pc[s.objs[o].status.killer] == Delete(o))
  }

  ghost predicate Inv(s: State) {
    && (forall t | t in s.pc :: ThreadOk(s, t))
    && (forall x | x in s.slots :: SlotOk(s, x))
    && (forall o | o in s.objs :: ObjOk(s, o))
  }

  /** There is an initial state for any slots and threads. */
  lemma InitialExists(slots: set<Slot>, threads: set<Thread>)
    ensures Initial(State(map x | x in slots :: Bits(None, None), map[], map t | t in threads :: Idle))
  {
  }

  lemma InitialInv(s: State)
    requires Initial(s)
    ensures Inv(s)
  {
  }

  lemma VacantIsUnreferenced(s: State, o: Obj)
    requires Inv(s) && Vacant(s, o)
    ensures Refs(s, o) == 0
  {
    if o in s.objs {
      assert ObjOk(s, o);
      return;
    }
    forall t | t in s.pc ensures t !in ThreadRefs(s.pc, o) {
      assert ThreadOk(s, t);
    }
    forall x | x in s.slots ensures x !in SlotRefs(s.slots, o) {
      assert SlotOk(s, x);
    }
    assert ThreadRefs(s.pc, o) == {} && SlotRefs(s.slots, o) == {};
  }

  /** An object some slot or thread refers to is live. */
  lemma ReferencedIsLive(s: State, o: Obj)
    requires Inv(s) && o in s.objs
    requires (exists x :: x in SlotRefs(s.slots, o)) || (exists t :: t in ThreadRefs(s.pc, o))
    ensures s.objs[o].count > 0 && s.objs[o].status == Live
  {
    assert ObjOk(s, o);
  }

  /** Moving a thread's counter while slots and objects stay: the reference it carries must stay too. */
  lemma MoveInv(s: State, t: Thread, c: Counter)
    requires Inv(s) && t in s.pc && !s.pc[t].Delete? && Locked(s.pc[t]) == None
    requires InFlight(c) == InFlight(s.pc[t])
    requires ThreadOk(At(s, t, c), t) && Locked(c) == None
    ensures Inv(At(s, t, c))
  {
    var s' := At(s, t, c);
    forall o | o in s'.objs ensures ObjOk(s', o) {
      assert ObjOk(s, o);
      ThreadMoves(s.pc, t, c, o);
    }
    forall u | u in s'.pc ensures ThreadOk(s', u) {
      assert ThreadOk(s, u);
    }
    forall x | x in s'.slots ensures SlotOk(s', x) {
      assert SlotOk(s, x);
    }
  }

  lemma CreateInv(s: State, t: Thread, o: Obj, dst: Slot)
    requires Inv(s) && t in s.pc && s.pc[t] == Idle && Vacant(s, o) && dst in s.slots
    ensures Inv(At(s.(objs := s.objs[o := Object(1, Live)]), t, AssignLoad(dst, Some(o))))
  {
    var c := AssignLoad(dst, Some(o));
    var s' := At(s.(objs := s.objs[o := Object(1, Live)]), t, c);
    VacantIsUnreferenced(s, o);
    forall p | p in s'.objs ensures ObjOk(s', p) {
      assert p != o ==> ObjOk(s, p);
      ThreadMoves(s.pc, t, c, p);
    }
    forall u | u in s'.pc ensures ThreadOk(s', u) {
      assert ThreadOk(s, u);
    }
    forall x | x in s'.slots ensures SlotOk(s', x) {
      assert SlotOk(s, x);
    }
  }

  lemma LockInv(s: State, t: Thread)
    requires Inv(s) && t in s.pc && s.pc[t].Lock?
    ensures Resume(s, t).Ok? && Inv(Resume(s, t).s)
  {
    var s' := Resume(s, t).s;
    assert ThreadOk(s, t);
    var src := s.pc[t].src;
    if s.slots[src].locker == None {
      forall o | o in s'.objs ensures ObjOk(s', o) {
        assert ObjOk(s, o);
        SlotWrite(s.slots, src, s'.slots[src], o);
        ThreadMoves(s.pc, t, s'.pc[t], o);
      }
      forall u | u in s'.pc ensures ThreadOk(s', u) {
        assert ThreadOk(s, u) && SlotOk(s, src);
      }
      forall x | x in s'.slots ensures SlotOk(s', x) {
        assert SlotOk(s, x);
      }
    }
  }

  /** The copying thread holds the lock bit, so the slot still owns its reference and ref() sees a positive count. */
  lemma RefInv(s: State, t: Thread)
    requires Inv(s) && t in s.pc && s.pc[t].Ref?
    ensures Resume(s, t).Ok? && Inv(Resume(s, t).s)
  {
    assert ThreadOk(s, t);
    var src, bits := s.pc[t].src, s.pc[t].bits;
    assert SlotOk(s, src);
    if bits.Some? {
      assert src in SlotRefs(s.slots, bits.value);
      ReferencedIsLive(s, bits.value);
    }
    var s' := Resume(s, t).s;
    forall o | o in s'.objs ensures ObjOk(s', o) {
      assert ObjOk(s, o);
      ThreadMoves(s.pc, t, s'.pc[t], o);
    }
    forall u | u in s'.pc ensures ThreadOk(s', u) {
      assert ThreadOk(s, u);
    }
    forall x | x in s'.slots ensures SlotOk(s', x) {
      assert SlotOk(s, x);
    }
  }

  lemma UnlockInv(s: State, t: Thread)
    requires Inv(s) && t in s.pc && s.pc[t].Unlock?
    ensures Resume(s, t).Ok? && Inv(Resume(s, t).s)
  {
    var s' := Resume(s, t).s;
    assert ThreadOk(s, t);
    var src := s.pc[t].src;
    forall o | o in s'.objs ensures ObjOk(s', o) {
      assert ObjOk(s, o);
      SlotWrite(s.slots, src, s'.slots[src], o);
      ThreadMoves(s.pc, t, s'.pc[t], o);
    }
    forall u | u in s'.pc ensures ThreadOk(s', u) {
      assert ThreadOk(s, u);
    }
    forall x | x in s'.slots ensures SlotOk(s', x) {
      assert SlotOk(s, x);
    }
  }

  /** A successful exchange trades the thread's reference for the slot's. */
  lemma SwapInv(s: State, t: Thread, x: Slot, expected: Option<Obj>, c: Counter)
    requires Inv(s) && t in s.pc && !s.pc[t].Delete? && Locked(s.pc[t]) == None
    requires SwapSucceeds(s, x, expected)
    requires InFlight(c) == expected && Locked(c) == None && !c.Delete?
    requires c.AssignLoad? ==> c.dst in s.slots
    requires !c.Lock? && !c.LeakLoad? && !c.LeakSwap? && !c.AssignSwap?
    ensures Inv(At(s.(slots := s.slots[x := Bits(InFlight(s.pc[t]), None)]), t, c))
  {
    var s' := At(s.(slots := s.slots[x := Bits(InFlight(s.pc[t]), None)]), t, c);
    assert ThreadOk(s, t) && SlotOk(s, x);
    forall o | o in s'.objs ensures ObjOk(s', o) {
      assert ObjOk(s, o);
      SlotWrite(s.slots, x, s'.slots[x], o);
      ThreadMoves(s.pc, t, c, o);
    }
    forall u | u in s'.pc ensures ThreadOk(s', u) {
      assert ThreadOk(s, u);
    }
    forall y | y in s'.slots ensures SlotOk(s', y) {
      assert SlotOk(s, y);
    }
  }

  lemma UnrefOk(s: State, t: Thread)
    requires Inv(s) && t in s.pc && s.pc[t].Unref? && s.pc[t].prev.Some?
    ensures s.pc[t].prev.value in s.objs && s.objs[s.pc[t].prev.value].count > 0
    ensures s.objs[s.pc[t].prev.value].status == Live
  {
    assert ThreadOk(s, t);
    assert t in ThreadRefs(s.pc, s.pc[t].prev.value);
    ReferencedIsLive(s, s.pc[t].prev.value);
  }

  /** Dropping a reference: the count falls by one and the last drop hands the object to its destructor. */
  lemma DropInv(s: State, t: Thread, o: Obj, c: Counter, rest: Object)
    requires Inv(s) && t in s.pc && s.pc[t] == Unref(Some(o)) && o in s.objs && s.objs[o].status == Live
    requires if s.objs[o].count == 1 then rest == Object(0, Dying(t)) && c == Delete(o)
             else rest == Object(s.objs[o].count - 1, Live) && c == Idle
    ensures Inv(At(s.(objs := s.objs[o := rest]), t, c))
  {
    var s' := At(s.(objs := s.objs[o := rest]), t, c);
    forall p | p in s'.objs ensures ObjOk(s', p) {
      assert ObjOk(s, p);
      ThreadMoves(s.pc, t, c, p);
    }
    forall u | u in s'.pc ensures ThreadOk(s', u) {
      assert ThreadOk(s, u);
    }
    forall x | x in s'.slots ensures SlotOk(s', x) {
      assert SlotOk(s, x);
    }
  }

  lemma UnrefInv(s: State, t: Thread)
    requires Inv(s) && t in s.pc && s.pc[t].Unref?
    ensures Resume(s, t).Ok? && Inv(Resume(s, t).s)
  {
    if s.pc[t].prev == None {
      MoveInv(s, t, Idle);
    } else {
      UnrefOk(s, t);
      var s' := DropRef(s, t, s.pc[t].prev).s;
      DropInv(s, t, s.pc[t].prev.value, s'.pc[t], s'.objs[s.pc[t].prev.value]);
    }
  }

  lemma DeleteInv(s: State, t: Thread)
    requires Inv(s) && t in s.pc && s.pc[t].Delete?
    ensures Resume(s, t).Ok? && Inv(Resume(s, t).s)
  {
    assert ThreadOk(s, t) && ObjOk(s, s.pc[t].obj);
    var s' := Resume(s, t).s;
    forall o | o in s'.objs ensures ObjOk(s', o) {
      assert ObjOk(s, o);
      ThreadMoves(s.pc, t, s'.pc[t], o);
    }
    forall u | u in s'.pc ensures ThreadOk(s', u) {
      assert ThreadOk(s, u);
    }
    forall x | x in s'.slots ensures SlotOk(s', x) {
      assert SlotOk(s, x);
    }
  }

  lemma ResumeInv(s: State, t: Thread)
    requires Inv(s) && t in s.pc
    ensures Resume(s, t).Ok? && Inv(Resume(s, t).s)
  {
    assert ThreadOk(s, t);
    match s.pc[t] {
      case Idle =>
      case Lock(_, _) => LockInv(s, t);
      case Ref(_, _, _) => RefInv(s, t);
      case Unlock(_, _, _) => UnlockInv(s, t);
      case LeakLoad(src, dst) => MoveInv(s, t, LeakSwap(src, dst, PtrAt(s, src)));
      case LeakSwap(src, dst, expected) =>
        if SwapSucceeds(s, src, expected) {
          SwapInv(s, t, src, expected, AssignLoad(dst, expected));
        } else {
          MoveInv(s, t, LeakSwap(src, dst, PtrAt(s, src)));
        }
      case AssignLoad(dst, bits) => MoveInv(s, t, AssignSwap(dst, bits, PtrAt(s, dst)));
      case AssignSwap(dst, bits, expected) =>
        if SwapSucceeds(s, dst, expected) {
          SwapInv(s, t, dst, expected, Unref(expected));
        } else {
          MoveInv(s, t, AssignSwap(dst, bits, PtrAt(s, dst)));
        }
      case Unref(_) => UnrefInv(s, t);
      case Delete(_) => DeleteInv(s, t);
    }
  }

  /** No operation, by any thread in any reachable state, fails a VERIFY or touches a deleted object. */
  lemma StepInv(s: State, t: Thread, a: Action)
    requires Inv(s)
    ensures Exec(s, t, a).Ok? && Inv(Exec(s, t, a).s)
  {
    if t in s.pc {
      if a == Continue {
        ResumeInv(s, t);
      } else if s.pc[t] == Idle && a.dst in s.slots {
        match a {
          case Create(o, dst) => if Vacant(s, o) { CreateInv(s, t, o, dst); }
          case Copy(src, dst) => if src in s.slots && src != dst { MoveInv(s, t, Lock(src, dst)); }
          case Move(src, dst) => if src in s.slots && src != dst { MoveInv(s, t, LeakLoad(src, dst)); }
          case Clear(dst) => MoveInv(s, t, AssignLoad(dst, None));
        }
      }
    }
  }

  // ----- whole runs -----

  lemma {:induction false} RunSafe(s: State, events: seq<Event>)
    requires Inv(s)
    ensures Run(s, events).Ok? && Inv(Run(s, events).s)
    decreases |events|
  {
    if events != [] {
      StepInv(s, events[0].t, events[0].a);
      RunSafe(Exec(s, events[0].t, events[0].a).s, events[1..]);
    }
  }

  /** Every interleaving conserves references: a count is the slots plus the threads that hold one. */
  lemma Conservation(s: State, events: seq<Event>)
    requires Initial(s)
    ensures Run(s, events).Ok?
    ensures
      var r := Run(s, events).s;
      forall o | o in r.objs ::
        && r.objs[o].count == |SlotRefs(r.slots, o)| + |ThreadRefs(r.pc, o)|
        && (r.objs[o].status == Deleted ==> SlotRefs(r.slots, o) == {} && ThreadRefs(r.pc, o) == {})
        && ((forall t | t in r.pc :: r.pc[t] == Idle) ==>
            if SlotRefs(r.slots, o) == {} then r.objs[o].status == Deleted
            else r.objs[o] == Object(|SlotRefs(r.slots, o)|, Live))
  {
    InitialInv(s);
    RunSafe(s, events);
    var r := Run(s, events).s;
    forall o | o in r.objs ensures ObjOk(r, o) && (SlotRefs(r.slots, o) != {} ==> r.objs[o].count > 0) {
    }
    forall o | o in r.objs && (forall t | t in r.pc :: r.pc[t] == Idle) ensures ThreadRefs(r.pc, o) == {} {
    }
  }

  predicate Creates(a: Action, o: Obj) { a.Create? && a.obj == o }

  lemma DeadResume(s: State, t: Thread, o: Obj)
    requires t in s.pc && o in s.objs && s.objs[o].count == 0 && Resume(s, t).Ok?
    ensures o in Resume(s, t).s.objs && Resume(s, t).s.objs[o].count == 0
    ensures s.objs[o].status == Deleted ==> Resume(s, t).s.objs[o].status == Deleted
  {
  }

  lemma DeadStep(s: State, t: Thread, a: Action, o: Obj)
    requires o in s.objs && s.objs[o].count == 0 && Exec(s, t, a).Ok? && !Creates(a, o)
    ensures o in Exec(s, t, a).s.objs && Exec(s, t, a).s.objs[o].count == 0
    ensures s.objs[o].status == Deleted ==> Exec(s, t, a).s.objs[o].status == Deleted
  {
    if t in s.pc && a == Continue {
      DeadResume(s, t, o);
    }
  }

  /** A count that reached zero never rises, and a deleted object stays deleted, until its address is used again. */
  lemma {:induction false} DeadForGood(s: State, events: seq<Event>, o: Obj)
    requires Inv(s) && o in s.objs && s.objs[o].count == 0 && forall i | 0 <= i < |events| :: !Creates(events[i].a, o)
    ensures Run(s, events).Ok? && o in Run(s, events).s.objs && Run(s, events).s.objs[o].count == 0
    ensures s.objs[o].status == Deleted ==> Run(s, events).s.objs[o].status == Deleted
    decreases |events|
  {
    if events != [] {
      var e := events[0];
      StepInv(s, e.t, e.a);
      DeadStep(s, e.t, e.a, o);
      DeadForGood(Exec(s, e.t, e.a).s, events[1..], o);
    }
  }

  // ----- what a call does to the slots -----

  /** The call that t is in returns with the last of the events, whatever the others do meanwhile. */
  predicate Returns(s: State, events: seq<Event>, t: Thread)
    decreases |events|
  {
    && t in s.pc
    && if events == [] then s.pc[t] == Idle
       else
         && s.pc[t] != Idle && Exec(s, events[0].t, events[0].a).Ok?
         && Returns(Exec(s, events[0].t, events[0].a).s, events[1..], t)
  }

  ghost predicate SameBut(s: State, next: State, but: set<Slot>) {
    forall x | x in s.slots && x !in but :: x in next.slots && next.slots[x].ptr == s.slots[x].ptr
  }

  /** No step of t changes a pointer. */
  ghost predicate Quiet(s: State, events: seq<Event>, t: Thread)
    decreases |events|
  {
    events == [] ||
    match Exec(s, events[0].t, events[0].a)
    case Ok(next) => (events[0].t == t ==> SameBut(s, next, {})) && Quiet(next, events[1..], t)
    case _ => false
  }

  /** One step of t points dst to p, and no other step of it changes a pointer. */
  ghost predicate AssignsOnce(s: State, events: seq<Event>, t: Thread, dst: Slot, p: Option<Obj>)
    decreases |events|
  {
    events != [] && Exec(s, events[0].t, events[0].a).Ok? &&
    var next := Exec(s, events[0].t, events[0].a).s;
    || (&& events[0].t == t && dst in next.slots && next.slots[dst] == Bits(p, None)
        && SameBut(s, next, {dst}) && Quiet(next, events[1..], t))
    || ((events[0].t == t ==> SameBut(s, next, {})) && AssignsOnce(next, events[1..], t, dst, p))
  }

  /** One step of t locks src, and a later one points dst to what src pointed to then; src keeps its pointer. */
  ghost predicate CopiesOnce(s: State, events: seq<Event>, t: Thread, src: Slot, dst: Slot)
    decreases |events|
  {
    events != [] && Exec(s, events[0].t, events[0].a).Ok? &&
    var next := Exec(s, events[0].t, events[0].a).s;
    && (events[0].t == t ==> SameBut(s, next, {}))
    && (|| (&& events[0].t == t && src in s.slots && src in next.slots && s.slots[src].locker == None
            && next.slots[src].locker == Some(t) && AssignsOnce(next, events[1..], t, dst, s.slots[src].ptr))
        || CopiesOnce(next, events[1..], t, src, dst))
  }

  /** One step of t takes the pointer out of src, and a later one puts it into dst. */
  ghost predicate MovesOnce(s: State, events: seq<Event>, t: Thread, src: Slot, dst: Slot)
    decreases |events|
  {
    events != [] && Exec(s, events[0].t, events[0].a).Ok? &&
    var next := Exec(s, events[0].t, events[0].a).s;
    || (&& events[0].t == t && src in s.slots && next.slots == s.slots[src := Bits(None, None)]
        && s.slots[src].locker == None && AssignsOnce(next, events[1..], t, dst, s.slots[src].ptr))
    || ((events[0].t == t ==> SameBut(s, next, {})) && MovesOnce(next, events[1..], t, src, dst))
  }

  lemma OthersKeep(s: State, e: Event, t: Thread)
    requires t in s.pc && Exec(s, e.t, e.a).Ok? && (e.t != t || (e.a != Continue && s.pc[t] != Idle))
    ensures t in Exec(s, e.t, e.a).s.pc && Exec(s, e.t, e.a).s.pc[t] == s.pc[t]
    ensures e.t == t ==> Exec(s, e.t, e.a).s == s
  {
  }

  lemma {:induction false} DropIsQuiet(s: State, events: seq<Event>, t: Thread)
    requires t in s.pc && (s.pc[t].Unref? || s.pc[t].Delete? || s.pc[t] == Idle) && Returns(s, events, t)
    ensures Quiet(s, events, t)
    decreases |events|
  {
    if events != [] {
      var e := events[0];
      if e.t != t || e.a != Continue {
        OthersKeep(s, e, t);
      }
      DropIsQuiet(Exec(s, e.t, e.a).s, events[1..], t);
    }
  }

  lemma {:induction false} AssignEffect(s: State, events: seq<Event>, t: Thread, dst: Slot, p: Option<Obj>)
    requires t in s.pc && Returns(s, events, t)
    requires s.pc[t] == AssignLoad(dst, p) || (s.pc[t].AssignSwap? && s.pc[t].dst == dst && s.pc[t].bits == p)
    ensures AssignsOnce(s, events, t, dst, p)
    decreases |events|
  {
    var e := events[0];
    var next := Exec(s, e.t, e.a).s;
    if e.t != t || e.a != Continue {
      OthersKeep(s, e, t);
    }
    if next.pc[t].Unref? {
      DropIsQuiet(next, events[1..], t);
    } else {
      AssignEffect(next, events[1..], t, dst, p);
    }
  }

  lemma LockedStep(s: State, t: Thread)
    requires Inv(s) && t in s.pc && (s.pc[t].Ref? || s.pc[t].Unlock?) && Resume(s, t).Ok?
    ensures
      var next := Resume(s, t).s;
      && t in next.pc && SameBut(s, next, {})
      && next.pc[t] == if s.pc[t].Ref? then Unlock(s.pc[t].src, s.pc[t].dst, s.pc[t].bits)
                       else AssignLoad(s.pc[t].dst, s.pc[t].bits)
  {
    assert ThreadOk(s, t);
  }

  lemma {:induction false} LockedEffect(s: State, events: seq<Event>, t: Thread, dst: Slot, p: Option<Obj>)
    requires Inv(s) && t in s.pc && Returns(s, events, t)
    requires (s.pc[t].Ref? || s.pc[t].Unlock?) && s.pc[t].dst == dst && s.pc[t].bits == p
    ensures AssignsOnce(s, events, t, dst, p)
    decreases |events|
  {
    var e := events[0];
    var next := Exec(s, e.t, e.a).s;
    StepInv(s, e.t, e.a);
    if e.t != t || e.a != Continue {
      OthersKeep(s, e, t);
    } else {
      LockedStep(s, t);
    }
    if next.pc[t].AssignLoad? {
      AssignEffect(next, events[1..], t, dst, p);
    } else {
      LockedEffect(next, events[1..], t, dst, p);
    }
  }

  lemma {:induction false} CopyEffect(s: State, events: seq<Event>, t: Thread, src: Slot, dst: Slot)
    requires Inv(s) && t in s.pc && Returns(s, events, t) && s.pc[t] == Lock(src, dst)
    ensures CopiesOnce(s, events, t, src, dst)
    decreases |events|
  {
    var e := events[0];
    var next := Exec(s, e.t, e.a).s;
    StepInv(s, e.t, e.a);
    assert ThreadOk(s, t);
    if e.t != t || e.a != Continue {
      OthersKeep(s, e, t);
    }
    if next.pc[t].Ref? {
      LockedEffect(next, events[1..], t, dst, s.slots[src].ptr);
    } else {
      CopyEffect(next, events[1..], t, src, dst);
    }
  }

  lemma {:induction false} MoveEffect(s: State, events: seq<Event>, t: Thread, src: Slot, dst: Slot)
    requires Inv(s) && t in s.pc && Returns(s, events, t)
    requires (s.pc[t].LeakLoad? || s.pc[t].LeakSwap?) && s.pc[t].src == src && s.pc[t].dst == dst
    ensures MovesOnce(s, events, t, src, dst)
    decreases |events|
  {
    var e := events[0];
    var next := Exec(s, e.t, e.a).s;
    StepInv(s, e.t, e.a);
    assert ThreadOk(s, t);
    if e.t != t || e.a != Continue {
      OthersKeep(s, e, t);
    }
    if next.pc[t].AssignLoad? {
      AssignEffect(next, events[1..], t, dst, s.slots[src].ptr);
    } else {
      MoveEffect(next, events[1..], t, src, dst);
    }
  }

  predicate Possible(s: State, t: Thread, a: Action) {
    && t in s.pc && s.pc[t] == Idle && a != Continue && a.dst in s.slots
    && (a.Create? ==> Vacant(s, a.obj))
    && (a.Copy? || a.Move? ==> a.src in s.slots && a.src != a.dst)
  }

  ghost predicate HasEffect(s: State, events: seq<Event>, t: Thread, a: Action) {
    match a
    case Create(o, dst) => AssignsOnce(s, events, t, dst, Some(o))
    case Copy(src, dst) => CopiesOnce(s, events, t, src, dst)
    case Move(src, dst) => MovesOnce(s, events, t, src, dst)
    case Clear(dst) => AssignsOnce(s, events, t, dst, None)
    case Continue => true
  }

  /** Every call, among any steps of the other threads, from its start to its return. */
  lemma CallEffect(s: State, t: Thread, a: Action, events: seq<Event>)
    requires Inv(s) && Possible(s, t, a) && Exec(s, t, a).Ok? && Returns(Exec(s, t, a).s, events, t)
    ensures SameBut(s, Exec(s, t, a).s, {})
    ensures HasEffect(Exec(s, t, a).s, events, t, a)
  {
    StepInv(s, t, a);
    var next := Exec(s, t, a).s;
    match a
    case Create(o, dst) => AssignEffect(next, events, t, dst, Some(o));
    case Copy(src, dst) => CopyEffect(next, events, t, src, dst);
    case Move(src, dst) => MoveEffect(next, events, t, src, dst);
    case Clear(dst) => AssignEffect(next, events, t, dst, None);
    case Continue =>
  }

  // ----- a call with nobody else running -----

  function Alone(t: Thread, n: nat): seq<Event> {
    if n == 0 then [] else [Event(t, Continue)] + Alone(t, n - 1)
  }

  /** Nobody else has locked a slot that the call still has to change. */
  predicate FreeFor(s: State, t: Thread, x: Slot) {
    x in s.slots && (s.slots[x].locker == None || s.slots[x].locker == Some(t))
  }

  predicate Unhindered(s: State, t: Thread)
    requires t in s.pc
  {
    var c := s.pc[t];
    && (c.Lock? || c.Ref? || c.Unlock? || c.LeakLoad? || c.LeakSwap? ==> FreeFor(s, t, c.src) && FreeFor(s, t, c.dst))
    && (c.AssignLoad? || c.AssignSwap? ==> FreeFor(s, t, c.dst))
  }

  function Left(s: State, c: Counter): nat {
    match c
    case Idle => 0
    case Delete(_) => 1
    case Unref(_) => 2
    case AssignSwap(dst, _, expected) => if PtrAt(s, dst) == expected then 3 else 4
    case AssignLoad(_, _) => 5
    case Unlock(_, _, _) => 6
    case Ref(_, _, _) => 7
    case Lock(_, _) => 8
    case LeakSwap(src, _, expected) => if PtrAt(s, src) == expected then 6 else 7
    case LeakLoad(_, _) => 8
  }

  /** The only lock bit a thread has set is that of the slot it is copying from. */
  lemma NotLockedBy(s: State, t: Thread, x: Slot)
    requires Inv(s) && t in s.pc && FreeFor(s, t, x) && Locked(s.pc[t]) != Some(x)
    ensures s.slots[x].locker == None
  {
    assert SlotOk(s, x);
  }

  ghost predicate GoesForward(s: State, t: Thread)
    requires t in s.pc
  {
    var r := Resume(s, t);
    r.Ok? && t in r.s.pc && Unhindered(r.s, t) && Left(r.s, r.s.pc[t]) < Left(s, s.pc[t])
  }

  lemma CopyForward(s: State, t: Thread)
    requires Inv(s) && t in s.pc && (s.pc[t].Lock? || s.pc[t].Ref? || s.pc[t].Unlock?)
    requires Unhindered(s, t) && Resume(s, t).Ok?
    ensures GoesForward(s, t)
  {
    assert ThreadOk(s, t);
    if s.pc[t].Lock? {
      NotLockedBy(s, t, s.pc[t].src);
    }
  }

  lemma OtherForward(s: State, t: Thread)
    requires Inv(s) && t in s.pc && !(s.pc[t].Lock? || s.pc[t].Ref? || s.pc[t].Unlock?) && s.pc[t] != Idle
    requires Unhindered(s, t) && Resume(s, t).Ok?
    ensures GoesForward(s, t)
  {
    assert ThreadOk(s, t);
    var c := s.pc[t];
    if c.LeakLoad? || c.LeakSwap? {
      NotLockedBy(s, t, c.src);
    } else if c.AssignLoad? || c.AssignSwap? {
      NotLockedBy(s, t, c.dst);
    }
  }

  lemma {:induction false} AloneReturns(s: State, t: Thread) returns (n: nat)
    requires Inv(s) && t in s.pc && Unhindered(s, t)
    ensures Returns(s, Alone(t, n), t)
    decreases Left(s, s.pc[t])
  {
    if s.pc[t] == Idle {
      n := 0;
    } else {
      ResumeInv(s, t);
      if s.pc[t].Lock? || s.pc[t].Ref? || s.pc[t].Unlock? {
        CopyForward(s, t);
      } else {
        OtherForward(s, t);
      }
      var k := AloneReturns(Resume(s, t).s, t);
      n := k + 1;
      assert Alone(t, n)[1..] == Alone(t, k);
    }
  }

  /** The first of several steps; `next` is the state after it. */
  lemma FirstAlone(s: State, t: Thread, n: nat) returns (next: State)
    requires n > 0 && Exec(s, t, Continue).Ok?
    ensures Run(s, Alone(t, n)) == Run(next, Alone(t, n - 1)) && Exec(s, t, Continue) == Ok(next)
    ensures Alone(t, n)[0] == Event(t, Continue) && Alone(t, n)[1..] == Alone(t, n - 1)
  {
    next := Exec(s, t, Continue).s;
    assert Alone(t, n)[1..] == Alone(t, n - 1);
  }

  lemma {:induction false} QuietAlone(s: State, t: Thread, n: nat) returns (r: State)
    requires Quiet(s, Alone(t, n), t)
    ensures Run(s, Alone(t, n)) == Ok(r) && SameBut(s, r, {})
    decreases n
  {
    if n == 0 {
      r := s;
    } else {
      var next := FirstAlone(s, t, n);
      r := QuietAlone(next, t, n - 1);
    }
  }

  /** From s to r only the pointer of dst has changed, to p. */
  ghost predicate Points(s: State, r: State, dst: Slot, p: Option<Obj>) {
    SameBut(s, r, {dst}) && dst in r.slots && r.slots[dst].ptr == p
  }

  lemma AssignStep(s: State, t: Thread, n: nat, dst: Slot, p: Option<Obj>) returns (next: State, done: bool)
    requires AssignsOnce(s, Alone(t, n), t, dst, p)
    ensures n > 0 && Run(s, Alone(t, n)) == Run(next, Alone(t, n - 1)) && SameBut(s, next, {dst})
    ensures done ==> dst in next.slots && next.slots[dst].ptr == p && Quiet(next, Alone(t, n - 1), t)
    ensures !done ==> AssignsOnce(next, Alone(t, n - 1), t, dst, p)
  {
    next := FirstAlone(s, t, n);
    done := !AssignsOnce(next, Alone(t, n - 1), t, dst, p);
  }

  lemma {:induction false} AssignAlone(s: State, t: Thread, n: nat, dst: Slot, p: Option<Obj>) returns (r: State)
    requires AssignsOnce(s, Alone(t, n), t, dst, p)
    ensures Run(s, Alone(t, n)) == Ok(r) && Points(s, r, dst, p)
    decreases n
  {
    var next, done := AssignStep(s, t, n, dst, p);
    if done {
      r := QuietAlone(next, t, n - 1);
    } else {
      r := AssignAlone(next, t, n - 1, dst, p);
    }
  }

  lemma CopyStep(s: State, t: Thread, n: nat, src: Slot, dst: Slot) returns (next: State)
    requires Inv(s) && t in s.pc && s.pc[t] == Lock(src, dst) && src in s.slots && s.slots[src].locker == None
    requires Returns(s, Alone(t, n), t)
    ensures n > 0 && Run(s, Alone(t, n)) == Run(next, Alone(t, n - 1)) && SameBut(s, next, {})
    ensures AssignsOnce(next, Alone(t, n - 1), t, dst, s.slots[src].ptr)
  {
    LockInv(s, t);
    next := FirstAlone(s, t, n);
    LockedEffect(next, Alone(t, n - 1), t, dst, s.slots[src].ptr);
  }

  lemma CopyAlone(s: State, t: Thread, n: nat, src: Slot, dst: Slot) returns (r: State)
    requires Inv(s) && t in s.pc && s.pc[t] == Lock(src, dst) && src in s.slots && s.slots[src].locker == None
    requires Returns(s, Alone(t, n), t)
    ensures Run(s, Alone(t, n)) == Ok(r) && Points(s, r, dst, s.slots[src].ptr)
  {
    var next := CopyStep(s, t, n, src, dst);
    r := AssignAlone(next, t, n - 1, dst, s.slots[src].ptr);
  }

  lemma MoveStep(s: State, t: Thread, n: nat, src: Slot, dst: Slot) returns (next: State, taken: bool)
    requires src in s.slots && MovesOnce(s, Alone(t, n), t, src, dst)
    ensures n > 0 && Run(s, Alone(t, n)) == Run(next, Alone(t, n - 1))
    ensures taken ==>
      && AssignsOnce(next, Alone(t, n - 1), t, dst, s.slots[src].ptr) && SameBut(s, next, {src})
      && src in next.slots && next.slots[src].ptr == None
    ensures !taken ==> SameBut(s, next, {}) && MovesOnce(next, Alone(t, n - 1), t, src, dst)
  {
    next := FirstAlone(s, t, n);
    taken := !(SameBut(s, next, {}) && MovesOnce(next, Alone(t, n - 1), t, src, dst));
  }

  lemma {:induction false} MoveAlone(s: State, t: Thread, n: nat, src: Slot, dst: Slot) returns (r: State)
    requires src in s.slots && src != dst && MovesOnce(s, Alone(t, n), t, src, dst)
    ensures Run(s, Alone(t, n)) == Ok(r) && SameBut(s, r, {src, dst}) && src in r.slots && r.slots[src].ptr == None
    ensures dst in r.slots && r.slots[dst].ptr == s.slots[src].ptr
    decreases n
  {
    var next, taken := MoveStep(s, t, n, src, dst);
    if taken {
      r := AssignAlone(next, t, n - 1, dst, s.slots[src].ptr);
    } else {
      r := MoveAlone(next, t, n - 1, src, dst);
    }
  }

  /** What the slots point to after a call that nobody disturbs; no other slot changes. */
  lemma CallAlone(s: State, t: Thread, a: Action) returns (n: nat, r: State)
    requires Inv(s) && Possible(s, t, a) && s.slots[a.dst].locker == None
    requires a.Copy? || a.Move? ==> s.slots[a.src].locker == None
    ensures Exec(s, t, a).Ok? && Returns(Exec(s, t, a).s, Alone(t, n), t)
    ensures Run(s, [Event(t, a)] + Alone(t, n)) == Ok(r)
    ensures a.dst in r.slots && SameBut(s, r, if a.Move? then {a.src, a.dst} else {a.dst})
    ensures r.slots[a.dst].ptr == (if a.Create? then Some(a.obj) else if a.Clear? then None else s.slots[a.src].ptr)
    ensures a.Move? ==> a.src in r.slots && r.slots[a.src].ptr == None
  {
    StepInv(s, t, a);
    var next := Exec(s, t, a).s;
    n := AloneReturns(next, t);
    assert ([Event(t, a)] + Alone(t, n))[1..] == Alone(t, n);
    CallEffect(s, t, a, Alone(t, n));
    match a
    case Create(o, dst) => r := AssignAlone(next, t, n, dst, Some(o));
    case Copy(src, dst) => r := CopyAlone(next, t, n, src, dst);
    case Move(src, dst) => r := MoveAlone(next, t, n, src, dst);
    case Clear(dst) => r := AssignAlone(next, t, n, dst, None);
  }
}
