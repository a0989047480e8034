/**
  Kernel/Lock.cpp: a recursive reader-writer lock.  Each of lock, unlock,
  force_unlock_if_locked and restore_lock retries until it gets the guard flag m_lock, then
  does all its work with the guard held; the functions below are that work, with every
  VERIFY kept as a way to fail.
 */
module KernelLocks {
  import opened Common

  type Thread = nat

  datatype Mode = Unlocked | Shared | Exclusive

  /** m_mode, m_holder, m_shared_holders and m_times_locked. */
  datatype View = View(mode: Mode, holder: Option<Thread>, shared: map<Thread, nat>, times: nat)

  datatype Outcome = Done(v: View) | Wait | Failed

  const Fresh := View(Unlocked, None, map[], 0)

  /** One pass of Lock::lock. */
  function LockPass(v: View, t: Thread, mode: Mode): Outcome
    requires mode != Unlocked
  {
    match v.mode
    case Unlocked =>
      if v.holder != None || v.shared != map[] || v.times != 0 then Failed
      else if mode == Exclusive then Done(View(Exclusive, Some(t), v.shared, 1))
      else Done(View(Shared, None, v.shared[t := 1], 1))
    case Exclusive =>
      if v.holder == None then Failed
      else if v.holder != Some(t) then Wait
      else if v.shared != map[] || v.times == 0 then Failed
      else Done(v.(times := v.times + 1))
    case Shared =>
      if v.holder != None then Failed
      else if mode != Shared then Wait
      else if v.times == 0 || v.shared == map[] then Failed
      else Done(v.(times := v.times + 1, shared := v.shared[t := (if t in v.shared then v.shared[t] + 1 else 1)]))
  }

  /** One pass of Lock::unlock. */
  function UnlockPass(v: View, t: Thread): Outcome {
    if v.mode == Unlocked || v.times == 0 then Failed
    else if v.mode == Exclusive then
      if v.holder != Some(t) || v.shared != map[] then Failed
      else if v.times == 1 then Done(v.(times := 0, holder := None, mode := Unlocked))
      else Done(v.(times := v.times - 1))
    else if v.holder != None || t !in v.shared || v.shared[t] == 0 then Failed
    else
      var shared := if v.shared[t] > 1 then v.shared[t := v.shared[t] - 1] else v.shared - {t};
      if v.times > 1 then Done(v.(times := v.times - 1, shared := shared))
      else if shared != map[] then Failed
      else Done(v.(times := 0, shared := shared, mode := Unlocked))
  }

  /** One pass of Lock::force_unlock_if_locked: the new state, and the mode and count to restore. */
  function ForceUnlockPass(v: View, t: Thread): (Outcome, Mode, nat) {
    match v.mode
    case Exclusive =>
      if v.holder != Some(t) then (Done(v), Unlocked, 0)
      else if v.times == 0 then (Failed, Unlocked, 0)
      else (Done(v.(holder := None, times := 0, mode := Unlocked)), Exclusive, v.times)
    case Shared =>
      if v.holder != None then (Failed, Unlocked, 0)
      else if t !in v.shared then (Done(v), Unlocked, 0)
      else if v.shared[t] == 0 || v.times < v.shared[t] then (Failed, Unlocked, 0)
      else
        var times := v.times - v.shared[t];
        (Done(v.(shared := v.shared - {t}, times := times, mode := (if times == 0 then Unlocked else Shared))),
         Shared, v.shared[t])
    case Unlocked => (Done(v), Unlocked, 0)
  }

  /** One pass of Lock::restore_lock. */
  function RestorePass(v: View, t: Thread, mode: Mode, count: nat): Outcome {
    if mode == Unlocked || count == 0 then Failed
    else if mode == Exclusive then
      if v.mode != Unlocked then Wait
      else if v.times != 0 || v.holder != None || v.shared != map[] then Failed
      else Done(View(Exclusive, Some(t), v.shared, count))
    else if v.mode == Exclusive then Wait
    else if v.mode == Unlocked && v.times != 0 then Failed
    else if v.holder != None || (v.mode == Unlocked) != (v.shared == map[]) || t in v.shared then Failed
    else Done(v.(mode := Shared, times := v.times + count, shared := v.shared[t := count]))
  }

  // ----- what a thread holds -----

  datatype Hold = Hold(mode: Mode, count: nat)

  function HoldOf(v: View, t: Thread): Hold {
    if v.mode == Exclusive && v.holder == Some(t) then Hold(Exclusive, v.times)
    else if v.mode == Shared && t in v.shared then Hold(Shared, v.shared[t])
    else Hold(Unlocked, 0)
  }

  ghost function Sum(m: map<Thread, nat>): nat {
    if m == map[] then 0 else var k :| k in m; m[k] + Sum(m - {k})
  }

  lemma {:induction false} SumRemove(m: map<Thread, nat>, k: Thread)
    requires k in m
    ensures Sum(m) == m[k] + Sum(m - {k})
    decreases m
  {
    var j :| j in m && Sum(m) == m[j] + Sum(m - {j});
    if j != k {
      SumRemove(m - {j}, k);
      SumRemove(m - {k}, j);
      assert m - {j} - {k} == m - {k} - {j};
    }
  }

  lemma SumUpdate(m: map<Thread, nat>, k: Thread, n: nat)
    ensures Sum(m[k := n]) == Sum(m) + n - (if k in m then m[k] else 0)
  {
    SumRemove(m[k := n], k);
    assert m[k := n] - {k} == m - {k};
    if k in m { SumRemove(m, k); } else { assert m - {k} == m; }
  }

  /** Mode, holder, shared holders and total agree. */
  ghost predicate Consistent(v: View) {
    match v.mode
    case Unlocked => v == Fresh
    case Exclusive => v.holder.Some? && v.shared == map[] && v.times > 0
    case Shared =>
      && v.holder == None && v.shared != map[] && v.times == Sum(v.shared)
      && forall t | t in v.shared :: v.shared[t] > 0
  }

  /** The effect of a pass on what every thread holds. */
  ghost predicate Gives(v: View, w: View, t: Thread, h: Hold) {
    && Consistent(w) && HoldOf(w, t) == h
    && forall u | u != t :: HoldOf(w, u) == HoldOf(v, u)
  }

  ghost predicate Admits(v: View, t: Thread, mode: Mode) {
    || v.mode == Unlocked
    || (v.mode == Exclusive && v.holder == Some(t))
    || (v.mode == Shared && mode == Shared)
  }

  /** lock: no VERIFY fails; the thread gains one hold exactly when the lock admits it, otherwise it waits. */
  lemma LockGives(v: View, t: Thread, mode: Mode)
    requires Consistent(v) && mode != Unlocked
    ensures LockPass(v, t, mode).Done? == Admits(v, t, mode) && !LockPass(v, t, mode).Failed?
    ensures Admits(v, t, mode) ==>
      Gives(v, LockPass(v, t, mode).v, t,
            Hold(if v.mode == Unlocked then mode else v.mode, HoldOf(v, t).count + 1))
  {
    if v.mode == Unlocked {
      SumUpdate(map[], t, 1);
    } else if v.mode == Shared {
      SumUpdate(v.shared, t, if t in v.shared then v.shared[t] + 1 else 1);
      SumPositive(v.shared);
    }
  }

  lemma SumPositive(m: map<Thread, nat>)
    requires m != map[] && forall t | t in m :: m[t] > 0
    ensures Sum(m) > 0
  {
    var k :| k in m;
    SumRemove(m, k);
  }

  lemma UnlockGives(v: View, t: Thread)
    requires Consistent(v) && HoldOf(v, t).count > 0
    ensures UnlockPass(v, t).Done?
    ensures
      var n := HoldOf(v, t).count - 1;
      Gives(v, UnlockPass(v, t).v, t, if n == 0 then Hold(Unlocked, 0) else Hold(v.mode, n))
  {
    if v.mode == Shared {
      SumPositive(v.shared);
      SumRemove(v.shared, t);
      var rest := v.shared - {t};
      if v.shared[t] > 1 {
        SumUpdate(v.shared, t, v.shared[t] - 1);
      }
      if rest != map[] {
        SumPositive(rest);
      }
    }
  }

  lemma ForceUnlockGives(v: View, t: Thread)
    requires Consistent(v)
    ensures
      var (r, mode, count) := ForceUnlockPass(v, t);
      && Hold(mode, count) == HoldOf(v, t)
      && r.Done? && Gives(v, r.v, t, Hold(Unlocked, 0))
  {
    if v.mode == Shared && t in v.shared {
      SumRemove(v.shared, t);
      var rest := v.shared - {t};
      if rest != map[] {
        SumPositive(rest);
      }
    }
  }

  lemma RestoreGives(v: View, t: Thread, h: Hold)
    requires Consistent(v) && h.mode != Unlocked && h.count > 0 && HoldOf(v, t).count == 0
    ensures !RestorePass(v, t, h.mode, h.count).Failed?
    ensures RestorePass(v, t, h.mode, h.count).Done? <==> v.mode == Unlocked || (v.mode == Shared && h.mode == Shared)
    ensures RestorePass(v, t, h.mode, h.count).Done? ==> Gives(v, RestorePass(v, t, h.mode, h.count).v, t, h)
  {
    if h.mode == Shared && v.mode != Exclusive {
      SumUpdate(v.shared, t, h.count);
    }
  }

  /** What the threads hold determines every field. */
  lemma HoldsDetermine(v: View, w: View)
    requires Consistent(v) && Consistent(w) && forall t :: HoldOf(v, t) == HoldOf(w, t)
    ensures v == w
  {
    forall t | t in v.shared || t in w.shared ensures t in v.shared && t in w.shared && v.shared[t] == w.shared[t] {
      assert HoldOf(v, t) == HoldOf(w, t);
    }
    assert v.shared == w.shared;
    if v.holder.Some? { assert HoldOf(v, v.holder.value) == HoldOf(w, v.holder.value); }
    if w.holder.Some? { assert HoldOf(v, w.holder.value) == HoldOf(w, w.holder.value); }
    if v.shared != map[] { var k :| k in v.shared; assert HoldOf(v, k) == HoldOf(w, k); }
  }

  /** An exclusive holder excludes every other thread. */
  lemma Exclusion(v: View, t: Thread, u: Thread)
    requires Consistent(v) && HoldOf(v, t).mode == Exclusive && u != t
    ensures HoldOf(v, u) == Hold(Unlocked, 0)
  {
  }

  /** force_unlock_if_locked, then anything that leaves the thread without a hold, then restore_lock. */
  lemma ForceThenRestore(v: View, w: View, t: Thread)
    requires Consistent(v) && Consistent(w) && HoldOf(v, t).count > 0 && HoldOf(w, t).count == 0
    ensures
      var (r, mode, count) := ForceUnlockPass(v, t);
      var back := RestorePass(w, t, mode, count);
      back.Done? ==> HoldOf(back.v, t) == HoldOf(v, t)
    ensures
      var (r, mode, count) := ForceUnlockPass(v, t);
      r.Done? && RestorePass(r.v, t, mode, count) == Done(v)
  {
    ForceUnlockGives(v, t);
    var (r, mode, count) := ForceUnlockPass(v, t);
    RestoreGives(w, t, Hold(mode, count));
    RestoreGives(r.v, t, Hold(mode, count));
    var back := RestorePass(r.v, t, mode, count);
    if back.Done? {
      HoldsDetermine(back.v, v);
    }
  }

  // ----- the object -----

  /** The work each method does with the guard held; every VERIFY of the source is an assert. */
  class Lock {
    var mode: Mode
    var holder: Option<Thread>
    var shared: map<Thread, nat>
    var times: nat

    ghost function Now(): View
      reads this
    {
      View(mode, holder, shared, times)
    }

    constructor ()
      ensures Now() == Fresh
    {
      mode, holder, shared, times := Unlocked, None, map[], 0;
    }

    method TryLock(t: Thread, wanted: Mode) returns (acquired: bool)
      requires Consistent(Now()) && wanted != Unlocked
      modifies this
      ensures acquired == Admits(old(Now()), t, wanted)
      ensures LockPass(old(Now()), t, wanted) == if acquired then Done(Now()) else Wait
      ensures Consistent(Now()) && (!acquired ==> Now() == old(Now()))
    {
      LockGives(Now(), t, wanted);
      match mode {
        case Unlocked =>
          mode := wanted;
          assert holder == None;
          assert shared == map[];
          if wanted == Exclusive {
            holder := Some(t);
          } else {
            assert wanted == Shared;
            shared := shared[t := 1];
          }
          assert times == 0;
          times := times + 1;
          return true;
        case Exclusive =>
          assert holder.Some?;
          if holder == Some(t) {
            assert shared == map[];
            assert times > 0;
            times := times + 1;
            return true;
          }
        case Shared =>
          assert holder == None;
          if wanted == Shared {
            SumPositive(shared);
            assert times > 0;
            times := times + 1;
            assert shared != map[];
            if t in shared {
              shared := shared[t := shared[t] + 1];
            } else {
              shared := shared[t := 1];
            }
            return true;
          }
      }
      return false;
    }

    method Unlock(t: Thread)
      requires Consistent(Now()) && HoldOf(Now(), t).count > 0
      modifies this
      ensures Consistent(Now()) && UnlockPass(old(Now()), t) == Done(Now())
    {
      UnlockGives(Now(), t);
      assert mode != Unlocked;
      assert times > 0;
      times := times - 1;
      if mode == Exclusive {
        assert holder == Some(t);
        assert shared == map[];
        if times == 0 {
          holder := None;
        }
      } else {
        assert holder == None;
        assert t in shared;
        if shared[t] > 1 {
          shared := shared[t := shared[t] - 1];
        } else {
          assert shared[t] > 0;
          shared := shared - {t};
        }
      }
      if times == 0 {
        assert if mode == Exclusive then holder == None else shared == map[];
        mode := Unlocked;
      }
    }

    method ForceUnlockIfLocked(t: Thread) returns (previous: Mode, count: nat)
      requires Consistent(Now())
      modifies this
      ensures Consistent(Now()) && Hold(previous, count) == HoldOf(old(Now()), t)
      ensures ForceUnlockPass(old(Now()), t) == (Done(Now()), previous, count)
    {
      ForceUnlockGives(Now(), t);
      match mode {
        case Exclusive =>
          if holder != Some(t) {
            return Unlocked, 0;
          }
          holder := None;
          assert times > 0;
          count := times;
          times := 0;
          mode := Unlocked;
          return Exclusive, count;
        case Shared =>
          assert holder == None;
          if t !in shared {
            return Unlocked, 0;
          }
          assert shared[t] > 0;
          count := shared[t];
          shared := shared - {t};
          assert times >= count;
          times := times - count;
          if times == 0 {
            mode := Unlocked;
          }
          return Shared, count;
        case Unlocked =>
          return Unlocked, 0;
      }
    }

    method TryRestore(t: Thread, wanted: Mode, count: nat) returns (restored: bool)
      requires Consistent(Now()) && wanted != Unlocked && count > 0 && HoldOf(Now(), t).count == 0
      modifies this
      ensures RestorePass(old(Now()), t, wanted, count) == if restored then Done(Now()) else Wait
      ensures Consistent(Now()) && (!restored ==> Now() == old(Now()))
    {
      RestoreGives(Now(), t, Hold(wanted, count));
      if wanted == Exclusive {
        if mode != Unlocked {
          return false;
        }
        mode := Exclusive;
        assert times == 0;
        times := count;
        assert holder == None;
        assert shared == map[];
        holder := Some(t);
      } else {
        var expected := mode;
        if mode == Exclusive {
          return false;
        }
        mode := Shared;
        assert expected == Shared || times == 0;
        times := times + count;
        assert holder == None;
        assert (expected == Unlocked) == (shared == map[]);
        assert t !in shared;
        shared := shared[t := count];
      }
      return true;
    }
  }

  // ----- interleavings -----

  datatype Call = DoLock(mode: Mode) | DoUnlock | DoForceUnlock | DoRestore(h: Hold)

  /** Where a thread is between two operations on m_lock. */
  datatype Counter =
    | Idle
    | Spinning(call: Call)                // before m_lock.exchange(true)
    | Inside(call: Call)                  // it has the guard
    | Releasing(again: Option<Call>)      // its work is done; a call that must wait starts over

  datatype State = State(
    guard: Option<Thread>,       // m_lock, with who set it
    v: View,
    holds: map<Thread, Hold>,    // what each thread has locked and not yet unlocked
    saved: map<Thread, Hold>,    // what force_unlock_if_locked last returned to it
    pc: map<Thread, Counter>
  )

  datatype Action = Start(call: Call) | Continue

  datatype Result = Ok(s: State) | VerifyFailed

  ghost predicate Initial(s: State) {
    && s.guard == None && s.v == Fresh && s.holds.Keys == s.saved.Keys == s.pc.Keys
    && forall t | t in s.pc :: s.pc[t] == Idle && s.holds[t] == s.saved[t] == Hold(Unlocked, 0)
  }

  /** What the callers owe: unlock what they hold, restore what was taken from them. */
  predicate Allowed(s: State, t: Thread, call: Call) {
    && t in s.holds && t in s.saved
    && match call
       case DoLock(mode) => mode != Unlocked
       case DoUnlock => s.holds[t].count > 0
       case DoForceUnlock => true
       case DoRestore(h) => h == s.saved[t] && h.count > 0 && s.holds[t].count == 0
  }

  function Finish(s: State, t: Thread, v: View, h: Hold): Result {
    Ok(s.(v := v, holds := s.holds[t := h], pc := s.pc[t := Releasing(None)]))
  }

  /** The work of a call, with the guard held. */
  function Work(s: State, t: Thread, call: Call): Result
    requires t in s.pc && t in s.holds
  {
    var h := s.holds[t];
    match call
    case DoLock(mode) =>
      if mode == Unlocked then VerifyFailed
      else (
        match LockPass(s.v, t, mode)
        case Failed => VerifyFailed
        case Wait => Ok(s.(pc := s.pc[t := Releasing(Some(call))]))
        case Done(v) => Finish(s, t, v, if h.count == 0 then Hold(mode, 1) else Hold(h.mode, h.count + 1))
      )
    case DoUnlock => (
      match UnlockPass(s.v, t)
      case Done(v) => Finish(s, t, v, if h.count <= 1 then Hold(Unlocked, 0) else Hold(h.mode, h.count - 1))
      case _ => VerifyFailed
      )
    case DoForceUnlock =>
      var (r, mode, count) := ForceUnlockPass(s.v, t);
      if r.Done? then Finish(s.(saved := s.saved[t := Hold(mode, count)]), t, r.v, Hold(Unlocked, 0))
      else VerifyFailed
    case DoRestore(back) =>
      match RestorePass(s.v, t, back.mode, back.count)
      case Failed => VerifyFailed
      case Wait => Ok(s.(pc := s.pc[t := Releasing(Some(call))]))
      case Done(v) => Finish(s, t, v, back)
  }

  function Exec(s: State, t: Thread, a: Action): Result {
    if t !in s.pc || t !in s.holds then Ok(s)
    else match a
      case Start(call) =>
        if s.pc[t] == Idle && Allowed(s, t, call) then Ok(s.(pc := s.pc[t := Spinning(call)])) else Ok(s)
      case Continue =>
        match s.pc[t]
        case Idle => Ok(s)
        case Spinning(call) =>
          if s.guard.Some? then Ok(s) // somebody else has m_lock: yield
          else Ok(s.(guard := Some(t), pc := s.pc[t := Inside(call)]))
        case Inside(call) => Work(s, t, call)
        case Releasing(again) =>
          Ok(s.(guard := None, pc := s.pc[t := (if again.Some? then Spinning(again.value) else Idle)]))
  }

  datatype Event = Event(t: Thread, a: Action)

  function Run(s: State, events: seq<Event>): Result
    decreases |events|
  {
    if events == [] then Ok(s)
    else
      match Exec(s, events[0].t, events[0].a)
      case Ok(s') => Run(s', events[1..])
      case bad => bad
  }

  function Pending(c: Counter): Option<Call> {
    match c
    case Idle => None
    case Spinning(call) => Some(call)
    case Inside(call) => Some(call)
    case Releasing(again) => again
  }

  predicate HasGuard(c: Counter) {
    c.Inside? || c.Releasing?
  }

  ghost predicate ThreadOk(s: State, t: Thread)
    requires t in s.pc && t in s.holds && t in s.saved
  {
    // the fields agree with what the thread has done
    && HoldOf(s.v, t) == s.holds[t]
    // one thread at a time behind the guard
    && (HasGuard(s.pc[t]) <==> s.guard == Some(t))
    // a call in progress is still allowed
    && (Pending(s.pc[t]).Some? ==> Allowed(s, t, Pending(s.pc[t]).value))
    && (s.saved[t].count > 0 ==> s.saved[t].mode != Unlocked)
  }

  ghost predicate Inv(s: State) {
    && Consistent(s.v) && s.holds.Keys == s.saved.Keys == s.pc.Keys
    && (forall t | t in s.pc :: ThreadOk(s, t))
    && (forall t | t !in s.pc :: HoldOf(s.v, t) == Hold(Unlocked, 0))
  }

  lemma HoldMode(v: View, t: Thread)
    requires Consistent(v)
    ensures HoldOf(v, t).count == 0 <==> HoldOf(v, t) == Hold(Unlocked, 0)
    ensures HoldOf(v, t).count > 0 ==> HoldOf(v, t).mode == v.mode != Unlocked
  {
  }

  /** The guard makes one thread's work invisible to the others except through what it holds. */
  lemma FinishInv(s: State, t: Thread, v: View, h: Hold)
    requires Inv(s) && t in s.pc && s.pc[t].Inside? && Gives(s.v, v, t, h)
    ensures Inv(Finish(s, t, v, h).s)
  {
    var s' := Finish(s, t, v, h).s;
    forall u | u in s'.pc ensures ThreadOk(s', u) {
      assert ThreadOk(s, u) && ThreadOk(s, t);
    }
  }

  lemma SaveInv(s: State, t: Thread, h: Hold)
    requires Inv(s) && t in s.pc && s.pc[t] == Inside(DoForceUnlock)
    requires h.count > 0 ==> h.mode != Unlocked
    ensures Inv(s.(saved := s.saved[t := h]))
  {
    var s' := s.(saved := s.saved[t := h]);
    forall u | u in s'.pc ensures ThreadOk(s', u) {
      assert ThreadOk(s, u);
    }
  }

  lemma MoveInv(s: State, t: Thread, guard: Option<Thread>, c: Counter)
    requires Inv(s) && t in s.pc && s.pc[t] != Idle
    requires s.guard == None || s.guard == Some(t)
    requires Pending(c) == None || Pending(c) == Pending(s.pc[t])
    requires guard == if HasGuard(c) then Some(t) else None
    ensures Inv(s.(guard := guard, pc := s.pc[t := c]))
  {
    var s' := s.(guard := guard, pc := s.pc[t := c]);
    forall u | u in s'.pc ensures ThreadOk(s', u) {
      assert ThreadOk(s, u) && ThreadOk(s, t);
    }
  }

  /** What an admitted thread then holds, in terms of what it held. */
  lemma AdmittedHold(v: View, t: Thread, mode: Mode)
    requires Consistent(v) && mode != Unlocked && Admits(v, t, mode)
    ensures
      var h := HoldOf(v, t);
      Hold(if v.mode == Unlocked then mode else v.mode, h.count + 1)
      == if h.count == 0 then Hold(mode, 1) else Hold(h.mode, h.count + 1)
  {
    HoldMode(v, t);
  }

  lemma LockAdmitted(s: State, t: Thread, mode: Mode) returns (v: View, h: Hold)
    requires Inv(s) && t in s.pc && s.pc[t] == Inside(DoLock(mode)) && Admits(s.v, t, mode)
    ensures Gives(s.v, v, t, h) && Work(s, t, DoLock(mode)) == Finish(s, t, v, h)
  {
    assert ThreadOk(s, t);
    LockGives(s.v, t, mode);
    AdmittedHold(s.v, t, mode);
    v := LockPass(s.v, t, mode).v;
    h := if s.holds[t].count == 0 then Hold(mode, 1) else Hold(s.holds[t].mode, s.holds[t].count + 1);
  }

  lemma LockWorkInv(s: State, t: Thread, mode: Mode)
    requires Inv(s) && t in s.pc && s.pc[t] == Inside(DoLock(mode))
    ensures Work(s, t, DoLock(mode)).Ok? && Inv(Work(s, t, DoLock(mode)).s)
  {
    if Admits(s.v, t, mode) {
      var v, h := LockAdmitted(s, t, mode);
      FinishInv(s, t, v, h);
    } else {
      assert ThreadOk(s, t);
      LockGives(s.v, t, mode);
      MoveInv(s, t, s.guard, Releasing(Some(DoLock(mode))));
    }
  }

  lemma RestoreWorkInv(s: State, t: Thread, h: Hold)
    requires Inv(s) && t in s.pc && s.pc[t] == Inside(DoRestore(h))
    ensures Work(s, t, DoRestore(h)).Ok? && Inv(Work(s, t, DoRestore(h)).s)
  {
    assert ThreadOk(s, t);
    RestoreGives(s.v, t, h);
    var r := RestorePass(s.v, t, h.mode, h.count);
    if r.Done? {
      FinishInv(s, t, r.v, h);
    } else {
      MoveInv(s, t, s.guard, Releasing(Some(DoRestore(h))));
    }
  }

  lemma UnlockWorkInv(s: State, t: Thread)
    requires Inv(s) && t in s.pc && s.pc[t] == Inside(DoUnlock)
    ensures Work(s, t, DoUnlock).Ok? && Inv(Work(s, t, DoUnlock).s)
  {
    assert ThreadOk(s, t);
    HoldMode(s.v, t);
    UnlockGives(s.v, t);
    var n := s.holds[t].count - 1;
    FinishInv(s, t, UnlockPass(s.v, t).v, if n == 0 then Hold(Unlocked, 0) else Hold(s.v.mode, n));
  }

  lemma ForceUnlockWorkInv(s: State, t: Thread)
    requires Inv(s) && t in s.pc && s.pc[t] == Inside(DoForceUnlock)
    ensures Work(s, t, DoForceUnlock).Ok? && Inv(Work(s, t, DoForceUnlock).s)
    ensures Work(s, t, DoForceUnlock).s.saved[t] == s.holds[t]
  {
    assert ThreadOk(s, t);
    HoldMode(s.v, t);
    ForceUnlockGives(s.v, t);
    var (r, mode, count) := ForceUnlockPass(s.v, t);
    SaveInv(s, t, Hold(mode, count));
    FinishInv(s.(saved := s.saved[t := Hold(mode, count)]), t, r.v, Hold(Unlocked, 0));
  }

  /** No step of any thread in any reachable state fails a VERIFY. */
  lemma StepInv(s: State, t: Thread, a: Action)
    requires Inv(s)
    ensures Exec(s, t, a).Ok? && Inv(Exec(s, t, a).s)
  {
    if t in s.pc && a == Continue {
      match s.pc[t] {
        case Idle =>
        case Spinning(call) =>
          if s.guard == None {
            MoveInv(s, t, Some(t), Inside(call));
          }
        case Inside(call) =>
          match call {
            case DoLock(mode) => LockWorkInv(s, t, mode);
            case DoUnlock => UnlockWorkInv(s, t);
            case DoForceUnlock => ForceUnlockWorkInv(s, t);
            case DoRestore(h) => RestoreWorkInv(s, t, h);
          }
        case Releasing(again) =>
          MoveInv(s, t, None, if again.Some? then Spinning(again.value) else Idle);
      }
    }
  }

  /** There is an initial state for any threads. */
  lemma InitialExists(threads: set<Thread>)
    ensures
      var none := map t | t in threads :: Hold(Unlocked, 0);
      Initial(State(None, Fresh, none, none, map t | t in threads :: Idle))
  {
  }

  lemma InitialInv(s: State)
    requires Initial(s)
    ensures Inv(s)
  {
  }

  lemma {:induction false} RunSafe(s: State, events: seq<Event>)
    requires Inv(s)
    ensures Run(s, events).Ok? && Inv(Run(s, events).s)
    decreases |events|
  {
    if events != [] {
      StepInv(s, events[0].t, events[0].a);
      RunSafe(Exec(s, events[0].t, events[0].a).s, events[1..]);
    }
  }

  /** Every interleaving of any number of threads. */
  lemma ReachableStates(s: State, events: seq<Event>)
    requires Initial(s)
    ensures Run(s, events).Ok?
    ensures
      var r := Run(s, events).s;
      && Consistent(r.v) && r.holds.Keys == r.pc.Keys
      && (forall t | t in r.pc :: HoldOf(r.v, t) == r.holds[t])
      && (forall t, u | t in r.pc && u in r.pc && t != u && r.holds[t].mode == Exclusive :: r.holds[u].count == 0)
      && (forall t, u | t in r.pc && u in r.pc && HasGuard(r.pc[t]) && HasGuard(r.pc[u]) :: t == u)
  {
    InitialInv(s);
    RunSafe(s, events);
    var r := Run(s, events).s;
    forall t | t in r.pc ensures ThreadOk(r, t) {
    }
  }

  // ----- what the calls do -----

  /** Who a lock call has to wait for: everyone who holds the lock, unless both want to share it. */
  lemma AdmitsMeans(v: View, t: Thread, mode: Mode)
    requires Consistent(v) && mode != Unlocked
    ensures Admits(v, t, mode) <==>
              forall u | HoldOf(v, u).count > 0 ::
                (u == t && HoldOf(v, u).mode == Exclusive) || (HoldOf(v, u).mode == Shared && mode == Shared)
  {
    if v.mode == Exclusive {
      assert HoldOf(v, v.holder.value).count > 0;
    } else if v.mode == Shared {
      var u :| u in v.shared;
      assert HoldOf(v, u).count > 0;
    }
  }

  /** A hold after one more, or one fewer, lock call. */
  function OneMore(h: Hold, mode: Mode): Hold {
    if h.count == 0 then Hold(mode, 1) else Hold(h.mode, h.count + 1)
  }

  function OneLess(h: Hold): Hold {
    if h.count <= 1 then Hold(Unlocked, 0) else Hold(h.mode, h.count - 1)
  }

  /** From s to r only t has changed what it holds, what was taken from it, and where it is. */
  ghost predicate OnlyFor(s: State, r: State, t: Thread) {
    && r.pc.Keys == s.pc.Keys == s.saved.Keys == r.saved.Keys
    && forall u | u != t ::
         && HoldOf(r.v, u) == HoldOf(s.v, u)
         && (u in s.pc ==> r.pc[u] == s.pc[u] && r.saved[u] == s.saved[u])
  }

  /** What the work of a call comes to, from the fields and the call. */
  ghost predicate Did(s: State, r: State, t: Thread, call: Call)
    requires t in s.pc && t in r.pc && t in s.saved && t in r.saved
  {
    var was, now := HoldOf(s.v, t), HoldOf(r.v, t);
    match call
    case DoLock(mode) =>
      if Admits(s.v, t, mode) then now == OneMore(was, mode) && r.saved[t] == s.saved[t] && r.pc[t] == Releasing(None)
      else r == s.(pc := s.pc[t := Releasing(Some(call))])
    case DoUnlock => was.count > 0 && now == OneLess(was) && r.saved[t] == s.saved[t] && r.pc[t] == Releasing(None)
    case DoForceUnlock => now == Hold(Unlocked, 0) && r.saved[t] == was && r.pc[t] == Releasing(None)
    case DoRestore(h) =>
      if s.v.mode == Unlocked || (s.v.mode == Shared && h.mode == Shared)
      then was.count == 0 && h == s.saved[t] && now == h && r.saved[t] == s.saved[t] && r.pc[t] == Releasing(None)
      else r == s.(pc := s.pc[t := Releasing(Some(call))])
  }

  lemma LockDid(s: State, t: Thread, mode: Mode)
    requires Inv(s) && t in s.pc && s.pc[t] == Inside(DoLock(mode))
    ensures Work(s, t, DoLock(mode)).Ok?
    ensures OnlyFor(s, Work(s, t, DoLock(mode)).s, t) && Did(s, Work(s, t, DoLock(mode)).s, t, DoLock(mode))
  {
    assert ThreadOk(s, t);
    LockGives(s.v, t, mode);
    if Admits(s.v, t, mode) {
      AdmittedHold(s.v, t, mode);
    }
  }

  lemma UnlockDid(s: State, t: Thread)
    requires Inv(s) && t in s.pc && s.pc[t] == Inside(DoUnlock)
    ensures Work(s, t, DoUnlock).Ok?
    ensures OnlyFor(s, Work(s, t, DoUnlock).s, t) && Did(s, Work(s, t, DoUnlock).s, t, DoUnlock)
  {
    assert ThreadOk(s, t);
    HoldMode(s.v, t);
    UnlockGives(s.v, t);
  }

  lemma ForceUnlockDid(s: State, t: Thread)
    requires Inv(s) && t in s.pc && s.pc[t] == Inside(DoForceUnlock)
    ensures Work(s, t, DoForceUnlock).Ok?
    ensures OnlyFor(s, Work(s, t, DoForceUnlock).s, t) && Did(s, Work(s, t, DoForceUnlock).s, t, DoForceUnlock)
  {
    ForceUnlockGives(s.v, t);
  }

  lemma RestoreDid(s: State, t: Thread, h: Hold)
    requires Inv(s) && t in s.pc && s.pc[t] == Inside(DoRestore(h))
    ensures Work(s, t, DoRestore(h)).Ok?
    ensures OnlyFor(s, Work(s, t, DoRestore(h)).s, t) && Did(s, Work(s, t, DoRestore(h)).s, t, DoRestore(h))
  {
    assert ThreadOk(s, t);
    RestoreGives(s.v, t, h);
  }

  /** The work of every call, in every state that can be reached. */
  lemma WorkDid(s: State, t: Thread)
    requires Inv(s) && t in s.pc && s.pc[t].Inside?
    ensures Exec(s, t, Continue).Ok?
    ensures OnlyFor(s, Exec(s, t, Continue).s, t) && Did(s, Exec(s, t, Continue).s, t, s.pc[t].call)
  {
    match s.pc[t].call
    case DoLock(mode) => LockDid(s, t, mode);
    case DoUnlock => UnlockDid(s, t);
    case DoForceUnlock => ForceUnlockDid(s, t);
    case DoRestore(h) => RestoreDid(s, t, h);
  }

  // ----- the calls that have returned -----

  /** What a thread knows from its own calls: the one it is in, and what those that returned come to. */
  datatype Account = Account(call: Option<Call>, hold: Hold, saved: Hold)

  const NoCalls := Account(None, Hold(Unlocked, 0), Hold(Unlocked, 0))

  function Returned(acc: Account, call: Call): Account {
    match call
    case DoLock(mode) => Account(None, OneMore(acc.hold, mode), acc.saved)
    case DoUnlock => Account(None, OneLess(acc.hold), acc.saved)
    case DoForceUnlock => Account(None, Hold(Unlocked, 0), acc.hold)
    case DoRestore(h) => Account(None, h, acc.saved)
  }

  /** A step of the thread: it may start a call, or return from the one it is in. */
  function Noted(acc: Account, before: Counter, a: Action, after: Counter): Account {
    if before == Idle && after != Idle && a.Start? then acc.(call := Some(a.call))
    else if before != Idle && after == Idle && acc.call.Some? then Returned(acc, acc.call.value)
    else acc
  }

  /** The account of t after a run, from the calls it started and returned from. */
  function Ledger(s: State, events: seq<Event>, t: Thread, acc: Account): Account
    decreases |events|
  {
    if events == [] then acc
    else
      match Exec(s, events[0].t, events[0].a)
      case Ok(next) =>
        var mine := events[0].t == t && t in s.pc && t in next.pc;
        Ledger(next, events[1..], t, if mine then Noted(acc, s.pc[t], events[0].a, next.pc[t]) else acc)
      case _ => acc
  }

  /** The account agrees with the fields of the lock, as far as the thread has come in its call. */
  ghost predicate Agrees(s: State, t: Thread, acc: Account)
    requires t in s.pc && t in s.saved
  {
    var c := s.pc[t];
    if c == Releasing(None) then
      acc.call.Some? && Returned(acc, acc.call.value) == Account(None, HoldOf(s.v, t), s.saved[t])
    else acc == Account(Pending(c), HoldOf(s.v, t), s.saved[t])
  }

  lemma OthersAgree(s: State, e: Event, t: Thread)
    requires Inv(s) && t in s.pc && e.t != t
    ensures Exec(s, e.t, e.a).Ok?
    ensures
      var r := Exec(s, e.t, e.a).s;
      t in r.pc && t in r.saved && r.pc[t] == s.pc[t] && r.saved[t] == s.saved[t] && HoldOf(r.v, t) == HoldOf(s.v, t)
  {
    if e.t in s.pc && e.a == Continue && s.pc[e.t].Inside? {
      WorkDid(s, e.t);
    }
  }

  lemma OwnAgrees(s: State, t: Thread, a: Action, acc: Account)
    requires Inv(s) && t in s.pc && Agrees(s, t, acc)
    ensures Exec(s, t, a).Ok? && t in Exec(s, t, a).s.pc && t in Exec(s, t, a).s.saved
    ensures Agrees(Exec(s, t, a).s, t, Noted(acc, s.pc[t], a, Exec(s, t, a).s.pc[t]))
  {
    if a == Continue && s.pc[t].Inside? {
      WorkDid(s, t);
    }
  }

  lemma {:induction false} LedgerAgrees(s: State, events: seq<Event>, t: Thread, acc: Account)
    requires Inv(s) && t in s.pc && Agrees(s, t, acc)
    ensures Run(s, events).Ok? && t in Run(s, events).s.pc && t in Run(s, events).s.saved
    ensures Agrees(Run(s, events).s, t, Ledger(s, events, t, acc))
    decreases |events|
  {
    if events != [] {
      var e := events[0];
      StepInv(s, e.t, e.a);
      if e.t == t {
        OwnAgrees(s, t, e.a, acc);
        LedgerAgrees(Exec(s, e.t, e.a).s, events[1..], t, Noted(acc, s.pc[t], e.a, Exec(s, e.t, e.a).s.pc[t]));
      } else {
        OthersAgree(s, e, t);
        LedgerAgrees(Exec(s, e.t, e.a).s, events[1..], t, acc);
      }
    }
  }

  /**
    In every run, a thread that is in no call holds the lock as often as its lock calls have
    returned, less its unlocks, with what was forced open and restored; and two threads whose
    calls give them the lock at the same time both share it.
   */
  lemma CallsCount(s: State, events: seq<Event>, t: Thread, u: Thread)
    requires Initial(s) && t in s.pc && u in s.pc && t != u
    ensures Run(s, events).Ok? && t in Run(s, events).s.pc && u in Run(s, events).s.pc
    ensures
      var r := Run(s, events).s;
      var mine, yours := Ledger(s, events, t, NoCalls).hold, Ledger(s, events, u, NoCalls).hold;
      && (r.pc[t] == Idle ==> HoldOf(r.v, t) == mine)
      && (r.pc[t] == r.pc[u] == Idle && mine.count > 0 && yours.count > 0 ==> mine.mode == yours.mode == Shared)
  {
    InitialInv(s);
    RunSafe(s, events);
    LedgerAgrees(s, events, t, NoCalls);
    LedgerAgrees(s, events, u, NoCalls);
  }

  predicate NeedNotWait(v: View, t: Thread, call: Call) {
    match call
    case DoLock(mode) => v.mode == Unlocked || (v.mode == Exclusive && v.holder == Some(t)) || v.mode == mode == Shared
    case DoRestore(h) => v.mode == Unlocked || v.mode == h.mode == Shared
    case _ => true
  }

  lemma RunStep(s: State, e: Event, rest: seq<Event>) returns (next: State)
    requires Exec(s, e.t, e.a).Ok?
    ensures Exec(s, e.t, e.a) == Ok(next) && Run(s, [e] + rest) == Run(next, rest)
  {
    next := Exec(s, e.t, e.a).s;
    assert ([e] + rest)[1..] == rest;
  }

  /** With the guard free, a call gets to its work. */
  lemma Enters(s: State, t: Thread, call: Call, rest: seq<Event>) returns (inside: State)
    requires Inv(s) && t in s.pc && s.pc[t] == Idle && s.guard == None && Allowed(s, t, call)
    ensures Run(s, [Event(t, Start(call))] + ([Event(t, Continue)] + rest)) == Run(inside, rest)
    ensures inside == s.(guard := Some(t), pc := s.pc[t := Inside(call)]) && Inv(inside)
  {
    StepInv(s, t, Start(call));
    var waiting := RunStep(s, Event(t, Start(call)), [Event(t, Continue)] + rest);
    StepInv(waiting, t, Continue);
    inside := RunStep(waiting, Event(t, Continue), rest);
    assert s.pc[t := Spinning(call)][t := Inside(call)] == s.pc[t := Inside(call)];
  }

  lemma Finishes(s: State, t: Thread, rest: seq<Event>) returns (done: State)
    requires Inv(s) && t in s.pc && s.pc[t].Inside? && NeedNotWait(s.v, t, s.pc[t].call)
    ensures Run(s, [Event(t, Continue)] + rest) == Run(done, rest) && OnlyFor(s, done, t)
    ensures t in done.pc && t in done.holds && done.pc[t] == Releasing(None)
    ensures Account(None, HoldOf(done.v, t), done.saved[t]) ==
            Returned(Account(None, HoldOf(s.v, t), s.saved[t]), s.pc[t].call)
  {
    WorkDid(s, t);
    StepInv(s, t, Continue);
    done := RunStep(s, Event(t, Continue), rest);
  }

  /** A call that nobody disturbs and that need not wait returns after three steps, with its effect. */
  lemma CallAlone(s: State, t: Thread, call: Call) returns (r: State)
    requires Inv(s) && t in s.pc && s.pc[t] == Idle && s.guard == None && Allowed(s, t, call)
    requires NeedNotWait(s.v, t, call)
    ensures
      var step := [Event(t, Continue)];
      Run(s, [Event(t, Start(call))] + (step + (step + (step + [])))) == Ok(r)
    ensures OnlyFor(s, r, t) && t in r.pc && r.pc[t] == Idle && r.guard == None
    ensures Account(None, HoldOf(r.v, t), r.saved[t]) == Returned(Account(None, HoldOf(s.v, t), s.saved[t]), call)
  {
    var step := Event(t, Continue);
    var inside := Enters(s, t, call, [step] + ([step] + []));
    var done := Finishes(inside, t, [step] + []);
    r := RunStep(done, step, []);
  }
}
