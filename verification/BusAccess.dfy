/** strands_robots/bus_access.py and `ensure_bus_open`: any number of threads, one atomic step at a time.

    A thread runs a stack of locked calls. Each call looks up the device's lock, creates it under the
    registry guard when the device has none yet, acquires it, works on the device, and releases it. */
module BusAccess {
  import opened Options

  type Thread = nat
  type Device = nat
  type LockId = nat

  /** The lock shared by every device that refuses the attribute. */
  const FALLBACK_LOCK: LockId := 0

  /** What a call does once it holds the lock: use the device, or open its bus, telling the caller or not. */
  datatype Goal = UseDevice | EnsureOpen(notify: bool)

  datatype Pc =
    | Look        // read the cached attribute without the guard
    | WantGuard   // nothing was cached: wait for the registry guard
    | Recheck     // holding the guard: read the attribute again
    | Create      // holding the guard: make a lock
    | Publish     // holding the guard: store the lock on the device, or fall back
    | Unguard     // the lock is known: release the guard
    | Acquire     // wait for the lock
    | Inside      // holding the lock
    | Connecting  // holding the lock, the bus was found closed
    | Notify      // holding the lock, the bus was just opened
    | Release     // holding the lock, about to let it go

  datatype Frame = Frame(device: Device, goal: Goal, pc: Pc, lock: LockId)

  /** A re-entrant lock that is held: by whom, and how many times. */
  datatype Holding = Holding(owner: Thread, depth: nat)

  /** One call of the caller's `on_open`, which writes the ledger entry of the opening unless it raises. */
  datatype Telling = Telling(teller: Thread, recorded: bool)

  datatype State = State(
    attr: map<Device, LockId>,
    nextLock: LockId,
    guard: Option<Thread>,
    locks: map<LockId, Holding>,
    threads: map<Thread, seq<Frame>>,
    returned: set<(Device, LockId)>,
    open: set<Device>,
    tellings: map<Device, seq<Telling>>)
  {
    predicate Running(t: Thread)
    {
      t in threads && |threads[t]| > 0
    }

    function Top(t: Thread): Frame
      requires Running(t)
    {
      threads[t][|threads[t]| - 1]
    }

    predicate At(t: Thread, pc: Pc)
    {
      Running(t) && Top(t).pc == pc
    }

    /** The state after `t`'s running call becomes `f`. */
    function WithTop(t: Thread, f: Frame): State
      requires Running(t)
    {
      this.(threads := threads[t := threads[t][..|threads[t]| - 1] + [f]])
    }
  }

  function TellingsOf(tellings: map<Device, seq<Telling>>, d: Device): seq<Telling>
  {
    if d in tellings then tellings[d] else []
  }

  predicate Initial(s: State)
  {
    && s.attr == map[] && s.nextLock == 1 && s.guard == None && s.locks == map[]
    && (forall t :: t in s.threads ==> s.threads[t] == [])
    && s.returned == {} && s.tellings == map[]
  }

  // The steps. `refuses` is the set of devices that will not hold the attribute.

  /** A thread with nothing running, or working inside a locked call, makes a locked call. */
  predicate Call(s: State, s': State, t: Thread, d: Device, goal: Goal)
  {
    && t in s.threads && (|s.threads[t]| > 0 ==> s.Top(t).pc == Inside && s.Top(t).goal == UseDevice)
    && s' == s.(threads := s.threads[t := s.threads[t] + [Frame(d, goal, Look, 0)]])
  }

  predicate LookUp(s: State, s': State, t: Thread)
  {
    && s.At(t, Look)
    && var f := s.Top(t);
       if f.device in s.attr
       then s' == s.WithTop(t, f.(pc := Acquire, lock := s.attr[f.device])).(returned := s.returned
         + {(f.device, s.attr[f.device])})
       else s' == s.WithTop(t, f.(pc := WantGuard))
  }

  predicate TakeGuard(s: State, s': State, t: Thread)
  {
    && s.At(t, WantGuard) && s.guard == None
    && s' == s.WithTop(t, s.Top(t).(pc := Recheck)).(guard := Some(t))
  }

  predicate RecheckAttr(s: State, s': State, t: Thread)
  {
    && s.At(t, Recheck)
    && var f := s.Top(t);
       if f.device in s.attr
       then s' == s.WithTop(t, f.(pc := Unguard, lock := s.attr[f.device]))
       else s' == s.WithTop(t, f.(pc := Create))
  }

  predicate CreateLock(s: State, s': State, t: Thread)
  {
    && s.At(t, Create)
    && s' == s.WithTop(t, s.Top(t).(pc := Publish, lock := s.nextLock)).(nextLock := s.nextLock + 1)
  }

  predicate PublishLock(s: State, s': State, t: Thread, refuses: set<Device>)
  {
    && s.At(t, Publish)
    && var f := s.Top(t);
       if f.device in refuses
       then s' == s.WithTop(t, f.(pc := Unguard, lock := FALLBACK_LOCK))
       else s' == s.WithTop(t, f.(pc := Unguard)).(attr := s.attr[f.device := f.lock])
  }

  predicate DropGuard(s: State, s': State, t: Thread)
  {
    && s.At(t, Unguard)
    && var f := s.Top(t);
       s' == s.WithTop(t, f.(pc := Acquire)).(guard := None, returned := s.returned + {(f.device, f.lock)})
  }

  /** The acquisition does not block: the lock is free or already this thread's. */
  predicate CanAcquire(s: State, t: Thread, l: LockId)
  {
    l !in s.locks || s.locks[l].owner == t
  }

  predicate AcquireLock(s: State, s': State, t: Thread)
  {
    && s.At(t, Acquire)
    && var f := s.Top(t);
       && CanAcquire(s, t, f.lock)
       && var depth := if f.lock in s.locks then s.locks[f.lock].depth + 1 else 1;
          s' == s.WithTop(t, f.(pc := Inside)).(locks := s.locks[f.lock := Holding(t, depth)])
  }

  /** The device call is over, with a result or an exception. */
  predicate FinishUse(s: State, s': State, t: Thread)
  {
    s.At(t, Inside) && s.Top(t).goal == UseDevice && s' == s.WithTop(t, s.Top(t).(pc := Release))
  }

  predicate CheckOpen(s: State, s': State, t: Thread)
  {
    && s.At(t, Inside) && s.Top(t).goal.EnsureOpen?
    && s' == s.WithTop(t, s.Top(t).(pc := if s.Top(t).device in s.open then Release else Connecting))
  }

  /** `bus.connect()` raised: the bus stays closed. */
  predicate ConnectFails(s: State, s': State, t: Thread)
  {
    s.At(t, Connecting) && s' == s.WithTop(t, s.Top(t).(pc := Release))
  }

  predicate Connect(s: State, s': State, t: Thread)
  {
    && s.At(t, Connecting)
    && var f := s.Top(t);
       s' == s.WithTop(t, f.(pc := if f.goal == EnsureOpen(true) then Notify else Release)).(open := s.open
         + {f.device})
  }

  /** `on_open` is called, and writes its entry or raises; either way the call is over and the lock will be released. */
  predicate Tell(s: State, s': State, t: Thread, recorded: bool)
  {
    && s.At(t, Notify)
    && var f := s.Top(t);
       s' == s.WithTop(t, f.(pc := Release)).(
         tellings := s.tellings[f.device := TellingsOf(s.tellings, f.device) + [Telling(t, recorded)]])
  }

  predicate TellCaller(s: State, s': State, t: Thread)
  {
    Tell(s, s', t, true) || Tell(s, s', t, false)
  }

  predicate ReleaseLock(s: State, s': State, t: Thread)
  {
    && s.At(t, Release)
    && var f := s.Top(t);
       && f.lock in s.locks
       && var h := s.locks[f.lock];
          s' == s.(threads := s.threads[t := s.threads[t][..|s.threads[t]| - 1]],
            locks := if h.depth <= 1 then s.locks - {f.lock} else s.locks[f.lock := Holding(h.owner, h.depth - 1)])
  }

  /** Someone outside this module closes a bus. */
  predicate CloseBus(s: State, s': State, d: Device)
  {
    s' == s.(open := s.open - {d})
  }

  ghost predicate ThreadStep(s: State, s': State, refuses: set<Device>, t: Thread)
  {
    || (exists d, goal :: Call(s, s', t, d, goal))
    || LookUp(s, s', t) || TakeGuard(s, s', t) || RecheckAttr(s, s', t) || CreateLock(s, s', t)
    || PublishLock(s, s', t, refuses) || DropGuard(s, s', t) || AcquireLock(s, s', t) || FinishUse(s, s', t)
    || CheckOpen(s, s', t) || ConnectFails(s, s', t) || Connect(s, s', t)
      || TellCaller(s, s', t) || ReleaseLock(s, s', t)
  }

  ghost predicate Next(s: State, s': State, refuses: set<Device>)
  {
    (exists t :: ThreadStep(s, s', refuses, t)) || (exists d :: CloseBus(s, s', d))
  }

  // The invariant.

  predicate Guarded(pc: Pc)
  {
    pc == Recheck || pc == Create || pc == Publish || pc == Unguard
  }

  /** The call holds its lock. */
  predicate Critical(pc: Pc)
  {
    pc == Inside || pc == Connecting || pc == Notify || pc == Release
  }

  /** `l` is the one lock of device `d`. */
  predicate IsLockOf(refuses: set<Device>, attr: map<Device, LockId>, d: Device, l: LockId)
  {
    if d in refuses then l == FALLBACK_LOCK else d in attr && attr[d] == l
  }

  ghost predicate AttrOk(refuses: set<Device>, attr: map<Device, LockId>, nextLock: LockId)
  {
    && nextLock > FALLBACK_LOCK
    && (forall d :: d in attr ==> d !in refuses && FALLBACK_LOCK < attr[d] < nextLock)
    && (forall d, e :: d in attr && e in attr && attr[d] == attr[e] ==> d == e)
  }

  ghost predicate FrameOk(refuses: set<Device>, attr: map<Device, LockId>, nextLock: LockId, f: Frame)
  {
    && (f.pc == Unguard || f.pc == Acquire || Critical(f.pc) ==> IsLockOf(refuses, attr, f.device, f.lock))
    && (f.pc == Create || f.pc == Publish ==> f.device !in attr)
    && (f.pc == Publish ==> FALLBACK_LOCK < f.lock < nextLock && f.lock !in attr.Values)
    && (f.pc == Connecting ==> f.goal.EnsureOpen?)
    && (f.pc == Notify ==> f.goal == EnsureOpen(true))
  }

  ghost predicate FramesOk(refuses: set<Device>, s: State)
  {
    forall t, i :: t in s.threads && 0 <= i < |s.threads[t]| ==>
      && FrameOk(refuses, s.attr, s.nextLock, s.threads[t][i])
      && (i < |s.threads[t]| - 1 ==> s.threads[t][i].pc == Inside && s.threads[t][i].goal == UseDevice)
  }

  ghost predicate GuardOk(s: State)
  {
    && (s.guard.Some? ==> s.guard.value in s.threads)
    && forall t :: t in s.threads ==> (s.guard == Some(t) <==> s.Running(t) && Guarded(s.Top(t).pc))
  }

  predicate Holds(f: Frame, l: LockId)
  {
    Critical(f.pc) && f.lock == l
  }

  /** How many calls of one stack hold lock `l`. */
  function Count(stack: seq<Frame>, l: LockId): nat
  {
    if |stack| == 0 then 0
    else Count(stack[..|stack| - 1], l) + if Holds(stack[|stack| - 1], l) then 1 else 0
  }

  function Depth(locks: map<LockId, Holding>, t: Thread, l: LockId): nat
  {
    if l in locks && locks[l].owner == t then locks[l].depth else 0
  }

  /** A lock's owner and depth say exactly who holds it, and how often. */
  ghost predicate LocksOk(locks: map<LockId, Holding>, threads: map<Thread, seq<Frame>>)
  {
    && (forall l :: l in locks ==> locks[l].owner in threads && locks[l].depth > 0)
    && (forall t, l :: t in threads ==> Count(threads[t], l) == Depth(locks, t, l))
  }

  ghost predicate ReturnedOk(refuses: set<Device>, s: State)
  {
    forall d, l :: (d, l) in s.returned ==> IsLockOf(refuses, s.attr, d, l)
  }

  ghost predicate Core(refuses: set<Device>, s: State)
  {
    AttrOk(refuses, s.attr, s.nextLock) && FramesOk(refuses, s) && GuardOk(s) && LocksOk(s.locks, s.threads)
  }

  ghost predicate Inv(refuses: set<Device>, s: State)
  {
    Core(refuses, s) && ReturnedOk(refuses, s)
  }

  lemma CountTop(below: seq<Frame>, f: Frame, l: LockId)
    ensures Count(below + [f], l) == Count(below, l) + if Holds(f, l) then 1 else 0
  {
    assert (below + [f])[..|below|] == below;
  }

  lemma {:induction false} CountSees(stack: seq<Frame>, i: nat, l: LockId)
    requires i < |stack| && Holds(stack[i], l)
    ensures Count(stack, l) > 0
  {
    if i < |stack| - 1 {
      CountSees(stack[..|stack| - 1], i, l);
    }
  }

  /** `t` is inside a locked call on `d`. */
  ghost predicate InsideOf(s: State, t: Thread, d: Device)
  {
    t in s.threads && exists i :: 0 <= i < |s.threads[t]| && Critical(s.threads[t][i].pc) && s.threads[t][i].device == d
  }

  lemma InsideHoldsLock(refuses: set<Device>, s: State, t: Thread, d: Device, l: LockId)
    requires Core(refuses, s) && InsideOf(s, t, d) && IsLockOf(refuses, s.attr, d, l)
    ensures l in s.locks && s.locks[l].owner == t
  {
    var i :| 0 <= i < |s.threads[t]| && Critical(s.threads[t][i].pc) && s.threads[t][i].device == d;
    assert FrameOk(refuses, s.attr, s.nextLock, s.threads[t][i]);
    CountSees(s.threads[t], i, l);
    assert Count(s.threads[t], l) == Depth(s.locks, t, l);
  }

  /** At most one thread is ever inside a device. */
  lemma Exclusive(refuses: set<Device>, s: State, t: Thread, u: Thread, d: Device)
    requires Core(refuses, s) && InsideOf(s, t, d) && InsideOf(s, u, d)
    ensures t == u
  {
    var i :| 0 <= i < |s.threads[t]| && Critical(s.threads[t][i].pc) && s.threads[t][i].device == d;
    assert FrameOk(refuses, s.attr, s.nextLock, s.threads[t][i]);
    var l := s.threads[t][i].lock;
    InsideHoldsLock(refuses, s, t, d, l);
    InsideHoldsLock(refuses, s, u, d, l);
  }

  /** A thread already inside a device is never blocked on its lock again. */
  lemma ReentryNeverBlocks(refuses: set<Device>, s: State, t: Thread)
    requires Core(refuses, s) && s.At(t, Acquire) && InsideOf(s, t, s.Top(t).device)
    ensures CanAcquire(s, t, s.Top(t).lock)
  {
    assert FrameOk(refuses, s.attr, s.nextLock, s.threads[t][|s.threads[t]| - 1]);
    InsideHoldsLock(refuses, s, t, s.Top(t).device, s.Top(t).lock);
  }

  // Every step keeps the core.

  /** A step that neither takes nor drops a lock and stores no attribute. */
  lemma QuietStep(refuses: set<Device>, s: State, s': State, t: Thread, f: Frame)
    requires Core(refuses, s) && s.Running(t)
    requires s'.threads == s.WithTop(t, f).threads && s'.attr == s.attr
      && s'.nextLock >= s.nextLock && s'.locks == s.locks
    requires FrameOk(refuses, s'.attr, s'.nextLock, f)
    requires var was := s.Top(t);
      && (Critical(f.pc) <==> Critical(was.pc)) && (Critical(f.pc) ==> f.lock == was.lock)
      && (Guarded(f.pc) && !Guarded(was.pc) ==> s.guard == None)
      && s'.guard == if Guarded(f.pc) then Some(t) else if Guarded(was.pc) then None else s.guard
    ensures Core(refuses, s')
  {
    var below := s.threads[t][..|s.threads[t]| - 1];
    assert s.threads[t] == below + [s.Top(t)];
    forall l
      ensures Count(s'.threads[t], l) == Count(s.threads[t], l)
    {
      CountTop(below, f, l);
      CountTop(below, s.Top(t), l);
    }
    QuietFrames(refuses, s, s', t, f);
    QuietGuard(s, s', t, f);
  }

  lemma QuietFrames(refuses: set<Device>, s: State, s': State, t: Thread, f: Frame)
    requires FramesOk(refuses, s) && s.Running(t)
    requires s'.threads == s.WithTop(t, f).threads && s'.attr == s.attr && s'.nextLock >= s.nextLock
    requires FrameOk(refuses, s'.attr, s'.nextLock, f)
    ensures FramesOk(refuses, s')
  {
    forall u, i | u in s'.threads && 0 <= i < |s'.threads[u]|
      ensures FrameOk(refuses, s'.attr, s'.nextLock, s'.threads[u][i])
      ensures i < |s'.threads[u]| - 1 ==> s'.threads[u][i].pc == Inside && s'.threads[u][i].goal == UseDevice
    {
      if u != t || i < |s'.threads[u]| - 1 {
        assert FrameOk(refuses, s.attr, s.nextLock, s.threads[u][i]);
      }
    }
  }

  lemma QuietGuard(s: State, s': State, t: Thread, f: Frame)
    requires GuardOk(s) && s.Running(t)
    requires s'.threads == s.WithTop(t, f).threads
    requires var was := s.Top(t);
      && (Guarded(f.pc) && !Guarded(was.pc) ==> s.guard == None)
      && s'.guard == if Guarded(f.pc) then Some(t) else if Guarded(was.pc) then None else s.guard
    ensures GuardOk(s')
  {
    assert s'.Top(t) == f;
    forall u | u in s'.threads
      ensures s'.guard == Some(u) <==> s'.Running(u) && Guarded(s'.Top(u).pc)
    {
      assert s.guard == Some(t) <==> Guarded(s.Top(t).pc);
      if u != t {
        assert s'.threads[u] == s.threads[u];
      }
    }
  }

  lemma CallStep(refuses: set<Device>, s: State, s': State, t: Thread, d: Device, goal: Goal)
    requires Core(refuses, s) && Call(s, s', t, d, goal)
    ensures Core(refuses, s')
  {
    CallFrames(refuses, s, s', t, d, goal);
    CallGuard(s, s', t, d, goal);
    hide FramesOk, GuardOk, AttrOk;
    forall l
      ensures Count(s'.threads[t], l) == Count(s.threads[t], l)
    {
      CountTop(s.threads[t], Frame(d, goal, Look, 0), l);
    }
  }

  lemma CallFrames(refuses: set<Device>, s: State, s': State, t: Thread, d: Device, goal: Goal)
    requires FramesOk(refuses, s) && Call(s, s', t, d, goal)
    ensures FramesOk(refuses, s')
  {
    forall u, i | u in s'.threads && 0 <= i < |s'.threads[u]|
      ensures FrameOk(refuses, s'.attr, s'.nextLock, s'.threads[u][i])
      ensures i < |s'.threads[u]| - 1 ==> s'.threads[u][i].pc == Inside && s'.threads[u][i].goal == UseDevice
    {
      if u != t || i < |s'.threads[u]| - 1 {
        assert FrameOk(refuses, s.attr, s.nextLock, s.threads[u][i]);
      }
    }
  }

  lemma CallGuard(s: State, s': State, t: Thread, d: Device, goal: Goal)
    requires GuardOk(s) && Call(s, s', t, d, goal)
    ensures GuardOk(s')
  {
    forall u | u in s'.threads
      ensures s'.guard == Some(u) <==> s'.Running(u) && Guarded(s'.Top(u).pc)
    {
      assert s.guard == Some(u) <==> s.Running(u) && Guarded(s.Top(u).pc);
    }
  }

  lemma TopIsOk(refuses: set<Device>, s: State, t: Thread)
    requires Core(refuses, s) && s.Running(t)
    ensures FrameOk(refuses, s.attr, s.nextLock, s.Top(t))
    ensures s.guard == Some(t) <==> Guarded(s.Top(t).pc)
    ensures |s.threads[t]| > 1 ==> s.threads[t][|s.threads[t]| - 2].pc == Inside
  {
    assert FrameOk(refuses, s.attr, s.nextLock, s.threads[t][|s.threads[t]| - 1]);
    assert |s.threads[t]| > 1 ==> FrameOk(refuses, s.attr, s.nextLock, s.threads[t][|s.threads[t]| - 2]);
  }

  lemma LookUpStep(refuses: set<Device>, s: State, s': State, t: Thread)
    requires Core(refuses, s)
    requires LookUp(s, s', t)
    ensures Core(refuses, s')
  {
    TopIsOk(refuses, s, t);
    CreatedLockIsNew(refuses, s);
    hide FramesOk, GuardOk, LocksOk, AttrOk;
    QuietStep(refuses, s, s', t, s'.Top(t));
  }

  lemma TakeGuardStep(refuses: set<Device>, s: State, s': State, t: Thread)
    requires Core(refuses, s) && TakeGuard(s, s', t)
    ensures Core(refuses, s')
  {
    TopIsOk(refuses, s, t);
    CreatedLockIsNew(refuses, s);
    hide FramesOk, GuardOk, LocksOk, AttrOk;
    QuietStep(refuses, s, s', t, s'.Top(t));
  }

  lemma RecheckStep(refuses: set<Device>, s: State, s': State, t: Thread)
    requires Core(refuses, s) && RecheckAttr(s, s', t)
    ensures Core(refuses, s')
  {
    TopIsOk(refuses, s, t);
    CreatedLockIsNew(refuses, s);
    hide FramesOk, GuardOk, LocksOk, AttrOk;
    QuietStep(refuses, s, s', t, s'.Top(t));
  }

  lemma MakingSteps(refuses: set<Device>, s: State, s': State, t: Thread)
    requires Core(refuses, s)
    requires CreateLock(s, s', t) || DropGuard(s, s', t)
    ensures Core(refuses, s')
  {
    TopIsOk(refuses, s, t);
    CreatedLockIsNew(refuses, s);
    AttrGrows(refuses, s.attr, s.nextLock, s'.nextLock);
    hide FramesOk, GuardOk, LocksOk, AttrOk;
    QuietStep(refuses, s, s', t, s'.Top(t));
  }

  lemma AttrGrows(refuses: set<Device>, attr: map<Device, LockId>, nextLock: LockId, nextLock': LockId)
    requires AttrOk(refuses, attr, nextLock) && nextLock <= nextLock'
    ensures AttrOk(refuses, attr, nextLock')
  {
  }

  lemma CreatedLockIsNew(refuses: set<Device>, s: State)
    requires Core(refuses, s)
    ensures FALLBACK_LOCK < s.nextLock && s.nextLock !in s.attr.Values
    ensures forall d :: d in s.attr ==> d !in refuses
  {
  }

  lemma WorkingSteps(refuses: set<Device>, s: State, s': State, t: Thread)
    requires Core(refuses, s)
    requires FinishUse(s, s', t) || CheckOpen(s, s', t) || ConnectFails(s, s', t)
    ensures Core(refuses, s')
  {
    TopIsOk(refuses, s, t);
    hide FramesOk, GuardOk, LocksOk, AttrOk;
    QuietStep(refuses, s, s', t, s'.Top(t));
  }

  lemma ConnectStep(refuses: set<Device>, s: State, s': State, t: Thread)
    requires Core(refuses, s) && Connect(s, s', t)
    ensures Core(refuses, s')
  {
    TopIsOk(refuses, s, t);
    hide FramesOk, GuardOk, LocksOk, AttrOk;
    QuietStep(refuses, s, s', t, s'.Top(t));
  }

  lemma TellStep(refuses: set<Device>, s: State, s': State, t: Thread, recorded: bool)
    requires Core(refuses, s) && Tell(s, s', t, recorded)
    ensures Core(refuses, s')
  {
    TopIsOk(refuses, s, t);
    hide FramesOk, GuardOk, LocksOk, AttrOk, TellingsOf;
    QuietStep(refuses, s, s', t, s'.Top(t));
  }

  lemma PublishStep(refuses: set<Device>, s: State, s': State, t: Thread)
    requires Core(refuses, s) && PublishLock(s, s', t, refuses)
    ensures Core(refuses, s')
    ensures forall d, l :: IsLockOf(refuses, s.attr, d, l) ==> IsLockOf(refuses, s'.attr, d, l)
  {
    var n, f := |s.threads[t]|, s.Top(t);
    assert FrameOk(refuses, s.attr, s.nextLock, s.threads[t][n - 1]);
    assert s.guard == Some(t) <==> Guarded(f.pc);
    if f.device in refuses {
      QuietStep(refuses, s, s', t, s'.Top(t));
    } else {
      StoreStep(refuses, s, s', t);
    }
  }

  lemma StoreFrames(refuses: set<Device>, s: State, s': State, t: Thread)
    requires FramesOk(refuses, s) && GuardOk(s) && PublishLock(s, s', t, refuses) && s.Top(t).device !in refuses
    requires FrameOk(refuses, s.attr, s.nextLock, s.Top(t)) && s.guard == Some(t)
    ensures FramesOk(refuses, s')
  {
    forall u, i | u in s'.threads && 0 <= i < |s'.threads[u]|
      ensures FrameOk(refuses, s'.attr, s'.nextLock, s'.threads[u][i])
      ensures i < |s'.threads[u]| - 1 ==> s'.threads[u][i].pc == Inside && s'.threads[u][i].goal == UseDevice
    {
      if u != t || i < |s'.threads[u]| - 1 {
        assert FrameOk(refuses, s.attr, s.nextLock, s.threads[u][i]);
        assert s.guard == Some(u) <==> s.Running(u) && Guarded(s.Top(u).pc);
        assert s'.threads[u][i] == s.threads[u][i];
        assert !Guarded(s.threads[u][i].pc);
      }
    }
  }

  lemma StoreStep(refuses: set<Device>, s: State, s': State, t: Thread)
    requires Core(refuses, s) && PublishLock(s, s', t, refuses) && s.Top(t).device !in refuses
    requires FrameOk(refuses, s.attr, s.nextLock, s.Top(t)) && s.guard == Some(t)
    ensures Core(refuses, s')
  {
    var f := s.Top(t);
    var f' := f.(pc := Unguard);
    var below := s.threads[t][..|s.threads[t]| - 1];
    assert s.threads[t] == below + [f];
    forall l
      ensures Count(s'.threads[t], l) == Count(s.threads[t], l)
    {
      CountTop(below, f', l);
      CountTop(below, f, l);
    }
    QuietGuard(s, s', t, f');
    StoreFrames(refuses, s, s', t);
    hide FramesOk, GuardOk, Count, FrameOk;
    assert f.lock in s'.attr.Values by { assert s'.attr[f.device] == f.lock; }
    assert forall d :: d in s.attr ==> s.attr[d] in s.attr.Values;
  }

  lemma AcquireStep(refuses: set<Device>, s: State, s': State, t: Thread)
    requires Core(refuses, s) && AcquireLock(s, s', t)
    ensures Core(refuses, s')
  {
    var f' := s.Top(t).(pc := Inside);
    TopIsOk(refuses, s, t);
    AcquireCounts(s, s', t);
    hide LocksOk, FramesOk, GuardOk, AttrOk;
    QuietFrames(refuses, s, s', t, f');
    QuietGuard(s, s', t, f');
  }

  lemma AcquireCounts(s: State, s': State, t: Thread)
    requires LocksOk(s.locks, s.threads) && AcquireLock(s, s', t)
    ensures LocksOk(s'.locks, s'.threads)
  {
    var f := s.Top(t);
    var f' := f.(pc := Inside);
    var below := s.threads[t][..|s.threads[t]| - 1];
    assert s.threads[t] == below + [f];
    forall u, l | u in s'.threads
      ensures Count(s'.threads[u], l) == Depth(s'.locks, u, l)
    {
      assert Count(s.threads[u], l) == Depth(s.locks, u, l);
      if u == t {
        CountTop(below, f', l);
        CountTop(below, f, l);
      }
    }
  }

  lemma ReleaseStep(refuses: set<Device>, s: State, s': State, t: Thread)
    requires Core(refuses, s) && ReleaseLock(s, s', t)
    ensures Core(refuses, s')
  {
    ReleaseFrames(refuses, s, s', t);
    hide FramesOk, GuardOk, AttrOk, FrameOk, Count, Depth;
    assert Count(s.threads[t], s.Top(t).lock) == Depth(s.locks, t, s.Top(t).lock);
    forall u, l | u in s'.threads
      ensures Count(s'.threads[u], l) == Depth(s'.locks, u, l)
    {
      assert Count(s.threads[u], l) == Depth(s.locks, u, l);
      ReleaseCount(s, s', t, u, l);
    }
  }

  /** The holder's count of its lock goes down by one, with the lock's depth; nothing else changes. */
  lemma ReleaseCount(s: State, s': State, t: Thread, u: Thread, l: LockId)
    requires ReleaseLock(s, s', t) && u in s.threads && Count(s.threads[u], l) == Depth(s.locks, u, l)
    requires Count(s.threads[t], s.Top(t).lock) == Depth(s.locks, t, s.Top(t).lock)
    ensures Count(s'.threads[u], l) == Depth(s'.locks, u, l)
  {
    hide Count;
    var f := s.Top(t);
    var below := s.threads[t][..|s.threads[t]| - 1];
    assert s.threads[t] == below + [f];
    CountTop(below, f, f.lock);
    CountTop(below, f, l);
  }

  lemma ReleaseFrames(refuses: set<Device>, s: State, s': State, t: Thread)
    requires FramesOk(refuses, s) && GuardOk(s) && ReleaseLock(s, s', t)
    ensures FramesOk(refuses, s') && GuardOk(s')
  {
    forall u, i | u in s'.threads && 0 <= i < |s'.threads[u]|
      ensures FrameOk(refuses, s'.attr, s'.nextLock, s'.threads[u][i])
      ensures s'.threads[u][i] == s.threads[u][i]
      ensures i < |s'.threads[u]| - 1 || u == t ==> s'.threads[u][i].pc == Inside && s'.threads[u][i].goal == UseDevice
    {
      assert FrameOk(refuses, s.attr, s.nextLock, s.threads[u][i]);
    }
    forall u | u in s'.threads
      ensures s'.guard == Some(u) <==> s'.Running(u) && Guarded(s'.Top(u).pc)
    {
      assert s.guard == Some(u) <==> s.Running(u) && Guarded(s.Top(u).pc);
    }
  }

  // The whole invariant, over whole runs.

  /** Any threads may start, whatever buses are open. */
  lemma AnyStart(threads: set<Thread>, open: set<Device>)
    ensures Initial(State(map[], 1, None, map[], map t | t in threads :: [], {}, open, map[]))
  {
  }

  lemma InitialIsFine(refuses: set<Device>, s: State)
    requires Initial(s)
    ensures Inv(refuses, s)
  {
  }

  lemma ThreadStepKeepsCore(refuses: set<Device>, s: State, s': State, t: Thread)
    requires Core(refuses, s) && ThreadStep(s, s', refuses, t)
    ensures Core(refuses, s')
    ensures forall d, l :: IsLockOf(refuses, s.attr, d, l) ==> IsLockOf(refuses, s'.attr, d, l)
  {
    hide Core, FrameOk;
    if d, goal :| Call(s, s', t, d, goal) {
      CallStep(refuses, s, s', t, d, goal);
    } else if PublishLock(s, s', t, refuses) {
      PublishStep(refuses, s, s', t);
    } else if AcquireLock(s, s', t) {
      AcquireStep(refuses, s, s', t);
    } else if ReleaseLock(s, s', t) {
      ReleaseStep(refuses, s, s', t);
    } else if LookUp(s, s', t) {
      LookUpStep(refuses, s, s', t);
    } else if TakeGuard(s, s', t) {
      TakeGuardStep(refuses, s, s', t);
    } else if RecheckAttr(s, s', t) {
      RecheckStep(refuses, s, s', t);
    } else if CreateLock(s, s', t) || DropGuard(s, s', t) {
      MakingSteps(refuses, s, s', t);
    } else if Connect(s, s', t) {
      ConnectStep(refuses, s, s', t);
    } else if recorded :| Tell(s, s', t, recorded) {
      TellStep(refuses, s, s', t, recorded);
    } else {
      WorkingSteps(refuses, s, s', t);
    }
  }

  /** The answer a step of `t` may add to those `bus_lock` has given. */
  function Answer(s: State, t: Thread): set<(Device, LockId)>
  {
    if s.At(t, Look) && s.Top(t).device in s.attr then {(s.Top(t).device, s.attr[s.Top(t).device])}
    else if s.At(t, Unguard) then {(s.Top(t).device, s.Top(t).lock)}
    else {}
  }

  lemma ReturnedGrowth(refuses: set<Device>, s: State, s': State, t: Thread)
    requires ThreadStep(s, s', refuses, t)
    ensures s.returned <= s'.returned <= s.returned + Answer(s, t)
  {
    hide TellingsOf;
  }

  lemma ThreadStepKeepsReturned(refuses: set<Device>, s: State, s': State, t: Thread)
    requires Core(refuses, s) && ReturnedOk(refuses, s)
    requires s.returned <= s'.returned <= s.returned + Answer(s, t)
    requires forall d, l :: IsLockOf(refuses, s.attr, d, l) ==> IsLockOf(refuses, s'.attr, d, l)
    ensures ReturnedOk(refuses, s')
  {
    if s.Running(t) {
      TopIsOk(refuses, s, t);
      CreatedLockIsNew(refuses, s);
    }
    hide Core;
    forall d, l | (d, l) in s'.returned
      ensures IsLockOf(refuses, s.attr, d, l)
    {
    }
  }

  lemma NextKeeps(refuses: set<Device>, s: State, s': State)
    requires Inv(refuses, s) && Next(s, s', refuses)
    ensures Inv(refuses, s') && s.returned <= s'.returned
  {
    if t :| ThreadStep(s, s', refuses, t) {
      ThreadStepKeepsCore(refuses, s, s', t);
      ReturnedGrowth(refuses, s, s', t);
      ThreadStepKeepsReturned(refuses, s, s', t);
    } else {
      CloseKeeps(refuses, s, s');
    }
  }

  lemma CloseKeeps(refuses: set<Device>, s: State, s': State)
    requires Inv(refuses, s) && exists d :: CloseBus(s, s', d)
    ensures Inv(refuses, s') && s.returned <= s'.returned
  {
    var d :| CloseBus(s, s', d);
  }

  ghost predicate Run(run: seq<State>, refuses: set<Device>)
  {
    && |run| > 0 && Initial(run[0])
    && forall i :: 0 <= i < |run| - 1 ==> Next(run[i], run[i + 1], refuses)
  }

  lemma {:induction false} RunKeeps(run: seq<State>, refuses: set<Device>, i: nat, j: nat)
    requires Run(run, refuses) && i <= j < |run|
    ensures Inv(refuses, run[j]) && run[i].returned <= run[j].returned
    decreases j
  {
    if j == 0 {
      InitialIsFine(refuses, run[0]);
    } else if i < j {
      RunKeeps(run, refuses, i, j - 1);
      NextKeeps(refuses, run[j - 1], run[j - 1 + 1]);
    } else {
      RunKeeps(run, refuses, j - 1, j - 1);
      NextKeeps(refuses, run[j - 1], run[j - 1 + 1]);
    }
  }

  /** In every interleaving, every `bus_lock` of one device answers with one lock, whoever asks and whenever. */
  lemma OneLockPerDevice(run: seq<State>, refuses: set<Device>, i: nat, j: nat, d: Device, l: LockId, m: LockId)
    requires Run(run, refuses) && i < |run| && j < |run|
    requires (d, l) in run[i].returned && (d, m) in run[j].returned
    ensures l == m
  {
    var last := if i <= j then j else i;
    RunKeeps(run, refuses, i, last);
    RunKeeps(run, refuses, j, last);
  }

  /** Two devices are given one lock only when both refuse the attribute and share the fallback. */
  lemma SharedOnlyByRefusers(run: seq<State>, refuses: set<Device>, i: nat, d: Device, e: Device, l: LockId)
    requires Run(run, refuses) && i < |run| && d != e
    requires (d, l) in run[i].returned && (e, l) in run[i].returned
    ensures d in refuses && e in refuses && l == FALLBACK_LOCK
  {
    RunKeeps(run, refuses, i, i);
    assert IsLockOf(refuses, run[i].attr, d, l) && IsLockOf(refuses, run[i].attr, e, l);
  }

  /** In every interleaving, at most one thread is inside a device, and its lock never blocks that thread again. */
  lemma OneThreadInside(run: seq<State>, refuses: set<Device>, i: nat, t: Thread, u: Thread, d: Device)
    requires Run(run, refuses) && i < |run|
    ensures InsideOf(run[i], t, d) && InsideOf(run[i], u, d) ==> t == u
    ensures InsideOf(run[i], t, d) && run[i].At(t, Acquire) && run[i].Top(t).device == d ==>
      CanAcquire(run[i], t, run[i].Top(t).lock)
  {
    RunKeeps(run, refuses, i, i);
    if InsideOf(run[i], t, d) && InsideOf(run[i], u, d) {
      Exclusive(refuses, run[i], t, u, d);
    }
    if InsideOf(run[i], t, d) && run[i].At(t, Acquire) && run[i].Top(t).device == d {
      ReentryNeverBlocks(refuses, run[i], t);
    }
  }
}
