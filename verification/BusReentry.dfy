/** strands_robots/bus_access.py: what a thread already inside a device can wait for when it makes another locked
    call. */
module BusReentry {
  import opened Options
  import opened BusAccess

  /** The call is past its first look and still without its lock: it found nothing cached. */
  predicate Locking(pc: Pc)
  {
    pc == WantGuard || pc == Recheck || pc == Create || pc == Publish || pc == Unguard
  }

  /** The thread's running call is on a device it is already inside of. */
  ghost predicate Reenters(s: State, t: Thread)
  {
    && s.Running(t)
    && exists j :: 0 <= j < |s.threads[t]| - 1 && s.threads[t][j].device == s.Top(t).device
  }

  /** A re-entering call looks for the registry guard only on a device that refuses the attribute. */
  ghost predicate ReentryOk(refuses: set<Device>, s: State)
  {
    forall t :: Reenters(s, t) && Locking(s.Top(t).pc) ==> s.Top(t).device in refuses
  }

  /** The frames below are inside their devices, so a device that is not a refuser has its lock. */
  lemma BelowHasALock(refuses: set<Device>, s: State, t: Thread)
    requires Core(refuses, s) && Reenters(s, t)
    ensures s.Top(t).device in refuses || s.Top(t).device in s.attr
    ensures InsideOf(s, t, s.Top(t).device)
  {
    var j :| 0 <= j < |s.threads[t]| - 1 && s.threads[t][j].device == s.Top(t).device;
    assert FrameOk(refuses, s.attr, s.nextLock, s.threads[t][j]) && s.threads[t][j].pc == Inside;
    assert Critical(s.threads[t][j].pc);
  }

  /** What a step does to the stack of the thread that makes it. */
  ghost predicate StackMoves(s: State, s': State, t: Thread)
  {
    && s'.threads.Keys == s.threads.Keys && t in s.threads
    && (forall u :: u in s.threads && u != t ==> s'.threads[u] == s.threads[u])
    && var was, now := s.threads[t], s'.threads[t];
      || (|now| == |was| + 1 && now[..|was|] == was && now[|was|].pc == Look)
      || (|was| > 0 && now == was[..|was| - 1])
      || (|was| > 0 && |now| == |was| && now[..|was| - 1] == was[..|was| - 1]
        && now[|was| - 1].device == was[|was| - 1].device
          && (Locking(now[|was| - 1].pc) ==>
                || Locking(was[|was| - 1].pc)
                || (was[|was| - 1].pc == Look && was[|was| - 1].device !in s.attr)))
  }

  lemma TopMoves(s: State, s': State, t: Thread, f: Frame)
    requires s.Running(t) && s'.threads == s.WithTop(t, f).threads && f.device == s.Top(t).device
    requires Locking(f.pc) ==> Locking(s.Top(t).pc) || (s.At(t, Look) && s.Top(t).device !in s.attr)
    ensures StackMoves(s, s', t)
  {
  }

  lemma EntryMovesStack(s: State, s': State, t: Thread)
    requires LookUp(s, s', t) || TakeGuard(s, s', t) || RecheckAttr(s, s', t) || CreateLock(s, s', t)
    ensures StackMoves(s, s', t)
  {
    hide StackMoves;
    TopMoves(s, s', t, s'.Top(t));
  }

  lemma LockMovesStack(refuses: set<Device>, s: State, s': State, t: Thread)
    requires PublishLock(s, s', t, refuses) || DropGuard(s, s', t) || AcquireLock(s, s', t)
    ensures StackMoves(s, s', t)
  {
    hide StackMoves;
    TopMoves(s, s', t, s'.Top(t));
  }

  lemma UseMovesStack(s: State, s': State, t: Thread)
    requires FinishUse(s, s', t) || CheckOpen(s, s', t)
    ensures StackMoves(s, s', t)
  {
    hide StackMoves, TellingsOf;
    TopMoves(s, s', t, s'.Top(t));
  }

  lemma OpeningMovesStack(s: State, s': State, t: Thread)
    requires ConnectFails(s, s', t) || Connect(s, s', t) || TellCaller(s, s', t)
    ensures StackMoves(s, s', t)
  {
    hide StackMoves, TellingsOf;
    TopMoves(s, s', t, s'.Top(t));
  }

  lemma StepMovesStack(refuses: set<Device>, s: State, s': State, t: Thread)
    requires ThreadStep(s, s', refuses, t)
    ensures StackMoves(s, s', t)
  {
    if d, goal :| Call(s, s', t, d, goal) {
      assert s'.threads[t] == s.threads[t] + [Frame(d, goal, Look, 0)];
    } else if ReleaseLock(s, s', t) {
      assert s'.threads[t] == s.threads[t][..|s.threads[t]| - 1];
    } else {
      hide StackMoves, LookUp, TakeGuard, RecheckAttr, CreateLock, PublishLock, DropGuard, AcquireLock, FinishUse,
           CheckOpen, ConnectFails, Connect, TellCaller, ReleaseLock, Call;
      if FinishUse(s, s', t) || CheckOpen(s, s', t) {
        UseMovesStack(s, s', t);
      } else if ConnectFails(s, s', t) || Connect(s, s', t) || TellCaller(s, s', t) {
        OpeningMovesStack(s, s', t);
      } else if PublishLock(s, s', t, refuses) || DropGuard(s, s', t) || AcquireLock(s, s', t) {
        LockMovesStack(refuses, s, s', t);
      } else {
        EntryMovesStack(s, s', t);
      }
    }
  }

  lemma StepKeepsReentry(refuses: set<Device>, s: State, s': State, t: Thread)
    requires Core(refuses, s) && ReentryOk(refuses, s) && StackMoves(s, s', t)
    ensures ReentryOk(refuses, s')
  {
    forall u | Reenters(s', u) && Locking(s'.Top(u).pc) ensures s'.Top(u).device in refuses {
      if u != t {
        assert s'.threads[u] == s.threads[u];
        assert Reenters(s, u);
      } else {
        MoverReenters(refuses, s, s', t);
      }
    }
  }

  lemma MoverReenters(refuses: set<Device>, s: State, s': State, t: Thread)
    requires Core(refuses, s) && ReentryOk(refuses, s) && StackMoves(s, s', t)
    requires Reenters(s', t) && Locking(s'.Top(t).pc)
    ensures s'.Top(t).device in refuses
  {
    var was, now := s.threads[t], s'.threads[t];
    var j :| 0 <= j < |now| - 1 && now[j].device == s'.Top(t).device;
    TopIsOk(refuses, s, t);
    assert |now| == |was| && now[..|was| - 1][j] == was[..|was| - 1][j];
    assert Reenters(s, t);
    BelowHasALock(refuses, s, t);
  }

  lemma NextKeepsReentry(refuses: set<Device>, s: State, s': State)
    requires Core(refuses, s) && ReentryOk(refuses, s) && Next(s, s', refuses)
    ensures ReentryOk(refuses, s')
  {
    if t :| ThreadStep(s, s', refuses, t) {
      StepMovesStack(refuses, s, s', t);
      StepKeepsReentry(refuses, s, s', t);
    } else {
      var d :| CloseBus(s, s', d);
      assert forall u :: Reenters(s', u) ==> Reenters(s, u) && s'.Top(u) == s.Top(u);
    }
  }

  lemma {:induction false} RunKeepsReentry(run: seq<State>, refuses: set<Device>, i: nat)
    requires Run(run, refuses) && i < |run|
    ensures Core(refuses, run[i]) && ReentryOk(refuses, run[i])
  {
    RunKeeps(run, refuses, i, i);
    if i == 0 {
      assert forall t :: !run[0].Running(t);
    } else {
      RunKeepsReentry(run, refuses, i - 1);
      NextKeepsReentry(refuses, run[i - 1], run[i - 1 + 1]);
    }
  }

  /** The thread has a step to make now. */
  ghost predicate Enabled(refuses: set<Device>, s: State, t: Thread)
  {
    exists s' :: ThreadStep(s, s', refuses, t)
  }

  lemma Takes(refuses: set<Device>, s: State, t: Thread, s': State)
    requires ThreadStep(s, s', refuses, t)
    ensures Enabled(refuses, s, t)
  {
  }

  /** A call on its way to the lock, that waits for nothing, has a step. */
  lemma EntryHasAStep(refuses: set<Device>, s: State, t: Thread)
    requires s.Running(t) && !Critical(s.Top(t).pc)
    requires s.Top(t).pc == WantGuard ==> s.guard.None?
    requires s.Top(t).pc == Acquire ==> CanAcquire(s, t, s.Top(t).lock)
    ensures Enabled(refuses, s, t)
  {
    hide Enabled;
    var f, d := s.Top(t), s.Top(t).device;
    match f.pc
    case Look =>
      Takes(refuses, s, t, if d in s.attr
        then s.WithTop(t, f.(pc := Acquire, lock := s.attr[d])).(returned := s.returned + {(d, s.attr[d])})
        else s.WithTop(t, f.(pc := WantGuard)));
    case WantGuard => Takes(refuses, s, t, s.WithTop(t, f.(pc := Recheck)).(guard := Some(t)));
    case Recheck =>
      Takes(refuses, s, t,
        if d in s.attr then s.WithTop(t, f.(pc := Unguard, lock := s.attr[d])) else s.WithTop(t, f.(pc := Create)));
    case Create => Takes(refuses, s, t,
      s.WithTop(t, f.(pc := Publish, lock := s.nextLock)).(nextLock := s.nextLock + 1));
    case Publish =>
      Takes(refuses, s, t, if d in refuses then s.WithTop(t, f.(pc := Unguard, lock := FALLBACK_LOCK))
        else s.WithTop(t, f.(pc := Unguard)).(attr := s.attr[d := f.lock]));
    case Unguard =>
      Takes(refuses, s, t, s.WithTop(t, f.(pc := Acquire)).(guard := None, returned := s.returned + {(d, f.lock)}));
    case Acquire =>
      var depth := if f.lock in s.locks then s.locks[f.lock].depth + 1 else 1;
      Takes(refuses, s, t, s.WithTop(t, f.(pc := Inside)).(locks := s.locks[f.lock := Holding(t, depth)]));
  }

  /** A call that holds its lock has a step. */
  lemma HolderHasAStep(refuses: set<Device>, s: State, t: Thread)
    requires s.Running(t) && Critical(s.Top(t).pc) && s.Top(t).lock in s.locks
    ensures Enabled(refuses, s, t)
  {
    hide Enabled;
    var f, d := s.Top(t), s.Top(t).device;
    match f.pc
    case Inside =>
      Takes(refuses, s, t, s.WithTop(t, f.(pc := if f.goal == UseDevice || d in s.open then Release else Connecting)));
    case Connecting => Takes(refuses, s, t, s.WithTop(t, f.(pc := Release)));
    case Notify =>
      var told := s.WithTop(t,
        f.(pc := Release)).(tellings := s.tellings[d := TellingsOf(s.tellings, d) + [Telling(t, true)]]);
      assert Tell(s, told, t, true);
      Takes(refuses, s, t, told);
    case Release =>
      var h := s.locks[f.lock];
      Takes(refuses, s, t, s.(threads := s.threads[t := s.threads[t][..|s.threads[t]| - 1]],
        locks := if h.depth <= 1 then s.locks - {f.lock} else s.locks[f.lock := Holding(h.owner, h.depth - 1)]));
  }

  lemma WaitsForGuard(refuses: set<Device>, s: State, t: Thread)
    requires s.At(t, WantGuard) && s.guard.Some?
    ensures !Enabled(refuses, s, t)
  {
  }

  /** What a running call is sure of, wherever it stands. */
  lemma TopHasItsLock(refuses: set<Device>, s: State, t: Thread)
    requires Core(refuses, s) && s.Running(t)
    ensures Critical(s.Top(t).pc) ==> s.Top(t).lock in s.locks
  {
    TopIsOk(refuses, s, t);
    if Critical(s.Top(t).pc) {
      var top := s.threads[t][|s.threads[t]| - 1];
      assert Critical(top.pc) && top.device == s.Top(t).device;
      assert InsideOf(s, t, s.Top(t).device);
      InsideHoldsLock(refuses, s, t, s.Top(t).device, s.Top(t).lock);
    }
  }

  /** In every interleaving, a thread making another locked call on a device it is inside of always has a step, but
      while it wants the registry guard and another thread holds it; and it wants that guard only for a device that
      refuses the attribute. */
  lemma ReentryWaitsOnlyForTheGuard(run: seq<State>, refuses: set<Device>, i: nat, t: Thread)
    requires Run(run, refuses) && i < |run| && Reenters(run[i], t)
    ensures var s := run[i];
      && (Enabled(refuses, s, t) <==> !(s.Top(t).pc == WantGuard && s.guard.Some?))
      && (s.Top(t).pc == WantGuard ==> s.Top(t).device in refuses && s.guard != Some(t))
  {
    var s := run[i];
    RunKeepsReentry(run, refuses, i);
    BelowHasALock(refuses, s, t);
    TopHasItsLock(refuses, s, t);
    TopIsOk(refuses, s, t);
    hide Core, ThreadStep;
    if s.Top(t).pc == WantGuard && s.guard.Some? {
      WaitsForGuard(refuses, s, t);
    } else if Critical(s.Top(t).pc) {
      HolderHasAStep(refuses, s, t);
    } else {
      if s.Top(t).pc == Acquire {
        ReentryNeverBlocks(refuses, s, t);
      }
      EntryHasAStep(refuses, s, t);
    }
  }

  /** How many steps the guard's holder has left before it lets the guard go. */
  function StepsLeft(pc: Pc): nat
  {
    match pc
    case Recheck => 4
    case Create => 3
    case Publish => 2
    case Unguard => 1
    case _ => 0
  }

  /** In every interleaving, whoever holds the registry guard has a step, waits for no device's lock, and lets the guard
      go within four steps of its own, which no other thread can lengthen: so the wait for it ends. */
  lemma GuardIsLetGo(run: seq<State>, refuses: set<Device>, i: nat, u: Thread)
    requires Run(run, refuses) && i < |run| && run[i].guard == Some(u)
    ensures var s := run[i];
      && s.Running(u) && 0 < StepsLeft(s.Top(u).pc) <= 4 && Enabled(refuses, s, u)
      && (forall s' :: ThreadStep(s, s', refuses, u) ==>
            if StepsLeft(s.Top(u).pc) == 1 then s'.guard.None?
            else s'.guard == Some(u) && s'.Running(u) && StepsLeft(s'.Top(u).pc) < StepsLeft(s.Top(u).pc))
      && (forall s', t :: t != u && ThreadStep(s, s', refuses, t) ==>
            s'.guard == Some(u) && s'.Running(u) && s'.Top(u) == s.Top(u))
  {
    var s := run[i];
    RunKeepsReentry(run, refuses, i);
    assert u in s.threads && s.Running(u) && Guarded(s.Top(u).pc);
    EntryHasAStep(refuses, s, u);
    forall s' | ThreadStep(s, s', refuses, u)
      ensures if StepsLeft(s.Top(u).pc) == 1 then s'.guard.None?
        else s'.guard == Some(u) && s'.Running(u) && StepsLeft(s'.Top(u).pc) < StepsLeft(s.Top(u).pc)
    {
      HolderMoves(refuses, s, s', u);
    }
    forall s', t | t != u && ThreadStep(s, s', refuses, t)
      ensures s'.guard == Some(u) && s'.Running(u) && s'.Top(u) == s.Top(u)
    {
      if t in s.threads {
        assert s.guard == Some(t) <==> s.Running(t) && Guarded(s.Top(t).pc);
      }
      OtherMoves(refuses, s, s', t, u);
    }
  }

  lemma HolderMoves(refuses: set<Device>, s: State, s': State, u: Thread)
    requires ThreadStep(s, s', refuses, u) && s.guard == Some(u) && s.Running(u) && Guarded(s.Top(u).pc)
    ensures if StepsLeft(s.Top(u).pc) == 1 then s'.guard.None?
      else s'.guard == Some(u) && s'.Running(u) && StepsLeft(s'.Top(u).pc) < StepsLeft(s.Top(u).pc)
  {
    GuardedSteps(refuses, s, s', u);
    hide ThreadStep;
  }

  lemma GuardedSteps(refuses: set<Device>, s: State, s': State, u: Thread)
    requires ThreadStep(s, s', refuses, u) && s.Running(u) && Guarded(s.Top(u).pc)
    ensures RecheckAttr(s, s', u) || CreateLock(s, s', u) || PublishLock(s, s', u, refuses) || DropGuard(s, s', u)
  {
    hide TellingsOf, RecheckAttr, CreateLock, PublishLock, DropGuard;
  }

  lemma OtherMoves(refuses: set<Device>, s: State, s': State, t: Thread, u: Thread)
    requires ThreadStep(s, s', refuses, t) && t != u && s.guard == Some(u) && s.Running(u)
    requires s.Running(t) ==> !Guarded(s.Top(t).pc)
    ensures s'.guard == Some(u) && s'.Running(u) && s'.Top(u) == s.Top(u)
  {
    StepMovesStack(refuses, s, s', t);
    hide TellingsOf;
  }
}
