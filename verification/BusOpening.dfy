/** `ensure_bus_open` in strands_robots/hardware_observe.py: what opens a bus, who is told of it, and what one call does
    when no other thread interferes. */
module BusOpening {
  import opened Options
  import opened BusAccess
  import opened BusReentry

  // Openings and the calls of `on_open`.

  function Tellers(log: seq<Telling>): seq<Thread>
  {
    seq(|log|, i requires 0 <= i < |log| => log[i].teller)
  }

  /** The threads that called `on_open` for a device, in order. */
  function Told(tellings: map<Device, seq<Telling>>, d: Device): seq<Thread>
  {
    Tellers(TellingsOf(tellings, d))
  }

  /** The ledger of a device: the entries that were written. */
  function Ledger(log: seq<Telling>): (entries: seq<Thread>)
    ensures |entries| <= |log|
  {
    if |log| == 0 then []
    else Ledger(log[..|log| - 1]) + if log[|log| - 1].recorded then [log[|log| - 1].teller] else []
  }

  /** The ledger names every call, in order, exactly when every call wrote its entry. */
  lemma {:induction false} LedgerIsToldIff(log: seq<Telling>)
    ensures Ledger(log) == Tellers(log) <==> forall k :: 0 <= k < |log| ==> log[k].recorded
  {
    if |log| > 0 {
      var init := log[..|log| - 1];
      LedgerIsToldIff(init);
      var last := log[|log| - 1];
      assert Tellers(log) == Tellers(init) + [last.teller];
      if last.recorded && Ledger(log) == Tellers(log) {
        assert Ledger(init) == Ledger(log)[..|init|] == Tellers(init);
      }
    }
  }

  /** A thread about to connect still sees the bus closed. */
  ghost predicate OpenOk(s: State)
  {
    forall t :: s.At(t, Connecting) ==> s.Top(t).device !in s.open
  }

  predicate Pending(s: State, t: Thread, d: Device)
  {
    s.At(t, Notify) && s.Top(t).device == d
  }

  /** `t` stands before `connect()` for a caller that wants to be told, and the bus, closed so far, is open. */
  predicate Opens(s: State, s': State, t: Thread, d: Device)
  {
    && s.At(t, Connecting) && s.Top(t).goal == EnsureOpen(true) && s.Top(t).device == d
    && d !in s.open && d in s'.open
  }

  ghost function OpenedBy(s: State, s': State, d: Device): seq<Thread>
  {
    if exists t :: Opens(s, s', t, d) then var t :| Opens(s, s', t, d); [t] else []
  }

  /** The threads that opened the bus of `d`, for a caller that wants to be told, in the first `n` steps of a run. */
  ghost function Openers(run: seq<State>, n: nat, d: Device): seq<Thread>
    requires n < |run|
  {
    if n == 0 then [] else Openers(run, n - 1, d) + OpenedBy(run[n - 1], run[n], d)
  }

  /** `on_open` has been called by each of the openers in turn, but by the one about to call it. */
  ghost predicate Caught(s: State, d: Device, openers: seq<Thread>)
  {
    && (forall t :: Pending(s, t, d) ==> openers == Told(s.tellings, d) + [t])
    && ((forall t :: !Pending(s, t, d)) ==> openers == Told(s.tellings, d))
  }

  lemma NobodyElseAt(refuses: set<Device>, s: State, t: Thread, u: Thread)
    requires Core(refuses, s) && s.Running(t) && s.Running(u) && t != u
    requires Critical(s.Top(t).pc) && Critical(s.Top(u).pc)
    ensures s.Top(t).device != s.Top(u).device
  {
    if s.Top(t).device == s.Top(u).device {
      var d := s.Top(t).device;
      assert Critical(s.threads[t][|s.threads[t]| - 1].pc) && s.threads[t][|s.threads[t]| - 1].device == d;
      assert Critical(s.threads[u][|s.threads[u]| - 1].pc) && s.threads[u][|s.threads[u]| - 1].device == d;
      Exclusive(refuses, s, t, u, d);
    }
  }

  /** Nobody but `t` stands at a step of `d` that only its holder takes. */
  ghost predicate AloneAt(s: State, t: Thread, d: Device)
  {
    forall u :: u != t && s.Running(u) && Critical(s.Top(u).pc) ==> s.Top(u).device != d
  }

  lemma NobodyElse(refuses: set<Device>, s: State, t: Thread)
    requires Core(refuses, s) && s.Running(t) && Critical(s.Top(t).pc)
    ensures AloneAt(s, t, s.Top(t).device)
  {
    forall u | u != t && s.Running(u) && Critical(s.Top(u).pc)
      ensures s.Top(u).device != s.Top(t).device
    {
      NobodyElseAt(refuses, s, t, u);
    }
  }

  /** Every thread but `t` stands where it stood. */
  ghost predicate OthersStay(s: State, s': State, t: Thread)
  {
    && s'.threads.Keys == s.threads.Keys
    && forall u :: u in s.threads && u != t ==> s'.threads[u] == s.threads[u]
  }

  lemma OthersArePending(s: State, s': State, t: Thread)
    requires OthersStay(s, s', t)
    ensures forall u, d :: u != t ==> (Pending(s', u, d) <==> Pending(s, u, d))
    ensures forall u :: u != t && s'.At(u, Connecting) ==> s.At(u, Connecting) && s'.Top(u) == s.Top(u)
  {
  }

  /** A step that opens nothing, tells nothing and stands at `Notify` neither before nor after. */
  ghost predicate Quiet(s: State, s': State, t: Thread)
  {
    && OthersStay(s, s', t) && s'.tellings == s.tellings && s'.open <= s.open
    && !s.At(t, Notify) && !s'.At(t, Notify)
    && (s'.At(t, Connecting) ==> s'.Top(t).device !in s'.open)
  }

  lemma NothingOpens(s: State, s': State, t: Thread, d: Device, openers: seq<Thread>)
    requires OpenOk(s) && Caught(s, d, openers) && Quiet(s, s', t)
    ensures OpenOk(s') && Caught(s', d, openers + OpenedBy(s, s', d))
  {
    OthersArePending(s, s', t);
    assert !Pending(s, t, d) && !Pending(s', t, d);
    hide Told, Pending;
    assert forall u :: !Opens(s, s', u, d);
    assert forall u :: Pending(s', u, d) <==> Pending(s, u, d);
    assert openers + OpenedBy(s, s', d) == openers;
  }

  lemma ConnectCatches(refuses: set<Device>, s: State, s': State, t: Thread, d: Device, openers: seq<Thread>)
    requires Core(refuses, s) && OpenOk(s) && Caught(s, d, openers) && Connect(s, s', t)
    ensures OpenOk(s') && Caught(s', d, openers + OpenedBy(s, s', d))
  {
    NobodyElse(refuses, s, t);
    hide Core;
    OthersArePending(s, s', t);
    ConnectOpens(s, s', t, d);
    var told := s.Top(t).goal == EnsureOpen(true) && d == s.Top(t).device;
    assert !Pending(s, t, d) && (Pending(s', t, d) <==> told);
    assert d == s.Top(t).device ==> forall u :: !Pending(s, u, d);
    hide Told, Pending, Connect;
    if !told {
      assert forall u :: Pending(s', u, d) <==> Pending(s, u, d);
    }
  }

  lemma ConnectOpens(s: State, s': State, t: Thread, d: Device)
    requires OpenOk(s) && Connect(s, s', t) && AloneAt(s, t, s.Top(t).device)
    ensures OpenedBy(s, s', d) == if s.Top(t).goal == EnsureOpen(true) && d == s.Top(t).device then [t] else []
  {
    assert forall u :: Opens(s, s', u, d) ==> u == t;
    if s.Top(t).goal == EnsureOpen(true) && d == s.Top(t).device {
      assert Opens(s, s', t, d);
    }
  }

  lemma TellerIsPending(s: State, s': State, t: Thread, d: Device)
    requires TellCaller(s, s', t) && AloneAt(s, t, s.Top(t).device)
    ensures !Pending(s', t, d) && (Pending(s, t, d) <==> d == s.Top(t).device)
    ensures d == s.Top(t).device ==> forall u :: Pending(s, u, d) ==> u == t
    ensures OpenedBy(s, s', d) == []
  {
    assert forall u :: !Opens(s, s', u, d);
  }

  /** Nobody stands before `connect()` after a telling who did not stand there before it. */
  lemma TellOpensNothing(s: State, s': State, t: Thread)
    requires OpenOk(s) && TellCaller(s, s', t)
    ensures OpenOk(s') && OthersStay(s, s', t)
  {
    hide TellingsOf;
    OthersArePending(s, s', t);
    assert s'.Top(t).pc == Release;
  }

  lemma TellCatches(refuses: set<Device>, s: State, s': State, t: Thread, d: Device, openers: seq<Thread>)
    requires Core(refuses, s) && OpenOk(s) && Caught(s, d, openers) && TellCaller(s, s', t)
    ensures OpenOk(s') && Caught(s', d, openers + OpenedBy(s, s', d))
  {
    NobodyElse(refuses, s, t);
    hide Core;
    TellOpensNothing(s, s', t);
    OthersArePending(s, s', t);
    OneMoreTelling(s, s', t, d);
    TellerIsPending(s, s', t, d);
    hide Told, Pending, OpenedBy, OpenOk, TellCaller, OthersStay, AloneAt;
    if d != s.Top(t).device {
      assert forall u :: Pending(s', u, d) <==> Pending(s, u, d);
    }
  }

  lemma OneMoreTelling(s: State, s': State, t: Thread, d: Device)
    requires TellCaller(s, s', t)
    ensures Told(s'.tellings, d) == Told(s.tellings, d) + if d == s.Top(t).device then [t] else []
  {
  }

  lemma LookingIsQuiet(s: State, s': State, t: Thread)
    requires LookUp(s, s', t) || TakeGuard(s, s', t) || RecheckAttr(s, s', t) || CreateLock(s, s', t)
    ensures Quiet(s, s', t)
  {
  }

  lemma EntryIsQuiet(refuses: set<Device>, s: State, s': State, t: Thread)
    requires (exists d, goal :: Call(s, s', t, d, goal)) || PublishLock(s, s', t, refuses) || DropGuard(s, s', t)
      || AcquireLock(s, s', t)
    ensures Quiet(s, s', t)
  {
  }

  lemma UseIsQuiet(s: State, s': State, t: Thread)
    requires FinishUse(s, s', t) || CheckOpen(s, s', t) || ConnectFails(s, s', t)
    ensures Quiet(s, s', t)
  {
  }

  lemma ReleaseIsQuiet(refuses: set<Device>, s: State, s': State, t: Thread)
    requires Core(refuses, s) && ReleaseLock(s, s', t)
    ensures Quiet(s, s', t)
  {
    TopIsOk(refuses, s, t);
    hide Core, FrameOk;
  }

  lemma CloseCatches(s: State, s': State, d: Device, openers: seq<Thread>)
    requires OpenOk(s) && Caught(s, d, openers) && exists e :: CloseBus(s, s', e)
    ensures OpenOk(s') && Caught(s', d, openers + OpenedBy(s, s', d))
  {
    assert forall u :: Pending(s', u, d) <==> Pending(s, u, d);
    assert forall u :: !Opens(s, s', u, d);
    assert forall u :: s'.At(u, Connecting) ==> s.At(u, Connecting) && s'.Top(u) == s.Top(u);
  }

  lemma QuietUnlessOpening(refuses: set<Device>, s: State, s': State, t: Thread)
    requires Core(refuses, s) && ThreadStep(s, s', refuses, t) && !Connect(s, s', t) && !TellCaller(s, s', t)
    ensures Quiet(s, s', t)
  {
    hide Core, Quiet;
    if FinishUse(s, s', t) || CheckOpen(s, s', t) || ConnectFails(s, s', t) {
      UseIsQuiet(s, s', t);
    } else if ReleaseLock(s, s', t) {
      ReleaseIsQuiet(refuses, s, s', t);
    } else if LookUp(s, s', t) || TakeGuard(s, s', t) || RecheckAttr(s, s', t) || CreateLock(s, s', t) {
      LookingIsQuiet(s, s', t);
    } else {
      EntryIsQuiet(refuses, s, s', t);
    }
  }

  lemma NextCatches(refuses: set<Device>, s: State, s': State, d: Device, openers: seq<Thread>)
    requires Core(refuses, s) && OpenOk(s) && Caught(s, d, openers) && Next(s, s', refuses)
    ensures OpenOk(s') && Caught(s', d, openers + OpenedBy(s, s', d))
  {
    hide Core, Caught, OpenOk;
    if t :| ThreadStep(s, s', refuses, t) {
      hide OpenedBy;
      if Connect(s, s', t) {
        ConnectCatches(refuses, s, s', t, d, openers);
      } else if TellCaller(s, s', t) {
        TellCatches(refuses, s, s', t, d, openers);
      } else {
        QuietUnlessOpening(refuses, s, s', t);
        NothingOpens(s, s', t, d, openers);
      }
    } else {
      CloseCatches(s, s', d, openers);
    }
  }

  lemma {:induction false} RunCatches(run: seq<State>, refuses: set<Device>, i: nat, d: Device)
    requires Run(run, refuses) && i < |run|
    ensures Core(refuses, run[i]) && OpenOk(run[i]) && Caught(run[i], d, Openers(run, i, d))
  {
    RunKeeps(run, refuses, i, i);
    if i > 0 {
      RunCatches(run, refuses, i - 1, d);
      NextCatches(refuses, run[i - 1], run[i - 1 + 1], d, Openers(run, i - 1, d));
    }
  }

  /** In every interleaving, whoever opens a closed bus for a caller that wants to be told is about to tell it. */
  lemma OpeningIsTold(run: seq<State>, refuses: set<Device>, i: nat, t: Thread, d: Device)
    requires Run(run, refuses) && i + 1 < |run| && Opens(run[i], run[i + 1], t, d)
    ensures Pending(run[i + 1], t, d)
  {
    RunCatches(run, refuses, i, d);
    var s, s' := run[i], run[i + 1];
    if u :| ThreadStep(s, s', refuses, u) {
      OnlyConnectOpens(refuses, s, s', u, d);
      NobodyElse(refuses, s, u);
    }
  }

  lemma OnlyConnectOpens(refuses: set<Device>, s: State, s': State, t: Thread, d: Device)
    requires ThreadStep(s, s', refuses, t) && d !in s.open && d in s'.open
    ensures Connect(s, s', t) && s.Top(t).device == d
  {
    hide TellingsOf;
  }

  /** In every interleaving, `on_open` is called exactly once for each opening whose caller wants to be told, in order,
      by the thread that opened, but for an opening whose thread is just about to call it. So the ledger names each
      opening once, in order, exactly when every call wrote its entry instead of raising. */
  lemma EveryOpeningIsLedgered(run: seq<State>, refuses: set<Device>, i: nat, d: Device)
    requires Run(run, refuses) && i < |run|
    ensures var s, openers := run[i], Openers(run, i, d);
      if exists t :: Pending(s, t, d) then exists t :: Pending(s, t, d) && openers == Told(s.tellings, d) + [t]
      else openers == Told(s.tellings, d)
    ensures var log := TellingsOf(run[i].tellings, d);
      Ledger(log) == Told(run[i].tellings, d) <==> forall k :: 0 <= k < |log| ==> log[k].recorded
  {
    RunCatches(run, refuses, i, d);
    LedgerIsToldIff(TellingsOf(run[i].tellings, d));
  }

  /** Each connect that runs finds the bus closed: it is a closed-to-open transition, made by one thread. */
  lemma ConnectOpensAClosedBus(run: seq<State>, refuses: set<Device>, i: nat, t: Thread, u: Thread)
    requires Run(run, refuses) && i + 1 < |run|
    requires Connect(run[i], run[i + 1], t) && Connect(run[i], run[i + 1], u)
    ensures run[i].Top(t).device !in run[i].open && run[i].Top(t).device in run[i + 1].open
    ensures t == u
  {
    RunCatches(run, refuses, i, run[i].Top(t).device);
    SameMover(run[i], run[i + 1], t, u);
  }

  lemma SameMover(s: State, s': State, t: Thread, u: Thread)
    requires Connect(s, s', t) && Connect(s, s', u)
    ensures t == u
  {
    assert s'.threads[t] != s.threads[t] by { assert s'.Top(t).pc != s.Top(t).pc; }
  }

  // What one call of `ensure_bus_open` comes to.

  /** `t`'s running call is the one it was, on `d` and to open its bus. */
  predicate Opening(s: State, t: Thread, d: Device, depth: nat)
  {
    s.Running(t) && |s.threads[t]| == depth && s.Top(t).device == d && s.Top(t).goal.EnsureOpen?
  }

  /** The call has still to look at the bus or to open it, unless it was seen open. */
  predicate Looks(s: State, t: Thread, seen: bool)
  {
    s.At(t, Inside) || s.At(t, Connecting) || ((s.At(t, Notify) || s.At(t, Release)) && seen)
  }

  lemma OpeningMoves(refuses: set<Device>, s: State, s': State, t: Thread, d: Device, depth: nat, seen: bool)
    requires Opening(s, t, d, depth) && Looks(s, t, seen) && Next(s, s', refuses) && !ConnectFails(s, s', t)
    requires s'.Running(t) && |s'.threads[t]| == depth
    ensures Opening(s', t, d, depth) && Looks(s', t, seen || d in s.open || d in s'.open)
  {
    hide ThreadStep, ConnectFails;
    if u :| ThreadStep(s, s', refuses, u) {
      if u == t {
        OpeningSteps(refuses, s, s', t, d, depth);
        OwnMoves(s, s', t, d, depth, seen);
      } else {
        hide Opening, Looks;
        StepMovesStack(refuses, s, s', u);
        StandsStill(s, s', t, d, depth, seen);
      }
    } else {
      StandsStill(s, s', t, d, depth, seen);
    }
  }

  lemma StandsStill(s: State, s': State, t: Thread, d: Device, depth: nat, seen: bool)
    requires Opening(s, t, d, depth) && Looks(s, t, seen) && t in s'.threads && s'.threads[t] == s.threads[t]
    ensures Opening(s', t, d, depth) && Looks(s', t, seen || d in s.open || d in s'.open)
  {
  }

  lemma OwnMoves(s: State, s': State, t: Thread, d: Device, depth: nat, seen: bool)
    requires Opening(s, t, d, depth) && Looks(s, t, seen)
    requires CheckOpen(s, s', t) || Connect(s, s', t) || TellCaller(s, s', t)
    ensures Opening(s', t, d, depth) && Looks(s', t, seen || d in s.open || d in s'.open)
  {
    hide TellingsOf;
  }

  lemma OpeningSteps(refuses: set<Device>, s: State, s': State, t: Thread, d: Device, depth: nat)
    requires Opening(s, t, d, depth) && Critical(s.Top(t).pc) && ThreadStep(s, s', refuses, t)
    requires s'.Running(t) && |s'.threads[t]| == depth
    ensures CheckOpen(s, s', t) || ConnectFails(s, s', t) || Connect(s, s', t) || TellCaller(s, s', t)
  {
    hide TellingsOf, CheckOpen, ConnectFails, Connect, Tell;
  }

  lemma {:induction false} OpeningIsSeen(run: seq<State>, refuses: set<Device>, i: nat, j: nat, t: Thread)
    requires Run(run, refuses) && i <= j < |run|
    requires run[i].At(t, Inside) && run[i].Top(t).goal.EnsureOpen?
    requires forall k :: i <= k <= j ==> run[k].Running(t) && |run[k].threads[t]| == |run[i].threads[t]|
    requires forall k :: i <= k < j ==> !ConnectFails(run[k], run[k + 1], t)
    ensures var d := run[i].Top(t).device;
      && Opening(run[j], t, d, |run[i].threads[t]|)
      && Looks(run[j], t, exists k :: i <= k <= j && d in run[k].open)
    decreases j
  {
    if i < j {
      var d := run[i].Top(t).device;
      OpeningIsSeen(run, refuses, i, j - 1, t);
      var seen := exists k :: i <= k <= j - 1 && d in run[k].open;
      OpeningMoves(refuses, run[j - 1], run[j - 1 + 1], t, d, |run[i].threads[t]|, seen);
    }
  }

  /** In every interleaving, an `ensure_bus_open` about to return had its bus open at some moment since it took the
      lock, unless its `connect()` raised. */
  lemma ReturnsWithAnOpenBus(run: seq<State>, refuses: set<Device>, i: nat, j: nat, t: Thread)
    requires Run(run, refuses) && i <= j < |run|
    requires run[i].At(t, Inside) && run[i].Top(t).goal.EnsureOpen? && run[j].At(t, Release)
    requires forall k :: i <= k <= j ==> run[k].Running(t) && |run[k].threads[t]| == |run[i].threads[t]|
    requires forall k :: i <= k < j ==> !ConnectFails(run[k], run[k + 1], t)
    ensures exists k :: i <= k <= j && run[i].Top(t).device in run[k].open
  {
    OpeningIsSeen(run, refuses, i, j, t);
  }

  // A call left alone.

  /** `t` alone takes `n` steps from `s` to `s'`. */
  ghost predicate Reaches(refuses: set<Device>, s: State, s': State, t: Thread, n: nat)
    decreases n
  {
    if n == 0 then s == s' else exists mid :: ThreadStep(s, mid, refuses, t) && Reaches(refuses, mid, s', t, n - 1)
  }

  lemma {:induction false} ReachesOn(refuses: set<Device>, s: State, mid: State, s': State, t: Thread, m: nat, n: nat)
    requires Reaches(refuses, s, mid, t, m) && Reaches(refuses, mid, s', t, n)
    ensures Reaches(refuses, s, s', t, m + n)
    decreases m
  {
    hide ThreadStep;
    if m > 0 {
      var next :| ThreadStep(s, next, refuses, t) && Reaches(refuses, next, mid, t, m - 1);
      ReachesOn(refuses, next, mid, s', t, m - 1, n);
      assert Reaches(refuses, next, s', t, m + n - 1);
    }
  }

  lemma OneStep(refuses: set<Device>, s: State, mid: State, s': State, t: Thread, n: nat)
    requires ThreadStep(s, mid, refuses, t) && Reaches(refuses, mid, s', t, n)
    ensures Reaches(refuses, s, s', t, n + 1)
  {
    hide ThreadStep;
  }

  /** `t` runs the calls `below` and, on top of them, `f`. */
  function Put(s: State, t: Thread, below: seq<Frame>, f: Frame): State
  {
    s.(threads := s.threads[t := below + [f]])
  }

  lemma PutOnTop(s: State, t: Thread, below: seq<Frame>, f: Frame)
    requires t in s.threads && s.threads[t] == below + [f]
    ensures s.Running(t) && s.Top(t) == f && forall g :: s.WithTop(t, g) == Put(s, t, below, g)
  {
    assert (below + [f])[..|below|] == below;
  }

  lemma GuardIsTaken(refuses: set<Device>, s: State, t: Thread, below: seq<Frame>, f: Frame)
    requires t in s.threads && s.threads[t] == below + [f] && f.pc == WantGuard && s.guard.None?
    ensures ThreadStep(s, Put(s, t, below, f.(pc := Recheck)).(guard := Some(t)), refuses, t)
  {
    PutOnTop(s, t, below, f);
    assert TakeGuard(s, Put(s, t, below, f.(pc := Recheck)).(guard := Some(t)), t);
  }

  lemma AttrIsStillMissing(refuses: set<Device>, s: State, t: Thread, below: seq<Frame>, f: Frame)
    requires t in s.threads && s.threads[t] == below + [f] && f.pc == Recheck && f.device !in s.attr
    ensures ThreadStep(s, Put(s, t, below, f.(pc := Create)), refuses, t)
  {
    PutOnTop(s, t, below, f);
    assert RecheckAttr(s, Put(s, t, below, f.(pc := Create)), t);
  }

  lemma LockIsMade(refuses: set<Device>, s: State, t: Thread, below: seq<Frame>, f: Frame)
    requires t in s.threads && s.threads[t] == below + [f] && f.pc == Create
    ensures ThreadStep(s,
      Put(s, t, below, f.(pc := Publish, lock := s.nextLock)).(nextLock := s.nextLock + 1), refuses, t)
  {
    PutOnTop(s, t, below, f);
    assert CreateLock(s, Put(s, t, below, f.(pc := Publish, lock := s.nextLock)).(nextLock := s.nextLock + 1), t);
  }

  lemma LockIsPublished(refuses: set<Device>, s: State, t: Thread, below: seq<Frame>, f: Frame, s': State)
    requires t in s.threads && s.threads[t] == below + [f] && f.pc == Publish
    requires s' == if f.device in refuses then Put(s, t, below, f.(pc := Unguard, lock := FALLBACK_LOCK))
                   else Put(s, t, below, f.(pc := Unguard)).(attr := s.attr[f.device := f.lock])
    ensures ThreadStep(s, s', refuses, t)
  {
    PutOnTop(s, t, below, f);
    assert PublishLock(s, s', t, refuses);
  }

  lemma GuardIsDropped(refuses: set<Device>, s: State, t: Thread, below: seq<Frame>, f: Frame, s': State)
    requires t in s.threads && s.threads[t] == below + [f] && f.pc == Unguard
    requires s' == Put(s, t, below, f.(pc := Acquire)).(guard := None, returned := s.returned + {(f.device, f.lock)})
    ensures ThreadStep(s, s', refuses, t)
  {
    PutOnTop(s, t, below, f);
    assert DropGuard(s, s', t);
  }

  lemma FiveSteps(refuses: set<Device>, s: State, s1: State, s2: State, s3: State, s4: State, s': State, t: Thread)
    requires ThreadStep(s, s1, refuses, t) && ThreadStep(s1, s2, refuses, t) && ThreadStep(s2, s3, refuses, t)
    requires ThreadStep(s3, s4, refuses, t) && ThreadStep(s4, s', refuses, t)
    ensures Reaches(refuses, s, s', t, 5)
  {
    hide ThreadStep;
    assert Reaches(refuses, s', s', t, 0);
    OneStep(refuses, s4, s', s', t, 0);
    OneStep(refuses, s3, s4, s', t, 1);
    OneStep(refuses, s2, s3, s', t, 2);
    OneStep(refuses, s1, s2, s', t, 3);
    OneStep(refuses, s, s1, s', t, 4);
  }

  /** Five steps under the guard: the attribute is looked for again, a lock made and stored, the guard let go. */
  lemma MakesALock(refuses: set<Device>, s: State, t: Thread, below: seq<Frame>, f: Frame) returns (s': State,
      l: LockId)
    requires t in s.threads && s.threads[t] == below + [f] && f.pc == WantGuard
    requires s.guard.None? && f.device !in s.attr
    ensures Reaches(refuses, s, s', t, 5) && IsLockOf(refuses, s'.attr, f.device, l)
    ensures s'.attr - {f.device} == s.attr
    ensures l == if f.device in refuses then FALLBACK_LOCK else s.nextLock
    ensures s' == Put(s, t, below, f.(pc := Acquire, lock := l)).(attr := s'.attr, nextLock := s.nextLock + 1,
      returned := s.returned + {(f.device, l)})
  {
    hide ThreadStep, Reaches;
    var d := f.device;
    var f3 := f.(pc := Publish, lock := s.nextLock);
    l := if d in refuses then FALLBACK_LOCK else s.nextLock;
    var s1 := Put(s, t, below, f.(pc := Recheck)).(guard := Some(t));
    var s2 := Put(s1, t, below, f.(pc := Create));
    var s3 := Put(s2, t, below, f3).(nextLock := s.nextLock + 1);
    var s4 := Put(s3, t, below, f.(pc := Unguard, lock := l)).(attr := if d in refuses then s.attr else s.attr[d := l]);
    s' := Put(s4, t, below, f.(pc := Acquire, lock := l)).(guard := None, returned := s.returned + {(d, l)});
    GuardIsTaken(refuses, s, t, below, f);
    AttrIsStillMissing(refuses, s1, t, below, f.(pc := Recheck));
    LockIsMade(refuses, s2, t, below, f.(pc := Create));
    LockIsPublished(refuses, s3, t, below, f3, s4);
    GuardIsDropped(refuses, s4, t, below, f.(pc := Unguard, lock := l), s');
    FiveSteps(refuses, s, s1, s2, s3, s4, s', t);
  }

  lemma AttrIsFound(refuses: set<Device>, s: State, t: Thread, below: seq<Frame>, f: Frame, s': State)
    requires t in s.threads && s.threads[t] == below + [f] && f.pc == Look && f.device in s.attr
    requires s' == Put(s, t, below, f.(pc := Acquire, lock := s.attr[f.device])).(
      returned := s.returned + {(f.device, s.attr[f.device])})
    ensures ThreadStep(s, s', refuses, t)
  {
    PutOnTop(s, t, below, f);
    assert LookUp(s, s', t);
  }

  lemma AttrIsMissing(refuses: set<Device>, s: State, t: Thread, below: seq<Frame>, f: Frame)
    requires t in s.threads && s.threads[t] == below + [f] && f.pc == Look && f.device !in s.attr
    ensures ThreadStep(s, Put(s, t, below, f.(pc := WantGuard)), refuses, t)
  {
    PutOnTop(s, t, below, f);
    assert LookUp(s, Put(s, t, below, f.(pc := WantGuard)), t);
  }

  /** At most six steps to the point where the lock is known. */
  lemma FindsTheLock(refuses: set<Device>, s: State, t: Thread, below: seq<Frame>, f: Frame)
    returns (s': State, l: LockId, n: nat)
    requires t in s.threads && s.threads[t] == below + [f] && f.pc == Look && s.guard.None?
    requires f.device in s.attr ==> f.device !in refuses
    ensures Reaches(refuses, s, s', t, n) && n <= 6 && IsLockOf(refuses, s'.attr, f.device, l)
    ensures IsLockOf(refuses, s.attr, f.device, l) || l == s.nextLock
    ensures s' == Put(s, t, below, f.(pc := Acquire, lock := l)).(attr := s'.attr, nextLock := s'.nextLock,
      returned := s.returned + {(f.device, l)})
    ensures s'.attr - {f.device} == s.attr - {f.device}
  {
    hide ThreadStep;
    var d := f.device;
    if d in s.attr {
      l, n := s.attr[d], 1;
      s' := Put(s, t, below, f.(pc := Acquire, lock := l)).(returned := s.returned + {(d, l)});
      AttrIsFound(refuses, s, t, below, f, s');
      assert Reaches(refuses, s', s', t, 0);
      OneStep(refuses, s, s', s', t, 0);
    } else {
      n := 6;
      var next := Put(s, t, below, f.(pc := WantGuard));
      AttrIsMissing(refuses, s, t, below, f);
      s', l := MakesALock(refuses, next, t, below, f.(pc := WantGuard));
      hide Reaches;
      OneStep(refuses, s, next, s', t, 5);
    }
  }

  /** The bus after a call with this goal, and the calls of `on_open`. */
  function Opened(s: State, d: Device, goal: Goal): set<Device>
  {
    if goal.EnsureOpen? then s.open + {d} else s.open
  }

  function ToldOf(s: State, t: Thread, d: Device, goal: Goal): map<Device, seq<Telling>>
  {
    if goal == EnsureOpen(true) && d !in s.open
    then s.tellings[d := TellingsOf(s.tellings, d) + [Telling(t, true)]]
    else s.tellings
  }

  lemma BusIsLookedAt(refuses: set<Device>, s: State, t: Thread, below: seq<Frame>, f: Frame)
    requires t in s.threads && s.threads[t] == below + [f] && f.pc == Inside
    ensures ThreadStep(s, Put(s, t, below,
      f.(pc := if f.goal.EnsureOpen? && f.device !in s.open then Connecting else Release)), refuses, t)
  {
    PutOnTop(s, t, below, f);
    var next := Put(s, t, below, f.(pc := if f.goal.EnsureOpen? && f.device !in s.open then Connecting else Release));
    assert FinishUse(s, next, t) || CheckOpen(s, next, t);
  }

  lemma BusIsOpened(refuses: set<Device>, s: State, t: Thread, below: seq<Frame>, f: Frame)
    requires t in s.threads && s.threads[t] == below + [f] && f.pc == Connecting
    ensures ThreadStep(s, Put(s, t, below,
      f.(pc := if f.goal == EnsureOpen(true) then Notify else Release)).(open := s.open + {f.device}), refuses, t)
  {
    PutOnTop(s, t, below, f);
    var pc := if f.goal == EnsureOpen(true) then Notify else Release;
    assert Connect(s, Put(s, t, below, f.(pc := pc)).(open := s.open + {f.device}), t);
  }

  lemma CallerIsTold(refuses: set<Device>, s: State, t: Thread, below: seq<Frame>, f: Frame)
    requires t in s.threads && s.threads[t] == below + [f] && f.pc == Notify
    ensures ThreadStep(s, Put(s, t, below, f.(pc := Release)).(
      tellings := s.tellings[f.device := TellingsOf(s.tellings, f.device) + [Telling(t, true)]]), refuses, t)
  {
    PutOnTop(s, t, below, f);
    assert Tell(s, Put(s, t, below, f.(pc := Release)).(
      tellings := s.tellings[f.device := TellingsOf(s.tellings, f.device) + [Telling(t, true)]]), t, true);
  }

  /** A `connect()` that raises leaves the bus as it was, an `on_open` that raises has been called all the same; either
      way the call goes on to let its lock go. */
  lemma RaisingLetsGo(refuses: set<Device>, s: State, t: Thread, below: seq<Frame>, f: Frame)
    requires t in s.threads && s.threads[t] == below + [f]
    ensures f.pc == Connecting ==> ThreadStep(s, Put(s, t, below, f.(pc := Release)), refuses, t)
    ensures f.pc == Notify ==> ThreadStep(s, Put(s, t, below, f.(pc := Release)).(
      tellings := s.tellings[f.device := TellingsOf(s.tellings, f.device) + [Telling(t, false)]]), refuses, t)
  {
    PutOnTop(s, t, below, f);
    if f.pc == Connecting {
      assert ConnectFails(s, Put(s, t, below, f.(pc := Release)), t);
    } else if f.pc == Notify {
      assert Tell(s, Put(s, t, below, f.(pc := Release)).(
        tellings := s.tellings[f.device := TellingsOf(s.tellings, f.device) + [Telling(t, false)]]), t, false);
    }
  }

  /** At most three steps inside: the device is used, or its bus is found open, or opened, or opened and told of. */
  lemma Works(refuses: set<Device>, s: State, t: Thread, below: seq<Frame>, f: Frame) returns (s': State, n: nat)
    requires t in s.threads && s.threads[t] == below + [f] && f.pc == Inside
    ensures Reaches(refuses, s, s', t, n) && n <= 3
    ensures s' == Put(s, t, below, f.(pc := Release)).(open := Opened(s, f.device, f.goal),
      tellings := ToldOf(s, t, f.device, f.goal))
  {
    hide ThreadStep, TellingsOf;
    BusIsLookedAt(refuses, s, t, below, f);
    if f.goal == UseDevice || f.device in s.open {
      s', n := Put(s, t, below, f.(pc := Release)), 1;
      assert s.open == Opened(s, f.device, f.goal);
      assert Reaches(refuses, s', s', t, 0);
      OneStep(refuses, s, s', s', t, 0);
    } else {
      var s1 := Put(s, t, below, f.(pc := Connecting));
      s', n := OpensAndTells(refuses, s1, t, below, f.(pc := Connecting));
      hide Reaches;
      OneStep(refuses, s, s1, s', t, n);
      n := n + 1;
    }
  }

  lemma OpensAndTells(refuses: set<Device>, s: State, t: Thread, below: seq<Frame>, f: Frame)
    returns (s': State, n: nat)
    requires t in s.threads && s.threads[t] == below + [f] && f.pc == Connecting && f.goal.EnsureOpen?
    requires f.device !in s.open
    ensures Reaches(refuses, s, s', t, n) && n <= 2
    ensures s' == Put(s, t, below, f.(pc := Release)).(open := Opened(s, f.device, f.goal),
      tellings := ToldOf(s, t, f.device, f.goal))
  {
    hide ThreadStep, TellingsOf;
    BusIsOpened(refuses, s, t, below, f);
    if f.goal.notify {
      var s1 := Put(s, t, below, f.(pc := Notify)).(open := s.open + {f.device});
      CallerIsTold(refuses, s1, t, below, f.(pc := Notify));
      s', n := Put(s1, t, below, f.(pc := Release)).(tellings := ToldOf(s, t, f.device, f.goal)), 2;
      assert Reaches(refuses, s', s', t, 0);
      OneStep(refuses, s1, s', s', t, 0);
      OneStep(refuses, s, s1, s', t, 1);
    } else {
      s', n := Put(s, t, below, f.(pc := Release)).(open := s.open + {f.device}), 1;
      assert Reaches(refuses, s', s', t, 0);
      OneStep(refuses, s, s', s', t, 0);
    }
  }

  /** Taking the lock, and letting it go again, leave the locks as they were. */
  lemma Acquires(refuses: set<Device>, s: State, t: Thread, below: seq<Frame>, f: Frame) returns (s': State)
    requires t in s.threads && s.threads[t] == below + [f] && f.pc == Acquire && CanAcquire(s, t, f.lock)
    requires f.lock in s.locks ==> s.locks[f.lock].depth > 0
    ensures ThreadStep(s, s', refuses, t)
    ensures s' == Put(s, t, below, f.(pc := Inside)).(locks := s'.locks)
    ensures f.lock in s'.locks
    ensures s.locks == if s'.locks[f.lock].depth <= 1 then s'.locks - {f.lock}
                       else s'.locks[f.lock := Holding(s'.locks[f.lock].owner, s'.locks[f.lock].depth - 1)]
  {
    PutOnTop(s, t, below, f);
    var depth := if f.lock in s.locks then s.locks[f.lock].depth + 1 else 1;
    s' := Put(s, t, below, f.(pc := Inside)).(locks := s.locks[f.lock := Holding(t, depth)]);
    assert AcquireLock(s, s', t);
  }

  lemma Releases(refuses: set<Device>, s: State, t: Thread, below: seq<Frame>, f: Frame, s': State)
    requires t in s.threads && s.threads[t] == below + [f] && f.pc == Release && f.lock in s.locks
    requires s' == s.(threads := s.threads[t := below],
      locks := if s.locks[f.lock].depth <= 1 then s.locks - {f.lock}
               else s.locks[f.lock := Holding(s.locks[f.lock].owner, s.locks[f.lock].depth - 1)])
    ensures ThreadStep(s, s', refuses, t)
  {
    PutOnTop(s, t, below, f);
    assert s.threads[t][..|s.threads[t]| - 1] == below;
    assert ReleaseLock(s, s', t);
  }

  /** No thread holds a lock that was not made yet. */
  lemma HeldLocksAreMade(refuses: set<Device>, s: State)
    requires Core(refuses, s)
    ensures forall l :: l in s.locks ==> l < s.nextLock
  {
    forall l | l in s.locks ensures l < s.nextLock {
      var t := s.locks[l].owner;
      assert Count(s.threads[t], l) == Depth(s.locks, t, l);
      var i := CountIsOfAHolder(s.threads[t], l);
      assert FrameOk(refuses, s.attr, s.nextLock, s.threads[t][i]);
    }
  }

  lemma {:induction false} CountIsOfAHolder(stack: seq<Frame>, l: LockId) returns (i: nat)
    requires Count(stack, l) > 0
    ensures i < |stack| && Holds(stack[i], l)
  {
    i := |stack| - 1;
    if !Holds(stack[i], l) {
      i := CountIsOfAHolder(stack[..i], l);
    }
  }

  /** From the lock being known to its being let go: at most five steps. */
  lemma UsesTheLock(refuses: set<Device>, s: State, t: Thread, below: seq<Frame>, f: Frame) returns (s': State, n: nat)
    requires t in s.threads && s.threads[t] == below + [f] && f.pc == Acquire && CanAcquire(s, t, f.lock)
    requires f.lock in s.locks ==> s.locks[f.lock].depth > 0
    ensures Reaches(refuses, s, s', t, n) && n <= 5
    ensures s' == s.(threads := s.threads[t := below], open := Opened(s, f.device, f.goal),
      tellings := ToldOf(s, t, f.device, f.goal))
  {
    hide ThreadStep;
    var s1 := Acquires(refuses, s, t, below, f);
    var s2, k := Works(refuses, s1, t, below, f.(pc := Inside));
    s' := s2.(threads := s.threads[t := below], locks := s.locks);
    assert s2.threads[t := below] == s'.threads;
    Releases(refuses, s2, t, below, f.(pc := Release), s');
    assert Reaches(refuses, s', s', t, 0);
    OneStep(refuses, s2, s', s', t, 0);
    hide Reaches;
    ReachesOn(refuses, s1, s2, s', t, k, 1);
    OneStep(refuses, s, s1, s', t, k + 1);
    n := k + 2;
  }

  lemma CallIsMade(refuses: set<Device>, s: State, t: Thread, f: Frame)
    requires t in s.threads && (s.Running(t) ==> s.Top(t).pc == Inside && s.Top(t).goal == UseDevice)
    requires f == Frame(f.device, f.goal, Look, 0)
    ensures ThreadStep(s, Put(s, t, s.threads[t], f), refuses, t)
  {
    assert Call(s, Put(s, t, s.threads[t], f), t, f.device, f.goal);
  }

  /** What a call to come needs of the state it finds. */
  lemma ReadyToCall(refuses: set<Device>, s: State, t: Thread, d: Device)
    requires Core(refuses, s) && forall l :: IsLockOf(refuses, s.attr, d, l) ==> CanAcquire(s, t, l)
    ensures d in s.attr ==> d !in refuses
    ensures forall l :: IsLockOf(refuses, s.attr, d, l) || l == s.nextLock ==>
      (l in s.locks ==> s.locks[l].owner == t && s.locks[l].depth > 0)
  {
    HeldLocksAreMade(refuses, s);
    hide FramesOk, GuardOk;
  }

  /** From the first look to the lock being let go: at most eleven steps. */
  lemma RunsFromLook(refuses: set<Device>, s: State, t: Thread, below: seq<Frame>, f: Frame)
    returns (s': State, l: LockId, n: nat)
    requires t in s.threads && s.threads[t] == below + [f] && f.pc == Look && s.guard.None?
    requires f.device in s.attr ==> f.device !in refuses
    requires forall l :: IsLockOf(refuses, s.attr, f.device, l) || l == s.nextLock ==>
      (l in s.locks ==> s.locks[l].owner == t && s.locks[l].depth > 0)
    ensures Reaches(refuses, s, s', t, n) && n <= 11 && IsLockOf(refuses, s'.attr, f.device, l)
    ensures s' == s.(threads := s.threads[t := below], attr := s'.attr, nextLock := s'.nextLock,
      returned := s.returned + {(f.device, l)}, open := Opened(s, f.device, f.goal),
      tellings := ToldOf(s, t, f.device, f.goal))
    ensures s'.attr - {f.device} == s.attr - {f.device}
  {
    hide ThreadStep, Reaches, TellingsOf;
    var s1, m, k;
    s1, l, m := FindsTheLock(refuses, s, t, below, f);
    s', k := UsesTheLock(refuses, s1, t, below, f.(pc := Acquire, lock := l));
    n := m + k;
    ReachesOn(refuses, s, s1, s', t, m, k);
  }

  /** A locked call that no other thread interferes with, and in which nothing raises, is over after at most twelve
      steps. It is given the device's lock, does what it is for, and leaves the threads, the guard and the locks as
      they were. A call to use the device changes nothing else; one to open the bus leaves it open, and calls `on_open`
      exactly when the bus was closed and the caller wants to be told. */
  lemma CallRunsThrough(refuses: set<Device>, s: State, t: Thread, d: Device, goal: Goal)
    returns (s': State, l: LockId, n: nat)
    requires Core(refuses, s) && t in s.threads && s.guard.None?
    requires s.Running(t) ==> s.Top(t).pc == Inside && s.Top(t).goal == UseDevice
    requires forall l :: IsLockOf(refuses, s.attr, d, l) ==> CanAcquire(s, t, l)
    ensures Reaches(refuses, s, s', t, n) && n <= 12
    ensures s' == s.(attr := s'.attr, nextLock := s'.nextLock, returned := s'.returned, open := s'.open,
      tellings := s'.tellings)
    ensures s'.open == if goal.EnsureOpen? then s.open + {d} else s.open
    ensures s'.tellings == if goal == EnsureOpen(true) && d !in s.open
      then s.tellings[d := TellingsOf(s.tellings, d) + [Telling(t, true)]] else s.tellings
    ensures IsLockOf(refuses, s'.attr, d, l) && s'.returned == s.returned + {(d, l)}
    ensures s'.attr - {d} == s.attr - {d}
  {
    hide ThreadStep, Reaches, TellingsOf;
    ReadyToCall(refuses, s, t, d);
    hide Core;
    var f := Frame(d, goal, Look, 0);
    CallIsMade(refuses, s, t, f);
    var s1, m := Put(s, t, s.threads[t], f), 0;
    s', l, m := RunsFromLook(refuses, s1, t, s.threads[t], f);
    assert s'.threads == s.threads;
    n := m + 1;
    OneStep(refuses, s, s1, s', t, m);
  }
}
