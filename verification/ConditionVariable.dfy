// The condition variable (libsel4sync/include/sync/condition_var.h) together with the lock of its monitor, the binary
// semaphore of bin_sem_bare.h: any number of threads, interleaved after every access to the shared state.
module ConditionVariable {
  import opened Threads
  import Lock = BinarySemaphore

  datatype PC =
    | Outside
      // sync_cv_wait: waiters was incremented
    | WaitCounted
      // ... and broadcasting was cleared; the lock is being released
    | WaitReleasing
      // ... blocked in seL4_Wait
    | WaitBlocked
      // ... woken up; the lock is being acquired
    | WaitWoken
      // ... waiters was decremented; broadcasting is about to be checked
    | WaitCheck
      // ... about to signal the next thread
    | WaitPass
      // ... about to stop broadcasting
    | WaitLast
      // sync_cv_signal: there are waiters, about to signal
    | SignalSend
      // sync_cv_broadcast: about to set broadcasting, then about to signal
    | BroadcastSet
    | BroadcastSend
      // sync_cv_broadcast_release: about to set broadcasting; the lock is being released; about to signal
    | ReleaseSet
    | ReleaseReleasing
    | ReleaseSend

  datatype State = State(waiters: int, broadcasting: bool, pending: bool, pcs: map<Tid, PC>, mutex: Lock.State)

  datatype Step =
      // a step inside sync_bin_sem_wait or sync_bin_sem_post
    | LockStep(a: Lock.Step)
    | EnterWait
    | EnterSignal
    | EnterBroadcast
    | EnterRelease
      // the next step of the function the thread is in
    | Continue

  predicate Holds(s: State, t: Tid) {
    t in s.mutex.pcs && s.mutex.pcs[t].Holding?
  }

  // A new thread, and a thread that does anything with the lock outside the functions here
  predicate LockStepFits(pc: PC, a: Lock.Step) {
    match pc
    case Outside => !a.Start?
    case WaitReleasing => a.Increment? || a.Check? || a.Signal?
    case ReleaseReleasing => a.Increment? || a.Check? || a.Signal?
    case WaitWoken => a.Decrement? || a.Wake?
    case _ => false
  }

  // The documentation asks the caller of each function to hold the lock.
  predicate Can(s: State, t: Tid, a: Step) {
    match a
    case LockStep(b) =>
      && Lock.Can(s.mutex, t, b)
      && (if b.Start? then t !in s.pcs else t in s.pcs && LockStepFits(s.pcs[t], b))
    case Continue => t in s.pcs && t in s.mutex.pcs && Ready(s, t)
    case _ => t in s.pcs && s.pcs[t].Outside? && Holds(s, t)
  }

  predicate Ready(s: State, t: Tid)
    requires t in s.pcs && t in s.mutex.pcs
  {
    match s.pcs[t]
    case Outside => false
    case WaitReleasing => s.mutex.pcs[t].Idle?
    case ReleaseReleasing => s.mutex.pcs[t].Idle?
    case WaitBlocked => s.pending
    case WaitWoken => Holds(s, t)
    case _ => true
  }

  function Goto(s: State, t: Tid, pc: PC): State {
    s.(pcs := s.pcs[t := pc])
  }

  function Do(s: State, t: Tid, a: Step): State
    requires Can(s, t, a)
  {
    match a
    case LockStep(b) =>
      var after := s.(mutex := Lock.Do(s.mutex, t, b));
      if b.Start? then Goto(after, t, Outside) else after
    case EnterWait => Goto(s.(waiters := s.waiters + 1), t, WaitCounted)
    case EnterSignal => if s.waiters > 0 then Goto(s, t, SignalSend) else s
    case EnterBroadcast => if s.waiters > 0 then Goto(s, t, BroadcastSet) else s
      // without waiters the function only releases the lock
    case EnterRelease => if s.waiters > 0 then Goto(s, t, ReleaseSet) else s
    case Continue =>
      match s.pcs[t]
      case Outside => s
      case WaitCounted => Goto(s.(broadcasting := false), t, WaitReleasing)
      case WaitReleasing => Goto(s, t, WaitBlocked)
      case WaitBlocked => Goto(s.(pending := false), t, WaitWoken)
      case WaitWoken => Goto(s.(waiters := s.waiters - 1), t, WaitCheck)
      case WaitCheck =>
        Goto(s, t, if !s.broadcasting then Outside else if s.waiters > 0 then WaitPass else WaitLast)
      case WaitPass => Goto(s.(pending := true), t, Outside)
      case WaitLast => Goto(s.(broadcasting := false), t, Outside)
      case SignalSend => Goto(s.(pending := true), t, Outside)
      case BroadcastSet => Goto(s.(broadcasting := true), t, BroadcastSend)
      case BroadcastSend => Goto(s.(pending := true), t, Outside)
      case ReleaseSet => Goto(s.(broadcasting := true), t, ReleaseReleasing)
      case ReleaseReleasing => Goto(s, t, ReleaseSend)
      case ReleaseSend => Goto(s.(pending := true), t, Outside)
  }

  // A thread between the increment and the decrement of waiters
  predicate IsWaiter(pc: PC) {
    pc.WaitCounted? || pc.WaitReleasing? || pc.WaitBlocked? || pc.WaitWoken?
  }

  // A thread at one of these points holds the lock.
  predicate Inside(pc: PC) {
    || pc.WaitCounted? || pc.WaitCheck? || pc.WaitPass? || pc.WaitLast?
    || pc.SignalSend? || pc.BroadcastSet? || pc.BroadcastSend? || pc.ReleaseSet?
  }

  // A thread that carries the baton: it was woken, or it is going to signal.
  predicate Carries(pc: PC) {
    || pc.WaitWoken? || pc.WaitCheck? || pc.WaitPass?
    || pc.BroadcastSend? || pc.ReleaseReleasing? || pc.ReleaseSend?
  }

  predicate Settling(pc: PC) {
    pc.WaitCheck? || pc.WaitLast?
  }

  predicate AboutToBroadcast(pc: PC) {
    pc.BroadcastSet? || pc.ReleaseSet?
  }

  ghost predicate SomeThreadIs(s: State, f: PC -> bool) {
    exists t :: t in s.pcs && f(s.pcs[t])
  }

  // While a broadcast is going on the notification is pending or some thread carries the baton.
  ghost predicate Baton(s: State) {
    s.broadcasting && s.waiters > 0 ==> s.pending || SomeThreadIs(s, Carries)
  }

  ghost predicate Inv(s: State) {
    && Lock.Inv(s.mutex)
    && s.pcs.Keys == s.mutex.pcs.Keys
    && (forall t | t in s.pcs && Inside(s.pcs[t]) :: Holds(s, t))
    && s.waiters == Count(s.pcs, IsWaiter)
    && Baton(s)
       // a broadcast without waiters is about to be ended
    && (s.broadcasting && s.waiters == 0 ==> SomeThreadIs(s, Settling))
       // whoever is about to signal or broadcast has seen a waiter, whoever is about to end a broadcast has seen none
    && (forall t | t in s.pcs && AboutToBroadcast(s.pcs[t]) :: s.waiters > 0)
    && (forall t | t in s.pcs && s.pcs[t].WaitLast? :: s.waiters == 0)
  }

  predicate Init(s: State) {
    s.waiters == 0 && !s.broadcasting && !s.pending && s.pcs == map[] && Lock.Init(s.mutex)
  }

  lemma InitInv(s: State)
    requires Init(s)
    ensures Inv(s)
  {
    Lock.InitInv(s.mutex);
    CountNone(s.pcs, IsWaiter);
  }

  lemma Carried(s: State, t: Tid, f: PC -> bool)
    requires t in s.pcs && f(s.pcs[t])
    ensures SomeThreadIs(s, f)
  {
  }

  // A thread that was in a state f still is, unless it is the one that moved.
  lemma StillCarried(s: State, g: State, t: Tid, f: PC -> bool)
    requires SomeThreadIs(s, f) && t in g.pcs && g.pcs == s.pcs[t := g.pcs[t]]
    requires t in s.pcs && f(s.pcs[t]) ==> f(g.pcs[t])
    ensures SomeThreadIs(g, f)
  {
    var u :| u in s.pcs && f(s.pcs[u]);
    assert u in g.pcs && f(g.pcs[u]);
  }

  // Only one thread is inside.
  lemma Alone(s: State, t: Tid, u: Tid)
    requires Lock.Inv(s.mutex) && Holds(s, t) && Holds(s, u)
    ensures t == u
  {
    Lock.MutualExclusion(s.mutex, t, u);
  }

  lemma LockStepInv(s: State, t: Tid, b: Lock.Step)
    requires Inv(s) && Can(s, t, LockStep(b))
    ensures Inv(Do(s, t, LockStep(b)))
  {
    hide Count, Lock.Inv, Baton, SomeThreadIs;
    Lock.StepInv(s.mutex, t, b);
    var g := Do(s, t, LockStep(b));
    if b.Start? {
      CountMoves(s.pcs, t, Outside, IsWaiter);
      StartKeeps(s, g, t);
    } else {
      SameThreads(s, g);
    }
  }

  lemma SameThreads(s: State, g: State)
    requires g.pcs == s.pcs && g.waiters == s.waiters && g.broadcasting == s.broadcasting && g.pending == s.pending
    ensures Baton(s) ==> Baton(g)
    ensures SomeThreadIs(s, Settling) ==> SomeThreadIs(g, Settling)
  {
  }

  lemma StartKeeps(s: State, g: State, t: Tid)
    requires t !in s.pcs && g.pcs == s.pcs[t := Outside]
    requires g.waiters == s.waiters && g.broadcasting == s.broadcasting && g.pending == s.pending
    ensures Baton(s) ==> Baton(g)
    ensures SomeThreadIs(s, Settling) ==> SomeThreadIs(g, Settling)
  {
    if SomeThreadIs(s, Settling) {
      StillCarried(s, g, t, Settling);
    }
    if SomeThreadIs(s, Carries) {
      StillCarried(s, g, t, Carries);
    }
  }

  lemma InsideHolds(s: State, t: Tid, a: Step)
    requires Inv(s) && Can(s, t, a) && !a.LockStep?
    ensures var g := Do(s, t, a);
      forall u | u in g.pcs && Inside(g.pcs[u]) :: Holds(g, u)
    ensures Do(s, t, a).mutex == s.mutex
  {
    hide Count, Lock.Inv, Baton, SomeThreadIs;
  }

  lemma WaitersCounted(s: State, t: Tid, a: Step)
    requires Inv(s) && Can(s, t, a) && !a.LockStep?
    ensures Do(s, t, a).waiters == Count(Do(s, t, a).pcs, IsWaiter)
  {
    hide Count, Lock.Inv, Baton, SomeThreadIs, Settling, AboutToBroadcast, Inside;
    var g := Do(s, t, a);
    if g != s {
      CountMoves(s.pcs, t, g.pcs[t], IsWaiter);
    }
  }

  // Nobody else is inside while t holds the lock.
  lemma OthersAreNotInside(s: State, t: Tid)
    requires Inv(s) && Holds(s, t)
    ensures forall u | u in s.pcs && u != t :: !Inside(s.pcs[u])
    ensures t in s.pcs && !Settling(s.pcs[t]) ==> !SomeThreadIs(s, Settling)
  {
    hide Count, Lock.Inv, Baton;
    forall u | u in s.pcs && u != t
      ensures !Inside(s.pcs[u])
    {
      if Inside(s.pcs[u]) {
        Alone(s, t, u);
      }
    }
  }

  lemma BatonKept(s: State, t: Tid, a: Step)
    requires Inv(s) && Can(s, t, a) && !a.LockStep?
    ensures Baton(Do(s, t, a))
  {
    hide Count, Lock.Inv, Inside, SomeThreadIs, Settling;
    var g := Do(s, t, a);
    if g != s {
      if Carries(g.pcs[t]) {
        Carried(g, t, Carries);
      } else if SomeThreadIs(s, Carries) && !Carries(s.pcs[t]) {
        StillCarried(s, g, t, Carries);
      }
      if a.EnterWait? {
        OthersAreNotInside(s, t);
        NotSettling();
      }
    }
  }

  lemma NotSettling()
    ensures !Settling(Outside)
  {
  }

  lemma SettlingKept(s: State, t: Tid, a: Step)
    requires Inv(s) && Can(s, t, a) && !a.LockStep?
    ensures var g := Do(s, t, a); g.broadcasting && g.waiters == 0 ==> SomeThreadIs(g, Settling)
  {
    hide Count, Lock.Inv, Inside, Baton, SomeThreadIs, Carries;
    var g := Do(s, t, a);
    if g != s {
      if Settling(g.pcs[t]) {
        Carried(g, t, Settling);
      } else if SomeThreadIs(s, Settling) && !Settling(s.pcs[t]) {
        StillCarried(s, g, t, Settling);
      }
    }
  }

  lemma BroadcastersKept(s: State, t: Tid, a: Step)
    requires Inv(s) && Can(s, t, a) && !a.LockStep?
    ensures var g := Do(s, t, a); forall u | u in g.pcs && AboutToBroadcast(g.pcs[u]) :: g.waiters > 0
  {
    hide Count, Lock.Inv, Baton, SomeThreadIs, Carries, Settling;
    if a.Continue? && s.pcs[t].WaitWoken? {
      OthersAreNotInside(s, t);
    }
  }

  lemma LastKept(s: State, t: Tid, a: Step)
    requires Inv(s) && Can(s, t, a) && !a.LockStep?
    ensures var g := Do(s, t, a); forall u | u in g.pcs && g.pcs[u].WaitLast? :: g.waiters == 0
  {
    hide Count, Lock.Inv, Baton, SomeThreadIs, Carries, Settling, AboutToBroadcast;
    if a.EnterWait? || (a.Continue? && s.pcs[t].WaitWoken?) {
      OthersAreNotInside(s, t);
    }
  }

  lemma SameKeys(s: State, t: Tid, a: Step)
    requires Inv(s) && Can(s, t, a) && !a.LockStep?
    ensures Do(s, t, a).pcs.Keys == s.pcs.Keys && Do(s, t, a).mutex == s.mutex
  {
    hide Count, Lock.Inv, Baton, SomeThreadIs, Inside;
    var g := Do(s, t, a);
    assert g != s ==> g.pcs == s.pcs[t := g.pcs[t]];
  }

  lemma InvIs(s: State, g: State)
    requires Inv(s) && g.pcs.Keys == s.pcs.Keys && g.mutex == s.mutex
    requires forall t | t in g.pcs && Inside(g.pcs[t]) :: Holds(g, t)
    requires g.waiters == Count(g.pcs, IsWaiter) && Baton(g)
    requires g.broadcasting && g.waiters == 0 ==> SomeThreadIs(g, Settling)
    requires forall t | t in g.pcs && AboutToBroadcast(g.pcs[t]) :: g.waiters > 0
    requires forall t | t in g.pcs && g.pcs[t].WaitLast? :: g.waiters == 0
    ensures Inv(g)
  {
  }

  lemma StepInv(s: State, t: Tid, a: Step)
    requires Inv(s) && Can(s, t, a)
    ensures Inv(Do(s, t, a))
  {
    if a.LockStep? {
      LockStepInv(s, t, a.a);
    } else {
      InsideHolds(s, t, a);
      WaitersCounted(s, t, a);
      BatonKept(s, t, a);
      SettlingKept(s, t, a);
      BroadcastersKept(s, t, a);
      LastKept(s, t, a);
      SameKeys(s, t, a);
      hide *;
      InvIs(s, Do(s, t, a));
    }
  }

  ghost predicate Reachable(s: State, steps: nat)
    decreases steps
  {
    if steps == 0 then Init(s)
    else exists p, t, a :: Reachable(p, steps - 1) && Can(p, t, a) && s == Do(p, t, a)
  }

  lemma {:induction false} AlwaysInv(s: State, steps: nat)
    requires Reachable(s, steps)
    ensures Inv(s)
    decreases steps
  {
    hide Inv, Do;
    if steps == 0 {
      InitInv(s);
    } else {
      var p, t, a :| Reachable(p, steps - 1) && Can(p, t, a) && s == Do(p, t, a);
      AlwaysInv(p, steps - 1);
      StepInv(p, t, a);
    }
  }

  // In every reachable state: a broadcast with waiters left has its baton, waiters is the number of threads between the
  // increment and the decrement, and at most one thread is inside the monitor.
  lemma BroadcastNeverStalls(s: State, steps: nat)
    requires Reachable(s, steps)
    ensures s.broadcasting && s.waiters > 0 ==> s.pending || exists t :: t in s.pcs && Carries(s.pcs[t])
    ensures s.waiters == Count(s.pcs, IsWaiter)
    ensures forall t, u | t in s.pcs && u in s.pcs && Inside(s.pcs[t]) && Inside(s.pcs[u]) :: t == u
  {
    hide Reachable, Count, Lock.Inv;
    AlwaysInv(s, steps);
    forall t, u | t in s.pcs && u in s.pcs && Inside(s.pcs[t]) && Inside(s.pcs[u])
      ensures t == u
    {
      Alone(s, t, u);
    }
  }

  // n steps of t alone, the first of them a
  ghost predicate RunsTo(s: State, t: Tid, a: Step, n: nat, g: State)
    decreases n
  {
    && n > 0 && Can(s, t, a)
    && (if n == 1 then g == Do(s, t, a) else RunsTo(Do(s, t, a), t, Continue, n - 1, g))
  }

  // Signal sends a signal if there are waiters, and does nothing otherwise.
  lemma SignalSends(s: State, t: Tid)
    requires Inv(s) && Can(s, t, EnterSignal)
    ensures s.waiters > 0 ==> RunsTo(s, t, EnterSignal, 2, s.(pending := true))
    ensures s.waiters == 0 ==> RunsTo(s, t, EnterSignal, 1, s)
  {
    hide Count, Lock.Inv, Baton, SomeThreadIs;
    if s.waiters > 0 {
      var g := Do(s, t, EnterSignal);
      assert Do(g, t, Continue).pcs == s.pcs;
      assert RunsTo(g, t, Continue, 1, s.(pending := true));
    }
  }

  // Broadcast hands the baton to the first waiter if there is one, and does nothing otherwise.
  lemma BroadcastSends(s: State, t: Tid)
    requires Inv(s) && Can(s, t, EnterBroadcast)
    ensures s.waiters > 0 ==> RunsTo(s, t, EnterBroadcast, 3, s.(broadcasting := true, pending := true))
    ensures s.waiters == 0 ==> RunsTo(s, t, EnterBroadcast, 1, s)
  {
    hide Count, Lock.Inv, Baton, SomeThreadIs;
    if s.waiters > 0 {
      var g := Do(s, t, EnterBroadcast);
      var h := Do(g, t, Continue);
      assert Do(h, t, Continue).pcs == s.pcs;
      assert RunsTo(h, t, Continue, 1, s.(broadcasting := true, pending := true));
      assert RunsTo(g, t, Continue, 2, s.(broadcasting := true, pending := true));
    }
  }

  // The releasing form starts to broadcast before it lets go of the lock, and signals afterwards.
  lemma ReleaseSends(s: State, t: Tid, mutex: Lock.State)
    requires Inv(s) && Can(s, t, EnterRelease) && s.waiters > 0 && t in mutex.pcs && mutex.pcs[t].Idle?
    ensures RunsTo(s, t, EnterRelease, 2, s.(broadcasting := true, pcs := s.pcs[t := ReleaseReleasing]))
    ensures var released := s.(broadcasting := true, pcs := s.pcs[t := ReleaseReleasing], mutex := mutex);
      RunsTo(released, t, Continue, 2, s.(broadcasting := true, pending := true, mutex := mutex))
  {
    hide Count, Lock.Inv, Baton, SomeThreadIs;
    var g := Do(s, t, EnterRelease);
    assert Do(g, t, Continue).pcs == s.pcs[t := ReleaseReleasing];
    assert RunsTo(g, t, Continue, 1, s.(broadcasting := true, pcs := s.pcs[t := ReleaseReleasing]));
    var released := s.(broadcasting := true, pcs := s.pcs[t := ReleaseReleasing], mutex := mutex);
    var h := Do(released, t, Continue);
    assert Do(h, t, Continue).pcs == s.pcs;
    assert RunsTo(h, t, Continue, 1, s.(broadcasting := true, pending := true, mutex := mutex));
  }

  lemma WaiterIsCounted(s: State, t: Tid)
    requires Inv(s) && t in s.pcs && IsWaiter(s.pcs[t])
    ensures s.waiters > 0
  {
    hide Lock.Inv, Baton, SomeThreadIs;
    CountAtLeast(s.pcs, t, IsWaiter);
  }

  // A woken waiter that has the lock again passes the baton on while there are more, and ends the broadcast otherwise.
  lemma WokenPassesOn(s: State, t: Tid)
    requires Inv(s) && Can(s, t, Continue) && s.pcs[t].WaitWoken?
    ensures var after := s.(waiters := s.waiters - 1, pcs := s.pcs[t := Outside]);
      && s.waiters > 0
      && (s.broadcasting && s.waiters > 1 ==> RunsTo(s, t, Continue, 3, after.(pending := true)))
      && (s.broadcasting && s.waiters == 1 ==> RunsTo(s, t, Continue, 3, after.(broadcasting := false)))
      && (!s.broadcasting ==> RunsTo(s, t, Continue, 2, after))
  {
    hide Inv, Inside, Carries, Lock.Can, Lock.Do, LockStepFits;
    WaiterIsCounted(s, t);
    var after := s.(waiters := s.waiters - 1, pcs := s.pcs[t := Outside]);
    var g := Do(s, t, Continue);
    var h := Do(g, t, Continue);
    if s.broadcasting {
      var end := if s.waiters > 1 then after.(pending := true) else after.(broadcasting := false);
      assert Do(h, t, Continue).pcs == after.pcs;
      assert RunsTo(h, t, Continue, 1, end);
      assert RunsTo(g, t, Continue, 2, end);
    } else {
      assert h.pcs == after.pcs;
      assert RunsTo(g, t, Continue, 1, after);
    }
  }

  // Waiting, when no other thread moves: the caller counts itself and stops a broadcast that is going on, gives up the
  // lock, which is then free or signalled to those that wait for it, and blocks.
  lemma WaitBlocks(s: State, t: Tid)
    requires Inv(s) && Can(s, t, EnterWait)
    ensures var a := Do(s, t, EnterWait); Can(a, t, Continue) && RunsTo(s, t, EnterWait, 2, Releasing(s, t, s.mutex))
    ensures Can(Releasing(s, t, s.mutex), t, LockStep(Lock.Increment))
    ensures var m := Lock.Do(s.mutex, t, Lock.Increment); Can(Releasing(s, t, m), t, LockStep(Lock.Check))
    ensures var m := Lock.Do(Lock.Do(s.mutex, t, Lock.Increment), t, Lock.Check);
      if Lock.Waiters(s.mutex) == 0 then
        && m == Lock.State(1, false, s.mutex.pcs[t := Lock.Idle])
        && RunsTo(Releasing(s, t, m), t, Continue, 1, Blocked(s, t, m))
      else
        && Can(Releasing(s, t, m), t, LockStep(Lock.Signal))
        && var n := Lock.Do(m, t, Lock.Signal);
        && n == Lock.State(s.mutex.value + 1, true, s.mutex.pcs[t := Lock.Idle])
        && RunsTo(Releasing(s, t, n), t, Continue, 1, Blocked(s, t, n))
  {
    hide Count, Lock.Inv, Baton, SomeThreadIs, Inside, Carries;
    Lock.PostHandsOver(s.mutex, t);
    var a := Do(s, t, EnterWait);
    assert Do(a, t, Continue).pcs == Releasing(s, t, s.mutex).pcs;
    assert RunsTo(a, t, Continue, 1, Releasing(s, t, s.mutex));
    forall m: Lock.State | t in m.pcs && m.pcs[t].Idle?
      ensures RunsTo(Releasing(s, t, m), t, Continue, 1, Blocked(s, t, m))
    {
      assert Do(Releasing(s, t, m), t, Continue).pcs == Blocked(s, t, m).pcs;
    }
  }

  // s when t waits and releases the lock, and when it is blocked
  function Releasing(s: State, t: Tid, m: Lock.State): State {
    State(s.waiters + 1, false, s.pending, s.pcs[t := WaitReleasing], m)
  }

  function Blocked(s: State, t: Tid, m: Lock.State): State {
    State(s.waiters + 1, false, s.pending, s.pcs[t := WaitBlocked], m)
  }

  // A blocked waiter that finds a signal and the lock free returns with the lock.
  lemma WaitReturns(s: State, t: Tid)
    requires Inv(s) && s.pending && t in s.pcs && s.pcs[t].WaitBlocked? && s.mutex.pcs[t].Idle? && s.mutex.value == 1
    requires !s.broadcasting
    ensures Can(s, t, Continue) && Can(Do(s, t, Continue), t, LockStep(Lock.Decrement))
    ensures RunsTo(Do(Do(s, t, Continue), t, LockStep(Lock.Decrement)), t, Continue, 2,
                   State(s.waiters - 1, false, false, s.pcs[t := Outside],
                         Lock.State(0, s.mutex.pending, s.mutex.pcs[t := Lock.Holding])))
  {
    hide Count, Lock.Inv, Baton, SomeThreadIs, Inside, Carries;
    var a := Do(s, t, Continue);
    var b := Do(a, t, LockStep(Lock.Decrement));
    assert b.mutex == Lock.State(0, s.mutex.pending, s.mutex.pcs[t := Lock.Holding]);
    var d := Do(b, t, Continue);
    var g := Do(d, t, Continue);
    assert g.pcs == s.pcs[t := Outside];
    assert RunsTo(d, t, Continue, 1, g);
  }

  // A step stops a broadcast that has waiters left exactly if it is the step of a new waiter that clears broadcasting.
  lemma BroadcastStops(s: State, t: Tid, a: Step)
    requires Inv(s) && Can(s, t, a) && s.broadcasting
    ensures !Do(s, t, a).broadcasting && Do(s, t, a).waiters > 0 <==> a.Continue? && s.pcs[t].WaitCounted?
  {
    hide Count, Lock.Inv, Baton, SomeThreadIs;
    if t in s.pcs && s.pcs[t].WaitCounted? {
      WaiterIsCounted(s, t);
    }
  }

  // g comes from s by n steps, none of which enters wait.
  ghost predicate Quiet(s: State, g: State, n: nat)
    decreases n
  {
    if n == 0 then s == g
    else exists t, a: Step :: !a.EnterWait? && Can(s, t, a) && Quiet(Do(s, t, a), g, n - 1)
  }

  ghost predicate NobodyEnters(s: State) {
    forall t | t in s.pcs :: !s.pcs[t].WaitCounted?
  }

  // A broadcast reaches all waiters if nobody enters wait before that: in every run from there on either no waiters are
  // left, or the broadcast goes on and the notification is pending or some thread carries the baton.
  lemma {:induction false} BroadcastReachesAll(s: State, g: State, n: nat)
    requires Inv(s) && NobodyEnters(s) && (s.broadcasting || s.waiters == 0) && Quiet(s, g, n)
    ensures g.waiters == 0 || (g.broadcasting && (g.pending || SomeThreadIs(g, Carries)))
    decreases n
  {
    hide Inv, Can, Do, NobodyEnters, SomeThreadIs;
    if n == 0 {
      BatonIs(s);
    } else {
      var t, a: Step :| !a.EnterWait? && Can(s, t, a) && Quiet(Do(s, t, a), g, n - 1);
      StepInv(s, t, a);
      QuietStep(s, t, a);
      BroadcastReachesAll(Do(s, t, a), g, n - 1);
    }
  }

  lemma BatonIs(s: State)
    requires Inv(s)
    ensures s.waiters >= 0 && (s.broadcasting && s.waiters > 0 ==> s.pending || SomeThreadIs(s, Carries))
  {
    hide Lock.Inv, SomeThreadIs, Count;
  }

  lemma QuietStep(s: State, t: Tid, a: Step)
    requires Inv(s) && NobodyEnters(s) && (s.broadcasting || s.waiters == 0) && Can(s, t, a) && !a.EnterWait?
    ensures var h := Do(s, t, a); NobodyEnters(h) && (h.broadcasting || h.waiters == 0)
  {
    hide Count, Lock.Inv, Baton, SomeThreadIs;
    if t in s.pcs && IsWaiter(s.pcs[t]) {
      WaiterIsCounted(s, t);
    }
  }
}
