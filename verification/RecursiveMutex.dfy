// The recursive mutex (libsel4sync/src/recursive_mutex.c): any number of threads, interleaved after every access to the
// shared state. Its notification is one bit.
module RecursiveMutex {
  import opened Options
  import opened Threads

  const UINT_MAX: nat := 0xFFFF_FFFF

  // depth: how many locks of the thread have succeeded and were not undone by an unlock yet
  datatype PC =
    | Outside(depth: nat)
      // sync_recursive_mutex_lock: blocked in seL4_Wait; woken up, about to check and set owner; about to check held
    | LockWait
    | LockGot
    | LockOwns
      // about to increment held
    | LockCount(depth: nat)
      // sync_recursive_mutex_unlock: held was decremented; about to clear owner; about to signal
    | UnlockCounted(depth: nat)
    | UnlockClear
    | UnlockSignal

  datatype State = State(owner: Option<Tid>, held: nat, pending: bool, pcs: map<Tid, PC>)

  datatype Step = Start | CallLock | CallUnlock | Continue

  // Only a thread that holds the mutex may unlock it.
  predicate Can(s: State, t: Tid, a: Step) {
    match a
    case Start => t !in s.pcs
    case CallLock => t in s.pcs && s.pcs[t].Outside?
    case CallUnlock => t in s.pcs && s.pcs[t].Outside? && s.pcs[t].depth > 0
    case Continue => t in s.pcs && !s.pcs[t].Outside? && (s.pcs[t].LockWait? ==> s.pending)
  }

  // The assertions the source makes at this step
  predicate Asserted(s: State, t: Tid, a: Step)
    requires Can(s, t, a)
  {
    match a
    case CallUnlock => s.owner == Some(t) && s.held > 0
    case Continue => (s.pcs[t].LockGot? ==> s.owner == None) && (s.pcs[t].LockOwns? ==> s.held == 0)
    case _ => true
  }

  function Goto(s: State, t: Tid, pc: PC): State {
    s.(pcs := s.pcs[t := pc])
  }

  function Do(s: State, t: Tid, a: Step): State
    requires Can(s, t, a)
  {
    match a
    case Start => Goto(s, t, Outside(0))
    case CallLock => Goto(s, t, if s.owner != Some(t) then LockWait else LockCount(s.pcs[t].depth))
    case CallUnlock =>
      Goto(s.(held := if s.held > 0 then s.held - 1 else UINT_MAX), t, UnlockCounted(s.pcs[t].depth - 1))
    case Continue =>
      match s.pcs[t]
      case Outside(_) => s
      case LockWait => Goto(s.(pending := false), t, LockGot)
      case LockGot => Goto(s.(owner := Some(t)), t, LockOwns)
      case LockOwns => Goto(s, t, LockCount(0))
      case LockCount(depth) =>
        if s.held == UINT_MAX then Goto(s, t, Outside(depth)) else Goto(s.(held := s.held + 1), t, Outside(depth + 1))
      case UnlockCounted(depth) => Goto(s, t, if s.held == 0 then UnlockClear else Outside(depth))
      case UnlockClear => Goto(s.(owner := None), t, UnlockSignal)
      case UnlockSignal => Goto(s.(pending := true), t, Outside(0))
  }

  // The thread took the token of the mutex, the one signal there is, and has not passed it on.
  predicate HasToken(pc: PC) {
    match pc
    case Outside(depth) => depth > 0
    case LockWait => false
    case _ => true
  }

  // The token is with a thread or in the notification.
  ghost predicate Inv(s: State) {
    && Count(s.pcs, HasToken) + (if s.pending then 1 else 0) == 1
    && (s.pending ==> s.owner == None && s.held == 0)
    && (forall t | t in s.pcs && HasToken(s.pcs[t]) :: Matches(s, t))
    && (forall t | t in s.pcs && !HasToken(s.pcs[t]) :: s.owner != Some(t))
    && (s.owner.Some? ==> s.owner.value in s.pcs)
    && s.held <= UINT_MAX
  }

  // What owner and held are while thread t has the token
  predicate Matches(s: State, t: Tid)
    requires t in s.pcs
  {
    match s.pcs[t]
    case Outside(depth) => s.owner == Some(t) && s.held == depth
    case LockWait => true
    case LockGot => s.owner == None && s.held == 0
    case LockOwns => s.owner == Some(t) && s.held == 0
    case LockCount(depth) => s.owner == Some(t) && s.held == depth
    case UnlockCounted(depth) => s.owner == Some(t) && s.held == depth
    case UnlockClear => s.owner == Some(t) && s.held == 0
    case UnlockSignal => s.owner == None && s.held == 0
  }

  // sync_recursive_mutex_init
  predicate Init(s: State) {
    s == State(None, 0, true, map[])
  }

  lemma InitInv(s: State)
    requires Init(s)
    ensures Inv(s)
  {
    CountNone(s.pcs, HasToken);
  }

  lemma OnlyOne(s: State, t: Tid)
    requires Inv(s) && t in s.pcs && HasToken(s.pcs[t])
    ensures !s.pending && forall u | u in s.pcs && u != t :: !HasToken(s.pcs[u])
  {
    CountAtLeast(s.pcs, t, HasToken);
    forall u | u in s.pcs && u != t
      ensures !HasToken(s.pcs[u])
    {
      if HasToken(s.pcs[u]) {
        CountTwo(s.pcs, t, u, HasToken);
      }
    }
  }

  lemma NoneHas(s: State)
    requires Inv(s) && s.pending
    ensures forall u | u in s.pcs :: !HasToken(s.pcs[u])
  {
    forall u | u in s.pcs
      ensures !HasToken(s.pcs[u])
    {
      if HasToken(s.pcs[u]) {
        CountAtLeast(s.pcs, u, HasToken);
      }
    }
  }

  // Every step keeps the invariant, and no assertion of the source fails.
  lemma StepInv(s: State, t: Tid, a: Step)
    requires Inv(s) && Can(s, t, a)
    ensures Asserted(s, t, a) && Inv(Do(s, t, a))
  {
    hide Count;
    var g := Do(s, t, a);
    CountMoves(s.pcs, t, g.pcs[t], HasToken);
    if t in s.pcs && HasToken(s.pcs[t]) {
      OnlyOne(s, t);
    } else if s.pending {
      NoneHas(s);
    }
    assert g.pcs == s.pcs[t := g.pcs[t]];
  }

  ghost predicate Reachable(s: State, steps: nat)
    decreases steps
  {
    if steps == 0 then Init(s)
    else exists p, t, a :: Reachable(p, steps - 1) && Can(p, t, a) && s == Do(p, t, a)
  }

  lemma {:induction false} AlwaysInv(s: State, steps: nat)
    requires Reachable(s, steps)
    ensures Inv(s)
    decreases steps
  {
    hide Inv, Do;
    if steps == 0 {
      InitInv(s);
    } else {
      var p, t, a :| Reachable(p, steps - 1) && Can(p, t, a) && s == Do(p, t, a);
      AlwaysInv(p, steps - 1);
      StepInv(p, t, a);
    }
  }

  // In every reachable state at most one thread has an unfinished outermost lock; between its calls it is the owner and
  // held is its nesting depth. The test in lock, made without holding anything, tells whether the caller is that
  // thread.
  lemma OwnerIsTheHolder(s: State, steps: nat, t: Tid)
    requires Reachable(s, steps) && t in s.pcs
    ensures s.pcs[t].Outside? ==> (s.owner == Some(t) <==> s.pcs[t].depth > 0)
    ensures s.pcs[t].Outside? && s.pcs[t].depth > 0 ==> s.held == s.pcs[t].depth
    ensures HasToken(s.pcs[t]) ==> !s.pending && forall u | u in s.pcs && u != t :: !HasToken(s.pcs[u])
  {
    hide Reachable, Count;
    AlwaysInv(s, steps);
    if HasToken(s.pcs[t]) {
      OnlyOne(s, t);
    }
  }

  // In every reachable state the lock of t fails exactly if t has the mutex as often as it can count; then it changes
  // nothing but that the call returns. Otherwise t owns the mutex once more than before.
  lemma LockFailsOnlyAtTheLimit(s: State, steps: nat, t: Tid)
    requires Reachable(s, steps) && t in s.pcs && s.pcs[t].LockCount?
    ensures var depth, g := s.pcs[t].depth, Do(s, t, Continue);
      && s.owner == Some(t) && s.held == depth
      && (g == Goto(s, t, Outside(depth)) <==> depth == UINT_MAX)
      && (depth != UINT_MAX ==>
            g == State(Some(t), depth + 1, false, s.pcs[t := Outside(depth + 1)]))
  {
    hide Reachable, Count;
    AlwaysInv(s, steps);
    OnlyOne(s, t);
    assert Matches(s, t);
  }

  // Between any two steps of a thread that has the token the others change nothing it relies on.
  lemma OthersStayOut(s: State, t: Tid, u: Tid, a: Step)
    requires Inv(s) && t in s.pcs && HasToken(s.pcs[t]) && u != t && Can(s, u, a)
    ensures var g := Do(s, u, a);
      g.owner == s.owner && g.held == s.held && !g.pending && t in g.pcs && g.pcs[t] == s.pcs[t]
  {
    hide Count;
    OnlyOne(s, t);
  }

  // Locking again: no waiting, for the caller is recognized as the owner.
  lemma LockAgain(s: State, t: Tid)
    requires Inv(s) && Can(s, t, CallLock) && 0 < s.pcs[t].depth < UINT_MAX
    ensures var g, depth := Do(s, t, CallLock), s.pcs[t].depth;
      && Can(g, t, Continue)
      && Do(g, t, Continue) == State(Some(t), depth + 1, false, s.pcs[t := Outside(depth + 1)])
  {
    hide Count;
    OnlyOne(s, t);
    assert Matches(s, t);
    var g := Do(s, t, CallLock);
    assert Do(g, t, Continue).pcs == s.pcs[t := Outside(s.pcs[t].depth + 1)];
  }

  // n steps of t alone, the first of them a
  ghost predicate RunsTo(s: State, t: Tid, a: Step, n: nat, g: State)
    decreases n
  {
    && n > 0 && Can(s, t, a)
    && (if n == 1 then g == Do(s, t, a) else RunsTo(Do(s, t, a), t, Continue, n - 1, g))
  }

  // The outermost lock waits for the signal and then owns the mutex once.
  lemma LockFirst(s: State, t: Tid)
    requires Inv(s) && Can(s, t, CallLock) && s.pcs[t].depth == 0 && s.pending
    ensures RunsTo(s, t, CallLock, 5, State(Some(t), 1, false, s.pcs[t := Outside(1)]))
  {
    hide Count;
    var a := Do(s, t, CallLock);
    var b := Do(a, t, Continue);
    var c := Do(b, t, Continue);
    var d := Do(c, t, Continue);
    var g := State(Some(t), 1, false, s.pcs[t := Outside(1)]);
    assert Do(d, t, Continue) == g by {
      assert Do(d, t, Continue).pcs == g.pcs;
    }
    assert RunsTo(d, t, Continue, 1, g);
    assert RunsTo(c, t, Continue, 2, g);
    assert RunsTo(b, t, Continue, 3, g);
    assert RunsTo(a, t, Continue, 4, g);
  }

  // Unlocking: an inner unlock keeps the mutex, the outermost one gives it up and signals.
  lemma UnlockUndoesOne(s: State, t: Tid)
    requires Inv(s) && Can(s, t, CallUnlock)
    ensures var depth := s.pcs[t].depth;
      && (depth > 1 ==>
            RunsTo(s, t, CallUnlock, 2, State(Some(t), depth - 1, false, s.pcs[t := Outside(depth - 1)])))
      && (depth == 1 ==> RunsTo(s, t, CallUnlock, 4, State(None, 0, true, s.pcs[t := Outside(0)])))
  {
    hide Count;
    OnlyOne(s, t);
    assert Matches(s, t);
    var depth, a := s.pcs[t].depth, Do(s, t, CallUnlock);
    var b := Do(a, t, Continue);
    if depth > 1 {
      assert b.pcs == s.pcs[t := Outside(depth - 1)];
      assert RunsTo(a, t, Continue, 1, b);
    } else {
      var c := Do(b, t, Continue);
      var d := Do(c, t, Continue);
      assert d.pcs == s.pcs[t := Outside(0)];
      assert RunsTo(c, t, Continue, 1, d);
      assert RunsTo(b, t, Continue, 2, d);
      assert RunsTo(a, t, Continue, 3, d);
    }
  }

  // g comes from s by steps of which none calls lock and none is of a new thread.
  ghost predicate Leads(s: State, g: State, n: nat)
    decreases n
  {
    || s == g
    || (n > 0
        && exists t, a: Step :: (a.CallUnlock? || a.Continue?) && Can(s, t, a) && Leads(Do(s, t, a), g, n - 1))
  }

  lemma LeadsOn(s: State, t: Tid, a: Step, g: State, n: nat)
    requires (a.CallUnlock? || a.Continue?) && Can(s, t, a) && Leads(Do(s, t, a), g, n)
    ensures Leads(s, g, n + 1)
  {
  }

  // The steps a thread needs to get rid of the token
  function Rank(pc: PC): nat {
    match pc
    case Outside(depth) => 2 * depth + 2
    case LockWait => 0
    case LockGot => 7
    case LockOwns => 6
    case LockCount(depth) => 2 * depth + 5
    case UnlockCounted(depth) => 2 * depth + 3
    case UnlockClear => 2
    case UnlockSignal => 1
  }

  // Nobody is shut out: in every reachable state a thread that waits for the mutex gets it as soon as the one that has
  // it unlocks as often as it locked.
  lemma WaiterGetsIn(s: State, steps: nat, u: Tid) returns (g: State, n: nat)
    requires Reachable(s, steps) && u in s.pcs && s.pcs[u].LockWait?
    ensures Leads(s, g, n) && g.owner == Some(u) && g.held == 1 && u in g.pcs && g.pcs[u] == Outside(1)
  {
    AlwaysInv(s, steps);
    if s.pending {
      g := EntersFrom(s, u);
      n := 4;
    } else {
      var t := SomeThread(s.pcs, HasToken);
      g, n := AfterRelease(s, t, u);
    }
  }

  lemma EntersFrom(s: State, u: Tid) returns (g: State)
    requires Inv(s) && s.pending && u in s.pcs && s.pcs[u].LockWait?
    ensures Leads(s, g, 4) && g.owner == Some(u) && g.held == 1 && u in g.pcs && g.pcs[u] == Outside(1)
  {
    hide Count, Leads;
    var a := Do(s, u, Continue);
    var b := Do(a, u, Continue);
    var c := Do(b, u, Continue);
    g := Do(c, u, Continue);
    Arrived(g);
    LeadsOn(c, u, Continue, g, 0);
    LeadsOn(b, u, Continue, g, 1);
    LeadsOn(a, u, Continue, g, 2);
    LeadsOn(s, u, Continue, g, 3);
  }

  lemma Arrived(g: State)
    ensures Leads(g, g, 0)
  {
  }

  lemma {:induction false} AfterRelease(s: State, t: Tid, u: Tid) returns (g: State, n: nat)
    requires Inv(s) && t in s.pcs && HasToken(s.pcs[t]) && u in s.pcs && s.pcs[u].LockWait?
    ensures Leads(s, g, n) && g.owner == Some(u) && g.held == 1 && u in g.pcs && g.pcs[u] == Outside(1)
    decreases Rank(s.pcs[t])
  {
    hide Count, Leads, Inv;
    var a := if s.pcs[t].Outside? then CallUnlock else Continue;
    var h := Do(s, t, a);
    StepInv(s, t, a);
    TokenStep(s, t, a);
    if h.pending {
      g := EntersFrom(h, u);
      n := 4;
    } else {
      g, n := AfterRelease(h, t, u);
    }
    LeadsOn(s, t, a, g, n);
    n := n + 1;
  }

  lemma TokenStep(s: State, t: Tid, a: Step)
    requires Inv(s) && t in s.pcs && HasToken(s.pcs[t]) && Can(s, t, a) && (s.pcs[t].Outside? ==> a.CallUnlock?)
    ensures var g := Do(s, t, a);
      g.pending || (HasToken(g.pcs[t]) && Rank(g.pcs[t]) < Rank(s.pcs[t]))
  {
    hide Count;
    assert Matches(s, t);
  }
}
