// The binary semaphore used as a mutex (libsel4sync/include/sync/bin_sem_bare.h, libsel4sync/include/sync/mutex.h): any
// number of threads, interleaved after every access to the shared state. A notification is one bit, so signals that
// nobody has received yet merge.
module BinarySemaphore {
  import opened Threads

  const INT_MIN: int := -0x8000_0000

  datatype PC =
    | Idle
      // decremented the value below zero, and blocked in seL4_Wait
    | Waiting
      // returned from wait and did not call post yet
    | Holding
      // incremented the value to val, about to check it
    | Posted(val: int)
      // about to signal
    | Signalling

  datatype State = State(value: int, pending: bool, pcs: map<Tid, PC>)

  datatype Step = Start | Decrement | Wake | Increment | Check | Signal

  predicate Can(s: State, t: Tid, a: Step) {
    match a
    case Start => t !in s.pcs
    case Decrement => t in s.pcs && s.pcs[t].Idle?
    case Wake => t in s.pcs && s.pcs[t].Waiting? && s.pending
    case Increment => t in s.pcs && s.pcs[t].Holding?
    case Check => t in s.pcs && s.pcs[t].Posted?
    case Signal => t in s.pcs && s.pcs[t].Signalling?
  }

  function Goto(s: State, t: Tid, pc: PC): State {
    s.(pcs := s.pcs[t := pc])
  }

  // sync_bin_sem_bare_wait (Decrement, Wake) and sync_bin_sem_bare_post (Increment, Check, Signal)
  function Do(s: State, t: Tid, a: Step): State
    requires Can(s, t, a)
  {
    match a
    case Start => Goto(s, t, Idle)
    case Decrement =>
      if s.value == INT_MIN then s
      else if s.value <= 0 then Goto(s.(value := s.value - 1), t, Waiting)
      else Goto(s.(value := s.value - 1), t, Holding)
    case Wake => Goto(s.(pending := false), t, Holding)
    case Increment => Goto(s.(value := s.value + 1), t, Posted(s.value + 1))
    case Check => Goto(s, t, if s.pcs[t].val <= 0 then Signalling else Idle)
    case Signal => Goto(s.(pending := true), t, Idle)
  }

  predicate IsHolding(pc: PC) {
    pc.Holding?
  }

  predicate IsWaiting(pc: PC) {
    pc.Waiting?
  }

  predicate WillSignal(pc: PC) {
    pc.Signalling? || (pc.Posted? && pc.val <= 0)
  }

  function Holders(s: State): nat {
    Count(s.pcs, IsHolding)
  }

  function Waiters(s: State): nat {
    Count(s.pcs, IsWaiting)
  }

  function Posters(s: State): nat {
    Count(s.pcs, WillSignal)
  }

  // There is one token: a holder, a poster about to signal, the pending signal or the value 1.
  ghost predicate Inv(s: State) {
    && Holders(s) + Posters(s) + (if s.pending then 1 else 0) + (if s.value == 1 then 1 else 0) == 1
    && s.value == 1 - Holders(s) - Waiters(s)
  }

  predicate Init(s: State) {
    s.value == 1 && !s.pending && s.pcs == map[]
  }

  lemma InitInv(s: State)
    requires Init(s)
    ensures Inv(s)
  {
    CountNone(s.pcs, IsHolding);
    CountNone(s.pcs, IsWaiting);
    CountNone(s.pcs, WillSignal);
  }

  lemma Moves(s: State, t: Tid, pc: PC)
    ensures var g := Goto(s, t, pc);
      && Holders(g) ==
         Holders(s) + (if IsHolding(pc) then 1 else 0) - (if t in s.pcs && IsHolding(s.pcs[t]) then 1 else 0)
      && Waiters(g) ==
         Waiters(s) + (if IsWaiting(pc) then 1 else 0) - (if t in s.pcs && IsWaiting(s.pcs[t]) then 1 else 0)
      && Posters(g) ==
         Posters(s) + (if WillSignal(pc) then 1 else 0) - (if t in s.pcs && WillSignal(s.pcs[t]) then 1 else 0)
  {
    CountMoves(s.pcs, t, pc, IsHolding);
    CountMoves(s.pcs, t, pc, IsWaiting);
    CountMoves(s.pcs, t, pc, WillSignal);
  }

  // Every step of every thread keeps the token and the meaning of the value.
  lemma StepInv(s: State, t: Tid, a: Step)
    requires Inv(s) && Can(s, t, a)
    ensures Inv(Do(s, t, a))
  {
    hide Count;
    var g := Do(s, t, a);
    if g != s {
      Moves(s, t, g.pcs[t]);
    }
    if t in s.pcs {
      if IsHolding(s.pcs[t]) {
        CountAtLeast(s.pcs, t, IsHolding);
      }
      if IsWaiting(s.pcs[t]) {
        CountAtLeast(s.pcs, t, IsWaiting);
      }
      if WillSignal(s.pcs[t]) {
        CountAtLeast(s.pcs, t, WillSignal);
      }
    }
  }

  ghost predicate Reachable(s: State, steps: nat)
    decreases steps
  {
    if steps == 0 then Init(s)
    else exists p, t, a :: Reachable(p, steps - 1) && Can(p, t, a) && s == Do(p, t, a)
  }

  lemma {:induction false} AlwaysInv(s: State, steps: nat)
    requires Reachable(s, steps)
    ensures Inv(s)
    decreases steps
  {
    hide Inv, Do;
    if steps == 0 {
      InitInv(s);
    } else {
      var p, t, a :| Reachable(p, steps - 1) && Can(p, t, a) && s == Do(p, t, a);
      AlwaysInv(p, steps - 1);
      StepInv(p, t, a);
    }
  }

  // Mutual exclusion: no two threads hold the semaphore.
  lemma MutualExclusion(s: State, t: Tid, u: Tid)
    requires Inv(s) && t in s.pcs && u in s.pcs && s.pcs[t].Holding? && s.pcs[u].Holding?
    ensures t == u
  {
    if t != u {
      CountTwo(s.pcs, t, u, IsHolding);
    }
  }

  // A wakeup is never lost: while threads wait, somebody holds, or a signal is pending or about to be sent.
  lemma WakeupIsComing(s: State)
    requires Inv(s) && Waiters(s) > 0
    ensures Holders(s) == 1 || s.pending || exists t :: t in s.pcs && WillSignal(s.pcs[t])
  {
    if Holders(s) == 0 && !s.pending {
      var t := SomeThread(s.pcs, WillSignal);
    }
  }

  // Signals never merge here: when one is about to be sent none is pending, and only one thread is about to send one.
  lemma SignalsDoNotMerge(s: State, t: Tid)
    requires Inv(s) && t in s.pcs && WillSignal(s.pcs[t])
    ensures !s.pending && s.value <= 0 && Holders(s) == 0 && Posters(s) == 1
  {
    CountAtLeast(s.pcs, t, WillSignal);
  }

  // The assertion in post reads the value again, when other threads may have changed it: it holds at any moment.
  lemma PostAssertion(s: State, steps: nat)
    requires Reachable(s, steps)
    ensures s.value <= 1
  {
    AlwaysInv(s, steps);
  }

  // Wait takes the semaphore if no thread holds it or waits for it, and queues up otherwise. It returns -1 and changes
  // nothing exactly if 2^31 + 1 threads hold it or wait for it.
  lemma WaitTakesOrBlocks(s: State, t: Tid)
    requires Inv(s) && Can(s, t, Decrement)
    ensures var g := Do(s, t, Decrement);
      && (g == s <==> Holders(s) + Waiters(s) == 0x8000_0001)
      && (g != s ==>
            && g.value == s.value - 1 && g.pending == s.pending && g.pcs.Keys == s.pcs.Keys
            && (forall u | u in s.pcs && u != t :: g.pcs[u] == s.pcs[u])
            && (g.pcs[t].Holding? <==> Holders(s) + Waiters(s) == 0)
            && (g.pcs[t].Waiting? <==> Holders(s) + Waiters(s) > 0))
  {
    var g := Do(s, t, Decrement);
    assert g.pcs.Keys == s.pcs.Keys;
  }

  // So with at most 2^31 threads wait never fails.
  lemma DecrementSucceeds(s: State, t: Tid)
    requires Inv(s) && Can(s, t, Decrement) && |s.pcs| <= 0x8000_0000
    ensures !Do(s, t, Decrement).pcs[t].Idle?
  {
    CountAll(s.pcs, HoldsOrWaits);
    HoldersAndWaiters(s);
    WaitTakesOrBlocks(s, t);
  }

  predicate HoldsOrWaits(pc: PC) {
    pc.Holding? || pc.Waiting?
  }

  lemma HoldersAndWaiters(s: State)
    ensures Count(s.pcs, HoldsOrWaits) == Holders(s) + Waiters(s)
  {
    var h, w := Those(s.pcs, IsHolding), Those(s.pcs, IsWaiting);
    assert Those(s.pcs, HoldsOrWaits) == h + w && h !! w;
  }

  // Post, when no other thread moves in between: without waiters the semaphore is free again, so that the next wait
  // takes it; otherwise a signal is pending, and whichever waiter receives it holds the semaphore.
  lemma PostHandsOver(s: State, t: Tid)
    requires Inv(s) && Can(s, t, Increment)
    ensures var g := Do(s, t, Increment);
      && Can(g, t, Check)
      && (Waiters(s) == 0 ==> Do(g, t, Check) == State(1, false, s.pcs[t := Idle]))
      && (Waiters(s) > 0 ==>
            var h := Do(g, t, Check);
            && Can(h, t, Signal)
            && Do(h, t, Signal) == State(s.value + 1, true, s.pcs[t := Idle])
            && forall u | u in s.pcs && s.pcs[u].Waiting? ::
                 var k := Do(h, t, Signal);
                 Can(k, u, Wake) && Do(k, u, Wake) == State(s.value + 1, false, s.pcs[t := Idle][u := Holding]))
  {
    hide Count;
    CountAtLeast(s.pcs, t, IsHolding);
    var g := Do(s, t, Increment);
    var h := Do(g, t, Check);
    assert h.pcs == s.pcs[t := h.pcs[t]];
    if Waiters(s) > 0 {
      assert Do(h, t, Signal).pcs == s.pcs[t := Idle];
    }
  }

  // g comes from s by at most n steps of threads that hold the semaphore, are inside post, or are woken up.
  ghost predicate Leads(s: State, g: State, n: nat)
    decreases n
  {
    || s == g
    || (n > 0
        && exists t, a: Step :: !a.Start? && !a.Decrement? && Can(s, t, a) && Leads(Do(s, t, a), g, n - 1))
  }

  lemma LeadsOn(s: State, t: Tid, a: Step, g: State, n: nat)
    requires !a.Start? && !a.Decrement? && Can(s, t, a) && Leads(Do(s, t, a), g, n)
    ensures Leads(s, g, n + 1)
  {
  }

  // Nobody waits for want of a signal: in every reachable state a waiter is at most four steps away from holding the
  // semaphore, none of them a new wait.
  lemma WaiterGetsIn(s: State, steps: nat, u: Tid) returns (g: State)
    requires Reachable(s, steps) && u in s.pcs && s.pcs[u].Waiting?
    ensures Leads(s, g, 4) && u in g.pcs && g.pcs[u].Holding?
  {
    AlwaysInv(s, steps);
    g := FromHolder(s, u);
  }

  lemma FromPending(s: State, u: Tid) returns (g: State)
    requires s.pending && u in s.pcs && s.pcs[u].Waiting?
    ensures Leads(s, g, 1) && u in g.pcs && g.pcs[u].Holding?
  {
    g := Do(s, u, Wake);
    LeadsOn(s, u, Wake, g, 0);
  }

  lemma FromPoster(s: State, t: Tid, u: Tid) returns (g: State)
    requires t in s.pcs && WillSignal(s.pcs[t]) && u in s.pcs && s.pcs[u].Waiting?
    ensures Leads(s, g, 3) && u in g.pcs && g.pcs[u].Holding?
  {
    if s.pcs[t].Posted? {
      var h := Do(s, t, Check);
      g := FromPending(Do(h, t, Signal), u);
      LeadsOn(h, t, Signal, g, 1);
      LeadsOn(s, t, Check, g, 2);
    } else {
      g := FromPending(Do(s, t, Signal), u);
      LeadsOn(s, t, Signal, g, 1);
      LeadsLonger(s, g, 2);
    }
  }

  lemma {:induction false} LeadsLonger(s: State, g: State, n: nat)
    requires Leads(s, g, n)
    ensures Leads(s, g, n + 1)
    decreases n
  {
    if s != g {
      var t, a: Step :| !a.Start? && !a.Decrement? && Can(s, t, a) && Leads(Do(s, t, a), g, n - 1);
      LeadsLonger(Do(s, t, a), g, n - 1);
    }
  }

  lemma FromHolder(s: State, u: Tid) returns (g: State)
    requires Inv(s) && u in s.pcs && s.pcs[u].Waiting?
    ensures Leads(s, g, 4) && u in g.pcs && g.pcs[u].Holding?
  {
    hide Count, Leads, Do;
    CountAtLeast(s.pcs, u, IsWaiting);
    WakeupIsComing(s);
    if s.pending {
      g := FromPending(s, u);
      LeadsLonger(s, g, 1);
      LeadsLonger(s, g, 2);
      LeadsLonger(s, g, 3);
    } else if Holders(s) == 1 {
      var t := SomeThread(s.pcs, IsHolding);
      HolderPosts(s, t, u);
      g := FromPoster(Do(s, t, Increment), t, u);
      LeadsOn(s, t, Increment, g, 3);
    } else {
      var t :| t in s.pcs && WillSignal(s.pcs[t]);
      g := FromPoster(s, t, u);
      LeadsLonger(s, g, 3);
    }
  }

  lemma HolderPosts(s: State, t: Tid, u: Tid)
    requires Inv(s) && Waiters(s) > 0 && Can(s, t, Increment) && u in s.pcs && s.pcs[u].Waiting?
    ensures var g := Do(s, t, Increment); t in g.pcs && WillSignal(g.pcs[t]) && u in g.pcs && g.pcs[u].Waiting?
  {
    CountAtLeast(s.pcs, t, IsHolding);
  }
}
