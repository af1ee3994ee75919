// When a refill gets rid of the frees that were deferred, and when it never ends (libsel4allocman/src/allocman.c).
module AllocmanDrain {
  import opened AllocationManager
  import opened AllocmanCalls
  import opened AllocmanResources
  import opened AllocmanWatermark
  import opened Options

  // --- the queues

  // The queue of a space holds resources of this space, and no more than it has room for.
  ghost predicate QueueFits(c: Config, freed: PerSpace<seq<Res>>, space: Space) {
    |freed.Get(space)| <= c.maxFreed.Get(space) && forall r | r in freed.Get(space) :: r.space == space
  }

  ghost predicate QueuesFit(c: Config, freed: PerSpace<seq<Res>>) {
    forall space :: QueueFits(c, freed, space)
  }

  lemma FreeFits(c: Config, s: State, res: Res)
    requires QueuesFit(c, s.freed)
    ensures QueuesFit(c, CallFree(c, s, res).freed)
  {
    hide CanFree;
    var t := CallFree(c, s, res);
    forall space
      ensures QueueFits(c, t.freed, space)
    {
      assert QueueFits(c, s.freed, space);
    }
  }

  lemma PopFits(c: Config, s: State, space: Space)
    requires QueuesFit(c, s.freed) && s.freed.Get(space) != []
    ensures QueuesFit(c, PopFreed(s, space).freed)
  {
    forall other
      ensures QueueFits(c, PopFreed(s, space).freed, other)
    {
      assert QueueFits(c, s.freed, other);
    }
  }

  lemma EndFits(s: State, out: Option<Res>, ends: bool, root: bool)
    ensures EndOperation(s, out, root).freed == s.freed && Finish(s, out, ends, root).freed == s.freed
  {
  }

  lemma WatermarkFits(c: Config, s: State, space: Space, key: nat, moved: bool, ends: bool, root: bool)
    requires QueuesFit(c, s.freed)
    ensures QueuesFit(c, TryWatermark(c, s, space, key, moved, ends, root).freed)
  {
    hide QueuesFit, CallFree, Finish, LastEntry, FindReserve;
    var i := FindReserve(c, s, space, key, 0);
    EndFits(s, None, ends, root);
    if i.Some? {
      var e, t := LastEntry(s, i.value), TakeEntry(s, i.value);
      EndFits(t, Some(e.res), ends, root);
      if e.slot.Some? {
        FreeFits(c, Push(t, Swapped(e.res, ends, root)), e.slot.value);
      }
    }
  }

  lemma AllocFits(c: Config, s: State, space: Space, key: nat, anywhere: bool, watermark: bool, moved: bool)
    requires QueuesFit(c, s.freed)
    ensures QueuesFit(c, CallAlloc(c, s, space, key, anywhere, watermark, moved).freed)
  {
    hide QueuesFit, CanAlloc, TryWatermark;
    WatermarkFits(c, s, space, key, moved, false, false);
  }

  lemma RefillFits(c: Config, s: State, moved: bool)
    requires QueuesFit(c, s.freed) && s.stack != [] && Top(s).Refilling?
    ensures QueuesFit(c, RefillStep(c, s, moved).freed)
  {
    hide QueuesFit, CallFree, CallAlloc, LastFreed;
    var f := Top(s);
    match f.phase
    case Drain(space) =>
      if s.freed.Get(space) != [] {
        PopFits(c, s, space);
        FreeFits(c, Become(PopFreed(s, space), f.(did := true)), LastFreed(s, space));
      }
    case At(i) =>
      AllocFits(c, Become(s, f.(phase := AwaitSlot(i), found := true)), CSpace, 0, true, true, moved);
      if i < |c.reserves| {
        var k := c.reserves[i];
        AllocFits(c, Become(s, f.(phase := Await(i), found := true)), k.space, k.key, true, false, moved);
      }
    case _ =>
  }

  lemma RefillGetsFits(c: Config, s: State, out: Option<Res>, moved: bool)
    requires QueuesFit(c, s.freed) && s.stack != [] && Top(s).Refilling?
    ensures QueuesFit(c, RefillGets(c, s, out, moved).freed)
  {
    hide QueuesFit, CallFree, CallAlloc;
    var f := Top(s);
    match f.phase
    case AwaitSlot(i) =>
      if out.Some? && i < |c.reserves| {
        AllocFits(c, Become(s, f.(phase := AwaitObject(i, out.value))), UTSpace, c.reserves[i].key, true, false, moved);
      }
    case AwaitObject(i, slot) =>
      FreeFits(c, Become(s, f.(phase := At(i + 1))), slot);
    case _ =>
  }

  lemma StepFits(c: Config, s: State, a: Action, moved: bool)
    requires QueuesFit(c, s.freed) && Enabled(s, a)
    ensures QueuesFit(c, Apply(c, s, a, moved).freed)
  {
    hide QueuesFit, CallFree, CallAlloc, EndOperation, Finish, RefillStep, RefillGets, TryWatermark, Copies;
    match a
    case Alloc(space, key, anywhere) => AllocFits(c, s, space, key, anywhere, true, moved);
    case Free(res) => FreeFits(c, s.(client := s.client - multiset{res}), res);
    case Fill =>
    case Succeed(res) => EndFits(LeaveAlloc(s), Some(res), true, Top(s).root);
    case Fail =>
      var f, t := Top(s), LeaveAlloc(s);
      WatermarkFits(c, t, f.space, f.key, moved, true, f.root);
      EndFits(t, None, true, f.root);
    case Done => EndFits(LeaveFree(s), None, true, Top(s).root);
    case Internal =>
      match Top(s) {
        case Refilling(_, _, _, _) => RefillFits(c, s, moved);
        case Deliver(out) =>
          var t := Pop(s);
          if t.stack != [] && Top(t).Swapped? {
            EndFits(Pop(t), Some(Top(t).cookie), Top(t).ends, Top(t).root);
          } else if t.stack != [] && Top(t).Filling? {
            EndFits(Pop(t), None, true, Top(t).root);
          } else if t.stack != [] && Top(t).Refilling? {
            RefillGetsFits(c, t, out, moved);
          }
        case Filling(root) => EndFits(Pop(s), None, true, root);
        case _ =>
      }
  }

  lemma {:induction false} AlwaysFit(c: Config, s: State, steps: nat)
    requires Reachable(c, s, steps)
    ensures QueuesFit(c, s.freed)
    decreases steps
  {
    hide Apply, Enabled, QueuesFit, Initial;
    if steps == 0 {
      EmptyQueuesFit(c, s);
    } else {
      var t, a, moved :| Reachable(c, t, steps - 1) && Enabled(t, a) && s == Apply(c, t, a, moved);
      AlwaysFit(c, t, steps - 1);
      StepFits(c, t, a, moved);
    }
  }

  lemma EmptyQueuesFit(c: Config, s: State)
    requires Initial(c, s)
    ensures QueuesFit(c, s.freed)
  {
    forall space
      ensures QueueFits(c, s.freed, space)
    {
      assert s.freed.Get(space) == [];
    }
  }

  // --- draining

  predicate InDrain(s: State) {
    s.stack != [] && Top(s).Refilling? && Top(s).phase.Drain?
  }

  // The space whose queue is emptied by the loop a refill is in
  function Loop(s: State): Space
    requires InDrain(s)
  {
    Top(s).phase.space
  }

  // A refill is about to take a deferred free from the queue of its loop.
  predicate Draining(s: State) {
    InDrain(s) && s.freed.Get(Loop(s)) != []
  }

  // The free may run on top of what is active.
  predicate Permits(c: Config, s: State, space: Space) {
    CanFree(c.props.Get(space), s.allocDepth.Get(space), s.freeDepth.Get(space))
  }

  function DidSome(s: State): State
    requires s.stack != [] && Top(s).Refilling?
  {
    Become(s, Top(s).(did := true))
  }

  // The deferred free is served exactly if its space permits it. If not, the resource goes back on the queue it came
  // from, and two steps later the refill is where it was.
  lemma DrainServes(c: Config, s: State, moved: bool, moved': bool)
    requires Draining(s) && QueuesFit(c, s.freed)
    ensures var t, space := RefillStep(c, s, moved), Loop(s);
      && t.stack != []
      && (Top(t).InFree? <==> Permits(c, s, space))
      && (Permits(c, s, space) ==> Top(t).space == space && t.freed == PopFreed(s, space).freed)
      && (!Permits(c, s, space) ==> Top(t) == Deliver(None) && Return(c, t, moved') == DidSome(s))
  {
    var space := Loop(s);
    assert QueueFits(c, s.freed, space);
    DrainIs(c, s, moved);
    var q := s.freed.Get(space);
    assert q[|q| - 1] in q;
    var u := Become(PopFreed(s, space), Top(s).(did := true));
    PoppedQueue(s, space, u);
    ServedOrBack(c, u, LastFreed(s, space));
    if !Permits(c, s, space) {
      var t := RefillStep(c, s, moved);
      QueuedAgain(s, space);
      assert t == Push(DidSome(s), Deliver(None));
      BackInDrain(c, DidSome(s), moved');
    }
  }

  lemma DrainIs(c: Config, s: State, moved: bool)
    requires Draining(s)
    ensures var space := Loop(s);
      s.freed.Get(space) != [] &&
      RefillStep(c, s, moved) ==
        CallFree(c, Become(PopFreed(s, space), Top(s).(did := true)), LastFreed(s, space))
  {
    hide CallFree, Become, PopFreed, LastFreed;
  }

  lemma PoppedQueue(s: State, space: Space, u: State)
    requires s.stack != [] && Top(s).Refilling? && s.freed.Get(space) != []
    requires u == Become(PopFreed(s, space), Top(s).(did := true))
    ensures u.freed == PopFreed(s, space).freed && u.allocDepth == s.allocDepth && u.freeDepth == s.freeDepth
    ensures |u.freed.Get(space)| == |s.freed.Get(space)| - 1
  {
  }

  lemma ServedOrBack(c: Config, u: State, res: Res)
    requires |u.freed.Get(res.space)| < c.maxFreed.Get(res.space)
    ensures var t := CallFree(c, u, res);
      && t.stack != []
      && (Permits(c, u, res.space) ==> Top(t).InFree? && Top(t).space == res.space && t.freed == u.freed)
      && (!Permits(c, u, res.space) ==>
            t == Push(u.(freed := u.freed.Set(res.space, u.freed.Get(res.space) + [res])), Deliver(None)))
  {
  }

  lemma QueuedAgain(s: State, space: Space)
    requires s.freed.Get(space) != []
    ensures var p := PopFreed(s, space);
      p.(freed := p.freed.Set(space, p.freed.Get(space) + [LastFreed(s, space)])) == s
  {
    var q := s.freed.Get(space);
    assert q[..|q| - 1] + [q[|q| - 1]] == q;
  }

  lemma BackInDrain(c: Config, s: State, moved: bool)
    requires s.stack != [] && Top(s).Refilling? && Top(s).phase.Drain?
    ensures Return(c, Push(s, Deliver(None)), moved) == s
  {
  }

  // --- a refill that never ends

  // A refill keeps taking out and putting back a deferred free that its space does not permit.
  ghost predicate Hung(c: Config, s: State) {
    Draining(s) && !Permits(c, s, Loop(s))
  }

  // t comes n steps after s.
  ghost predicate Follows(c: Config, s: State, t: State, n: nat)
    decreases n
  {
    if n == 0 then s == t
    else exists u, a, moved :: Follows(c, s, u, n - 1) && Enabled(u, a) && t == Apply(c, u, a, moved)
  }

  // The two states a hung refill alternates between
  ghost predicate Alternates(c: Config, s: State, t: State)
    requires Draining(s)
  {
    t == s || t == DidSome(s) || t == RefillStep(c, s, false)
  }

  lemma DidSomeTwice(c: Config, s: State, moved: bool)
    requires Draining(s)
    ensures Draining(DidSome(s)) && DidSome(s).freed == s.freed
    ensures RefillStep(c, DidSome(s), moved) == RefillStep(c, s, false) == RefillStep(c, s, moved)
  {
    var f := Top(s);
    var t := Become(s, f.(did := true));
    assert Top(t) == f.(did := true) && Pop(t).stack == Pop(s).stack;
    var space := Loop(s);
    DrainIs(c, s, moved);
    DrainIs(c, s, false);
    DrainIs(c, t, moved);
    hide CallFree;
    assert Become(PopFreed(t, space), Top(t).(did := true)) == Become(PopFreed(s, space), f.(did := true));
  }

  lemma AlternatesStep(c: Config, s: State, t: State, a: Action, moved: bool)
    requires Hung(c, s) && QueuesFit(c, s.freed) && Alternates(c, s, t) && Enabled(t, a)
    ensures a.Internal? && Alternates(c, s, Apply(c, t, a, moved))
  {
    DrainServes(c, s, false, moved);
    DidSomeTwice(c, s, moved);
    hide QueuesFit, RefillStep, Return, Copies, Permits, DidSome, Loop;
  }

  lemma {:induction false} Alternating(c: Config, s: State, t: State, n: nat)
    requires Hung(c, s) && QueuesFit(c, s.freed) && Follows(c, s, t, n)
    ensures Alternates(c, s, t)
    decreases n
  {
    hide Apply, Enabled, QueuesFit, Hung, Alternates;
    if n == 0 {
      Here(c, s);
    } else {
      var u, a, moved :| Follows(c, s, u, n - 1) && Enabled(u, a) && t == Apply(c, u, a, moved);
      Alternating(c, s, u, n - 1);
      AlternatesStep(c, s, u, a, moved);
    }
  }

  lemma Here(c: Config, s: State)
    requires Hung(c, s)
    ensures Alternates(c, s, s)
  {
  }

  // From a reachable state in which a refill drains a queue, no client and no allocator ever runs again exactly if the
  // deferred free is not permitted; otherwise its allocator runs next.
  lemma HangsIff(c: Config, s: State, steps: nat)
    requires Reachable(c, s, steps) && Draining(s)
    ensures !Permits(c, s, Loop(s)) <==> forall t, n | Follows(c, s, t, n) :: !UserRuns(t)
  {
    AlwaysFit(c, s, steps);
    if Hung(c, s) {
      forall t, n | Follows(c, s, t, n)
        ensures !UserRuns(t)
      {
        Alternating(c, s, t, n);
        NoUserRuns(c, s, t);
      }
    } else {
      DrainServes(c, s, false, false);
      OneStep(c, s);
    }
  }

  lemma NoUserRuns(c: Config, s: State, t: State)
    requires Hung(c, s) && QueuesFit(c, s.freed) && Alternates(c, s, t)
    ensures !UserRuns(t)
  {
    DrainServes(c, s, false, false);
    hide QueuesFit, RefillStep, Permits, Loop;
  }

  lemma OneStep(c: Config, s: State)
    requires Draining(s)
    ensures Follows(c, s, RefillStep(c, s, false), 1)
  {
    hide RefillStep;
    assert Follows(c, s, s, 0);
    assert Enabled(s, Internal) && RefillStep(c, s, false) == Apply(c, s, Internal, false);
  }

  // A refill at the end of a root operation always gets rid of what was deferred.
  lemma RootRefillServes(c: Config, s: State, steps: nat, moved: bool)
    requires Reachable(c, s, steps) && Draining(s) && |s.stack| > 1
    requires s.stack[|s.stack| - 2].Deliver? || s.stack[|s.stack| - 2] == Filling(true)
    ensures var t := RefillStep(c, s, moved);
      t.stack != [] && Top(t).InFree? && Top(t).space == Loop(s)
  {
    AlwaysInv(c, s, steps);
    AlwaysFit(c, s, steps);
    RootPermits(c, s, Loop(s));
    DrainServes(c, s, moved, moved);
  }

  lemma RootPermits(c: Config, s: State, space: Space)
    requires CallsInv(c, s) && |s.stack| > 1 && Top(s).Refilling?
    requires s.stack[|s.stack| - 2].Deliver? || s.stack[|s.stack| - 2] == Filling(true)
    ensures Permits(c, s, space)
  {
    RootRefillIsAlone(s.stack, |s.stack| - 1);
    NoneActiveAbove(s.stack);
    hide AllocsIn, FreesIn, Permitted, RootsAreFirst;
  }

  // --- when a refill can hang

  lemma OneMore(c: Config, s: State, steps: nat, a: Action, t: State)
    requires Reachable(c, s, steps) && Enabled(s, a) && t == Apply(c, s, a, false)
    ensures Reachable(c, t, steps + 1)
  {
    hide Apply, Enabled;
  }

  // The states inside a root operation on a space
  ghost predicate Within(s: State) {
    s.stack != [] && (Top(s).InAlloc? || Top(s).InFree?) && s.inOperation && !s.refilling
  }

  lemma Begins(c: Config, s: State, space: Space, t: State)
    requires Initial(c, s)
    requires t == Push(s.(inOperation := true, allocDepth := s.allocDepth.Set(space, 1)),
                       InAlloc(space, 0, true, true, true))
    ensures Reachable(c, t, 1) && Within(t) && t.freed == PerSpace([], [], []) && forall r :: Copies(t, r) == 0
    ensures forall other | other != space :: t.allocDepth.Get(other) == 0 && t.freeDepth.Get(other) == 0
  {
    assert Reachable(c, s, 0);
    hide Reachable;
    assert t == CallAlloc(c, s, space, 0, true, true, false);
    OneMore(c, s, 0, Alloc(space, 0, true), t);
    forall r
      ensures Copies(t, r) == 0
    {
      NothingHeld(c, s, r);
      SameCopies(s, s.(inOperation := true, allocDepth := s.allocDepth.Set(space, 1)), r);
      CopiesPush(s.(inOperation := true, allocDepth := s.allocDepth.Set(space, 1)), Top(t), r);
    }
  }

  lemma NothingHeld(c: Config, s: State, r: Res)
    requires Initial(c, s)
    ensures Copies(s, r) == 0
  {
    EmptyStock(s.stock, r);
  }

  // Inside an operation a client gets a resource of a space that is idle.
  lemma Borrow(c: Config, s: State, steps: nat, res: Res)
    requires Reachable(c, s, steps) && Within(s) && Copies(s, res) == 0
    requires s.allocDepth.Get(res.space) == 0 && s.freeDepth.Get(res.space) == 0
    ensures Reachable(c, s.(client := s.client + multiset{res}), steps + 3)
    ensures forall r | r != res :: Copies(s.(client := s.client + multiset{res}), r) == Copies(s, r)
  {
    hide Reachable, Copies;
    var f := InAlloc(res.space, 0, true, true, false);
    var s1 := Push(s.(allocDepth := s.allocDepth.Set(res.space, 1)), f);
    var s2 := Push(s, Deliver(Some(res)));
    BorrowSteps(c, s, res);
    OneMore(c, s, steps, Alloc(res.space, 0, true), s1);
    OneMore(c, s1, steps + 1, Succeed(res), s2);
    OneMore(c, s2, steps + 2, Internal, s.(client := s.client + multiset{res}));
    forall r | r != res
      ensures Copies(s.(client := s.client + multiset{res}), r) == Copies(s, r)
    {
      ClientGets(s, res, r);
    }
  }

  lemma BorrowSteps(c: Config, s: State, res: Res)
    requires Within(s) && Copies(s, res) == 0
    requires s.allocDepth.Get(res.space) == 0 && s.freeDepth.Get(res.space) == 0
    ensures var s1 := Push(s.(allocDepth := s.allocDepth.Set(res.space, 1)), InAlloc(res.space, 0, true, true, false));
      var s2 := Push(s, Deliver(Some(res)));
      && Enabled(s, Alloc(res.space, 0, true)) && s1 == Apply(c, s, Alloc(res.space, 0, true), false)
      && Enabled(s1, Succeed(res)) && s2 == Apply(c, s1, Succeed(res), false)
      && Enabled(s2, Internal) && s.(client := s.client + multiset{res}) == Apply(c, s2, Internal, false)
  {
    hide Copies;
    var f := InAlloc(res.space, 0, true, true, false);
    var s1 := Push(s.(allocDepth := s.allocDepth.Set(res.space, 1)), f);
    var s2 := Push(s, Deliver(Some(res)));
    BorrowedIsNew(s, f, res);
    assert Pop(s1).stack == s.stack;
    assert LeaveAlloc(s1) == s;
    assert Pop(s2).stack == s.stack;
  }

  lemma BorrowedIsNew(s: State, f: Frame, res: Res)
    requires f.InAlloc?
    ensures Copies(Push(s.(allocDepth := s.allocDepth.Set(res.space, 1)), f), res) == Copies(s, res)
  {
  }

  // A refill passes the loops of the spaces that have nothing queued.
  lemma PassLoop(c: Config, s: State, steps: nat) returns (t: State)
    requires Reachable(c, s, steps) && InDrain(s) && s.freed.Get(Loop(s)) == [] && Loop(s) != UTSpace
    ensures t == Become(s, Top(s).(phase := AfterDrain(Loop(s))))
    ensures Reachable(c, t, steps + 1) && InDrain(t) && Loop(t) == (if Loop(s) == CSpace then MSpace else UTSpace)
  {
    hide Reachable, Copies;
    t := Become(s, Top(s).(phase := AfterDrain(Loop(s))));
    OneMore(c, s, steps, Internal, t);
  }

  // Only one space has something queued: a refill that starts gets to its loop.
  lemma FindLoop(c: Config, s: State, steps: nat, space: Space) returns (t: State, n: nat)
    requires Reachable(c, s, steps) && InDrain(s) && Loop(s) == CSpace
    requires s.freed.Get(space) != [] && forall other | other != space :: s.freed.Get(other) == []
    requires !Permits(c, s, space)
    ensures Reachable(c, t, n) && Hung(c, t)
  {
    hide Reachable, Copies, CanFree;
    t, n := s, steps;
    if space != CSpace {
      t := PassLoop(c, t, n);
      n := n + 1;
      if space != MSpace {
        t := PassLoop(c, t, n);
        n := n + 1;
      }
    }
  }

  // A free that is deferred, and allocman_fill_reserves before its allocator is done
  lemma Defer(c: Config, s: State, steps: nat, res: Res) returns (t: State, n: nat)
    requires Reachable(c, s, steps) && Within(s) && s.freed == PerSpace([], [], []) && res in s.client
    requires !Permits(c, s, res.space) && c.maxFreed.Get(res.space) > 0
    ensures Reachable(c, t, n) && Hung(c, t)
  {
    hide Reachable, Copies, CanFree, Hung;
    var s0 := s.(client := s.client - multiset{res}, freed := s.freed.Set(res.space, [res]));
    assert s.freed.Get(res.space) + [res] == [res];
    assert Pop(Push(s0, Deliver(None))).stack == s.stack;
    OneMore(c, s, steps, Free(res), Push(s0, Deliver(None)));
    OneMore(c, Push(s0, Deliver(None)), steps + 1, Internal, s0);
    t := CallFill(s0);
    OneMore(c, s0, steps + 2, Fill, t);
    t, n := FindLoop(c, t, steps + 3, res.space);
  }

  predicate Restricted(p: Properties) {
    !p.allocCanFree || !p.freeCanFree
  }

  // A refill can hang exactly if frees of some space may be deferred: its allocator does not allow them inside all of
  // its own calls, and there is room to queue them.
  lemma CanHangIff(c: Config)
    ensures (exists s, steps :: Reachable(c, s, steps) && Hung(c, s)) <==>
      (exists space: Space :: Restricted(c.props.Get(space)) && c.maxFreed.Get(space) > 0)
  {
    hide Reachable, QueuesFit, QueueFits, Hung, Restricted;
    if space: Space :| Restricted(c.props.Get(space)) && c.maxFreed.Get(space) > 0 {
      var s, steps := Hang(c, space);
    }
    forall s, steps | Reachable(c, s, steps) && Hung(c, s)
      ensures exists space: Space :: Restricted(c.props.Get(space)) && c.maxFreed.Get(space) > 0
    {
      AlwaysFit(c, s, steps);
      HungIsRestricted(c, s);
    }
  }

  lemma HungIsRestricted(c: Config, s: State)
    requires Hung(c, s) && QueuesFit(c, s.freed)
    ensures exists space: Space :: Restricted(c.props.Get(space)) && c.maxFreed.Get(space) > 0
  {
    var space := Loop(s);
    assert QueueFits(c, s.freed, space);
    assert Restricted(c.props.Get(space));
  }

  lemma Hang(c: Config, space: Space) returns (t: State, steps: nat)
    requires Restricted(c.props.Get(space)) && c.maxFreed.Get(space) > 0
    ensures Reachable(c, t, steps) && Hung(c, t)
  {
    hide Reachable, Copies, Initial, Within, CanFree, Permits;
    var other := if space == CSpace then MSpace else CSpace;
    var s0 := Begin(c);
    var s1 := Push(s0.(inOperation := true, allocDepth := s0.allocDepth.Set(other, 1)),
                   InAlloc(other, 0, true, true, true));
    Begins(c, s0, other, s1);
    var a, b := Res(space, 0), Res(space, 1);
    Borrow(c, s1, 1, a);
    var s2 := s1.(client := s1.client + multiset{a});
    assert Within(s2) && a in s2.client && s2.freed == s1.freed by {
      Regains(s1, a);
    }
    if !c.props.Get(space).allocCanFree {
      t, steps := HangInAlloc(c, s2, 4, a);
    } else {
      assert a != b;
      Borrow(c, s2, 4, b);
      var s3 := s2.(client := s2.client + multiset{b});
      assert Within(s3) && a in s3.client && b in s3.client && s3.freed == s2.freed by {
        Regains(s2, b);
      }
      t, steps := HangInFree(c, s3, 7, a, b);
    }
  }

  lemma Begin(c: Config) returns (s: State)
    ensures Initial(c, s)
  {
    s := State(false, false, true, PerSpace(0, 0, 0), PerSpace(0, 0, 0), seq(|c.reserves|, i => []),
               PerSpace([], [], []), multiset{}, []);
  }

  lemma Regains(s: State, res: Res)
    requires Within(s)
    ensures var t := s.(client := s.client + multiset{res});
      Within(t) && res in t.client && (forall r | r in s.client :: r in t.client)
  {
  }

  // A free during an alloc that does not allow it
  lemma HangInAlloc(c: Config, s: State, steps: nat, a: Res) returns (t: State, n: nat)
    requires Reachable(c, s, steps) && Within(s) && s.freed == PerSpace([], [], []) && a in s.client
    requires s.allocDepth.Get(a.space) == 0 && s.freeDepth.Get(a.space) == 0
    requires !c.props.Get(a.space).allocCanFree && c.maxFreed.Get(a.space) > 0
    ensures Reachable(c, t, n) && Hung(c, t)
  {
    hide Reachable, Copies, Hung;
    var s1 := Push(s.(allocDepth := s.allocDepth.Set(a.space, 1)), InAlloc(a.space, 0, true, true, false));
    OneMore(c, s, steps, Alloc(a.space, 0, true), s1);
    t, n := Defer(c, s1, steps + 1, a);
  }

  // A free during a free that does not allow it
  lemma HangInFree(c: Config, s: State, steps: nat, a: Res, b: Res) returns (t: State, n: nat)
    requires Reachable(c, s, steps) && Within(s) && s.freed == PerSpace([], [], [])
    requires a in s.client && b in s.client && a != b && a.space == b.space
    requires s.allocDepth.Get(a.space) == 0 && s.freeDepth.Get(a.space) == 0
    requires !c.props.Get(a.space).freeCanFree && c.maxFreed.Get(a.space) > 0
    ensures Reachable(c, t, n) && Hung(c, t)
  {
    hide Reachable, Copies, Hung;
    var s1 := Push(s.(client := s.client - multiset{a}, freeDepth := s.freeDepth.Set(a.space, 1)),
                   InFree(a.space, false));
    OneMore(c, s, steps, Free(a), s1);
    t, n := Defer(c, s1, steps + 1, b);
  }
}
