// Re-entrancy in the allocation manager: which calls may be active at the same time (libsel4allocman/src/allocman.c).
module AllocmanCalls {
  import opened AllocationManager
  import opened Options

  function AllocsIn(stack: seq<Frame>, space: Space): nat {
    if stack == [] then 0
    else AllocsIn(stack[..|stack| - 1], space) + (if IsAlloc(stack[|stack| - 1], space) then 1 else 0)
  }

  function FreesIn(stack: seq<Frame>, space: Space): nat {
    if stack == [] then 0
    else FreesIn(stack[..|stack| - 1], space) + (if IsFree(stack[|stack| - 1], space) then 1 else 0)
  }

  predicate IsAlloc(f: Frame, space: Space) {
    f.InAlloc? && f.space == space
  }

  predicate IsFree(f: Frame, space: Space) {
    f.InFree? && f.space == space
  }

  // An underlying alloc or free was entered only if its declared properties allow it on top of what was active.
  predicate MayRun(c: Config, below: seq<Frame>, f: Frame) {
    match f
    case InAlloc(space, _, _, _, _) =>
      CanAlloc(c.props.Get(space), AllocsIn(below, space), FreesIn(below, space))
    case InFree(space, _) =>
      CanFree(c.props.Get(space), AllocsIn(below, space), FreesIn(below, space))
    case _ => true
  }

  predicate Permitted(c: Config, stack: seq<Frame>) {
    stack == [] || (Permitted(c, stack[..|stack| - 1]) && MayRun(c, stack[..|stack| - 1], stack[|stack| - 1]))
  }

  // No underlying allocator is running.
  predicate NoneActive(stack: seq<Frame>) {
    forall space :: AllocsIn(stack, space) == 0 && FreesIn(stack, space) == 0
  }

  // A root operation was started when no allocator was running, and so was the refill at its end.
  predicate RootsAreFirst(stack: seq<Frame>) {
    stack == [] || (RootsAreFirst(stack[..|stack| - 1]) &&
      (IsRoot(stack[|stack| - 1]) || EndsRoot(stack[..|stack| - 1], stack[|stack| - 1]) ==>
         NoneActive(stack[..|stack| - 1])))
  }

  // _end_operation leaves a refill right above what it returns; allocman_fill_reserves leaves it above itself.
  predicate EndsRoot(below: seq<Frame>, f: Frame) {
    f.Refilling? && below != [] && below[|below| - 1].Deliver?
  }

  predicate IsRoot(f: Frame) {
    match f
    case InAlloc(_, _, _, _, root) => root
    case InFree(_, root) => root
    case Swapped(_, ends, root) => ends && root
    case Filling(root) => root
    case _ => false
  }

  // The depth counters count the active calls, all of them are permitted, and between root operations none is active.
  ghost predicate CallsInv(c: Config, s: State) {
    && (forall space :: s.allocDepth.Get(space) == AllocsIn(s.stack, space))
    && (forall space :: s.freeDepth.Get(space) == FreesIn(s.stack, space))
    && Permitted(c, s.stack) && RootsAreFirst(s.stack)
    && (!s.inOperation ==> NoneActive(s.stack))
  }

  lemma PushCounts(s: State, f: Frame)
    ensures var t := Push(s, f);
      && t.stack != [] && Top(t) == f && Pop(t) == s
      && (forall space :: AllocsIn(t.stack, space) == AllocsIn(s.stack, space) + (if IsAlloc(f, space) then 1 else 0))
      && (forall space :: FreesIn(t.stack, space) == FreesIn(s.stack, space) + (if IsFree(f, space) then 1 else 0))
  {
    assert (s.stack + [f])[..|s.stack|] == s.stack;
  }

  lemma PushPermitted(c: Config, s: State, f: Frame)
    ensures Permitted(c, Push(s, f).stack) <==> Permitted(c, s.stack) && MayRun(c, s.stack, f)
    ensures RootsAreFirst(Push(s, f).stack) <==>
      RootsAreFirst(s.stack) && (IsRoot(f) || EndsRoot(s.stack, f) ==> NoneActive(s.stack))
  {
    assert (s.stack + [f])[..|s.stack|] == s.stack;
  }

  // Frames that stand for no underlying call can come and go.
  predicate Quiet(f: Frame) {
    !f.InAlloc? && !f.InFree?
  }

  lemma PushQuiet(c: Config, s: State, f: Frame)
    requires CallsInv(c, s) && Quiet(f) && (IsRoot(f) || EndsRoot(s.stack, f) ==> NoneActive(s.stack))
    ensures CallsInv(c, Push(s, f)) && (NoneActive(s.stack) ==> NoneActive(Push(s, f).stack))
  {
    hide AllocsIn, FreesIn, Permitted, RootsAreFirst, CanAlloc, CanFree;
    PushCounts(s, f);
    PushPermitted(c, s, f);
  }

  lemma PopQuiet(c: Config, s: State)
    requires CallsInv(c, s) && s.stack != [] && Quiet(Top(s))
    ensures CallsInv(c, Pop(s)) && (IsRoot(Top(s)) || EndsRoot(Pop(s).stack, Top(s)) ==> NoneActive(Pop(s).stack))
    ensures NoneActive(s.stack) ==> NoneActive(Pop(s).stack)
  {
  }

  lemma BecomeQuiet(c: Config, s: State, f: Frame)
    requires CallsInv(c, s) && s.stack != [] && Top(s).Refilling? && f.Refilling?
    ensures CallsInv(c, Become(s, f))
  {
    hide CallsInv;
    PopQuiet(c, s);
    PushQuiet(c, Pop(s), f);
  }

  predicate SameCalls(s: State, t: State) {
    s.inOperation == t.inOperation && s.allocDepth == t.allocDepth && s.freeDepth == t.freeDepth && s.stack == t.stack
  }

  lemma SameCallsInv(c: Config, s: State, t: State)
    requires CallsInv(c, s) && SameCalls(s, t)
    ensures CallsInv(c, t)
  {
  }

  lemma CallsEnd(c: Config, s: State, out: Option<Res>, ends: bool, root: bool)
    requires CallsInv(c, s) && (ends && root ==> NoneActive(s.stack))
    ensures ends ==> CallsInv(c, EndOperation(s, out, root))
    ensures CallsInv(c, Finish(s, out, ends, root))
  {
    hide AllocsIn, FreesIn, Permitted, RootsAreFirst, NoneActive;
    if ends {
      var s1 := s.(inOperation := !root);
      assert CallsInv(c, s1);
      PushQuiet(c, s1, Deliver(out));
      var t := Push(s1, Deliver(out));
      SameCallsInv(c, t, t.(refilling := true));
      if root {
        PushQuiet(c, t.(refilling := true), Refilling(0, Drain(CSpace), false, false));
      }
    } else {
      PushQuiet(c, s, Deliver(out));
    }
  }

  lemma CallsFree(c: Config, s: State, res: Res)
    requires CallsInv(c, s)
    ensures CallsInv(c, CallFree(c, s, res))
  {
    hide AllocsIn, FreesIn, Permitted, RootsAreFirst, CanAlloc, CanFree, NoneActive;
    var space := res.space;
    if CanFree(c.props.Get(space), s.allocDepth.Get(space), s.freeDepth.Get(space)) {
      var t := s.(inOperation := true, freeDepth := s.freeDepth.Set(space, s.freeDepth.Get(space) + 1));
      PushCounts(t, InFree(space, !s.inOperation));
      PushPermitted(c, t, InFree(space, !s.inOperation));
    } else {
      PushQuiet(c, s, Deliver(None));
      var t := s.(freed := s.freed.Set(space, s.freed.Get(space) + [res]));
      SameCallsInv(c, s, t);
      PushQuiet(c, t, Deliver(None));
    }
  }

  lemma CallsWatermark(c: Config, s: State, space: Space, key: nat, moved: bool, ends: bool, root: bool)
    requires CallsInv(c, s) && (ends && root ==> NoneActive(s.stack))
    ensures CallsInv(c, TryWatermark(c, s, space, key, moved, ends, root))
  {
    hide CallsInv, NoneActive, CallFree, Finish, FindReserve, LastEntry;
    var i := FindReserve(c, s, space, key, 0);
    CallsEnd(c, s, None, ends, root);
    if i.Some? {
      var e, t := LastEntry(s, i.value), TakeEntry(s, i.value);
      SameCallsInv(c, s, t);
      CallsEnd(c, t, Some(e.res), ends, root);
      PushQuiet(c, t, Swapped(e.res, ends, root));
      if e.slot.Some? {
        CallsFree(c, Push(t, Swapped(e.res, ends, root)), e.slot.value);
      }
    }
  }

  lemma CallsAlloc(c: Config, s: State, space: Space, key: nat, anywhere: bool, watermark: bool, moved: bool)
    requires CallsInv(c, s)
    ensures CallsInv(c, CallAlloc(c, s, space, key, anywhere, watermark, moved))
  {
    hide AllocsIn, FreesIn, Permitted, RootsAreFirst, CanAlloc, CanFree, NoneActive, TryWatermark;
    if CanAlloc(c.props.Get(space), s.allocDepth.Get(space), s.freeDepth.Get(space)) {
      var t := s.(inOperation := true, allocDepth := s.allocDepth.Set(space, s.allocDepth.Get(space) + 1));
      PushCounts(t, InAlloc(space, key, anywhere, watermark, !s.inOperation));
      PushPermitted(c, t, InAlloc(space, key, anywhere, watermark, !s.inOperation));
    } else {
      PushQuiet(c, s, Deliver(None));
      CallsWatermark(c, s, space, key, moved, false, false);
    }
  }

  lemma CallsDrain(c: Config, s: State, space: Space, f: Frame)
    requires CallsInv(c, s) && s.stack != [] && s.freed.Get(space) != [] && Top(s).Refilling? && f.Refilling?
    ensures CallsInv(c, CallFree(c, Become(PopFreed(s, space), f), LastFreed(s, space)))
  {
    hide CallsInv, CallFree, LastFreed, PerSpace.Set;
    var t := PopFreed(s, space);
    SameCallsInv(c, s, t);
    BecomeQuiet(c, t, f);
    CallsFree(c, Become(t, f), LastFreed(s, space));
  }

  lemma CallsRefillStep(c: Config, s: State, moved: bool)
    requires CallsInv(c, s) && s.stack != [] && Top(s).Refilling?
    ensures CallsInv(c, RefillStep(c, s, moved))
  {
    hide CallsInv, CallFree, CallAlloc, Become, PopFreed, LastFreed, Pop;
    var f := Top(s);
    match f.phase
    case Drain(space) =>
      BecomeQuiet(c, s, f.(phase := AfterDrain(space)));
      if s.freed.Get(space) != [] {
        CallsDrain(c, s, space, f.(did := true));
      }
    case At(i) =>
      BecomeQuiet(c, s, f.(phase := AwaitSlot(i), found := true));
      BecomeQuiet(c, s, f.(phase := Await(i), found := true));
      BecomeQuiet(c, s, f.(phase := At(i + 1)));
      BecomeQuiet(c, s, Refilling(f.round + 1, Drain(CSpace), false, false));
      PopQuiet(c, s);
      SameCallsInv(c, Pop(s), Pop(s).(refilling := false, used := f.found && s.used));
      CallsAlloc(c, Become(s, f.(phase := AwaitSlot(i), found := true)), CSpace, 0, true, true, moved);
      if i < |c.reserves| {
        var k := c.reserves[i];
        CallsAlloc(c, Become(s, f.(phase := Await(i), found := true)), k.space, k.key, true, false, moved);
      }
    case _ =>
  }

  lemma CallsAdded(c: Config, s: State, i: nat, e: Entry, f: Frame)
    requires CallsInv(c, s) && i < |s.stock| && s.stack != [] && Top(s).Refilling? && f.Refilling?
    ensures CallsInv(c, Become(AddEntry(s, i, e), f))
  {
    hide CallsInv;
    SameCallsInv(c, s, AddEntry(s, i, e));
    BecomeQuiet(c, AddEntry(s, i, e), f);
  }

  lemma CallsRefillGets(c: Config, s: State, out: Option<Res>, moved: bool)
    requires CallsInv(c, s) && s.stack != [] && Top(s).Refilling?
    ensures CallsInv(c, RefillGets(c, s, out, moved))
  {
    hide CallsInv, CallFree, CallAlloc, Become, AddEntry;
    var f := Top(s);
    match f.phase
    case Await(i) =>
      BecomeQuiet(c, s, f.(phase := At(i + 1)));
      if out.Some? && i < |s.stock| {
        CallsAdded(c, s, i, Entry(out.value, None), f.(phase := At(i + 1), did := true));
      }
    case AwaitSlot(i) =>
      BecomeQuiet(c, s, f.(phase := At(i + 1)));
      if out.Some? && i < |c.reserves| {
        BecomeQuiet(c, s, f.(phase := AwaitObject(i, out.value)));
        CallsAlloc(c, Become(s, f.(phase := AwaitObject(i, out.value))), UTSpace, c.reserves[i].key, true, false,
                   moved);
      }
    case AwaitObject(i, slot) =>
      BecomeQuiet(c, s, f.(phase := At(i + 1)));
      CallsFree(c, Become(s, f.(phase := At(i + 1))), slot);
      if out.Some? && i < |s.stock| {
        CallsAdded(c, s, i, Entry(out.value, Some(slot)), f.(phase := At(i + 1), did := true));
      }
    case _ =>
  }

  lemma CallsReturn(c: Config, s: State, moved: bool)
    requires CallsInv(c, s) && s.stack != [] && Top(s).Deliver?
    ensures CallsInv(c, Return(c, s, moved))
  {
    hide CallsInv, NoneActive, Finish, EndOperation, RefillGets, Pop;
    var out, t := Top(s).out, Pop(s);
    PopQuiet(c, s);
    if t.stack != [] {
      if Top(t).Swapped? {
        PopQuiet(c, t);
        CallsEnd(c, Pop(t), Some(Top(t).cookie), Top(t).ends, Top(t).root);
      } else if Top(t).Filling? {
        PopQuiet(c, t);
        CallsEnd(c, Pop(t), None, true, Top(t).root);
      } else if Top(t).Refilling? {
        CallsRefillGets(c, t, out, moved);
      }
    }
    if out.Some? {
      SameCallsInv(c, t, t.(client := t.client + multiset{out.value}));
    }
  }

  // Leaving an underlying call: until _end_operation the operation goes on.
  lemma CallsLeave(c: Config, s: State)
    requires CallsInv(c, s) && s.stack != []
    ensures Top(s).InAlloc? ==> CallsInv(c, LeaveAlloc(s)) && (Top(s).root ==> NoneActive(LeaveAlloc(s).stack))
    ensures Top(s).InFree? ==> CallsInv(c, LeaveFree(s)) && (Top(s).root ==> NoneActive(LeaveFree(s).stack))
  {
    if Top(s).InAlloc? {
      LeaveAllocCounts(c, s);
    }
    if Top(s).InFree? {
      LeaveFreeCounts(c, s);
    }
    hide CanAlloc, CanFree, LeaveAlloc, LeaveFree, AllocsIn, FreesIn;
  }

  lemma LeaveAllocCounts(c: Config, s: State)
    requires CallsInv(c, s) && s.stack != [] && Top(s).InAlloc?
    ensures var t := LeaveAlloc(s);
      && s.inOperation && t.inOperation && t.stack == Pop(s).stack
      && (forall space :: t.allocDepth.Get(space) == AllocsIn(t.stack, space))
      && (forall space :: t.freeDepth.Get(space) == FreesIn(t.stack, space))
  {
    hide Permitted, RootsAreFirst;
    var t := LeaveAlloc(s);
    assert AllocsIn(s.stack, Top(s).space) == AllocsIn(t.stack, Top(s).space) + 1;
    forall space
      ensures t.allocDepth.Get(space) == AllocsIn(t.stack, space) && t.freeDepth.Get(space) == FreesIn(t.stack, space)
    {
      assert s.allocDepth.Get(space) == AllocsIn(s.stack, space) && s.freeDepth.Get(space) == FreesIn(s.stack, space);
    }
  }

  lemma LeaveFreeCounts(c: Config, s: State)
    requires CallsInv(c, s) && s.stack != [] && Top(s).InFree?
    ensures var t := LeaveFree(s);
      && s.inOperation && t.inOperation && t.stack == Pop(s).stack
      && (forall space :: t.allocDepth.Get(space) == AllocsIn(t.stack, space))
      && (forall space :: t.freeDepth.Get(space) == FreesIn(t.stack, space))
  {
    hide Permitted, RootsAreFirst;
    var t := LeaveFree(s);
    assert FreesIn(s.stack, Top(s).space) == FreesIn(t.stack, Top(s).space) + 1;
    forall space
      ensures t.allocDepth.Get(space) == AllocsIn(t.stack, space) && t.freeDepth.Get(space) == FreesIn(t.stack, space)
    {
      assert s.allocDepth.Get(space) == AllocsIn(s.stack, space) && s.freeDepth.Get(space) == FreesIn(s.stack, space);
    }
  }

  lemma CallsFill(c: Config, s: State)
    requires CallsInv(c, s)
    ensures CallsInv(c, CallFill(s))
  {
    hide AllocsIn, FreesIn, Permitted, RootsAreFirst, NoneActive;
    var s1 := s.(inOperation := true, used := true);
    assert CallsInv(c, s1);
    var t := Push(s1, Filling(!s.inOperation));
    PushQuiet(c, s1, Filling(!s.inOperation));
    PushQuiet(c, t, Deliver(None));
    SameCallsInv(c, t, t.(refilling := true));
    PushQuiet(c, t.(refilling := true), Refilling(0, Drain(CSpace), false, false));
  }

  // Every step keeps the invariant, whatever the underlying allocators and the clients do.
  lemma CallsApply(c: Config, s: State, a: Action, moved: bool)
    requires CallsInv(c, s) && Enabled(s, a)
    ensures CallsInv(c, Apply(c, s, a, moved))
  {
    hide CallsInv, CallFree, CallAlloc, CallFill, EndOperation, RefillStep, Return, TryWatermark, LeaveAlloc, LeaveFree,
      Pop, NoneActive, Copies;
    match a
    case Alloc(space, key, anywhere) => CallsAlloc(c, s, space, key, anywhere, true, moved);
    case Free(res) =>
      SameCallsInv(c, s, s.(client := s.client - multiset{res}));
      CallsFree(c, s.(client := s.client - multiset{res}), res);
    case Fill => CallsFill(c, s);
    case Succeed(res) =>
      CallsLeave(c, s);
      CallsEnd(c, LeaveAlloc(s), Some(res), true, Top(s).root);
    case Fail =>
      CallsLeave(c, s);
      var f, t := Top(s), LeaveAlloc(s);
      CallsWatermark(c, t, f.space, f.key, moved, true, f.root);
      CallsEnd(c, t, None, true, f.root);
    case Done =>
      CallsLeave(c, s);
      CallsEnd(c, LeaveFree(s), None, true, Top(s).root);
    case Internal =>
      match Top(s) {
        case Refilling(_, _, _, _) => CallsRefillStep(c, s, moved);
        case Deliver(_) => CallsReturn(c, s, moved);
        case Filling(root) =>
          PopQuiet(c, s);
          CallsEnd(c, Pop(s), None, true, root);
        case _ =>
      }
  }

  // With the default properties at most one call into each space's allocator is ever active.
  lemma {:induction false} NeverReentered(c: Config, stack: seq<Frame>, space: Space)
    requires Permitted(c, stack) && c.props.Get(space) == DEFAULT
    ensures AllocsIn(stack, space) + FreesIn(stack, space) <= 1
    decreases |stack|
  {
    if stack != [] {
      NeverReentered(c, stack[..|stack| - 1], space);
    }
  }

  // An allocator that does not declare free_can_free never has two frees active.
  lemma {:induction false} FreeNeverNested(c: Config, stack: seq<Frame>, space: Space)
    requires Permitted(c, stack) && !c.props.Get(space).freeCanFree
    ensures FreesIn(stack, space) <= 1
    decreases |stack|
  {
    if stack != [] {
      FreeNeverNested(c, stack[..|stack| - 1], space);
    }
  }

  // A refill at the end of a root operation, or of allocman_fill_reserves called outside every operation, runs when no
  // allocator is active.
  lemma {:induction false} RootRefillIsAlone(stack: seq<Frame>, k: nat)
    requires RootsAreFirst(stack) && 0 < k < |stack| && stack[k].Refilling?
    requires stack[k - 1].Deliver? || stack[k - 1] == Filling(true)
    ensures NoneActive(stack[..k])
    decreases |stack|
  {
    var n := |stack| - 1;
    if k < n {
      assert stack[..n][..k] == stack[..k];
      RootRefillIsAlone(stack[..n], k);
    } else if stack[k - 1] == Filling(true) {
      assert stack[..k][..k - 1] == stack[..k - 1];
      assert RootsAreFirst(stack[..k]) && IsRoot(stack[..k][k - 1]);
      NoneActiveAbove(stack[..k]);
    }
  }

  lemma NoneActiveAbove(stack: seq<Frame>)
    requires stack != [] && NoneActive(stack[..|stack| - 1]) && Quiet(stack[|stack| - 1])
    ensures NoneActive(stack)
  {
  }
}
