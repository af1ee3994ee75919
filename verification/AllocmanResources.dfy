// No resource of the allocation manager is ever in two places (libsel4allocman/src/allocman.c).
module AllocmanResources {
  import opened AllocationManager
  import opened Options

  // One for the resource that is being returned
  function Out(out: Option<Res>, r: Res): nat {
    if out == Some(r) then 1 else 0
  }

  lemma CopiesPush(s: State, f: Frame, r: Res)
    ensures Copies(Push(s, f), r) == Copies(s, r) + FrameCopies(f, r)
  {
    assert (s.stack + [f])[..|s.stack|] == s.stack;
  }

  lemma CopiesPop(s: State, r: Res)
    requires s.stack != []
    ensures Copies(s, r) == Copies(Pop(s), r) + FrameCopies(Top(s), r)
  {
  }

  lemma CopiesBecome(s: State, f: Frame, r: Res)
    requires s.stack != []
    ensures Copies(Become(s, f), r) + FrameCopies(Top(s), r) == Copies(s, r) + FrameCopies(f, r)
  {
    hide Copies, FrameCopies, Pop, Push, Top;
    CopiesPop(s, r);
    CopiesPush(Pop(s), f, r);
  }

  // The depth counters and the flags hold no resource.
  predicate SameResources(s: State, t: State) {
    s.stock == t.stock && s.freed == t.freed && s.client == t.client && s.stack == t.stack
  }

  lemma SameCopies(s: State, t: State, r: Res)
    requires SameResources(s, t)
    ensures Copies(s, r) == Copies(t, r)
  {
  }

  lemma {:induction false} StockUpdate(stock: seq<seq<Entry>>, i: nat, es: seq<Entry>, r: Res)
    requires i < |stock|
    ensures StockCopies(stock[i := es], r) + EntriesCopies(stock[i], r) == StockCopies(stock, r) + EntriesCopies(es, r)
    decreases |stock|
  {
    var n := |stock| - 1;
    if i < n {
      assert stock[i := es][..n] == stock[..n][i := es];
      StockUpdate(stock[..n], i, es, r);
    } else {
      assert stock[i := es][..n] == stock[..n];
    }
  }

  lemma CopiesTake(s: State, i: nat, r: Res)
    requires i < |s.stock| && s.stock[i] != []
    ensures Copies(TakeEntry(s, i), r) + EntryCopies(LastEntry(s, i), r) == Copies(s, r)
  {
    StockUpdate(s.stock, i, s.stock[i][..|s.stock[i]| - 1], r);
  }

  lemma CopiesAdd(s: State, i: nat, e: Entry, r: Res)
    requires i < |s.stock|
    ensures Copies(AddEntry(s, i, e), r) == Copies(s, r) + EntryCopies(e, r)
  {
    StockUpdate(s.stock, i, s.stock[i] + [e], r);
    assert (s.stock[i] + [e])[..|s.stock[i]|] == s.stock[i];
  }

  lemma CopiesPopFreed(s: State, space: Space, r: Res)
    requires s.freed.Get(space) != []
    ensures Copies(PopFreed(s, space), r) + (if LastFreed(s, space) == r then 1 else 0) == Copies(s, r)
  {
  }

  lemma CopiesQueued(s: State, res: Res, r: Res)
    ensures var t := s.(freed := s.freed.Set(res.space, s.freed.Get(res.space) + [res]));
      Copies(t, r) == Copies(s, r) + (if res == r then 1 else 0)
  {
    var q := s.freed.Get(res.space);
    assert (q + [res])[..|q|] == q;
  }

  lemma CopiesEnd(s: State, out: Option<Res>, ends: bool, root: bool, r: Res)
    ensures Copies(EndOperation(s, out, root), r) == Copies(s, r) + Out(out, r)
    ensures Copies(Finish(s, out, ends, root), r) == Copies(s, r) + Out(out, r)
  {
    hide Copies;
    var s1 := s.(inOperation := !root);
    SameCopies(s, s1, r);
    CopiesPush(s1, Deliver(out), r);
    CopiesPush(s, Deliver(out), r);
    var t := Push(s1, Deliver(out));
    var t1 := t.(refilling := true);
    SameCopies(t, t1, r);
    CopiesPush(t1, Refilling(0, Drain(CSpace), false, false), r);
  }

  lemma CopiesFree(c: Config, s: State, res: Res, r: Res)
    ensures Copies(CallFree(c, s, res), r) <= Copies(s, r) + (if res == r then 1 else 0)
  {
    hide Copies, CanFree, PerSpace.Get, PerSpace.Set;
    var space := res.space;
    CopiesPush(s, Deliver(None), r);
    var t := s.(inOperation := true, freeDepth := s.freeDepth.Set(space, s.freeDepth.Get(space) + 1));
    SameCopies(s, t, r);
    CopiesPush(t, InFree(space, !s.inOperation), r);
    CopiesQueued(s, res, r);
    CopiesPush(s.(freed := s.freed.Set(space, s.freed.Get(space) + [res])), Deliver(None), r);
  }

  lemma CopiesWatermark(c: Config, s: State, space: Space, key: nat, moved: bool, ends: bool, root: bool, r: Res)
    ensures Copies(TryWatermark(c, s, space, key, moved, ends, root), r) <= Copies(s, r)
  {
    hide Copies, CallFree, Finish, TakeEntry, LastEntry, FindReserve, Push;
    var i := FindReserve(c, s, space, key, 0);
    CopiesEnd(s, None, ends, root, r);
    if i.Some? {
      var e, t := LastEntry(s, i.value), TakeEntry(s, i.value);
      CopiesTake(s, i.value, r);
      CopiesEnd(t, Some(e.res), ends, root, r);
      if e.slot.Some? {
        CopiesPush(t, Swapped(e.res, ends, root), r);
        CopiesFree(c, Push(t, Swapped(e.res, ends, root)), e.slot.value, r);
      }
    }
  }

  lemma CopiesAlloc(c: Config, s: State, space: Space, key: nat, anywhere: bool, watermark: bool, moved: bool, r: Res)
    ensures Copies(CallAlloc(c, s, space, key, anywhere, watermark, moved), r) <= Copies(s, r)
  {
    hide Copies, TryWatermark, CanAlloc, PerSpace.Get, PerSpace.Set;
    CopiesPush(s, Deliver(None), r);
    CopiesWatermark(c, s, space, key, moved, false, false, r);
    var t := s.(inOperation := true, allocDepth := s.allocDepth.Set(space, s.allocDepth.Get(space) + 1));
    SameCopies(s, t, r);
    CopiesPush(t, InAlloc(space, key, anywhere, watermark, !s.inOperation), r);
  }

  lemma CopiesDrain(c: Config, s: State, space: Space, f: Frame, r: Res)
    requires s.stack != [] && s.freed.Get(space) != [] && FrameCopies(f, r) == FrameCopies(Top(s), r)
    ensures Copies(CallFree(c, Become(PopFreed(s, space), f), LastFreed(s, space)), r) <= Copies(s, r)
  {
    hide Copies, FrameCopies, CallFree, Become, PerSpace.Get, PerSpace.Set;
    var t := PopFreed(s, space);
    CopiesPopFreed(s, space, r);
    CopiesBecome(t, f, r);
    CopiesFree(c, Become(t, f), LastFreed(s, space), r);
  }

  lemma CopiesRefillStep(c: Config, s: State, moved: bool, r: Res)
    requires s.stack != [] && Top(s).Refilling?
    ensures Copies(RefillStep(c, s, moved), r) <= Copies(s, r)
  {
    hide Copies, CallFree, CallAlloc, Become, PopFreed, LastFreed, Pop;
    var f := Top(s);
    match f.phase
    case Drain(space) =>
      CopiesBecome(s, f.(phase := AfterDrain(space)), r);
      if s.freed.Get(space) != [] {
        CopiesDrain(c, s, space, f.(did := true), r);
      }
    case At(i) =>
      CopiesBecome(s, f.(phase := AwaitSlot(i), found := true), r);
      CopiesBecome(s, f.(phase := Await(i), found := true), r);
      CopiesBecome(s, f.(phase := At(i + 1)), r);
      CopiesBecome(s, Refilling(f.round + 1, Drain(CSpace), false, false), r);
      CopiesPop(s, r);
      SameCopies(Pop(s), Pop(s).(refilling := false, used := f.found && s.used), r);
      CopiesAlloc(c, Become(s, f.(phase := AwaitSlot(i), found := true)), CSpace, 0, true, true, moved, r);
      if i < |c.reserves| {
        var k := c.reserves[i];
        CopiesAlloc(c, Become(s, f.(phase := Await(i), found := true)), k.space, k.key, true, false, moved, r);
      }
    case _ =>
  }

  lemma CopiesAdded(s: State, i: nat, e: Entry, f: Frame, r: Res)
    requires i < |s.stock| && s.stack != []
    ensures Copies(Become(AddEntry(s, i, e), f), r) + FrameCopies(Top(s), r) ==
      Copies(s, r) + EntryCopies(e, r) + FrameCopies(f, r)
  {
    hide Copies, FrameCopies, EntryCopies;
    CopiesAdd(s, i, e, r);
    CopiesBecome(AddEntry(s, i, e), f, r);
  }

  lemma CopiesRefillGets(c: Config, s: State, out: Option<Res>, moved: bool, r: Res)
    requires s.stack != [] && Top(s).Refilling?
    ensures Copies(RefillGets(c, s, out, moved), r) <= Copies(s, r) + Out(out, r)
  {
    hide Copies, CallFree, CallAlloc, Become, AddEntry;
    var f := Top(s);
    match f.phase
    case Await(i) =>
      CopiesBecome(s, f.(phase := At(i + 1)), r);
      if out.Some? && i < |s.stock| {
        CopiesAdded(s, i, Entry(out.value, None), f.(phase := At(i + 1), did := true), r);
      }
    case AwaitSlot(i) =>
      CopiesBecome(s, f.(phase := At(i + 1)), r);
      if out.Some? && i < |c.reserves| {
        var t := Become(s, f.(phase := AwaitObject(i, out.value)));
        CopiesBecome(s, f.(phase := AwaitObject(i, out.value)), r);
        CopiesAlloc(c, t, UTSpace, c.reserves[i].key, true, false, moved, r);
      }
    case AwaitObject(i, slot) =>
      CopiesBecome(s, f.(phase := At(i + 1)), r);
      CopiesFree(c, Become(s, f.(phase := At(i + 1))), slot, r);
      if out.Some? && i < |s.stock| {
        CopiesAdded(s, i, Entry(out.value, Some(slot)), f.(phase := At(i + 1), did := true), r);
      }
    case _ =>
  }

  lemma ClientGets(s: State, res: Res, r: Res)
    ensures Copies(s.(client := s.client + multiset{res}), r) == Copies(s, r) + (if res == r then 1 else 0)
  {
  }

  lemma ClientGives(s: State, res: Res, r: Res)
    requires res in s.client
    ensures Copies(s.(client := s.client - multiset{res}), r) + (if res == r then 1 else 0) == Copies(s, r)
  {
  }

  lemma CopiesReturn(c: Config, s: State, moved: bool, r: Res)
    requires s.stack != [] && Top(s).Deliver?
    ensures Copies(Return(c, s, moved), r) <= Copies(s, r)
  {
    hide Copies, Finish, EndOperation, RefillGets, Pop;
    var out, t := Top(s).out, Pop(s);
    CopiesPop(s, r);
    if t.stack != [] {
      CopiesPop(t, r);
      if Top(t).Swapped? {
        CopiesEnd(Pop(t), Some(Top(t).cookie), Top(t).ends, Top(t).root, r);
      } else if Top(t).Filling? {
        CopiesEnd(Pop(t), None, false, Top(t).root, r);
      } else if Top(t).Refilling? {
        CopiesRefillGets(c, t, out, moved, r);
      }
    }
    if out.Some? {
      ClientGets(t, out.value, r);
    }
  }

  lemma CopiesLeave(s: State, r: Res)
    requires s.stack != []
    ensures Top(s).InAlloc? ==> Copies(LeaveAlloc(s), r) == Copies(s, r)
    ensures Top(s).InFree? ==> Copies(LeaveFree(s), r) == Copies(s, r)
  {
    hide Copies;
    CopiesPop(s, r);
    if Top(s).InAlloc? {
      SameCopies(Pop(s), LeaveAlloc(s), r);
    }
    if Top(s).InFree? {
      SameCopies(Pop(s), LeaveFree(s), r);
    }
  }

  lemma CopiesFill(s: State, r: Res)
    ensures Copies(CallFill(s), r) == Copies(s, r)
  {
    hide Copies;
    var s1 := s.(inOperation := true, used := true);
    SameCopies(s, s1, r);
    var t := Push(s1, Filling(!s.inOperation));
    CopiesPush(s1, Filling(!s.inOperation), r);
    CopiesPush(t, Deliver(None), r);
    SameCopies(t, t.(refilling := true), r);
    CopiesPush(t.(refilling := true), Refilling(0, Drain(CSpace), false, false), r);
  }

  // What a step may bring in
  function Gained(a: Action, r: Res): nat {
    if a.Succeed? && a.res == r then 1 else 0
  }

  // Only an underlying alloc brings in a resource; otherwise they move from one place to another.
  lemma CopiesApply(c: Config, s: State, a: Action, moved: bool, r: Res)
    requires Enabled(s, a)
    ensures Copies(Apply(c, s, a, moved), r) <= Copies(s, r) + Gained(a, r)
  {
    hide Copies, CallFree, CallAlloc, CallFill, EndOperation, RefillStep, Return, TryWatermark, LeaveAlloc, LeaveFree,
      Pop;
    match a
    case Alloc(space, key, anywhere) => CopiesAlloc(c, s, space, key, anywhere, true, moved, r);
    case Free(res) =>
      CopiesFree(c, s.(client := s.client - multiset{res}), res, r);
      ClientGives(s, res, r);
    case Fill => CopiesFill(s, r);
    case Succeed(res) =>
      CopiesLeave(s, r);
      CopiesEnd(LeaveAlloc(s), Some(res), false, Top(s).root, r);
    case Fail =>
      CopiesLeave(s, r);
      var f, t := Top(s), LeaveAlloc(s);
      CopiesWatermark(c, t, f.space, f.key, moved, true, f.root, r);
      CopiesEnd(t, None, false, f.root, r);
    case Done =>
      CopiesLeave(s, r);
      CopiesEnd(LeaveFree(s), None, false, Top(s).root, r);
    case Internal =>
      CopiesPop(s, r);
      match Top(s) {
        case Refilling(_, _, _, _) => CopiesRefillStep(c, s, moved, r);
        case Deliver(_) => CopiesReturn(c, s, moved, r);
        case Filling(root) => CopiesEnd(Pop(s), None, false, root, r);
        case _ =>
      }
  }

  // Every resource is in one place only.
  ghost predicate Exclusive(s: State) {
    forall r :: Copies(s, r) <= 1
  }

  lemma StaysExclusive(c: Config, s: State, a: Action, moved: bool)
    requires Exclusive(s) && Enabled(s, a)
    ensures Exclusive(Apply(c, s, a, moved))
  {
    hide Copies, Apply;
    forall r
      ensures Copies(Apply(c, s, a, moved), r) <= 1
    {
      CopiesApply(c, s, a, moved, r);
    }
  }

  lemma {:induction false} InStock(stock: seq<seq<Entry>>, i: nat, k: nat, r: Res)
    requires i < |stock| && k < |stock[i]|
    ensures EntryCopies(stock[i][k], r) <= StockCopies(stock, r)
    decreases |stock|
  {
    if i < |stock| - 1 {
      InStock(stock[..|stock| - 1], i, k, r);
    } else {
      InEntries(stock[i], k, r);
    }
  }

  lemma {:induction false} InEntries(es: seq<Entry>, k: nat, r: Res)
    requires k < |es|
    ensures EntryCopies(es[k], r) <= EntriesCopies(es, r)
    decreases |es|
  {
    if k < |es| - 1 {
      InEntries(es[..|es| - 1], k, r);
    }
  }

  lemma {:induction false} InQueue(q: seq<Res>, r: Res)
    requires r in q
    ensures QueueCopies(q, r) > 0
    decreases |q|
  {
    if q[|q| - 1] != r {
      InQueue(q[..|q| - 1], r);
    }
  }

  // What is in a reserve is neither with a client nor waiting to be freed.
  lemma ReservedIsNotHandedOut(s: State, i: nat, k: nat, r: Res)
    requires Exclusive(s) && i < |s.stock| && k < |s.stock[i]| && EntryCopies(s.stock[i][k], r) > 0
    ensures r !in s.client && forall space :: r !in s.freed.Get(space)
  {
    InStock(s.stock, i, k, r);
    assert Copies(s, r) <= 1;
    forall space
      ensures r !in s.freed.Get(space)
    {
      if r in s.freed.Get(space) {
        InQueue(s.freed.Get(space), r);
      }
    }
  }
}
