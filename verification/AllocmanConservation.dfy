// No resource of the allocation manager is lost (libsel4allocman/src/allocman.c).
module AllocmanConservation {
  import opened AllocationManager
  import opened Options
  import opened AllocmanResources
  import opened AllocmanWatermark

  // A frame that does not look at what the call above it returns
  predicate Discards(f: Frame) {
    f.Swapped? || f.Filling? || (f.Refilling? && (f.phase.Drain? || f.phase.At?))
  }

  // A frame that returns nothing to the one below
  predicate Silent(f: Frame) {
    f.InFree? || f.Refilling? || f == Deliver(None)
  }

  // Nothing is returned to a frame that would discard it.
  predicate Polite(stack: seq<Frame>) {
    stack == [] || (Polite(stack[..|stack| - 1]) &&
      (|stack| > 1 && Discards(stack[|stack| - 2]) ==> Silent(stack[|stack| - 1])))
  }

  predicate Listens(s: State) {
    s.stack == [] || !Discards(Top(s))
  }

  // A call of ALLOCMAN_FREE: the state it is made in, and the resource it gets
  datatype Release = Release(state: State, res: Res)

  // Resource res is put on the queue of deferred frees.
  predicate Queues(c: Config, u: State, res: Res) {
    !CanFree(c.props.Get(res.space), u.allocDepth.Get(res.space), u.freeDepth.Get(res.space)) &&
    |u.freed.Get(res.space)| != c.maxFreed.Get(res.space)
  }

  // ALLOCMAN_FREE passes the resource to the underlying free, which takes it, or to the queue, or loses it if there is
  // no room: this is all that can become of it.
  function Taken(c: Config, call: Option<Release>, r: Res): nat {
    if call.Some? && call.value.res == r && !Queues(c, call.value.state, r) then 1 else 0
  }

  // --- which call of ALLOCMAN_FREE a step makes

  function WatermarkFrees(c: Config, s: State, space: Space, key: nat, moved: bool, ends: bool, root: bool)
    : Option<Release>
  {
    var i := FindReserve(c, s, space, key, 0);
    if i.Some? && LastEntry(s, i.value).slot.Some? && moved then
      var e := LastEntry(s, i.value);
      Some(Release(Push(TakeEntry(s, i.value), Swapped(e.res, ends, root)), e.slot.value))
    else None
  }

  function AllocFrees(c: Config, s: State, space: Space, key: nat, anywhere: bool, watermark: bool, moved: bool)
    : Option<Release>
  {
    if !CanAlloc(c.props.Get(space), s.allocDepth.Get(space), s.freeDepth.Get(space)) && watermark && anywhere then
      WatermarkFrees(c, s, space, key, moved, false, false)
    else None
  }

  function DrainFrees(s: State, space: Space): Release
    requires s.stack != [] && Top(s).Refilling? && s.freed.Get(space) != []
  {
    Release(Become(PopFreed(s, space), Top(s).(did := true)), LastFreed(s, space))
  }

  function RefillFrees(c: Config, s: State, moved: bool): Option<Release>
    requires s.stack != [] && Top(s).Refilling?
  {
    var f := Top(s);
    match f.phase
    case Drain(space) =>
      if s.freed.Get(space) != [] then Some(DrainFrees(s, space)) else None
    case At(i) =>
      if i < |c.reserves| && i < |s.stock| && |s.stock[i]| < c.reserves[i].level then
        if c.reserves[i].space == UTSpace then
          AllocFrees(c, Become(s, f.(phase := AwaitSlot(i), found := true)), CSpace, 0, true, true, moved)
        else None
      else None
    case _ => None
  }

  // A slot for which no object was found is given back.
  function GetsFrees(c: Config, s: State, out: Option<Res>): Option<Release>
    requires s.stack != [] && Top(s).Refilling?
  {
    if Top(s).phase.AwaitObject? && out.None? then
      Some(Release(Become(s, Top(s).(phase := At(Top(s).phase.i + 1))), Top(s).phase.slot))
    else None
  }

  function ReturnFrees(c: Config, s: State): Option<Release>
    requires s.stack != [] && Top(s).Deliver?
  {
    var t := Pop(s);
    if t.stack != [] && Top(t).Refilling? then GetsFrees(c, t, Top(s).out) else None
  }

  ghost function StepFrees(c: Config, s: State, a: Action, moved: bool): Option<Release>
    requires Enabled(s, a)
  {
    match a
    case Alloc(space, key, anywhere) => AllocFrees(c, s, space, key, anywhere, true, moved)
    case Free(res) => Some(Release(s.(client := s.client - multiset{res}), res))
    case Fail =>
      if Top(s).watermark && Top(s).anywhere then
        WatermarkFrees(c, LeaveAlloc(s), Top(s).space, Top(s).key, moved, true, Top(s).root)
      else None
    case Internal =>
      if Top(s).Refilling? then RefillFrees(c, s, moved)
      else if Top(s).Deliver? then ReturnFrees(c, s)
      else None
    case _ => None
  }

  // From s to t, which makes the given call of ALLOCMAN_FREE, n copies of r come in and none is lost but in this call.
  predicate Accounted(c: Config, s: State, n: nat, call: Option<Release>, t: State, r: Res) {
    && (call.Some? ==> t == CallFree(c, call.value.state, call.value.res))
    && Copies(t, r) + Taken(c, call, r) == Copies(s, r) + n
  }

  // --- what is returned to whom

  lemma PushPolite(s: State, f: Frame)
    ensures Polite(Push(s, f).stack) <==> Polite(s.stack) && (Listens(s) || Silent(f))
    ensures Push(s, f).stack != [] && Top(Push(s, f)) == f
  {
    assert (s.stack + [f])[..|s.stack|] == s.stack;
  }

  lemma PopPolite(s: State)
    requires Polite(s.stack) && s.stack != []
    ensures Polite(Pop(s).stack) && (!Silent(Top(s)) ==> Listens(Pop(s)))
  {
  }

  lemma BecomePolite(s: State, f: Frame)
    requires Polite(s.stack) && s.stack != [] && Top(s).Refilling? && f.Refilling?
    ensures Polite(Become(s, f).stack) && (!Discards(f) ==> Listens(Become(s, f)))
  {
    hide Polite, Discards;
    PopPolite(s);
    PushPolite(Pop(s), f);
  }

  lemma EndPolite(s: State, out: Option<Res>, ends: bool, root: bool)
    requires Polite(s.stack) && (out.Some? ==> Listens(s))
    ensures Polite(EndOperation(s, out, root).stack) && Polite(Finish(s, out, ends, root).stack)
  {
    hide Polite, Discards;
    PushPolite(s.(inOperation := !root), Deliver(out));
    PushPolite(s, Deliver(out));
    var t := Push(s.(inOperation := !root), Deliver(out));
    PushPolite(t.(refilling := true), Refilling(0, Drain(CSpace), false, false));
  }

  lemma FreePolite(c: Config, s: State, res: Res)
    requires Polite(s.stack)
    ensures Polite(CallFree(c, s, res).stack)
  {
    hide Polite, Discards, CanFree, PerSpace.Get, PerSpace.Set;
    var space := res.space;
    PushPolite(s.(inOperation := true, freeDepth := s.freeDepth.Set(space, s.freeDepth.Get(space) + 1)),
               InFree(space, !s.inOperation));
    PushPolite(s, Deliver(None));
    PushPolite(s.(freed := s.freed.Set(space, s.freed.Get(space) + [res])), Deliver(None));
  }

  lemma WatermarkPolite(c: Config, s: State, space: Space, key: nat, moved: bool, ends: bool, root: bool)
    requires Polite(s.stack) && Listens(s)
    ensures Polite(TryWatermark(c, s, space, key, moved, ends, root).stack)
  {
    hide Polite, Discards, CallFree, Finish, LastEntry, FindReserve;
    var i := FindReserve(c, s, space, key, 0);
    EndPolite(s, None, ends, root);
    if i.Some? {
      var e, t := LastEntry(s, i.value), TakeEntry(s, i.value);
      EndPolite(t, Some(e.res), ends, root);
      PushPolite(t, Swapped(e.res, ends, root));
      if e.slot.Some? {
        FreePolite(c, Push(t, Swapped(e.res, ends, root)), e.slot.value);
      }
    }
  }

  lemma AllocPolite(c: Config, s: State, space: Space, key: nat, anywhere: bool, watermark: bool, moved: bool)
    requires Polite(s.stack) && Listens(s)
    ensures Polite(CallAlloc(c, s, space, key, anywhere, watermark, moved).stack)
  {
    hide Polite, Discards, CanAlloc, TryWatermark, PerSpace.Get, PerSpace.Set;
    PushPolite(s.(inOperation := true, allocDepth := s.allocDepth.Set(space, s.allocDepth.Get(space) + 1)),
               InAlloc(space, key, anywhere, watermark, !s.inOperation));
    PushPolite(s, Deliver(None));
    WatermarkPolite(c, s, space, key, moved, false, false);
  }

  lemma RefillPolite(c: Config, s: State, moved: bool)
    requires Polite(s.stack) && s.stack != [] && Top(s).Refilling?
    ensures Polite(RefillStep(c, s, moved).stack)
  {
    hide Polite, CallFree, CallAlloc, Become, LastFreed, Pop;
    var f := Top(s);
    match f.phase
    case Drain(space) =>
      BecomePolite(s, f.(phase := AfterDrain(space)));
      if s.freed.Get(space) != [] {
        BecomePolite(PopFreed(s, space), f.(did := true));
        FreePolite(c, Become(PopFreed(s, space), f.(did := true)), LastFreed(s, space));
      }
    case At(i) =>
      BecomePolite(s, f.(phase := AwaitSlot(i), found := true));
      BecomePolite(s, f.(phase := Await(i), found := true));
      BecomePolite(s, f.(phase := At(i + 1)));
      BecomePolite(s, Refilling(f.round + 1, Drain(CSpace), false, false));
      PopPolite(s);
      AllocPolite(c, Become(s, f.(phase := AwaitSlot(i), found := true)), CSpace, 0, true, true, moved);
      if i < |c.reserves| {
        var k := c.reserves[i];
        AllocPolite(c, Become(s, f.(phase := Await(i), found := true)), k.space, k.key, true, false, moved);
      }
    case _ =>
  }

  lemma RefillGetsPolite(c: Config, s: State, out: Option<Res>, moved: bool)
    requires Polite(s.stack) && s.stack != [] && Top(s).Refilling?
    ensures Polite(RefillGets(c, s, out, moved).stack)
  {
    hide Polite, CallFree, CallAlloc, Become;
    var f := Top(s);
    match f.phase
    case Await(i) =>
      BecomePolite(s, f.(phase := At(i + 1)));
      if out.Some? && i < |s.stock| {
        BecomePolite(AddEntry(s, i, Entry(out.value, None)), f.(phase := At(i + 1), did := true));
      }
    case AwaitSlot(i) =>
      BecomePolite(s, f.(phase := At(i + 1)));
      if out.Some? && i < |c.reserves| {
        BecomePolite(s, f.(phase := AwaitObject(i, out.value)));
        AllocPolite(c, Become(s, f.(phase := AwaitObject(i, out.value))), UTSpace, c.reserves[i].key, true, false,
                    moved);
      }
    case AwaitObject(i, slot) =>
      BecomePolite(s, f.(phase := At(i + 1)));
      FreePolite(c, Become(s, f.(phase := At(i + 1))), slot);
      if out.Some? && i < |s.stock| {
        BecomePolite(AddEntry(s, i, Entry(out.value, Some(slot))), f.(phase := At(i + 1), did := true));
      }
    case _ =>
  }

  lemma ReturnPolite(c: Config, s: State, moved: bool)
    requires Polite(s.stack) && s.stack != [] && Top(s).Deliver?
    ensures Polite(Return(c, s, moved).stack)
  {
    hide Polite, Finish, EndOperation, RefillGets, Pop;
    var out, t := Top(s).out, Pop(s);
    PopPolite(s);
    if t.stack != [] {
      PopPolite(t);
      if Top(t).Swapped? {
        EndPolite(Pop(t), Some(Top(t).cookie), Top(t).ends, Top(t).root);
      } else if Top(t).Filling? {
        EndPolite(Pop(t), None, true, Top(t).root);
      } else if Top(t).Refilling? {
        RefillGetsPolite(c, t, out, moved);
      }
    }
  }

  lemma FillPolite(s: State)
    requires Polite(s.stack) && Listens(s)
    ensures Polite(CallFill(s).stack)
  {
    hide Polite, Discards;
    var s1 := s.(inOperation := true, used := true);
    var t := Push(s1, Filling(!s.inOperation));
    PushPolite(s1, Filling(!s.inOperation));
    PushPolite(t, Deliver(None));
    PushPolite(t.(refilling := true), Refilling(0, Drain(CSpace), false, false));
  }

  lemma StaysPolite(c: Config, s: State, a: Action, moved: bool)
    requires Polite(s.stack) && Enabled(s, a)
    ensures Polite(Apply(c, s, a, moved).stack)
  {
    hide Polite, CallFree, CallAlloc, CallFill, EndOperation, RefillStep, Return, TryWatermark, Pop, Copies;
    if s.stack != [] {
      PopPolite(s);
    }
    match a
    case Alloc(space, key, anywhere) => AllocPolite(c, s, space, key, anywhere, true, moved);
    case Free(res) => FreePolite(c, s.(client := s.client - multiset{res}), res);
    case Fill => FillPolite(s);
    case Succeed(res) => EndPolite(LeaveAlloc(s), Some(res), true, Top(s).root);
    case Fail =>
      var f, t := Top(s), LeaveAlloc(s);
      WatermarkPolite(c, t, f.space, f.key, moved, true, f.root);
      EndPolite(t, None, true, f.root);
    case Done => EndPolite(LeaveFree(s), None, true, Top(s).root);
    case Internal =>
      match Top(s) {
        case Refilling(_, _, _, _) => RefillPolite(c, s, moved);
        case Deliver(_) => ReturnPolite(c, s, moved);
        case Filling(root) => EndPolite(Pop(s), None, true, root);
        case _ =>
      }
  }

  // --- nothing gets lost

  // A resource that is taken has its underlying free running on it, or there was no room to queue it.
  lemma TakenGoes(c: Config, u: State, r: Res)
    ensures var t := CallFree(c, u, r);
      Taken(c, Some(Release(u, r)), r) == 1 ==> TakenBy(c, t, r)
  {
  }

  predicate TakenBy(c: Config, t: State, r: Res) {
    && t.stack != []
    && ((Top(t).InFree? && Top(t).space == r.space) ||
        (Top(t) == Deliver(None) && |t.freed.Get(r.space)| == c.maxFreed.Get(r.space)))
  }

  lemma FreeAccounts(c: Config, u: State, res: Res, r: Res)
    ensures Copies(CallFree(c, u, res), r) + Taken(c, Some(Release(u, res)), r) ==
      Copies(u, r) + (if res == r then 1 else 0)
  {
    hide Copies, CanFree, PerSpace.Get, PerSpace.Set;
    var space := res.space;
    CopiesPush(u, Deliver(None), r);
    var t := u.(inOperation := true, freeDepth := u.freeDepth.Set(space, u.freeDepth.Get(space) + 1));
    SameCopies(u, t, r);
    CopiesPush(t, InFree(space, !u.inOperation), r);
    CopiesQueued(u, res, r);
    CopiesPush(u.(freed := u.freed.Set(space, u.freed.Get(space) + [res])), Deliver(None), r);
  }

  lemma WatermarkAccounts(c: Config, s: State, space: Space, key: nat, moved: bool, ends: bool, root: bool, r: Res)
    ensures Accounted(c, s, 0, WatermarkFrees(c, s, space, key, moved, ends, root),
                      TryWatermark(c, s, space, key, moved, ends, root), r)
  {
    hide Copies, CallFree, Finish, TakeEntry, LastEntry, FindReserve, Push, Queues;
    var i := FindReserve(c, s, space, key, 0);
    CopiesEnd(s, None, ends, root, r);
    if i.Some? {
      var e, t := LastEntry(s, i.value), TakeEntry(s, i.value);
      CopiesTake(s, i.value, r);
      CopiesEnd(t, Some(e.res), ends, root, r);
      if e.slot.Some? {
        CopiesPush(t, Swapped(e.res, ends, root), r);
        FreeAccounts(c, Push(t, Swapped(e.res, ends, root)), e.slot.value, r);
      }
    }
  }

  lemma AllocAccounts(c: Config, s: State, space: Space, key: nat, anywhere: bool, watermark: bool, moved: bool, r: Res)
    ensures Accounted(c, s, 0, AllocFrees(c, s, space, key, anywhere, watermark, moved),
                      CallAlloc(c, s, space, key, anywhere, watermark, moved), r)
  {
    hide Copies, TryWatermark, WatermarkFrees, CanAlloc, Queues, PerSpace.Get, PerSpace.Set;
    CopiesPush(s, Deliver(None), r);
    WatermarkAccounts(c, s, space, key, moved, false, false, r);
    var t := s.(inOperation := true, allocDepth := s.allocDepth.Set(space, s.allocDepth.Get(space) + 1));
    SameCopies(s, t, r);
    CopiesPush(t, InAlloc(space, key, anywhere, watermark, !s.inOperation), r);
  }

  lemma DrainAccounts(c: Config, s: State, space: Space, r: Res)
    requires s.stack != [] && Top(s).Refilling? && Top(s).phase.Drain? && s.freed.Get(space) != []
    ensures var call := DrainFrees(s, space);
      Accounted(c, s, 0, Some(call), CallFree(c, call.state, call.res), r)
  {
    hide Copies, CallFree, Become, Queues, PerSpace.Get, PerSpace.Set;
    var t := PopFreed(s, space);
    CopiesPopFreed(s, space, r);
    CopiesBecome(t, Top(s).(did := true), r);
    FreeAccounts(c, Become(t, Top(s).(did := true)), LastFreed(s, space), r);
  }

  lemma RefillAccounts(c: Config, s: State, moved: bool, r: Res)
    requires s.stack != [] && Top(s).Refilling?
    ensures Accounted(c, s, 0, RefillFrees(c, s, moved), RefillStep(c, s, moved), r)
  {
    hide Copies, CallFree, CallAlloc, AllocFrees, Become, PopFreed, LastFreed, Pop, Queues;
    var f := Top(s);
    match f.phase
    case Drain(space) =>
      CopiesBecome(s, f.(phase := AfterDrain(space)), r);
      if s.freed.Get(space) != [] {
        DrainAccounts(c, s, space, r);
      }
    case At(i) =>
      CopiesBecome(s, f.(phase := AwaitSlot(i), found := true), r);
      CopiesBecome(s, f.(phase := Await(i), found := true), r);
      CopiesBecome(s, f.(phase := At(i + 1)), r);
      CopiesBecome(s, Refilling(f.round + 1, Drain(CSpace), false, false), r);
      CopiesPop(s, r);
      SameCopies(Pop(s), Pop(s).(refilling := false, used := f.found && s.used), r);
      AllocAccounts(c, Become(s, f.(phase := AwaitSlot(i), found := true)), CSpace, 0, true, true, moved, r);
      if i < |c.reserves| {
        var k := c.reserves[i];
        AllocAccounts(c, Become(s, f.(phase := Await(i), found := true)), k.space, k.key, true, false, moved, r);
        NoWatermark(c, Become(s, f.(phase := Await(i), found := true)), k.space, k.key, moved);
      }
    case _ =>
  }

  lemma NoWatermark(c: Config, s: State, space: Space, key: nat, moved: bool)
    ensures AllocFrees(c, s, space, key, true, false, moved) == None
  {
  }

  predicate AtReserve(c: Config, s: State)
    requires s.stack != [] && Top(s).Refilling?
  {
    match Top(s).phase
    case Drain(_) => true
    case At(_) => true
    case Await(i) => i < |s.stock|
    case AwaitSlot(i) => i < |c.reserves|
    case AwaitObject(i, _) => i < |s.stock|
  }

  lemma WaitsAtReserve(c: Config, s: State)
    requires WatermarkInv(c, s) && s.stack != [] && Top(s).Refilling?
    ensures AtReserve(c, s)
  {
    TopKnows(c, s);
  }

  // What comes back is put into the reserve; a slot for which no object was found is given back.
  lemma RefillGetsAccounts(c: Config, s: State, out: Option<Res>, moved: bool, r: Res)
    requires s.stack != [] && Top(s).Refilling? && AtReserve(c, s) && (out.Some? ==> !Discards(Top(s)))
    ensures Accounted(c, s, AllocmanResources.Out(out, r), GetsFrees(c, s, out), RefillGets(c, s, out, moved), r)
  {
    hide Copies, CallFree, CallAlloc, Become, AddEntry, Queues;
    var f := Top(s);
    match f.phase
    case Await(i) =>
      CopiesBecome(s, f.(phase := At(i + 1)), r);
      if out.Some? {
        CopiesAdded(s, i, Entry(out.value, None), f.(phase := At(i + 1), did := true), r);
      }
    case AwaitSlot(i) =>
      CopiesBecome(s, f.(phase := At(i + 1)), r);
      if out.Some? {
        var t := Become(s, f.(phase := AwaitObject(i, out.value)));
        CopiesBecome(s, f.(phase := AwaitObject(i, out.value)), r);
        AllocAccounts(c, t, UTSpace, c.reserves[i].key, true, false, moved, r);
        NoWatermark(c, t, UTSpace, c.reserves[i].key, moved);
      }
    case AwaitObject(i, slot) =>
      CopiesBecome(s, f.(phase := At(i + 1)), r);
      FreeAccounts(c, Become(s, f.(phase := At(i + 1))), slot, r);
      if out.Some? {
        CopiesAdded(s, i, Entry(out.value, Some(slot)), f.(phase := At(i + 1), did := true), r);
      }
    case _ =>
  }

  lemma ReturnAccounts(c: Config, s: State, moved: bool, r: Res)
    requires WatermarkInv(c, s) && Polite(s.stack) && s.stack != [] && Top(s).Deliver?
    ensures Accounted(c, s, 0, ReturnFrees(c, s), Return(c, s, moved), r)
  {
    var out, t := Top(s).out, Pop(s);
    PopPolite(s);
    PopCalling(c, s);
    CallingIsInv(c, t);
    hide Copies, Finish, EndOperation, RefillGets, GetsFrees, Pop, Queues, Polite, WatermarkInv, Calling;
    CopiesPop(s, r);
    if t.stack != [] {
      CopiesPop(t, r);
      if Top(t).Swapped? {
        CopiesEnd(Pop(t), Some(Top(t).cookie), Top(t).ends, Top(t).root, r);
      } else if Top(t).Filling? {
        CopiesEnd(Pop(t), None, false, Top(t).root, r);
      } else if Top(t).Refilling? {
        WaitsAtReserve(c, t);
        RefillGetsAccounts(c, t, out, moved, r);
      }
    }
    if out.Some? {
      ClientGets(t, out.value, r);
    }
  }

  // Every step accounts for every resource: what it brings in is there afterwards, and nothing goes but the one
  // resource that it passes to ALLOCMAN_FREE, and this only if it is not queued.
  lemma NothingIsLost(c: Config, s: State, a: Action, moved: bool, r: Res)
    requires WatermarkInv(c, s) && Polite(s.stack) && Enabled(s, a)
    ensures Accounted(c, s, Gained(a, r), StepFrees(c, s, a, moved), Apply(c, s, a, moved), r)
  {
    hide Copies, CallFree, CallAlloc, CallFill, EndOperation, RefillStep, Return, TryWatermark, LeaveAlloc, LeaveFree,
      Pop, Queues, Polite, WatermarkInv, RefillFrees, ReturnFrees, AllocFrees, WatermarkFrees;
    match a
    case Alloc(space, key, anywhere) => AllocAccounts(c, s, space, key, anywhere, true, moved, r);
    case Free(res) =>
      FreeAccounts(c, s.(client := s.client - multiset{res}), res, r);
      ClientGives(s, res, r);
    case Fill => CopiesFill(s, r);
    case Succeed(res) =>
      CopiesLeave(s, r);
      CopiesEnd(LeaveAlloc(s), Some(res), false, Top(s).root, r);
    case Fail =>
      CopiesLeave(s, r);
      var f, t := Top(s), LeaveAlloc(s);
      WatermarkAccounts(c, t, f.space, f.key, moved, true, f.root, r);
      CopiesEnd(t, None, false, f.root, r);
    case Done =>
      CopiesLeave(s, r);
      CopiesEnd(LeaveFree(s), None, false, Top(s).root, r);
    case Internal =>
      CopiesPop(s, r);
      match Top(s) {
        case Refilling(_, _, _, _) => RefillAccounts(c, s, moved, r);
        case Deliver(_) => ReturnAccounts(c, s, moved, r);
        case Filling(root) => CopiesEnd(Pop(s), None, false, root, r);
        case _ =>
      }
  }

  lemma {:induction false} AlwaysPolite(c: Config, s: State, steps: nat)
    requires Reachable(c, s, steps)
    ensures Polite(s.stack)
    decreases steps
  {
    hide Apply, Enabled, Polite, Initial;
    if steps == 0 {
      NothingActive(c, s);
    } else {
      var t, a, moved :| Reachable(c, t, steps - 1) && Enabled(t, a) && s == Apply(c, t, a, moved);
      AlwaysPolite(c, t, steps - 1);
      StaysPolite(c, t, a, moved);
    }
  }

  lemma NothingActive(c: Config, s: State)
    requires Initial(c, s)
    ensures Polite(s.stack)
  {
  }

  // The same for every step from every reachable state, and where the resource went
  lemma NothingIsEverLost(c: Config, s: State, steps: nat, a: Action, moved: bool, r: Res)
    requires Reachable(c, s, steps) && Enabled(s, a)
    ensures var t, call := Apply(c, s, a, moved), StepFrees(c, s, a, moved);
      && Accounted(c, s, Gained(a, r), call, t, r)
      && (Taken(c, call, r) == 1 ==> TakenBy(c, t, r))
  {
    AlwaysInv(c, s, steps);
    InvParts(c, s);
    AlwaysPolite(c, s, steps);
    NothingIsLost(c, s, a, moved, r);
    var call := StepFrees(c, s, a, moved);
    hide *;
    if call.Some? && call.value.res == r {
      TakenGoes(c, call.value.state, r);
      AccountedCall(c, s, Gained(a, r), call, Apply(c, s, a, moved), r);
    } else {
      OthersStay(c, call, r);
    }
  }

  lemma AccountedCall(c: Config, s: State, n: nat, call: Option<Release>, t: State, r: Res)
    requires Accounted(c, s, n, call, t, r) && call.Some?
    ensures t == CallFree(c, call.value.state, call.value.res)
  {
    hide Copies, CallFree;
  }

  lemma OthersStay(c: Config, call: Option<Release>, r: Res)
    ensures !(call.Some? && call.value.res == r) ==> Taken(c, call, r) == 0
  {
  }

  lemma InvParts(c: Config, s: State)
    requires Inv(c, s)
    ensures WatermarkInv(c, s)
  {
  }
}
