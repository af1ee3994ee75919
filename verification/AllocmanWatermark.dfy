// The reserves of the allocation manager and the flag that says whether one was used (libsel4allocman/src/allocman.c).
module AllocmanWatermark {
  import opened AllocationManager
  import opened Options
  import opened AllocmanCalls
  import opened AllocmanResources

  predicate Full(c: Config, stock: seq<seq<Entry>>, i: nat)
    requires i < |c.reserves| && i < |stock|
  {
    |stock[i]| == c.reserves[i].level
  }

  // No reserve is above its level, and objects of the untyped reserves come with their slot.
  ghost predicate Shape(c: Config, stock: seq<seq<Entry>>) {
    && |stock| == |c.reserves|
    && (forall i | 0 <= i < |stock| :: |stock[i]| <= c.reserves[i].level)
    && (forall i, k | 0 <= i < |stock| && 0 <= k < |stock[i]| ::
          stock[i][k].slot.Some? <==> c.reserves[i].space == UTSpace)
  }

  ghost predicate AllFull(c: Config, stock: seq<seq<Entry>>) {
    |stock| == |c.reserves| && forall i | 0 <= i < |stock| :: Full(c, stock, i)
  }

  predicate Missing(c: Config, stock: seq<seq<Entry>>, i: nat) {
    i < |c.reserves| && i < |stock| && |stock[i]| < c.reserves[i].level
  }

  // What _refill_watermark knows while it waits for a call: the reserve it works for cannot have been filled meanwhile.
  predicate Waits(c: Config, stock: seq<seq<Entry>>, f: Frame) {
    f.Refilling? ==>
      && f.round < 4
      && match f.phase
         case Drain(_) => true
         case At(i) => i <= |c.reserves| && f.found
         case Await(i) => Missing(c, stock, i) && f.found && c.reserves[i].space != UTSpace
         case AwaitSlot(i) => Missing(c, stock, i) && f.found && c.reserves[i].space == UTSpace
         case AwaitObject(i, _) => Missing(c, stock, i) && f.found && c.reserves[i].space == UTSpace
  }

  // What it knows while it runs: if it found no empty reserve so far, the ones it looked at are full.
  predicate Knows(c: Config, stock: seq<seq<Entry>>, f: Frame) {
    if f.Refilling? && f.phase.At? && !f.found then
      && f.round < 4 && f.phase.i <= |c.reserves|
      && forall j | 0 <= j < f.phase.i && j < |c.reserves| && j < |stock| :: Full(c, stock, j)
    else Waits(c, stock, f)
  }

  predicate AllWait(c: Config, stock: seq<seq<Entry>>, stack: seq<Frame>) {
    stack == [] || (AllWait(c, stock, stack[..|stack| - 1]) && Waits(c, stock, stack[|stack| - 1]))
  }

  function Refills(stack: seq<Frame>): nat {
    if stack == [] then 0
    else Refills(stack[..|stack| - 1]) + (if stack[|stack| - 1].Refilling? then 1 else 0)
  }

  // The part of the invariant that does not look at the frame on top
  ghost predicate Flags(c: Config, s: State) {
    && Shape(c, s.stock)
    && (Refills(s.stack) == if s.refilling then 1 else 0)
    && (s.refilling ==> s.used)
    && (!s.refilling && !s.used ==> AllFull(c, s.stock))
  }

  ghost predicate WatermarkInv(c: Config, s: State) {
    Flags(c, s) && (s.stack == [] || (AllWait(c, s.stock, Pop(s).stack) && Knows(c, s.stock, Top(s))))
  }

  // The invariant at the moment _refill_watermark, or anybody else, makes a call
  ghost predicate Calling(c: Config, s: State) {
    Flags(c, s) && AllWait(c, s.stock, s.stack)
  }

  lemma CallingIsInv(c: Config, s: State)
    ensures Calling(c, s) ==> WatermarkInv(c, s)
    ensures WatermarkInv(c, s) && (s.stack == [] || Waits(c, s.stock, Top(s))) ==> Calling(c, s)
  {
  }

  lemma PushCalling(c: Config, s: State, f: Frame)
    requires Calling(c, s) && !f.Refilling?
    ensures Calling(c, Push(s, f))
  {
    assert (s.stack + [f])[..|s.stack|] == s.stack;
  }

  lemma StartsRefill(c: Config, s: State)
    requires Calling(c, s) && !s.refilling && s.used
    ensures Calling(c, StartRefill(s))
  {
    var f := Refilling(0, Drain(CSpace), false, false);
    assert (s.stack + [f])[..|s.stack|] == s.stack;
  }

  lemma PopCalling(c: Config, s: State)
    requires WatermarkInv(c, s) && s.stack != [] && !Top(s).Refilling?
    ensures Calling(c, Pop(s))
  {
  }

  predicate SameMarks(s: State, t: State) {
    s.refilling == t.refilling && s.used == t.used && s.stock == t.stock && s.stack == t.stack
  }

  lemma SameCalling(c: Config, s: State, t: State)
    requires SameMarks(s, t)
    ensures Calling(c, s) ==> Calling(c, t)
    ensures WatermarkInv(c, s) ==> WatermarkInv(c, t)
  {
  }

  lemma {:induction false} WaitsOnLess(c: Config, stock: seq<seq<Entry>>, less: seq<seq<Entry>>, stack: seq<Frame>)
    requires |less| == |stock| && forall i | 0 <= i < |stock| :: |less[i]| <= |stock[i]|
    requires AllWait(c, stock, stack)
    ensures AllWait(c, less, stack)
    decreases |stack|
  {
    if stack != [] {
      WaitsOnLess(c, stock, less, stack[..|stack| - 1]);
    }
  }

  lemma {:induction false} NobodyWaits(c: Config, stock: seq<seq<Entry>>, stack: seq<Frame>)
    requires Refills(stack) == 0
    ensures AllWait(c, stock, stack)
    decreases |stack|
  {
    if stack != [] {
      NobodyWaits(c, stock, stack[..|stack| - 1]);
    }
  }

  lemma TakeCalling(c: Config, s: State, i: nat)
    requires Calling(c, s) && i < |s.stock| && s.stock[i] != []
    ensures Calling(c, TakeEntry(s, i))
    ensures LastEntry(s, i).slot.Some? <==> c.reserves[i].space == UTSpace
  {
    WaitsOnLess(c, s.stock, TakeEntry(s, i).stock, s.stack);
  }

  lemma EndCalling(c: Config, s: State, out: Option<Res>, ends: bool, root: bool)
    requires Calling(c, s)
    ensures Calling(c, EndOperation(s, out, root)) && Calling(c, Finish(s, out, ends, root))
  {
    hide Calling;
    SameCalling(c, s, s.(inOperation := !root));
    PushCalling(c, s.(inOperation := !root), Deliver(out));
    PushCalling(c, s, Deliver(out));
    var t := Push(s.(inOperation := !root), Deliver(out));
    if !t.refilling && t.used {
      StartsRefill(c, t);
    }
  }

  lemma FreeCalling(c: Config, s: State, res: Res)
    requires Calling(c, s)
    ensures Calling(c, CallFree(c, s, res))
  {
    hide Calling, CanFree, PerSpace.Get, PerSpace.Set;
    var space := res.space;
    var t := s.(inOperation := true, freeDepth := s.freeDepth.Set(space, s.freeDepth.Get(space) + 1));
    SameCalling(c, s, t);
    PushCalling(c, t, InFree(space, !s.inOperation));
    PushCalling(c, s, Deliver(None));
    var u := s.(freed := s.freed.Set(space, s.freed.Get(space) + [res]));
    SameCalling(c, s, u);
    PushCalling(c, u, Deliver(None));
  }

  lemma WatermarkCalling(c: Config, s: State, space: Space, key: nat, moved: bool, ends: bool, root: bool)
    requires Calling(c, s)
    ensures Calling(c, TryWatermark(c, s, space, key, moved, ends, root))
  {
    hide Calling, CallFree, Finish, TakeEntry, LastEntry, FindReserve, Push;
    var i := FindReserve(c, s, space, key, 0);
    EndCalling(c, s, None, ends, root);
    if i.Some? {
      var e, t := LastEntry(s, i.value), TakeEntry(s, i.value);
      TakeCalling(c, s, i.value);
      EndCalling(c, t, Some(e.res), ends, root);
      PushCalling(c, t, Swapped(e.res, ends, root));
      if e.slot.Some? {
        FreeCalling(c, Push(t, Swapped(e.res, ends, root)), e.slot.value);
      }
    }
  }

  lemma AllocCalling(c: Config, s: State, space: Space, key: nat, anywhere: bool, watermark: bool, moved: bool)
    requires Calling(c, s)
    ensures Calling(c, CallAlloc(c, s, space, key, anywhere, watermark, moved))
  {
    hide Calling, CanAlloc, TryWatermark, PerSpace.Get, PerSpace.Set;
    var t := s.(inOperation := true, allocDepth := s.allocDepth.Set(space, s.allocDepth.Get(space) + 1));
    SameCalling(c, s, t);
    PushCalling(c, t, InAlloc(space, key, anywhere, watermark, !s.inOperation));
    PushCalling(c, s, Deliver(None));
    WatermarkCalling(c, s, space, key, moved, false, false);
  }

  lemma FillCalling(c: Config, s: State)
    requires Calling(c, s)
    ensures Calling(c, CallFill(s))
  {
    hide Shape, AllFull;
    var s1 := s.(inOperation := true, used := true);
    assert Calling(c, s1);
    PushCalling(c, s1, Filling(!s.inOperation));
    var t := Push(s1, Filling(!s.inOperation));
    PushCalling(c, t, Deliver(None));
    if !t.refilling {
      StartsRefill(c, t);
    }
  }

  // --- _refill_watermark itself

  lemma BecomeKnowing(c: Config, s: State, f: Frame)
    requires WatermarkInv(c, s) && s.stack != [] && Top(s).Refilling? && f.Refilling? && Knows(c, s.stock, f)
    ensures WatermarkInv(c, Become(s, f)) && (Waits(c, s.stock, f) ==> Calling(c, Become(s, f)))
  {
    hide Knows, Waits, Shape, AllFull;
    var below := Pop(s).stack;
    assert (below + [f])[..|below|] == below;
  }

  lemma DrainInv(c: Config, s: State, space: Space, f: Frame)
    requires WatermarkInv(c, s) && s.stack != [] && Top(s).Refilling? && s.freed.Get(space) != []
    requires f.Refilling? && f.phase.Drain? && f.round < 4
    ensures WatermarkInv(c, CallFree(c, Become(PopFreed(s, space), f), LastFreed(s, space)))
  {
    hide WatermarkInv, Calling, CallFree, Become, LastFreed, PerSpace.Get, PerSpace.Set;
    var t := PopFreed(s, space);
    SameCalling(c, s, t);
    BecomeKnowing(c, t, f);
    FreeCalling(c, Become(t, f), LastFreed(s, space));
    CallingIsInv(c, CallFree(c, Become(t, f), LastFreed(s, space)));
  }

  lemma TopKnows(c: Config, s: State)
    requires WatermarkInv(c, s) && s.stack != []
    ensures Knows(c, s.stock, Top(s)) && |s.stock| == |c.reserves|
    ensures forall i | 0 <= i < |s.stock| :: |s.stock[i]| <= c.reserves[i].level
  {
  }

  lemma RefillStepInv(c: Config, s: State, moved: bool)
    requires WatermarkInv(c, s) && s.stack != [] && Top(s).Refilling?
    ensures WatermarkInv(c, RefillStep(c, s, moved))
  {
    hide WatermarkInv, Calling, CallFree, CallAlloc, Become, PopFreed, LastFreed, Pop;
    var f := Top(s);
    TopKnows(c, s);
    match f.phase
    case Drain(space) =>
      if s.freed.Get(space) != [] {
        DrainInv(c, s, space, f.(did := true));
      } else {
        BecomeKnowing(c, s, f.(phase := AfterDrain(space)));
      }
    case At(i) =>
      if i < |c.reserves| && i < |s.stock| {
        var r := c.reserves[i];
        if |s.stock[i]| < r.level {
          var g := f.(phase := if r.space == UTSpace then AwaitSlot(i) else Await(i), found := true);
          BecomeKnowing(c, s, g);
          if r.space == UTSpace {
            AllocCalling(c, Become(s, g), CSpace, 0, true, true, moved);
            CallingIsInv(c, CallAlloc(c, Become(s, g), CSpace, 0, true, true, moved));
          } else {
            AllocCalling(c, Become(s, g), r.space, r.key, true, false, moved);
            CallingIsInv(c, CallAlloc(c, Become(s, g), r.space, r.key, true, false, moved));
          }
        } else {
          assert Full(c, s.stock, i);
          BecomeKnowing(c, s, f.(phase := At(i + 1)));
        }
      } else if f.found && f.did && f.round + 1 < 4 {
        BecomeKnowing(c, s, Refilling(f.round + 1, Drain(CSpace), false, false));
      } else {
        RefillEnds(c, s);
      }
    case _ =>
  }

  // The flag is cleared only after a round in which every reserve was seen to be full.
  lemma RefillEnds(c: Config, s: State)
    requires WatermarkInv(c, s) && s.stack != [] && Top(s).Refilling? && Top(s).phase.At?
    requires |c.reserves| <= Top(s).phase.i
    ensures WatermarkInv(c, Pop(s).(refilling := false, used := Top(s).found && s.used))
  {
    var t := Pop(s).(refilling := false, used := Top(s).found && s.used);
    assert !Top(s).found ==> AllFull(c, s.stock);
    CallingIsInv(c, t);
  }

  lemma AddedInv(c: Config, s: State, i: nat, e: Entry, f: Frame)
    requires WatermarkInv(c, s) && s.stack != [] && Top(s).Refilling? && Missing(c, s.stock, i)
    requires e.slot.Some? <==> c.reserves[i].space == UTSpace
    requires f.Refilling? && f.phase == At(i + 1) && f.found && f.round < 4
    ensures WatermarkInv(c, Become(AddEntry(s, i, e), f))
  {
    var below, after := Pop(s).stack, AddEntry(s, i, e).stock;
    assert (below + [f])[..|below|] == below;
    assert Refills(below) == 0;
    NobodyWaits(c, after, below);
    ShapeAdded(c, s.stock, i, e);
    hide Shape, AllWait, Refills;
    assert AddEntry(s, i, e).refilling == s.refilling;
  }

  lemma ShapeAdded(c: Config, stock: seq<seq<Entry>>, i: nat, e: Entry)
    requires Shape(c, stock) && Missing(c, stock, i) && (e.slot.Some? <==> c.reserves[i].space == UTSpace)
    ensures Shape(c, stock[i := stock[i] + [e]])
  {
    var after: seq<seq<Entry>> := stock[i := stock[i] + [e]];
    forall j: int, k: int | 0 <= j < |after| && 0 <= k < |after[j]|
      ensures after[j][k].slot.Some? <==> c.reserves[j].space == UTSpace
    {
      assert j != i || k < |stock[i]| ==> after[j][k] == stock[j][k];
    }
  }

  lemma RefillGetsInv(c: Config, s: State, out: Option<Res>, moved: bool)
    requires WatermarkInv(c, s) && s.stack != [] && Top(s).Refilling?
    ensures WatermarkInv(c, RefillGets(c, s, out, moved))
  {
    hide WatermarkInv, Calling, CallFree, CallAlloc, Become, AddEntry;
    var f := Top(s);
    TopKnows(c, s);
    match f.phase
    case Await(i) =>
      BecomeKnowing(c, s, f.(phase := At(i + 1)));
      if out.Some? {
        AddedInv(c, s, i, Entry(out.value, None), f.(phase := At(i + 1), did := true));
      }
    case AwaitSlot(i) =>
      BecomeKnowing(c, s, f.(phase := At(i + 1)));
      if out.Some? {
        var t := Become(s, f.(phase := AwaitObject(i, out.value)));
        BecomeKnowing(c, s, f.(phase := AwaitObject(i, out.value)));
        AllocCalling(c, t, UTSpace, c.reserves[i].key, true, false, moved);
        CallingIsInv(c, CallAlloc(c, t, UTSpace, c.reserves[i].key, true, false, moved));
      }
    case AwaitObject(i, slot) =>
      BecomeKnowing(c, s, f.(phase := At(i + 1)));
      FreeCalling(c, Become(s, f.(phase := At(i + 1))), slot);
      CallingIsInv(c, CallFree(c, Become(s, f.(phase := At(i + 1))), slot));
      if out.Some? {
        AddedInv(c, s, i, Entry(out.value, Some(slot)), f.(phase := At(i + 1), did := true));
      }
    case _ =>
  }

  lemma ReturnInv(c: Config, s: State, moved: bool)
    requires WatermarkInv(c, s) && s.stack != [] && Top(s).Deliver?
    ensures WatermarkInv(c, Return(c, s, moved))
  {
    hide WatermarkInv, Calling, Finish, EndOperation, RefillGets, Pop;
    var out, t := Top(s).out, Pop(s);
    PopCalling(c, s);
    CallingIsInv(c, t);
    if t.stack != [] {
      if Top(t).Swapped? {
        PopCalling(c, t);
        EndCalling(c, Pop(t), Some(Top(t).cookie), Top(t).ends, Top(t).root);
        CallingIsInv(c, Finish(Pop(t), Some(Top(t).cookie), Top(t).ends, Top(t).root));
      } else if Top(t).Filling? {
        PopCalling(c, t);
        EndCalling(c, Pop(t), None, true, Top(t).root);
        CallingIsInv(c, EndOperation(Pop(t), None, Top(t).root));
      } else if Top(t).Refilling? {
        RefillGetsInv(c, t, out, moved);
      }
    }
    if out.Some? {
      SameCalling(c, t, t.(client := t.client + multiset{out.value}));
    }
  }

  lemma LeaveCalling(c: Config, s: State)
    requires WatermarkInv(c, s) && s.stack != []
    ensures Top(s).InAlloc? ==> Calling(c, LeaveAlloc(s))
    ensures Top(s).InFree? ==> Calling(c, LeaveFree(s))
  {
    hide WatermarkInv, Calling;
    if Top(s).InAlloc? {
      PopCalling(c, s);
      SameCalling(c, Pop(s), LeaveAlloc(s));
    }
    if Top(s).InFree? {
      PopCalling(c, s);
      SameCalling(c, Pop(s), LeaveFree(s));
    }
  }

  lemma UserCalling(c: Config, s: State)
    requires WatermarkInv(c, s) && UserRuns(s)
    ensures Calling(c, s)
  {
  }

  lemma WatermarkApply(c: Config, s: State, a: Action, moved: bool)
    requires WatermarkInv(c, s) && Enabled(s, a)
    ensures WatermarkInv(c, Apply(c, s, a, moved))
  {
    hide WatermarkInv, Calling, CallFree, CallAlloc, CallFill, EndOperation, RefillStep, Return, TryWatermark,
      LeaveAlloc, LeaveFree, Pop, Copies;
    CallingIsInv(c, Apply(c, s, a, moved));
    match a
    case Alloc(space, key, anywhere) =>
      UserCalling(c, s);
      AllocCalling(c, s, space, key, anywhere, true, moved);
    case Free(res) =>
      UserCalling(c, s);
      SameCalling(c, s, s.(client := s.client - multiset{res}));
      FreeCalling(c, s.(client := s.client - multiset{res}), res);
    case Fill =>
      UserCalling(c, s);
      FillCalling(c, s);
    case Succeed(res) =>
      LeaveCalling(c, s);
      EndCalling(c, LeaveAlloc(s), Some(res), true, Top(s).root);
    case Fail =>
      LeaveCalling(c, s);
      var f, t := Top(s), LeaveAlloc(s);
      WatermarkCalling(c, t, f.space, f.key, moved, true, f.root);
      EndCalling(c, t, None, true, f.root);
    case Done =>
      LeaveCalling(c, s);
      EndCalling(c, LeaveFree(s), None, true, Top(s).root);
    case Internal =>
      match Top(s) {
        case Refilling(_, _, _, _) => RefillStepInv(c, s, moved);
        case Deliver(_) => ReturnInv(c, s, moved);
        case Filling(root) =>
          PopCalling(c, s);
          EndCalling(c, Pop(s), None, true, root);
        case _ =>
      }
  }

  // --- whole runs

  // Nothing is active and nothing was handed out yet. The reserves are empty; configuring them set the flag.
  ghost predicate Initial(c: Config, s: State) {
    && !s.inOperation && !s.refilling && s.stack == [] && s.client == multiset{}
    && s.allocDepth == PerSpace(0, 0, 0) && s.freeDepth == PerSpace(0, 0, 0) && s.freed == PerSpace([], [], [])
    && |s.stock| == |c.reserves| && (forall i | 0 <= i < |s.stock| :: s.stock[i] == [])
    && (s.used || forall i | 0 <= i < |c.reserves| :: c.reserves[i].level == 0)
  }

  ghost predicate Inv(c: Config, s: State) {
    CallsInv(c, s) && WatermarkInv(c, s) && Exclusive(s)
  }

  lemma {:induction false} EmptyStock(stock: seq<seq<Entry>>, r: Res)
    requires forall i | 0 <= i < |stock| :: stock[i] == []
    ensures StockCopies(stock, r) == 0
    decreases |stock|
  {
    if stock != [] {
      EmptyStock(stock[..|stock| - 1], r);
    }
  }

  lemma InitialInv(c: Config, s: State)
    requires Initial(c, s)
    ensures Inv(c, s)
  {
    forall r
      ensures Copies(s, r) <= 1
    {
      EmptyStock(s.stock, r);
    }
  }

  ghost predicate Reachable(c: Config, s: State, steps: nat)
    decreases steps
  {
    if steps == 0 then Initial(c, s)
    else exists t, a, moved :: Reachable(c, t, steps - 1) && Enabled(t, a) && s == Apply(c, t, a, moved)
  }

  lemma {:induction false} AlwaysInv(c: Config, s: State, steps: nat)
    requires Reachable(c, s, steps)
    ensures Inv(c, s)
    decreases steps
  {
    hide CallsInv, WatermarkInv, Exclusive, Apply, Enabled, Initial;
    if steps == 0 {
      InitialInv(c, s);
    } else {
      var t, a, moved :| Reachable(c, t, steps - 1) && Enabled(t, a) && s == Apply(c, t, a, moved);
      AlwaysInv(c, t, steps - 1);
      CallsApply(c, t, a, moved);
      WatermarkApply(c, t, a, moved);
      StaysExclusive(c, t, a, moved);
    }
  }

  // In every reachable state: the flag is cleared only with full reserves, no reserve is above its level, there is at
  // most one refill and it is in one of four rounds.
  lemma FlagIsSound(c: Config, s: State, steps: nat)
    requires Reachable(c, s, steps)
    ensures !s.refilling && !s.used ==> forall i | 0 <= i < |c.reserves| :: i < |s.stock| && Full(c, s.stock, i)
    ensures |s.stock| == |c.reserves| && forall i | 0 <= i < |s.stock| :: |s.stock[i]| <= c.reserves[i].level
    ensures Refills(s.stack) <= 1
    ensures forall k | 0 <= k < |s.stack| && s.stack[k].Refilling? :: s.stack[k].round < 4
  {
    hide Reachable, CallsInv, Exclusive;
    AlwaysInv(c, s, steps);
    WatermarkMeans(c, s);
  }

  lemma WatermarkMeans(c: Config, s: State)
    requires WatermarkInv(c, s)
    ensures !s.refilling && !s.used ==> forall i | 0 <= i < |c.reserves| :: i < |s.stock| && Full(c, s.stock, i)
    ensures |s.stock| == |c.reserves| && forall i | 0 <= i < |s.stock| :: |s.stock[i]| <= c.reserves[i].level
    ensures Refills(s.stack) <= 1
    ensures forall k | 0 <= k < |s.stack| && s.stack[k].Refilling? :: s.stack[k].round < 4
  {
    if s.stack != [] {
      RoundsOf(c, s.stock, Pop(s).stack);
    }
  }

  lemma {:induction false} RoundsOf(c: Config, stock: seq<seq<Entry>>, stack: seq<Frame>)
    requires AllWait(c, stock, stack)
    ensures forall k | 0 <= k < |stack| && stack[k].Refilling? :: stack[k].round < 4
    decreases |stack|
  {
    if stack != [] {
      RoundsOf(c, stock, stack[..|stack| - 1]);
    }
  }

  // In every reachable state with default properties each space's allocator is active at most once.
  lemma AtMostOneActivation(c: Config, s: State, steps: nat, space: Space)
    requires Reachable(c, s, steps) && c.props.Get(space) == DEFAULT
    ensures AllocsIn(s.stack, space) + FreesIn(s.stack, space) <= 1
    ensures s.allocDepth.Get(space) + s.freeDepth.Get(space) <= 1
  {
    AlwaysInv(c, s, steps);
    NeverReentered(c, s.stack, space);
  }
}
