// What the allocation manager does for its clients (libsel4allocman/src/allocman.c): what each call brings, when a
// reserve serves a request, and how a refill restores the reserves.
module AllocmanService {
  import opened AllocationManager
  import opened AllocmanCalls
  import opened Options

  predicate Fits(c: Config, j: nat, space: Space, key: nat)
    requires j < |c.reserves|
  {
    c.reserves[j].space == space && c.reserves[j].key == key
  }

  // Reserve i is the first one for such objects that has any.
  ghost predicate FirstFilled(c: Config, s: State, space: Space, key: nat, i: nat) {
    && i < |c.reserves| && i < |s.stock| && Fits(c, i, space, key) && s.stock[i] != []
    && forall j | 0 <= j < i && Fits(c, j, space, key) :: s.stock[j] == []
  }

  ghost predicate NoneFilled(c: Config, s: State, space: Space, key: nat) {
    forall j | 0 <= j < |c.reserves| && j < |s.stock| && Fits(c, j, space, key) :: s.stock[j] == []
  }

  // Reserve i without its last entry, which is being used
  function Without(s: State, i: nat): State
    requires i < |s.stock| && s.stock[i] != []
  {
    s.(used := true, stock := s.stock[i := s.stock[i][..|s.stock[i]| - 1]])
  }

  // g is s when the call returns out. At the end of a root operation a refill comes first if a reserve was used.
  predicate Answered(s: State, out: Option<Res>, ends: bool, root: bool, g: State) {
    if !ends then g == s.(stack := s.stack + [Deliver(out)])
    else if root && s.used && !s.refilling then
      g == s.(inOperation := false, refilling := true,
              stack := s.stack + [Deliver(out), Refilling(0, Drain(CSpace), false, false)])
    else g == s.(inOperation := !root, stack := s.stack + [Deliver(out)])
  }

  // g is s when res is given back: to its allocator if that may run now, otherwise into the queue if there is room.
  predicate GivenBack(c: Config, s: State, res: Res, g: State) {
    var space := res.space;
    if CanFree(c.props.Get(space), s.allocDepth.Get(space), s.freeDepth.Get(space)) then
      && g.freeDepth.Get(space) == s.freeDepth.Get(space) + 1
      && g == s.(inOperation := true, freeDepth := g.freeDepth, stack := s.stack + [InFree(space, !s.inOperation)])
      && forall other | other != space :: g.freeDepth.Get(other) == s.freeDepth.Get(other)
    else
      && g == s.(freed := g.freed, stack := s.stack + [Deliver(None)])
      && g.freed.Get(space) ==
         s.freed.Get(space) + (if |s.freed.Get(space)| == c.maxFreed.Get(space) then [] else [res])
      && forall other | other != space :: g.freed.Get(other) == s.freed.Get(other)
  }

  // g is s after a request that only a reserve can serve: the first reserve that has such an object gives its last one.
  // The capability of an untyped object is moved, and the slot it was in given back before the call returns. None is
  // the answer exactly if no such reserve has anything or the capability cannot be moved.
  ghost predicate Served(c: Config, s: State, space: Space, key: nat, moved: bool, ends: bool, root: bool, g: State) {
    && (NoneFilled(c, s, space, key) ==> Answered(s, None, ends, root, g))
    && forall i: nat | FirstFilled(c, s, space, key, i) ::
         var e := s.stock[i][|s.stock[i]| - 1];
         if e.slot.None? then Answered(Without(s, i), Some(e.res), ends, root, g)
         else if moved then
           GivenBack(c, Without(s, i).(stack := s.stack + [Swapped(e.res, ends, root)]), e.slot.value, g)
         else Answered(s, None, ends, root, g)
  }

  lemma {:induction false} FindsFirst(c: Config, s: State, space: Space, key: nat, from: nat)
    requires forall j | 0 <= j < from && j < |c.reserves| && j < |s.stock| && Fits(c, j, space, key) :: s.stock[j] == []
    ensures var r := FindReserve(c, s, space, key, from);
      && (r.None? <==> NoneFilled(c, s, space, key))
      && forall i: nat :: r == Some(i) <==> FirstFilled(c, s, space, key, i)
    decreases |c.reserves| - from
  {
    if from < |c.reserves| && from < |s.stock| {
      if Fits(c, from, space, key) && s.stock[from] != [] {
        assert FirstFilled(c, s, space, key, from);
      } else {
        FindsFirst(c, s, space, key, from + 1);
      }
    }
  }

  lemma FinishIs(s: State, out: Option<Res>, ends: bool, root: bool)
    ensures Answered(s, out, ends, root, Finish(s, out, ends, root))
  {
    assert s.stack + [Deliver(out)] + [Refilling(0, Drain(CSpace), false, false)] ==
           s.stack + [Deliver(out), Refilling(0, Drain(CSpace), false, false)];
  }

  lemma FreeIs(c: Config, s: State, res: Res)
    ensures GivenBack(c, s, res, CallFree(c, s, res))
  {
  }

  lemma WatermarkServes(c: Config, s: State, space: Space, key: nat, moved: bool, ends: bool, root: bool)
    ensures Served(c, s, space, key, moved, ends, root, TryWatermark(c, s, space, key, moved, ends, root))
  {
    hide FindReserve, FirstFilled, NoneFilled, Answered, GivenBack, Finish, CallFree;
    FindsFirst(c, s, space, key, 0);
    FinishIs(s, None, ends, root);
    var r := FindReserve(c, s, space, key, 0);
    if r.Some? {
      var e := LastEntry(s, r.value);
      FinishIs(Without(s, r.value), Some(e.res), ends, root);
      if e.slot.Some? {
        FreeIs(c, Without(s, r.value).(stack := s.stack + [Swapped(e.res, ends, root)]), e.slot.value);
      }
    }
  }

  // So nothing is handed over exactly if all such reserves are empty, or the capability of the object the first one
  // gives cannot be moved; and what is handed over is the last entry of that reserve.
  lemma NothingIffEmpty(c: Config, s: State, space: Space, key: nat, moved: bool, ends: bool, root: bool, g: State)
    requires Served(c, s, space, key, moved, ends, root, g)
    ensures |g.stack| > |s.stack| && (g.stack[|s.stack|] == Deliver(None) <==>
      || NoneFilled(c, s, space, key)
      || exists i: nat :: FirstFilled(c, s, space, key, i) && !moved && s.stock[i][|s.stock[i]| - 1].slot.Some?)
    ensures g.stack[|s.stack|] != Deliver(None) ==>
      exists i: nat :: FirstFilled(c, s, space, key, i) && g.used && g.stock == Without(s, i).stock &&
        var res := s.stock[i][|s.stock[i]| - 1].res;
        g.stack[|s.stack|] == Deliver(Some(res)) || g.stack[|s.stack|] == Swapped(res, ends, root)
  {
    hide Served;
    FindsFirst(c, s, space, key, 0);
    var r := FindReserve(c, s, space, key, 0);
    if r.Some? {
      ServedBy(c, s, space, key, moved, ends, root, g, r.value);
    } else {
      ServedByNone(c, s, space, key, moved, ends, root, g);
    }
  }

  lemma ServedBy(c: Config, s: State, space: Space, key: nat, moved: bool, ends: bool, root: bool, g: State, i: nat)
    requires Served(c, s, space, key, moved, ends, root, g) && FirstFilled(c, s, space, key, i)
    ensures forall j: nat | FirstFilled(c, s, space, key, j) :: j == i
    ensures !NoneFilled(c, s, space, key)
    ensures |g.stack| > |s.stack| &&
      var e := s.stock[i][|s.stock[i]| - 1];
      if e.slot.Some? && !moved then g.stack[|s.stack|] == Deliver(None)
      else
        && g.used && g.stock == Without(s, i).stock
        && g.stack[|s.stack|] == if e.slot.Some? then Swapped(e.res, ends, root) else Deliver(Some(e.res))
  {
    hide CanFree;
  }

  lemma ServedByNone(c: Config, s: State, space: Space, key: nat, moved: bool, ends: bool, root: bool, g: State)
    requires Served(c, s, space, key, moved, ends, root, g) && NoneFilled(c, s, space, key)
    ensures |g.stack| > |s.stack| && g.stack[|s.stack|] == Deliver(None)
  {
  }

  // An allocation that its space's allocator must not be asked for is served from a reserve.
  lemma RefusedAllocIsServed(c: Config, s: State, space: Space, key: nat, anywhere: bool, moved: bool)
    requires Enabled(s, Alloc(space, key, anywhere))
    requires !CanAlloc(c.props.Get(space), s.allocDepth.Get(space), s.freeDepth.Get(space))
    ensures var g := Apply(c, s, Alloc(space, key, anywhere), moved);
      if anywhere then Served(c, s, space, key, moved, false, false, g)
      else Answered(s, None, false, false, g)
  {
    hide Served, TryWatermark, Copies;
    WatermarkServes(c, s, space, key, moved, false, false);
  }

  // The state below the underlying alloc that is running
  function Below(s: State): State
    requires s.stack != [] && Top(s).InAlloc?
  {
    var space := Top(s).space;
    var depth := s.allocDepth.Get(space);
    s.(stack := s.stack[..|s.stack| - 1], allocDepth := s.allocDepth.Set(space, if depth > 0 then depth - 1 else 0))
  }

  // So is one that the allocator fails to serve, unless the caller wants an address or is refilling that reserve.
  lemma FailedAllocIsServed(c: Config, s: State, moved: bool)
    requires Enabled(s, Fail)
    ensures var f, g := Top(s), Apply(c, s, Fail, moved);
      if f.watermark && f.anywhere then Served(c, Below(s), f.space, f.key, moved, true, f.root, g)
      else Answered(Below(s), None, true, f.root, g)
  {
    hide Served, TryWatermark, Copies, Answered, EndOperation;
    var f := Top(s);
    WatermarkServes(c, Below(s), f.space, f.key, moved, true, f.root);
    FinishIs(Below(s), None, true, f.root);
  }

  // What the allocator serves goes to the caller; a refill comes first where a reserve was used and nothing else runs.
  lemma SuccessIsAnswered(c: Config, s: State, res: Res, moved: bool)
    requires Enabled(s, Succeed(res))
    ensures Answered(Below(s), Some(res), true, Top(s).root, Apply(c, s, Succeed(res), moved))
  {
    hide Copies, Answered, EndOperation;
    FinishIs(Below(s), Some(res), true, Top(s).root);
  }

  // allocman_fill_reserves starts a refill unless one is running.
  lemma FillStartsRefill(c: Config, s: State, moved: bool)
    requires Enabled(s, Fill)
    ensures Apply(c, s, Fill, moved) ==
      s.(inOperation := true, used := true, refilling := true,
         stack := s.stack + [Filling(!s.inOperation),
                             if s.refilling then Deliver(None) else Refilling(0, Drain(CSpace), false, false)])
  {
    hide Copies;
    var last := if s.refilling then Deliver(None) else Refilling(0, Drain(CSpace), false, false);
    assert s.stack + [Filling(!s.inOperation)] + [last] == s.stack + [Filling(!s.inOperation), last];
  }

  // Once the slot has been given back the untyped object goes to the caller.
  lemma SwappedIsDelivered(c: Config, s: State, below: seq<Frame>, cookie: Res, ends: bool, root: bool,
                           out: Option<Res>, moved: bool)
    requires s.stack == below + [Swapped(cookie, ends, root), Deliver(out)]
    ensures Enabled(s, Internal)
    ensures Answered(s.(stack := below), Some(cookie), ends, root, Apply(c, s, Internal, moved))
  {
    hide Copies, Finish, Answered;
    assert Pop(s).stack == below + [Swapped(cookie, ends, root)];
    assert Pop(Pop(s)).stack == below;
    FinishIs(s.(stack := below), Some(cookie), ends, root);
  }

  // A call returns to a client, or to an underlying allocator that called back.
  lemma ReturnsToClient(c: Config, s: State, below: State, out: Option<Res>, moved: bool)
    requires UserRuns(below) && s == below.(stack := below.stack + [Deliver(out)])
    ensures Enabled(s, Internal)
    ensures Apply(c, s, Internal, moved) == match out {
      case Some(res) => below.(client := below.client + multiset{res})
      case None => below
    }
  {
    hide Copies;
    assert Pop(s).stack == below.stack;
  }

  // --- whole calls

  // The actions lead from s to g.
  ghost predicate Runs(c: Config, s: State, actions: seq<Action>, moved: bool, g: State)
    decreases |actions|
  {
    if actions == [] then s == g
    else Enabled(s, actions[0]) && Runs(c, Apply(c, s, actions[0], moved), actions[1..], moved, g)
  }

  lemma RunsThree(c: Config, s: State, a: Action, b: Action, d: Action, moved: bool)
    requires Enabled(s, a)
    requires Enabled(Apply(c, s, a, moved), b)
    requires Enabled(Apply(c, Apply(c, s, a, moved), b, moved), d)
    ensures Runs(c, s, [a, b, d], moved, Apply(c, Apply(c, Apply(c, s, a, moved), b, moved), d, moved))
  {
    hide Enabled, Apply;
    assert [a, b, d][1..] == [b, d] && [b, d][1..] == [d] && [d][1..] == [];
    var x, y := Apply(c, s, a, moved), Apply(c, Apply(c, s, a, moved), b, moved);
    var z := Apply(c, y, d, moved);
    assert Runs(c, z, [], moved, z);
    assert Runs(c, y, [d], moved, z);
    assert Runs(c, x, [b, d], moved, z);
  }

  // No refill follows the end of an operation that begins in s.
  predicate NoRefillFollows(s: State) {
    s.inOperation || s.refilling || !s.used
  }

  // An allocation that succeeds brings its caller the resource and changes nothing else.
  lemma AllocBrings(c: Config, s: State, space: Space, key: nat, anywhere: bool, res: Res, moved: bool)
    requires Enabled(s, Alloc(space, key, anywhere)) && res.space == space && Copies(s, res) == 0 && NoRefillFollows(s)
    requires CanAlloc(c.props.Get(space), s.allocDepth.Get(space), s.freeDepth.Get(space))
    ensures Runs(c, s, [Alloc(space, key, anywhere), Succeed(res), Internal], moved,
                 s.(client := s.client + multiset{res}))
  {
    hide Runs, Copies, CanAlloc;
    var a := Apply(c, s, Alloc(space, key, anywhere), moved);
    AllocEnters(c, s, space, key, anywhere, res, moved);
    var b := Apply(c, a, Succeed(res), moved);
    var back := s.(stack := s.stack + [Deliver(Some(res))]);
    assert b == back by {
      assert Pop(a).stack == s.stack;
    }
    ReturnsToClient(c, b, s, Some(res), moved);
    RunsThree(c, s, Alloc(space, key, anywhere), Succeed(res), Internal, moved);
  }

  lemma AllocEnters(c: Config, s: State, space: Space, key: nat, anywhere: bool, res: Res, moved: bool)
    requires Enabled(s, Alloc(space, key, anywhere)) && res.space == space && Copies(s, res) == 0
    requires CanAlloc(c.props.Get(space), s.allocDepth.Get(space), s.freeDepth.Get(space))
    ensures var a := Apply(c, s, Alloc(space, key, anywhere), moved);
      && Enabled(a, Succeed(res))
      && a.stack == s.stack + [InAlloc(space, key, anywhere, true, !s.inOperation)]
      && a == s.(inOperation := true, stack := a.stack, allocDepth := a.allocDepth)
      && a.allocDepth == s.allocDepth.Set(space, s.allocDepth.Get(space) + 1)
  {
    hide CanAlloc;
    var a := Apply(c, s, Alloc(space, key, anywhere), moved);
    assert a.stack[..|a.stack| - 1] == s.stack;
  }

  // A free that is permitted takes the resource away from the client and changes nothing else.
  lemma FreeTakes(c: Config, s: State, res: Res, moved: bool)
    requires Enabled(s, Free(res)) && NoRefillFollows(s)
    requires CanFree(c.props.Get(res.space), s.allocDepth.Get(res.space), s.freeDepth.Get(res.space))
    ensures Runs(c, s, [Free(res), Done, Internal], moved, s.(client := s.client - multiset{res}))
  {
    hide Runs, Apply, Enabled, UserRuns;
    var t := s.(client := s.client - multiset{res});
    FreeEntersAndLeaves(c, s, res, moved);
    EnabledRuns(s, Free(res));
    ReturnsToClient(c, t.(stack := s.stack + [Deliver(None)]), t, None, moved);
    RunsThree(c, s, Free(res), Done, Internal, moved);
  }

  lemma EnabledRuns(s: State, a: Action)
    requires Enabled(s, a) && (a.Alloc? || a.Free? || a.Fill?)
    ensures UserRuns(s) && forall client :: UserRuns(s.(client := client))
  {
    hide Copies;
  }

  lemma FreeEntersAndLeaves(c: Config, s: State, res: Res, moved: bool)
    requires Enabled(s, Free(res)) && NoRefillFollows(s)
    requires CanFree(c.props.Get(res.space), s.allocDepth.Get(res.space), s.freeDepth.Get(res.space))
    ensures var a := Apply(c, s, Free(res), moved);
      && Enabled(a, Done)
      && Apply(c, a, Done, moved) ==
         s.(client := s.client - multiset{res}, stack := s.stack + [Deliver(None)])
  {
    hide Copies, CanFree;
    var a := Apply(c, s, Free(res), moved);
    assert a.stack == s.stack + [InFree(res.space, !s.inOperation)];
    assert LeaveFree(a).stack == s.stack;
    assert LeaveFree(a).freeDepth == s.freeDepth;
  }

  // Every free gives the resource to its allocator or, if that may not run now, to the queue unless that is full.
  lemma FreeGivesBack(c: Config, s: State, res: Res, moved: bool)
    requires Enabled(s, Free(res))
    ensures GivenBack(c, s.(client := s.client - multiset{res}), res, Apply(c, s, Free(res), moved))
  {
    hide CallFree, GivenBack, Copies;
    FreeIs(c, s.(client := s.client - multiset{res}), res);
  }

  // A nested request for a slot or memory that its allocator cannot serve takes the last entry of the reserve.
  lemma ReserveBrings(c: Config, s: State, space: Space, key: nat, i: nat, moved: bool)
    requires Enabled(s, Alloc(space, key, true)) && FirstFilled(c, s, space, key, i)
    requires s.stock[i][|s.stock[i]| - 1].slot.None?
    requires !CanAlloc(c.props.Get(space), s.allocDepth.Get(space), s.freeDepth.Get(space))
    ensures Runs(c, s, [Alloc(space, key, true), Internal], moved,
                 Without(s, i).(client := s.client + multiset{s.stock[i][|s.stock[i]| - 1].res}))
  {
    hide Copies, CanAlloc, NoneFilled, Apply;
    RefusedAllocIsServed(c, s, space, key, true, moved);
    var e, a := s.stock[i][|s.stock[i]| - 1], Apply(c, s, Alloc(space, key, true), moved);
    assert Answered(Without(s, i), Some(e.res), false, false, a);
    ReturnsToClient(c, a, Without(s, i), Some(e.res), moved);
    RunsTwo(c, s, Alloc(space, key, true), Internal, moved);
  }

  lemma RunsTwo(c: Config, s: State, a: Action, b: Action, moved: bool)
    requires Enabled(s, a) && Enabled(Apply(c, s, a, moved), b)
    ensures Runs(c, s, [a, b], moved, Apply(c, Apply(c, s, a, moved), b, moved))
  {
    hide Enabled, Apply;
    assert [a, b][1..] == [b] && [b][1..] == [];
    var x, y := Apply(c, s, a, moved), Apply(c, Apply(c, s, a, moved), b, moved);
    assert Runs(c, y, [], moved, y);
    assert Runs(c, x, [b], moved, y);
  }

  // --- refills

  // What an underlying allocator does that serves every request and does not call back
  predicate Obliging(a: Action) {
    a.Internal? || a.Succeed? || a.Done?
  }

  // The size of a reserve after n more rounds
  function Grown(size: nat, level: nat, n: nat): nat {
    if size >= level then size else if size + n <= level then size + n else level
  }

  // What a refill makes of s: the stack is what was below it, every reserve grew by up to four entries and not beyond
  // its level, and the flag is cleared exactly if that was found to be enough.
  ghost predicate Restored(c: Config, s: State, g: State) {
    && s.stack != [] && |g.stock| == |s.stock| == |c.reserves|
    && g == Pop(s).(refilling := false, used := g.used, stock := g.stock)
    && (forall i | 0 <= i < |s.stock| ::
          s.stock[i] <= g.stock[i] && |g.stock[i]| == Grown(|s.stock[i]|, c.reserves[i].level, 4))
    && (g.used <==> s.used && exists i :: 0 <= i < |s.stock| && |s.stock[i]| + 3 < c.reserves[i].level)
  }

  // Whatever the obliging allocators answer, the refill on top of s ends within n steps, and then start is restored.
  ghost predicate Ends(c: Config, start: State, s: State, n: nat)
    decreases n
  {
    if |s.stack| < |start.stack| then Restored(c, start, s)
    else
      n > 0 && forall a, moved | Obliging(a) && Enabled(s, a) :: Ends(c, start, Apply(c, s, a, moved), n - 1)
  }

  // A refill that begins while no allocator runs and nothing waits to be freed
  predicate BeginsAlone(c: Config, s: State) {
    && s.stack != [] && Top(s) == Refilling(0, Drain(CSpace), false, false) && s.refilling
    && s.allocDepth == PerSpace(0, 0, 0) && s.freeDepth == PerSpace(0, 0, 0) && s.freed == PerSpace([], [], [])
    && |s.stock| == |c.reserves|
  }

  // Every refill that follows a root operation does, if nothing waits to be freed.
  lemma RootRefillBeginsAlone(c: Config, s: State)
    requires CallsInv(c, s) && s.stack != [] && Top(s) == Refilling(0, Drain(CSpace), false, false) && s.refilling
    requires EndsRoot(Pop(s).stack, Top(s)) && s.freed == PerSpace([], [], []) && |s.stock| == |c.reserves|
    ensures BeginsAlone(c, s)
  {
    PopQuiet(c, s);
    forall space
      ensures s.allocDepth.Get(space) == 0 && s.freeDepth.Get(space) == 0
    {
      assert AllocsIn(s.stack, space) == AllocsIn(Pop(s).stack, space);
    }
    assert s.allocDepth.Get(CSpace) == s.allocDepth.Get(UTSpace) == s.allocDepth.Get(MSpace) == 0;
    assert s.freeDepth.Get(CSpace) == s.freeDepth.Get(UTSpace) == s.freeDepth.Get(MSpace) == 0;
  }

  // The state of such a refill at phase p
  function InPhase(start: State, stock: seq<seq<Entry>>, round: nat, p: Phase, flag: bool): State
    requires start.stack != []
  {
    Push(Pop(start).(stock := stock), Refilling(round, p, flag, flag))
  }

  predicate Lacks(c: Config, start: State, i: nat, round: nat)
    requires i < |c.reserves| && i < |start.stock|
  {
    Grown(|start.stock[i]|, c.reserves[i].level, round) < c.reserves[i].level
  }

  // In that round the reserves below i have been dealt with.
  ghost predicate Midway(c: Config, start: State, stock: seq<seq<Entry>>, round: nat, i: nat, flag: bool) {
    && |stock| == |start.stock| == |c.reserves| && i <= |stock|
    && (forall j | 0 <= j < |stock| ::
          && start.stock[j] <= stock[j]
          && |stock[j]| == Grown(|start.stock[j]|, c.reserves[j].level, if j < i then round + 1 else round))
    && (flag <==> exists j :: 0 <= j < i && Lacks(c, start, j, round))
  }

  lemma {:induction false} EndsByStep(c: Config, start: State, s: State, n: nat, t: State)
    requires |s.stack| >= |start.stack| && n > 0 && s.stack != [] && !UserRuns(s)
    requires forall moved :: Apply(c, s, Internal, moved) == t
    requires Ends(c, start, t, n - 1)
    ensures Ends(c, start, s, n)
  {
    hide Apply, Copies, Restored;
  }

  lemma {:induction false} EndsByAnswer(c: Config, start: State, s: State, n: nat)
    requires |s.stack| >= |start.stack| && n > 0 && s.stack != [] && Top(s).InAlloc?
    requires forall res: Res, moved | Enabled(s, Succeed(res)) ::
      Ends(c, start, Apply(c, s, Succeed(res), moved), n - 1)
    ensures Ends(c, start, s, n)
  {
    hide Apply, Copies, Restored;
  }

  // An underlying alloc runs for the refill.
  function Asking(start: State, stock: seq<seq<Entry>>, f: Frame, space: Space, key: nat, watermark: bool): State
    requires start.stack != []
  {
    Push(Push(Pop(start).(stock := stock, inOperation := true, allocDepth := start.allocDepth.Set(space, 1)), f),
         InAlloc(space, key, true, watermark, !start.inOperation))
  }

  function Delivered(start: State, stock: seq<seq<Entry>>, f: Frame, res: Res): State
    requires start.stack != []
  {
    Push(Push(Pop(start).(stock := stock), f), Deliver(Some(res)))
  }

  lemma AsksFor(c: Config, start: State, stock: seq<seq<Entry>>, f: Frame, space: Space, key: nat, watermark: bool,
                moved: bool)
    requires BeginsAlone(c, start)
    ensures CallAlloc(c, Push(Pop(start).(stock := stock), f), space, key, true, watermark, moved) ==
            Asking(start, stock, f, space, key, watermark)
  {
    hide TryWatermark;
  }

  lemma IsAnswered(c: Config, start: State, stock: seq<seq<Entry>>, f: Frame, space: Space, key: nat, watermark: bool,
                   res: Res, moved: bool)
    requires BeginsAlone(c, start) && Enabled(Asking(start, stock, f, space, key, watermark), Succeed(res))
    ensures Apply(c, Asking(start, stock, f, space, key, watermark), Succeed(res), moved) ==
            Delivered(start, stock, f, res)
  {
    hide Copies;
    var t := Pop(start).(stock := stock, inOperation := true, allocDepth := start.allocDepth.Set(space, 1));
    PopPush(Push(t, f), InAlloc(space, key, true, watermark, !start.inOperation));
  }

  lemma PopPush(s: State, f: Frame)
    ensures Push(s, f).stack != [] && Pop(Push(s, f)) == s && Top(Push(s, f)) == f
    ensures |Push(s, f).stack| == |s.stack| + 1
  {
    assert (s.stack + [f])[..|s.stack|] == s.stack;
  }

  lemma EndsAsking(c: Config, start: State, stock: seq<seq<Entry>>, f: Frame, space: Space, key: nat, watermark: bool,
                   n: nat)
    requires BeginsAlone(c, start) && n > 0
    requires forall res: Res | res.space == space :: Ends(c, start, Delivered(start, stock, f, res), n - 1)
    ensures Ends(c, start, Asking(start, stock, f, space, key, watermark), n)
  {
    hide Ends, Apply, Copies, Delivered;
    var s := Asking(start, stock, f, space, key, watermark);
    forall res, moved | Enabled(s, Succeed(res))
      ensures Ends(c, start, Apply(c, s, Succeed(res), moved), n - 1)
    {
      IsAnswered(c, start, stock, f, space, key, watermark, res, moved);
      assert res.space == space;
    }
    EndsByAnswer(c, start, s, n);
  }

  // A reserve of slots or memory that lacks something gets one more entry.
  lemma LackIsFilled(c: Config, start: State, stock: seq<seq<Entry>>, round: nat, i: nat, flag: bool, n: nat)
    requires BeginsAlone(c, start) && n >= 3 && i < |c.reserves| == |stock| && |stock[i]| < c.reserves[i].level
    requires c.reserves[i].space != UTSpace
    requires forall res: Res ::
      Ends(c, start, InPhase(start, stock[i := stock[i] + [Entry(res, None)]], round, At(i + 1), true), n - 3)
    ensures Ends(c, start, InPhase(start, stock, round, At(i), flag), n)
  {
    hide Ends, Apply, Copies, InPhase, Asking, Delivered, UserRuns;
    var s, f, r := InPhase(start, stock, round, At(i), flag), Refilling(round, Await(i), true, flag), c.reserves[i];
    forall res: Res
      ensures Ends(c, start, Delivered(start, stock, f, res), n - 2)
    {
      GetsEntry(c, start, stock, round, i, flag, res);
      EndsByStep(c, start, Delivered(start, stock, f, res), n - 2,
                 InPhase(start, stock[i := stock[i] + [Entry(res, None)]], round, At(i + 1), true));
    }
    EndsAsking(c, start, stock, f, r.space, r.key, false, n - 1);
    AsksWhenLacking(c, start, stock, round, i, flag);
    EndsByStep(c, start, s, n, Asking(start, stock, f, r.space, r.key, false));
  }

  // The step at a reserve below its level: slots and memory are asked for directly, an object only with a slot for it.
  lemma AsksWhenLacking(c: Config, start: State, stock: seq<seq<Entry>>, round: nat, i: nat, flag: bool)
    requires BeginsAlone(c, start) && i < |c.reserves| == |stock| && |stock[i]| < c.reserves[i].level
    ensures var s, r := InPhase(start, stock, round, At(i), flag), c.reserves[i];
      && s.stack != [] && !UserRuns(s) && |s.stack| == |start.stack|
      && forall moved :: Apply(c, s, Internal, moved) ==
           if r.space == UTSpace then
             Asking(start, stock, Refilling(round, AwaitSlot(i), true, flag), CSpace, 0, true)
           else Asking(start, stock, Refilling(round, Await(i), true, flag), r.space, r.key, false)
  {
    hide CallAlloc, Asking, Copies;
    var s, r := InPhase(start, stock, round, At(i), flag), c.reserves[i];
    PopPush(Pop(start).(stock := stock), Refilling(round, At(i), flag, flag));
    forall moved
      ensures Apply(c, s, Internal, moved) ==
        if r.space == UTSpace then
          Asking(start, stock, Refilling(round, AwaitSlot(i), true, flag), CSpace, 0, true)
        else Asking(start, stock, Refilling(round, Await(i), true, flag), r.space, r.key, false)
    {
      AsksFor(c, start, stock, Refilling(round, AwaitSlot(i), true, flag), CSpace, 0, true, moved);
      AsksFor(c, start, stock, Refilling(round, Await(i), true, flag), r.space, r.key, false, moved);
    }
  }

  lemma GetsEntry(c: Config, start: State, stock: seq<seq<Entry>>, round: nat, i: nat, flag: bool, res: Res)
    requires BeginsAlone(c, start) && i < |c.reserves| == |stock|
    ensures var s := Delivered(start, stock, Refilling(round, Await(i), true, flag), res);
      && s.stack != [] && !UserRuns(s) && |s.stack| >= |start.stack|
      && forall moved :: Apply(c, s, Internal, moved) ==
           InPhase(start, stock[i := stock[i] + [Entry(res, None)]], round, At(i + 1), true)
  {
    hide Copies;
    var t := Pop(start).(stock := stock);
    PopPush(t, Refilling(round, Await(i), true, flag));
    PopPush(Push(t, Refilling(round, Await(i), true, flag)), Deliver(Some(res)));
  }

  // A reserve of untyped objects that lacks something gets an object together with the slot it is in.
  lemma ObjectIsFilled(c: Config, start: State, stock: seq<seq<Entry>>, round: nat, i: nat, flag: bool, n: nat)
    requires BeginsAlone(c, start) && n >= 5 && i < |c.reserves| == |stock| && |stock[i]| < c.reserves[i].level
    requires c.reserves[i].space == UTSpace
    requires forall res, slot: Res ::
      Ends(c, start, InPhase(start, stock[i := stock[i] + [Entry(res, Some(slot))]], round, At(i + 1), true), n - 5)
    ensures Ends(c, start, InPhase(start, stock, round, At(i), flag), n)
  {
    hide Ends, Apply, Copies, InPhase, Asking, Delivered, UserRuns;
    var s, f, r := InPhase(start, stock, round, At(i), flag), Refilling(round, AwaitSlot(i), true, flag), c.reserves[i];
    forall slot: Res
      ensures Ends(c, start, Delivered(start, stock, f, slot), n - 2)
    {
      var f' := Refilling(round, AwaitObject(i, slot), true, flag);
      forall res: Res
        ensures Ends(c, start, Delivered(start, stock, f', res), n - 4)
      {
        GetsObject(c, start, stock, round, i, flag, res, slot);
        EndsByStep(c, start, Delivered(start, stock, f', res), n - 4,
                   InPhase(start, stock[i := stock[i] + [Entry(res, Some(slot))]], round, At(i + 1), true));
      }
      EndsAsking(c, start, stock, f', UTSpace, r.key, false, n - 3);
      GetsSlot(c, start, stock, round, i, flag, slot);
      EndsByStep(c, start, Delivered(start, stock, f, slot), n - 2,
                 Asking(start, stock, f', UTSpace, r.key, false));
    }
    EndsAsking(c, start, stock, f, CSpace, 0, true, n - 1);
    AsksWhenLacking(c, start, stock, round, i, flag);
    EndsByStep(c, start, s, n, Asking(start, stock, f, CSpace, 0, true));
  }

  lemma GetsSlot(c: Config, start: State, stock: seq<seq<Entry>>, round: nat, i: nat, flag: bool, slot: Res)
    requires BeginsAlone(c, start) && i < |c.reserves| == |stock|
    ensures var s := Delivered(start, stock, Refilling(round, AwaitSlot(i), true, flag), slot);
      && s.stack != [] && !UserRuns(s) && |s.stack| >= |start.stack|
      && forall moved :: Apply(c, s, Internal, moved) ==
           Asking(start, stock, Refilling(round, AwaitObject(i, slot), true, flag), UTSpace, c.reserves[i].key, false)
  {
    hide Copies, CallAlloc, Asking;
    var t, f := Pop(start).(stock := stock), Refilling(round, AwaitSlot(i), true, flag);
    PopPush(t, f);
    PopPush(Push(t, f), Deliver(Some(slot)));
    var s := Delivered(start, stock, f, slot);
    forall moved
      ensures Apply(c, s, Internal, moved) ==
        Asking(start, stock, Refilling(round, AwaitObject(i, slot), true, flag), UTSpace, c.reserves[i].key, false)
    {
      AsksFor(c, start, stock, Refilling(round, AwaitObject(i, slot), true, flag), UTSpace, c.reserves[i].key, false,
              moved);
    }
  }

  lemma GetsObject(c: Config, start: State, stock: seq<seq<Entry>>, round: nat, i: nat, flag: bool, res: Res, slot: Res)
    requires BeginsAlone(c, start) && i < |c.reserves| == |stock|
    ensures var s := Delivered(start, stock, Refilling(round, AwaitObject(i, slot), true, flag), res);
      && s.stack != [] && !UserRuns(s) && |s.stack| >= |start.stack|
      && forall moved :: Apply(c, s, Internal, moved) ==
           InPhase(start, stock[i := stock[i] + [Entry(res, Some(slot))]], round, At(i + 1), true)
  {
    hide Copies;
    var t, f := Pop(start).(stock := stock), Refilling(round, AwaitObject(i, slot), true, flag);
    PopPush(t, f);
    PopPush(Push(t, f), Deliver(Some(res)));
  }

  // The other steps of the refill
  lemma PhaseSteps(c: Config, start: State, stock: seq<seq<Entry>>, round: nat, i: nat, flag: bool)
    requires BeginsAlone(c, start) && |stock| == |c.reserves|
    ensures forall p :: var s := InPhase(start, stock, round, p, flag);
      s.stack != [] && !UserRuns(s) && |s.stack| == |start.stack|
    ensures forall space, moved ::
      Apply(c, InPhase(start, stock, round, Drain(space), flag), Internal, moved) ==
      InPhase(start, stock, round, AfterDrain(space), flag)
    ensures i < |c.reserves| && |stock[i]| >= c.reserves[i].level ==> forall moved ::
      Apply(c, InPhase(start, stock, round, At(i), flag), Internal, moved) ==
      InPhase(start, stock, round, At(i + 1), flag)
    ensures i == |c.reserves| ==> forall moved ::
      Apply(c, InPhase(start, stock, round, At(i), flag), Internal, moved) ==
      if flag && round < 3 then InPhase(start, stock, round + 1, Drain(CSpace), false)
      else Pop(start).(stock := stock, refilling := false, used := flag && start.used)
  {
    hide Copies, Apply, RefillStep, InPhase, UserRuns;
    forall p
      ensures var s := InPhase(start, stock, round, p, flag);
        && s.stack != [] && Top(s).Refilling? && !UserRuns(s) && |s.stack| == |start.stack|
        && forall moved :: Apply(c, s, Internal, moved) == RefillStep(c, s, moved)
    {
      AppliesRefill(c, start, stock, round, p, flag);
    }
    forall space, moved
      ensures Apply(c, InPhase(start, stock, round, Drain(space), flag), Internal, moved) ==
              InPhase(start, stock, round, AfterDrain(space), flag)
    {
      DrainIs(c, start, stock, round, space, flag, moved);
    }
    forall moved | i < |c.reserves| && |stock[i]| >= c.reserves[i].level
      ensures Apply(c, InPhase(start, stock, round, At(i), flag), Internal, moved) ==
              InPhase(start, stock, round, At(i + 1), flag)
    {
      SkipIs(c, start, stock, round, i, flag, moved);
    }
    forall moved | i == |c.reserves|
      ensures Apply(c, InPhase(start, stock, round, At(i), flag), Internal, moved) ==
        if flag && round < 3 then InPhase(start, stock, round + 1, Drain(CSpace), false)
        else Pop(start).(stock := stock, refilling := false, used := flag && start.used)
    {
      RoundEndIs(c, start, stock, round, flag, moved);
    }
  }

  lemma AppliesRefill(c: Config, start: State, stock: seq<seq<Entry>>, round: nat, p: Phase, flag: bool)
    requires start.stack != []
    ensures var s := InPhase(start, stock, round, p, flag);
      && s.stack != [] && Top(s).Refilling? && !UserRuns(s) && |s.stack| == |start.stack|
      && forall moved :: Apply(c, s, Internal, moved) == RefillStep(c, s, moved)
  {
    hide RefillStep, Copies;
  }

  lemma DrainIs(c: Config, start: State, stock: seq<seq<Entry>>, round: nat, space: Space, flag: bool, moved: bool)
    requires BeginsAlone(c, start)
    ensures RefillStep(c, InPhase(start, stock, round, Drain(space), flag), moved) ==
            InPhase(start, stock, round, AfterDrain(space), flag)
  {
    hide CallFree;
    PopPush(Pop(start).(stock := stock), Refilling(round, Drain(space), flag, flag));
  }

  lemma SkipIs(c: Config, start: State, stock: seq<seq<Entry>>, round: nat, i: nat, flag: bool, moved: bool)
    requires start.stack != [] && i < |c.reserves| == |stock| && |stock[i]| >= c.reserves[i].level
    ensures RefillStep(c, InPhase(start, stock, round, At(i), flag), moved) ==
            InPhase(start, stock, round, At(i + 1), flag)
  {
    hide CallAlloc;
    PopPush(Pop(start).(stock := stock), Refilling(round, At(i), flag, flag));
  }

  lemma RoundEndIs(c: Config, start: State, stock: seq<seq<Entry>>, round: nat, flag: bool, moved: bool)
    requires start.stack != [] && |c.reserves| == |stock|
    ensures RefillStep(c, InPhase(start, stock, round, At(|stock|), flag), moved) ==
      if flag && round < 3 then InPhase(start, stock, round + 1, Drain(CSpace), false)
      else Pop(start).(stock := stock, refilling := false, used := flag && start.used)
  {
    hide CallAlloc;
    PopPush(Pop(start).(stock := stock), Refilling(round, At(|stock|), flag, flag));
  }

  // How many steps the rest of a refill takes at most
  function Need(c: Config, round: nat, i: nat): nat
    requires round < 4 && i <= |c.reserves|
    decreases 4 - round
  {
    5 * (|c.reserves| - i) + 1 + (if round == 3 then 0 else 3 + Need(c, round + 1, 0))
  }

  lemma {:induction false} MidwayEnds(c: Config, start: State, stock: seq<seq<Entry>>, round: nat, i: nat, flag: bool,
                                      n: nat)
    requires BeginsAlone(c, start) && round < 4 && Midway(c, start, stock, round, i, flag) && n >= Need(c, round, i)
    ensures Ends(c, start, InPhase(start, stock, round, At(i), flag), n)
    decreases 4 - round, |c.reserves| - i
  {
    hide Ends, Apply, Copies, InPhase, Asking, Delivered, UserRuns, Restored, Midway, Lacks;
    MidwaySizes(c, start, stock, round, i, flag);
    PhaseSteps(c, start, stock, round, i, flag);
    var s := InPhase(start, stock, round, At(i), flag);
    if i == |c.reserves| {
      if flag && round < 3 {
        MidwayAgain(c, start, stock, round, flag);
        MidwayEnds(c, start, stock, round + 1, 0, false, n - 4);
        DrainEnds(c, start, stock, round + 1, n - 1);
        EndsByStep(c, start, s, n, InPhase(start, stock, round + 1, Drain(CSpace), false));
      } else {
        MidwayIsOver(c, start, stock, round, flag);
        var g := Pop(start).(stock := stock, refilling := false, used := flag && start.used);
        EndsNow(c, start, g, n - 1);
        EndsByStep(c, start, s, n, g);
      }
    } else if |stock[i]| >= c.reserves[i].level {
      MidwaySkips(c, start, stock, round, i, flag);
      MidwayEnds(c, start, stock, round, i + 1, flag, n - 1);
      EndsByStep(c, start, s, n, InPhase(start, stock, round, At(i + 1), flag));
    } else if c.reserves[i].space != UTSpace {
      forall res: Res
        ensures
          Ends(c, start, InPhase(start, stock[i := stock[i] + [Entry(res, None)]], round, At(i + 1), true), n - 3)
      {
        MidwayGrows(c, start, stock, round, i, flag, Entry(res, None));
        MidwayEnds(c, start, stock[i := stock[i] + [Entry(res, None)]], round, i + 1, true, n - 3);
      }
      LackIsFilled(c, start, stock, round, i, flag, n);
    } else {
      forall res, slot: Res
        ensures
          Ends(c, start, InPhase(start, stock[i := stock[i] + [Entry(res, Some(slot))]], round, At(i + 1), true), n - 5)
      {
        MidwayGrows(c, start, stock, round, i, flag, Entry(res, Some(slot)));
        MidwayEnds(c, start, stock[i := stock[i] + [Entry(res, Some(slot))]], round, i + 1, true, n - 5);
      }
      ObjectIsFilled(c, start, stock, round, i, flag, n);
    }
  }

  lemma DrainEnds(c: Config, start: State, stock: seq<seq<Entry>>, round: nat, n: nat)
    requires BeginsAlone(c, start) && |stock| == |c.reserves| && n >= 3
    requires Ends(c, start, InPhase(start, stock, round, At(0), false), n - 3)
    ensures Ends(c, start, InPhase(start, stock, round, Drain(CSpace), false), n)
  {
    hide Ends, Apply, Copies, InPhase, UserRuns;
    PhaseSteps(c, start, stock, round, 0, false);
    EndsByStep(c, start, InPhase(start, stock, round, Drain(UTSpace), false), n - 2,
               InPhase(start, stock, round, At(0), false));
    EndsByStep(c, start, InPhase(start, stock, round, Drain(MSpace), false), n - 1,
               InPhase(start, stock, round, Drain(UTSpace), false));
    EndsByStep(c, start, InPhase(start, stock, round, Drain(CSpace), false), n,
               InPhase(start, stock, round, Drain(MSpace), false));
  }

  lemma EndsNow(c: Config, start: State, g: State, n: nat)
    requires |g.stack| < |start.stack| && Restored(c, start, g)
    ensures Ends(c, start, g, n)
  {
  }

  lemma MidwaySizes(c: Config, start: State, stock: seq<seq<Entry>>, round: nat, i: nat, flag: bool)
    requires Midway(c, start, stock, round, i, flag)
    ensures |stock| == |c.reserves| == |start.stock| && i <= |stock|
    ensures i < |stock| ==> (Lacks(c, start, i, round) <==> |stock[i]| < c.reserves[i].level)
  {
  }

  lemma MidwaySkips(c: Config, start: State, stock: seq<seq<Entry>>, round: nat, i: nat, flag: bool)
    requires Midway(c, start, stock, round, i, flag) && i < |stock| && |stock[i]| >= c.reserves[i].level
    ensures Midway(c, start, stock, round, i + 1, flag)
  {
    assert !Lacks(c, start, i, round);
  }

  lemma MidwayGrows(c: Config, start: State, stock: seq<seq<Entry>>, round: nat, i: nat, flag: bool, e: Entry)
    requires Midway(c, start, stock, round, i, flag) && i < |stock| && |stock[i]| < c.reserves[i].level
    ensures Midway(c, start, stock[i := stock[i] + [e]], round, i + 1, true)
  {
    assert Lacks(c, start, i, round);
  }

  lemma MidwayAgain(c: Config, start: State, stock: seq<seq<Entry>>, round: nat, flag: bool)
    requires Midway(c, start, stock, round, |stock|, flag)
    ensures Midway(c, start, stock, round + 1, 0, false)
  {
    hide Grown;
  }

  // The last round found nothing to do, or it was the fourth.
  lemma MidwayIsOver(c: Config, start: State, stock: seq<seq<Entry>>, round: nat, flag: bool)
    requires start.stack != [] && Midway(c, start, stock, round, |stock|, flag) && round < 4 && (flag ==> round == 3)
    ensures Restored(c, start, Pop(start).(stock := stock, refilling := false, used := flag && start.used))
  {
    forall i | 0 <= i < |stock|
      ensures |stock[i]| == Grown(|start.stock[i]|, c.reserves[i].level, 4)
      ensures !flag ==> |start.stock[i]| + 3 >= c.reserves[i].level
    {
      assert !flag ==> !Lacks(c, start, i, round);
    }
    if flag {
      var i :| 0 <= i < |stock| && Lacks(c, start, i, round);
      assert |start.stock[i]| + 3 < c.reserves[i].level;
    }
  }

  // A refill that runs alone, with allocators that serve every request and do not call back, ends. It adds up to four
  // entries to each reserve, so it fills all of them exactly if none lacks more; the flag is cleared exactly if none
  // lacks more than three.
  lemma RefillRestores(c: Config, s: State)
    requires BeginsAlone(c, s)
    ensures Ends(c, s, s, 3 + Need(c, 0, 0))
  {
    hide Ends, Apply, Copies, UserRuns, Restored;
    MidwayStarts(c, s);
    MidwayEnds(c, s, s.stock, 0, 0, false, Need(c, 0, 0));
    DrainEnds(c, s, s.stock, 0, 3 + Need(c, 0, 0));
    assert s.stack == s.stack[..|s.stack| - 1] + [Top(s)];
    assert InPhase(s, s.stock, 0, Drain(CSpace), false) == s;
  }

  lemma MidwayStarts(c: Config, s: State)
    requires BeginsAlone(c, s)
    ensures Midway(c, s, s.stock, 0, 0, false)
  {
  }
}
