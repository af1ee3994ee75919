// The allocation manager (libsel4allocman/src/allocman.c) as a machine: the stack holds the calls that are active, and
// the underlying allocators are free to call back whenever they run.
module AllocationManager {
  import opened Options

  datatype Space = CSpace | UTSpace | MSpace

  datatype PerSpace<T> = PerSpace(cspace: T, utspace: T, mspace: T) {
    function Get(space: Space): T {
      match space
      case CSpace => cspace
      case UTSpace => utspace
      case MSpace => mspace
    }

    function Set(space: Space, x: T): PerSpace<T> {
      match space
      case CSpace => this.(cspace := x)
      case UTSpace => this.(utspace := x)
      case MSpace => this.(mspace := x)
    }
  }

  // struct allocman_properties
  datatype Properties = Properties(allocCanFree: bool, freeCanAlloc: bool, allocCanAlloc: bool, freeCanFree: bool)

  // ALLOCMAN_DEFAULT_PROPERTIES
  const DEFAULT := Properties(false, false, false, false)

  // A slot, a piece of memory or an untyped object
  datatype Res = Res(space: Space, id: nat)

  // One reserve: for objects of a space, a size and a type (the key), and how many of them there should be.
  datatype Reserve = Reserve(space: Space, key: nat, level: nat)

  // What sits in a reserve; an untyped object occupies a slot.
  datatype Entry = Entry(res: Res, slot: Option<Res>)

  // The reserves in the order in which they are refilled, and the lengths of the queues of deferred frees.
  datatype Config = Config(props: PerSpace<Properties>, reserves: seq<Reserve>, maxFreed: PerSpace<nat>)

  // Where _refill_watermark stands: in the loop that empties the queue of a space, at reserve i, or waiting for what it
  // needs for reserve i.
  datatype Phase =
    | Drain(space: Space)
    | At(i: nat)
    | Await(i: nat)
    | AwaitSlot(i: nat)
    | AwaitObject(i: nat, slot: Res)

  datatype Frame =
      // an underlying alloc or free is running
    | InAlloc(space: Space, key: nat, anywhere: bool, watermark: bool, root: bool)
    | InFree(space: Space, root: bool)
      // _try_watermark_utspace is giving back the slot of the object it took; ends: _end_operation follows
    | Swapped(cookie: Res, ends: bool, root: bool)
      // allocman_fill_reserves
    | Filling(root: bool)
      // _refill_watermark
    | Refilling(round: nat, phase: Phase, found: bool, did: bool)
      // a call is about to return to the frame below
    | Deliver(out: Option<Res>)

  datatype State = State(
    inOperation: bool, refilling: bool, used: bool,
    allocDepth: PerSpace<nat>, freeDepth: PerSpace<nat>,
    stock: seq<seq<Entry>>, freed: PerSpace<seq<Res>>,
    client: multiset<Res>, stack: seq<Frame>)

  // --- the guards

  // _can_alloc
  predicate CanAlloc(p: Properties, allocDepth: nat, freeDepth: nat) {
    (p.allocCanAlloc || allocDepth == 0) && (p.freeCanAlloc || freeDepth == 0)
  }

  // _can_free
  predicate CanFree(p: Properties, allocDepth: nat, freeDepth: nat) {
    (p.allocCanFree || allocDepth == 0) && (p.freeCanFree || freeDepth == 0)
  }

  // --- the operations

  function Push(s: State, f: Frame): State {
    s.(stack := s.stack + [f])
  }

  function Pop(s: State): State
    requires s.stack != []
  {
    s.(stack := s.stack[..|s.stack| - 1])
  }

  function Top(s: State): Frame
    requires s.stack != []
  {
    s.stack[|s.stack| - 1]
  }

  // The beginning of _refill_watermark
  function StartRefill(s: State): State {
    Push(s.(refilling := true), Refilling(0, Drain(CSpace), false, false))
  }

  // _end_operation, and then the return
  function EndOperation(s: State, out: Option<Res>, root: bool): State {
    var t := Push(s.(inOperation := !root), Deliver(out));
    if root && !t.refilling && t.used then StartRefill(t) else t
  }

  function Finish(s: State, out: Option<Res>, ends: bool, root: bool): State {
    if ends then EndOperation(s, out, root) else Push(s, Deliver(out))
  }

  // ALLOCMAN_FREE
  function CallFree(c: Config, s: State, res: Res): State {
    var space := res.space;
    if CanFree(c.props.Get(space), s.allocDepth.Get(space), s.freeDepth.Get(space)) then
      Push(s.(inOperation := true, freeDepth := s.freeDepth.Set(space, s.freeDepth.Get(space) + 1)),
           InFree(space, !s.inOperation))
    else if |s.freed.Get(space)| == c.maxFreed.Get(space) then
      Push(s, Deliver(None))
    else
      Push(s.(freed := s.freed.Set(space, s.freed.Get(space) + [res])), Deliver(None))
  }

  // The first reserve from i on that can serve the request
  function FindReserve(c: Config, s: State, space: Space, key: nat, i: nat): (r: Option<nat>)
    ensures r.Some? ==> i <= r.value < |c.reserves| && r.value < |s.stock| && s.stock[r.value] != []
    ensures r.Some? ==> c.reserves[r.value].space == space && c.reserves[r.value].key == key
    ensures r.None? ==> forall j | i <= j < |c.reserves| && j < |s.stock| ::
      c.reserves[j].space == space && c.reserves[j].key == key ==> s.stock[j] == []
    decreases |c.reserves| - i
  {
    if i >= |c.reserves| || i >= |s.stock| then None
    else if c.reserves[i].space == space && c.reserves[i].key == key && s.stock[i] != [] then Some(i)
    else FindReserve(c, s, space, key, i + 1)
  }

  // Take the last entry of reserve i.
  function TakeEntry(s: State, i: nat): State
    requires i < |s.stock| && s.stock[i] != []
  {
    s.(used := true, stock := s.stock[i := s.stock[i][..|s.stock[i]| - 1]])
  }

  function LastEntry(s: State, i: nat): Entry
    requires i < |s.stock| && s.stock[i] != []
  {
    s.stock[i][|s.stock[i]| - 1]
  }

  // _try_watermark_cspace, _try_watermark_mspace and _try_watermark_utspace. moved: the kernel could move the object.
  function TryWatermark(c: Config, s: State, space: Space, key: nat, moved: bool, ends: bool, root: bool): State {
    var i := FindReserve(c, s, space, key, 0);
    if i.None? then
      Finish(s, None, ends, root)
    else
      var e := LastEntry(s, i.value);
      if e.slot.None? then
        Finish(TakeEntry(s, i.value), Some(e.res), ends, root)
      else if !moved then
        Finish(s, None, ends, root)
      else
        CallFree(c, Push(TakeEntry(s, i.value), Swapped(e.res, ends, root)), e.slot.value)
  }

  // _allocman_cspace_alloc, _allocman_mspace_alloc and _allocman_utspace_alloc. anywhere: no address is asked for.
  function CallAlloc(c: Config, s: State, space: Space, key: nat, anywhere: bool, watermark: bool, moved: bool): State {
    if CanAlloc(c.props.Get(space), s.allocDepth.Get(space), s.freeDepth.Get(space)) then
      Push(s.(inOperation := true, allocDepth := s.allocDepth.Set(space, s.allocDepth.Get(space) + 1)),
           InAlloc(space, key, anywhere, watermark, !s.inOperation))
    else if watermark && anywhere then
      TryWatermark(c, s, space, key, moved, false, false)
    else
      Push(s, Deliver(None))
  }

  // allocman_fill_reserves
  function CallFill(s: State): State {
    var t := Push(s.(inOperation := true, used := true), Filling(!s.inOperation));
    if t.refilling then Push(t, Deliver(None)) else StartRefill(t)
  }

  function LeaveAlloc(s: State): State
    requires s.stack != [] && Top(s).InAlloc?
  {
    var space := Top(s).space;
    var d := s.allocDepth.Get(space);
    Pop(s).(allocDepth := s.allocDepth.Set(space, if d > 0 then d - 1 else 0))
  }

  function LeaveFree(s: State): State
    requires s.stack != [] && Top(s).InFree?
  {
    var space := Top(s).space;
    var d := s.freeDepth.Get(space);
    Pop(s).(freeDepth := s.freeDepth.Set(space, if d > 0 then d - 1 else 0))
  }

  // The underlying alloc fails.
  function ReturnFailure(c: Config, s: State, moved: bool): State
    requires s.stack != [] && Top(s).InAlloc?
  {
    var f, t := Top(s), LeaveAlloc(s);
    if f.watermark && f.anywhere then TryWatermark(c, t, f.space, f.key, moved, true, f.root)
    else EndOperation(t, None, f.root)
  }

  // --- _refill_watermark

  function Become(s: State, f: Frame): State
    requires s.stack != []
  {
    Push(Pop(s), f)
  }

  // Empty the queue of a space by one.
  function PopFreed(s: State, space: Space): State
    requires s.freed.Get(space) != []
  {
    var q := s.freed.Get(space);
    s.(freed := s.freed.Set(space, q[..|q| - 1]))
  }

  function LastFreed(s: State, space: Space): Res
    requires s.freed.Get(space) != []
  {
    s.freed.Get(space)[|s.freed.Get(space)| - 1]
  }

  // The three loops that empty the queues follow one another.
  function AfterDrain(space: Space): Phase {
    match space
    case CSpace => Drain(MSpace)
    case MSpace => Drain(UTSpace)
    case UTSpace => At(0)
  }

  function RefillStep(c: Config, s: State, moved: bool): State
    requires s.stack != [] && Top(s).Refilling?
  {
    var f := Top(s);
    match f.phase
    case Drain(space) =>
      if s.freed.Get(space) != [] then
        CallFree(c, Become(PopFreed(s, space), f.(did := true)), LastFreed(s, space))
      else
        Become(s, f.(phase := AfterDrain(space)))
    case At(i) =>
      if i < |c.reserves| && i < |s.stock| then
        var r := c.reserves[i];
        if |s.stock[i]| < r.level then
          if r.space == UTSpace then
            CallAlloc(c, Become(s, f.(phase := AwaitSlot(i), found := true)), CSpace, 0, true, true, moved)
          else
            CallAlloc(c, Become(s, f.(phase := Await(i), found := true)), r.space, r.key, true, false, moved)
        else
          Become(s, f.(phase := At(i + 1)))
      else if f.found && f.did && f.round + 1 < 4 then
        Become(s, Refilling(f.round + 1, Drain(CSpace), false, false))
      else
        Pop(s).(refilling := false, used := f.found && s.used)
    case _ => s
  }

  function AddEntry(s: State, i: nat, e: Entry): State
    requires i < |s.stock|
  {
    s.(stock := s.stock[i := s.stock[i] + [e]])
  }

  // A call made by _refill_watermark returns; s has Refilling on top.
  function RefillGets(c: Config, s: State, out: Option<Res>, moved: bool): State
    requires s.stack != [] && Top(s).Refilling?
  {
    var f := Top(s);
    match f.phase
    case Await(i) =>
      if out.Some? && i < |s.stock| then
        Become(AddEntry(s, i, Entry(out.value, None)), f.(phase := At(i + 1), did := true))
      else Become(s, f.(phase := At(i + 1)))
    case AwaitSlot(i) =>
      if out.Some? && i < |c.reserves| then
        CallAlloc(c, Become(s, f.(phase := AwaitObject(i, out.value))), UTSpace, c.reserves[i].key, true, false, moved)
      else Become(s, f.(phase := At(i + 1)))
    case AwaitObject(i, slot) =>
      if out.Some? && i < |s.stock| then
        Become(AddEntry(s, i, Entry(out.value, Some(slot))), f.(phase := At(i + 1), did := true))
      else CallFree(c, Become(s, f.(phase := At(i + 1))), slot)
    case _ => s
  }

  // --- the steps

  predicate UserRuns(s: State) {
    s.stack == [] || Top(s).InAlloc? || Top(s).InFree?
  }

  datatype Action =
      // clients, and the underlying allocators while they run
    | Alloc(space: Space, key: nat, anywhere: bool)
    | Free(res: Res)
    | Fill
      // the underlying allocator that runs returns
    | Succeed(res: Res)
    | Fail
    | Done
      // the allocation manager runs
    | Internal

  // moved says whether the kernel can move a capability, should this step ask for it. All slots have key 0.
  ghost predicate Enabled(s: State, a: Action) {
    match a
    case Alloc(space, key, anywhere) => UserRuns(s) && (space == UTSpace || anywhere) && (space == CSpace ==> key == 0)
    case Free(res) => UserRuns(s) && res in s.client
    case Fill => UserRuns(s)
    case Succeed(res) => s.stack != [] && Top(s).InAlloc? && res.space == Top(s).space && Copies(s, res) == 0
    case Fail => s.stack != [] && Top(s).InAlloc?
    case Done => s.stack != [] && Top(s).InFree?
    case Internal => !UserRuns(s)
  }

  // A call returns to the frame below it.
  function Return(c: Config, s: State, moved: bool): State
    requires s.stack != [] && Top(s).Deliver?
  {
    var out, t := Top(s).out, Pop(s);
    if t.stack != [] && Top(t).Swapped? then
      Finish(Pop(t), Some(Top(t).cookie), Top(t).ends, Top(t).root)
    else if t.stack != [] && Top(t).Filling? then
      EndOperation(Pop(t), None, Top(t).root)
    else if t.stack != [] && Top(t).Refilling? then
      RefillGets(c, t, out, moved)
    else if out.Some? then
      t.(client := t.client + multiset{out.value})
    else
      t
  }

  ghost function Apply(c: Config, s: State, a: Action, moved: bool): State
    requires Enabled(s, a)
  {
    match a
    case Alloc(space, key, anywhere) => CallAlloc(c, s, space, key, anywhere, true, moved)
    case Free(res) => CallFree(c, s.(client := s.client - multiset{res}), res)
    case Fill => CallFill(s)
    case Succeed(res) => EndOperation(LeaveAlloc(s), Some(res), Top(s).root)
    case Fail => ReturnFailure(c, s, moved)
    case Done => EndOperation(LeaveFree(s), None, Top(s).root)
    case Internal =>
      match Top(s)
      case Refilling(_, _, _, _) => RefillStep(c, s, moved)
      case Deliver(_) => Return(c, s, moved)
      case Filling(root) => EndOperation(Pop(s), None, root)
      case _ => s
  }

  // --- who holds what

  function EntryCopies(e: Entry, r: Res): nat {
    (if e.res == r then 1 else 0) + (if e.slot == Some(r) then 1 else 0)
  }

  function EntriesCopies(es: seq<Entry>, r: Res): nat {
    if es == [] then 0 else EntriesCopies(es[..|es| - 1], r) + EntryCopies(es[|es| - 1], r)
  }

  function StockCopies(stock: seq<seq<Entry>>, r: Res): nat {
    if stock == [] then 0 else StockCopies(stock[..|stock| - 1], r) + EntriesCopies(stock[|stock| - 1], r)
  }

  function FrameCopies(f: Frame, r: Res): nat {
    match f
    case Swapped(cookie, _, _) => if cookie == r then 1 else 0
    case Deliver(out) => if out == Some(r) then 1 else 0
    case Refilling(_, AwaitObject(_, slot), _, _) => if slot == r then 1 else 0
    case _ => 0
  }

  function StackCopies(stack: seq<Frame>, r: Res): nat {
    if stack == [] then 0 else StackCopies(stack[..|stack| - 1], r) + FrameCopies(stack[|stack| - 1], r)
  }

  function QueueCopies(q: seq<Res>, r: Res): nat {
    if q == [] then 0 else QueueCopies(q[..|q| - 1], r) + (if q[|q| - 1] == r then 1 else 0)
  }

  function QueuesCopies(freed: PerSpace<seq<Res>>, r: Res): nat {
    QueueCopies(freed.cspace, r) + QueueCopies(freed.utspace, r) + QueueCopies(freed.mspace, r)
  }

  // In how many places resource r is. It left an underlying allocator and has not gone back if this is not zero.
  function Copies(s: State, r: Res): nat {
    StockCopies(s.stock, r) + QueuesCopies(s.freed, r) + s.client[r] + StackCopies(s.stack, r)
  }
}
