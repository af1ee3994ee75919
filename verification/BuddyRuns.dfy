// Whole runs of the split allocator without failed bookkeeping (libsel4allocman/src/utspace/split.c).
module BuddyRuns {
  import opened Buddy
  import opened BuddyForest
  import opened Environment

  lemma GrewKeepsRootsApart(f: Forest, g: Forest, paddr: nat)
    requires Grew(f, g, paddr) && f.RootsApart()
    ensures g.RootsApart()
  {
    assert forall r | r in g.nodes && g.Root(r) :: r in f.nodes && f.Root(r);
    assert forall r, a: nat | r in g.nodes && g.Root(r) :: g.Covers(r, a) ==> f.Covers(r, a);
  }

  lemma SameRoots(g: Forest, node: Node)
    requires g.RootsApart()
    ensures g.Take(node).RootsApart()
  {
    var h := g.Take(node);
    assert forall r, a: nat | r in g.nodes :: h.Covers(r, a) ==> g.Covers(r, a);
    assert forall r | r in g.nodes :: h.Root(r) ==> g.Root(r);
  }

  lemma PartKeepsRootsApart(f: Forest, g: Forest)
    requires f.PartOf(g) && g.RootsApart()
    ensures f.RootsApart()
  {
    hide Pow2;
    assert forall r | r in f.nodes && f.Root(r) :: r in g.nodes && g.Root(r);
    assert forall r, a: nat | r in f.nodes && f.Root(r) :: f.Covers(r, a) ==> g.Covers(r, a);
  }

  // What clients do: add an untyped, get a node (middle: after the splits, before it is handed out), give one back.
  datatype Move =
    | Add(root: Node, slot: Slot, paddr: nat)
    | Get(middle: Forest, node: Node, paddr: nat)
    | Give(node: Node)

  // Untypeds that are added are new, aligned and overlap no other; a request ends as SplitAllocator.Alloc promises;
  // only what is handed out is given back.
  ghost predicate Allowed(f: Forest, m: Move) {
    match m
    case Add(root, slot, paddr) =>
      && root !in f.nodes && slot.bits < 64 && slot.pool < 3
      && (paddr != NO_PADDR ==> paddr % Pow2(slot.bits) == 0)
      && (paddr != NO_PADDR ==> forall r: Node, a: nat | r in f.nodes && f.Root(r) && f.Covers(r, a) ::
            a < paddr || paddr + Pow2(slot.bits) <= a)
    case Get(middle, node, paddr) =>
      && middle.Valid() && Grew(f, middle, paddr) && node in middle.nodes && node in middle.free
      && (f.Coalesced() ==> middle.Take(node).Coalesced())
    case Give(node) => f.HandedOut(node)
  }

  ghost function After(f: Forest, m: Move): Forest
    requires f.Valid() && Allowed(f, m)
  {
    match m
    case Add(root, slot, paddr) => f.AddRoot(root, slot, paddr)
    case Get(middle, node, _) => middle.Take(node)
    case Give(node) => f.Release(node)
  }

  // The untypeds that were added, and the nodes that were got and not given back
  function Added(moves: seq<Move>): map<Node, Info> {
    if moves == [] then map[]
    else
      var before, m := Added(moves[..|moves| - 1]), moves[|moves| - 1];
      if m.Add? then before[m.root := Info(null, null, m.slot, m.paddr)] else before
  }

  function Out(moves: seq<Move>): set<Node> {
    if moves == [] then {}
    else
      var before, m := Out(moves[..|moves| - 1]), moves[|moves| - 1];
      match m
      case Add(_, _, _) => before
      case Get(_, node, _) => before + {node}
      case Give(node) => before - {node}
  }

  ghost predicate Run(states: seq<Forest>, moves: seq<Move>) {
    && |states| == |moves| + 1 && states[0] == Forest(map[], {}, map[])
    && forall i | 0 <= i < |moves| :: Follows(states[i], moves[i], states[i + 1])
  }

  ghost predicate Follows(f: Forest, m: Move, g: Forest) {
    f.Valid() && Allowed(f, m) && g == After(f, m)
  }

  // The roots are the untypeds that were added, and exactly what was got and not given back is handed out.
  ghost predicate Accounts(f: Forest, added: map<Node, Info>, out: set<Node>) {
    && (forall n | n in f.nodes :: f.Root(n) ==> n in added)
    && (forall n | n in added :: n in f.nodes && f.nodes[n] == added[n] && f.Root(n))
    && (forall n | n in f.nodes :: f.HandedOut(n) <==> n in out)
    && (forall n | n in out :: n in f.nodes)
  }

  // The forest is well formed, its untypeds are apart, and no two halves of a node are both free.
  ghost predicate Good(f: Forest) {
    f.Valid() && f.RootsApart() && f.Coalesced()
  }

  lemma AddStep(f: Forest, m: Move, added: map<Node, Info>, out: set<Node>)
    requires Good(f) && m.Add? && Allowed(f, m) && Accounts(f, added, out)
    ensures Good(After(f, m)) && Accounts(After(f, m), added[m.root := Info(null, null, m.slot, m.paddr)], out)
  {
    hide Pow2, Forest.AddRoot, Forest.RootsApart, Forest.Coalesced, Forest.Valid, Accounts;
    f.AddRootIsValid(m.root, m.slot, m.paddr);
    f.AddRootKeeps(m.root, m.slot, m.paddr);
    f.AddRootFacts(m.root, m.slot, m.paddr);
    SplitNodesExist(f);
    AddAccounts(f, f.AddRoot(m.root, m.slot, m.paddr), m.root, Info(null, null, m.slot, m.paddr), added, out);
  }

  lemma SplitNodesExist(f: Forest)
    requires f.Valid()
    ensures f.halves.Keys <= f.nodes.Keys && f.free <= f.nodes.Keys && f.free !! f.halves.Keys
  {
  }

  lemma AddAccounts(f: Forest, g: Forest, root: Node, info: Info, added: map<Node, Info>, out: set<Node>)
    requires Accounts(f, added, out) && root !in f.nodes && f.halves.Keys <= f.nodes.Keys && info.parent == null
    requires g.nodes == f.nodes[root := info] && g.free == f.free + {root} && g.halves == f.halves
    ensures Accounts(g, added[root := info], out)
  {
  }

  lemma GetStep(f: Forest, m: Move, added: map<Node, Info>, out: set<Node>)
    requires Good(f) && m.Get? && Allowed(f, m) && Accounts(f, added, out)
    ensures Good(After(f, m)) && Accounts(After(f, m), added, out + {m.node})
  {
    hide Pow2, Forest.RootsApart, Forest.Coalesced, Forest.Valid, Accounts, Grew;
    GrewKeepsRootsApart(f, m.middle, m.paddr);
    SameRoots(m.middle, m.node);
    m.middle.TakeIsValid(m.node);
    SplitNodesExist(m.middle);
    GrewAccounts(f, m.middle, m.paddr, added, out);
    TakeAccounts(m.middle, m.node, added, out);
  }

  lemma GrewAccounts(f: Forest, g: Forest, paddr: nat, added: map<Node, Info>, out: set<Node>)
    requires Accounts(f, added, out) && Grew(f, g, paddr)
    ensures Accounts(g, added, out)
  {
    hide Pow2, Matches;
  }

  lemma TakeAccounts(g: Forest, node: Node, added: map<Node, Info>, out: set<Node>)
    requires Accounts(g, added, out) && node in g.nodes && node in g.free && g.free !! g.halves.Keys
    ensures Accounts(g.Take(node), added, out + {node})
  {
    hide Pow2;
  }

  lemma GiveStep(f: Forest, m: Move, added: map<Node, Info>, out: set<Node>)
    requires Good(f) && m.Give? && Allowed(f, m) && Accounts(f, added, out)
    ensures Good(After(f, m)) && Accounts(After(f, m), added, out - {m.node})
  {
    hide Pow2, Forest.Release, Forest.RootsApart, Forest.Coalesced, Forest.Valid;
    f.ReleaseFacts(m.node);
    f.ReleaseKeepsCoalesced(m.node);
    PartKeepsRootsApart(f.Release(m.node), f);
  }

  lemma {:induction false} RunStaysGood(states: seq<Forest>, moves: seq<Move>)
    requires Run(states, moves)
    ensures |moves| < |states| && Good(states[|moves|]) && Accounts(states[|moves|], Added(moves), Out(moves))
    decreases |moves|
  {
    hide Allowed, After, Good, Accounts;
    if moves == [] {
      EmptyIsGood();
    } else {
      var n := |moves| - 1;
      RunStaysGood(states[..n + 1], moves[..n]);
      assert Follows(states[n], moves[n], states[n + 1]);
      match moves[n] {
        case Add(_, _, _) => AddStep(states[n], moves[n], Added(moves[..n]), Out(moves[..n]));
        case Get(_, _, _) => GetStep(states[n], moves[n], Added(moves[..n]), Out(moves[..n]));
        case Give(_) => GiveStep(states[n], moves[n], Added(moves[..n]), Out(moves[..n]));
      }
    }
  }

  lemma EmptyIsGood()
    ensures Good(Forest(map[], {}, map[])) && Accounts(Forest(map[], {}, map[]), map[], {})
  {
  }

  // At the end of every run free and handed-out nodes tile the untypeds that were added.
  lemma RunTiles(states: seq<Forest>, moves: seq<Move>, a: nat)
    requires Run(states, moves)
    ensures |moves| < |states|
    ensures var f := states[|moves|];
      && ((exists r :: r in Added(moves) && r in f.nodes && f.Covers(r, a)) <==>
          (exists m :: f.Leaf(m) && f.Covers(m, a)))
      && (forall m, k | f.Leaf(m) && f.Leaf(k) && f.Covers(m, a) && f.Covers(k, a) :: m == k)
  {
    RunStaysGood(states, moves);
    hide Run, Pow2, Added, Out, Forest.Valid, Forest.RootsApart, Forest.Covers;
    var f := states[|moves|];
    f.LeavesTileRoots(a);
    assert forall r | r in f.nodes :: f.Root(r) <==> r in Added(moves);
  }

  // Once everything that was got has been given back, in any order, the untypeds that were added are all there is, each
  // as it was added, and all are free.
  lemma RunEndsCoalesced(states: seq<Forest>, moves: seq<Move>)
    requires Run(states, moves) && Out(moves) == {}
    ensures |moves| < |states| && states[|moves|] == Forest(Added(moves), Added(moves).Keys, map[])
  {
    RunStaysGood(states, moves);
    hide Run, Added, Out;
    var f := states[|moves|];
    f.EverythingFreed();
    assert f.nodes == Added(moves);
    assert f.free == f.nodes.Keys;
  }

  // --- the runs of a split allocator

  // What a client asks for: an untyped is added, a node is wanted, or the k-th of the nodes it holds is given back.
  datatype Request =
    | Untyped(utType: int, bits: nat, paddr: nat)
    | Object(bits: nat, sizeMatches: bool, paddr: nat, canBeDev: bool)
    | Return(k: nat)

  predicate WellFormed(request: Request) {
    match request
    case Untyped(_, bits, paddr) => bits < 64 && (paddr != NO_PADDR ==> paddr % Pow2(bits) == 0)
    case Object(bits, _, paddr, _) => bits < 64 && (paddr != NO_PADDR ==> paddr % Pow2(bits) == 0)
    case Return(_) => true
  }

  // Two untypeds of known addresses that do not overlap
  predicate Apart(bits: nat, paddr: nat, otherBits: nat, otherPaddr: nat) {
    paddr == NO_PADDR || otherPaddr == NO_PADDR || otherPaddr + Pow2(otherBits) <= paddr ||
    paddr + Pow2(bits) <= otherPaddr
  }

  ghost predicate UntypedsApart(requests: seq<Request>) {
    forall i, j | 0 <= i < j < |requests| && requests[i].Untyped? && requests[j].Untyped? ::
      Apart(requests[j].bits, requests[j].paddr, requests[i].bits, requests[i].paddr)
  }

  // An untyped lies apart from all that were added.
  ghost predicate ApartFrom(bits: nat, paddr: nat, added: map<Node, Info>) {
    forall r | r in added :: Apart(bits, paddr, added[r].slot.bits, added[r].paddr)
  }

  ghost predicate AskedFor(requests: seq<Request>, n: nat, info: Info)
    requires n <= |requests|
  {
    exists i :: 0 <= i < n && requests[i].Untyped? && requests[i].bits == info.slot.bits &&
                requests[i].paddr == info.paddr
  }

  // The moves made so far lead to the forest of the allocator.
  ghost predicate Describes(states: seq<Forest>, moves: seq<Move>, f: Forest) {
    Run(states, moves) && states[|moves|] == f
  }

  lemma OneMore(states: seq<Forest>, moves: seq<Move>, f: Forest, m: Move)
    requires Describes(states, moves, f) && f.Valid() && Allowed(f, m)
    ensures Describes(states + [After(f, m)], moves + [m], After(f, m))
    ensures Added(moves + [m]) ==
      if m.Add? then Added(moves)[m.root := Info(null, null, m.slot, m.paddr)] else Added(moves)
    ensures m.Add? ==> Out(moves + [m]) == Out(moves)
    ensures m.Get? ==> Out(moves + [m]) == Out(moves) + {m.node}
    ensures m.Give? ==> Out(moves + [m]) == Out(moves) - {m.node}
  {
    hide Allowed, After, Forest.Valid;
    assert (moves + [m])[..|moves|] == moves;
  }

  // Only an untyped of the given size and address may be new.
  ghost predicate AddsOnly(before: map<Node, Info>, added: map<Node, Info>, bits: nat, paddr: nat) {
    forall r | r in added ::
      (r in before && added[r] == before[r]) || (added[r].slot.bits == bits && added[r].paddr == paddr)
  }

  method ServeUntyped(alloc: SplitAllocator, utType: int, bits: nat, paddr: nat,
                      ghost states: seq<Forest>, ghost moves: seq<Move>)
    returns (ghost states': seq<Forest>, ghost moves': seq<Move>)
    requires alloc.Valid() && Describes(states, moves, alloc.forest)
    requires WellFormed(Untyped(utType, bits, paddr)) && ApartFrom(bits, paddr, Added(moves))
    modifies alloc`forest, alloc`asked, alloc.lists, alloc.lists.heads, alloc.forest.nodes.Keys
    ensures alloc.Valid() && fresh(alloc.forest.nodes.Keys - old(alloc.forest.nodes.Keys))
    ensures old(alloc.asked) <= alloc.asked
    ensures Describes(states', moves', alloc.forest) && Out(moves') == Out(moves)
    ensures AddsOnly(Added(moves), Added(moves'), bits, paddr)
  {
    hide SplitAllocator.Valid, Describes, Allowed, Pow2, Apart, ApartFrom, Added, Out, Forest.AddRoot, Forest.Valid;
    ghost var f := alloc.forest;
    RootsAreAdded(states, moves, f);
    var error; ghost var roots;
    error, roots := alloc.AddUntypeds([bits], [paddr], utType);
    states', moves' := states, moves;
    if roots != [] && 0 <= utType < 3 {
      ghost var m := Add(roots[0], Slot(utType, bits), paddr);
      assert roots == [roots[0]] && roots[..0] == [];
      AddIsAllowed(f, roots[0], Slot(utType, bits), paddr, Added(moves));
      OneMore(states, moves, f, m);
      states', moves' := states + [After(f, m)], moves + [m];
    }
  }

  lemma RootsAreAdded(states: seq<Forest>, moves: seq<Move>, f: Forest)
    requires Describes(states, moves, f)
    ensures f.Valid() && forall r | r in f.nodes && f.Root(r) :: r in Added(moves) && f.nodes[r] == Added(moves)[r]
  {
    RunStaysGood(states, moves);
    hide Run, Added, Out, Forest.Valid;
  }

  lemma AddIsAllowed(f: Forest, root: Node, slot: Slot, paddr: nat, added: map<Node, Info>)
    requires root !in f.nodes && slot.bits < 64 && slot.pool < 3
    requires paddr != NO_PADDR ==> paddr % Pow2(slot.bits) == 0
    requires ApartFrom(slot.bits, paddr, added)
    requires forall r | r in f.nodes && f.Root(r) :: r in added && f.nodes[r] == added[r]
    ensures Allowed(f, Add(root, slot, paddr))
  {
    hide Pow2;
    forall r: Node, a: nat | r in f.nodes && f.Root(r) && f.Covers(r, a) && paddr != NO_PADDR
      ensures a < paddr || paddr + Pow2(slot.bits) <= a
    {
      assert Apart(slot.bits, paddr, added[r].slot.bits, added[r].paddr);
    }
  }

  // alive: no bookkeeping failed, so the run goes on
  method ServeObject(alloc: SplitAllocator, bits: nat, sizeMatches: bool, paddr: nat, canBeDev: bool,
                     ghost states: seq<Forest>, ghost moves: seq<Move>)
    returns (node: Node?, alive: bool, ghost states': seq<Forest>, ghost moves': seq<Move>)
    requires alloc.Valid() && Describes(states, moves, alloc.forest)
    requires WellFormed(Object(bits, sizeMatches, paddr, canBeDev))
    modifies alloc`forest, alloc`asked, alloc.lists, alloc.lists.heads, alloc.forest.nodes.Keys
    ensures alloc.Valid() && fresh(alloc.forest.nodes.Keys - old(alloc.forest.nodes.Keys))
    ensures old(alloc.asked) <= alloc.asked && (alive <==> !Denied(alloc.answers, old(alloc.asked), alloc.asked))
    ensures alive ==> Describes(states', moves', alloc.forest) && Added(moves') == Added(moves)
    ensures !alive ==> states' == states && moves' == moves
    ensures alive && node == null ==> Out(moves') == Out(moves)
    ensures alive && node != null ==> node !in Out(moves) && Out(moves') == Out(moves) + {node}
  {
    hide Denied, SplitAllocator.Valid, Describes, Allowed, Pow2, Grew, PoolAt, PoolAnywhere, Servable, RoomAnywhere,
      Added, Out, Forest.Valid, Forest.HandedOut, Forest.Coalesced;
    ghost var f := alloc.forest;
    OutIsHandedOut(states, moves, f);
    var oom; ghost var middle;
    node, oom, middle := alloc.Alloc(bits, sizeMatches, paddr, canBeDev);
    alive, states', moves' := !oom, states, moves;
    if !oom && node != null {
      ghost var m := Get(middle, node, paddr);
      GetIsAllowed(f, middle, node, paddr);
      OneMore(states, moves, f, m);
      FreeIsNotOut(f, middle, node, paddr);
      states', moves' := states + [After(f, m)], moves + [m];
    }
  }

  lemma OutIsHandedOut(states: seq<Forest>, moves: seq<Move>, f: Forest)
    requires Describes(states, moves, f)
    ensures f.Valid() && forall n | n in Out(moves) :: n in f.nodes && f.HandedOut(n)
  {
    RunStaysGood(states, moves);
    hide Run, Added, Out, Forest.Valid, Forest.HandedOut;
  }

  lemma GetIsAllowed(f: Forest, middle: Forest, node: Node, paddr: nat)
    requires middle.Valid() && Grew(f, middle, paddr) && node in middle.nodes && node in middle.free
    requires f.Coalesced() ==> middle.Take(node).Coalesced()
    ensures Allowed(f, Get(middle, node, paddr))
  {
    hide Forest.Valid, Forest.Coalesced, Grew;
  }

  lemma FreeIsNotOut(f: Forest, middle: Forest, node: Node, paddr: nat)
    requires Grew(f, middle, paddr) && node in middle.free
    ensures !(node in f.nodes && f.HandedOut(node))
  {
    hide Pow2, Matches;
  }

  method ServeReturn(alloc: SplitAllocator, node: Node, ghost states: seq<Forest>, ghost moves: seq<Move>)
    returns (ghost states': seq<Forest>, ghost moves': seq<Move>)
    requires alloc.Valid() && Describes(states, moves, alloc.forest) && node in Out(moves)
    modifies alloc`forest, alloc.lists, alloc.lists.heads, alloc.forest.nodes.Keys
    ensures alloc.Valid() && alloc.forest.nodes.Keys <= old(alloc.forest.nodes.Keys)
    ensures Describes(states', moves', alloc.forest)
    ensures Added(moves') == Added(moves) && Out(moves') == Out(moves) - {node}
  {
    hide SplitAllocator.Valid, Describes, Pow2, Forest.Release, Forest.HandedOut, Forest.Valid, Added, Out;
    ghost var f := alloc.forest;
    OutIsHandedOut(states, moves, f);
    alloc.Free(node);
    OneMore(states, moves, f, Give(node));
    states', moves' := states + [After(f, Give(node))], moves + [Give(node)];
  }

  // A new split allocator serves requests until the memory or the retype for one of them is refused. What it does is a
  // run; so once everything it handed out has been given back, exactly the untypeds that were added are there, each of
  // them free and unsplit.
  method Serve(alloc: SplitAllocator, requests: seq<Request>)
    returns (served: nat, held: seq<Node>, ghost states: seq<Forest>, ghost moves: seq<Move>)
    requires alloc.Valid() && alloc.forest == Forest(map[], {}, map[])
    requires (forall i | 0 <= i < |requests| :: WellFormed(requests[i])) && UntypedsApart(requests)
    modifies alloc`forest, alloc`asked, alloc.lists, alloc.lists.heads
    ensures alloc.Valid() && served <= |requests| && Run(states, moves)
    ensures served < |requests| ==> Denied(alloc.answers, old(alloc.asked), alloc.asked)
    ensures served == |requests| ==> states[|moves|] == alloc.forest && forall n :: n in held <==> n in Out(moves)
    ensures served == |requests| && held == [] ==>
      alloc.forest == Forest(Added(moves), Added(moves).Keys, map[])
  {
    hide *;
    states, moves, held, served := [alloc.forest], [], [], 0;
    NothingServed(alloc.forest);
    var alive := true;
    while served < |requests|
      invariant served <= |requests| && old(alloc.asked) <= alloc.asked
      invariant alloc.Valid() && fresh(alloc.forest.nodes.Keys)
      invariant Describes(states, moves, alloc.forest)
      invariant Holds(held, Out(moves))
      invariant AllAskedFor(requests, served, Added(moves))
    {
      match requests[served] {
        case Untyped(utType, bits, paddr) =>
          NextIsApart(requests, served, Added(moves));
          ghost var before := Added(moves);
          states, moves := ServeUntyped(alloc, utType, bits, paddr, states, moves);
          StillAskedFor(requests, served, before, Added(moves));
        case Object(bits, sizeMatches, paddr, canBeDev) =>
          var node;
          ghost var out := Out(moves);
          DescribesRun(states, moves, alloc.forest);
          ghost var count := alloc.asked;
          node, alive, states, moves := ServeObject(alloc, bits, sizeMatches, paddr, canBeDev, states, moves);
          DeniedIn(alloc.answers, old(alloc.asked), count, alloc.asked);
          if !alive {
            return;
          }
          if node != null {
            HoldsMore(held, out, node);
            held := held + [node];
          }
          NothingAdded(requests, served, Added(moves));
        case Return(k) =>
          if k < |held| {
            HoldsLess(held, Out(moves), k);
            states, moves := ServeReturn(alloc, held[k], states, moves);
            held := held[..k] + held[k + 1..];
          }
          NothingAdded(requests, served, Added(moves));
      }
      served := served + 1;
    }
    DescribesRun(states, moves, alloc.forest);
    HeldIsOut(held, Out(moves));
    if held == [] {
      RunEndsCoalesced(states, moves);
    }
  }

  // The nodes a client holds, each once
  ghost predicate Holds(held: seq<Node>, out: set<Node>) {
    && (forall n | n in out :: n in held)
    && (forall i | 0 <= i < |held| :: held[i] in out)
    && (forall i, j | 0 <= i < j < |held| :: held[i] != held[j])
  }

  lemma HoldsMore(held: seq<Node>, out: set<Node>, node: Node)
    requires Holds(held, out) && node !in out
    ensures Holds(held + [node], out + {node})
  {
    assert (held + [node])[|held|] == node;
  }

  lemma HoldsLess(held: seq<Node>, out: set<Node>, k: nat)
    requires Holds(held, out) && k < |held|
    ensures held[k] in out && Holds(held[..k] + held[k + 1..], out - {held[k]})
  {
    var rest := held[..k] + held[k + 1..];
    forall n | n in out && n != held[k]
      ensures n in rest
    {
      var i :| 0 <= i < |held| && held[i] == n;
      assert rest[if i < k then i else i - 1] == n;
    }
  }

  lemma HeldIsOut(held: seq<Node>, out: set<Node>)
    requires Holds(held, out)
    ensures forall n :: n in held <==> n in out
    ensures held == [] ==> out == {}
  {
  }

  ghost predicate AllAskedFor(requests: seq<Request>, n: nat, added: map<Node, Info>) {
    n <= |requests| && forall r | r in added :: AskedFor(requests, n, added[r])
  }

  lemma NextIsApart(requests: seq<Request>, n: nat, added: map<Node, Info>)
    requires AllAskedFor(requests, n, added) && n < |requests| && requests[n].Untyped? && UntypedsApart(requests)
    ensures ApartFrom(requests[n].bits, requests[n].paddr, added)
  {
    hide Apart;
  }

  lemma StillAskedFor(requests: seq<Request>, n: nat, before: map<Node, Info>, added: map<Node, Info>)
    requires AllAskedFor(requests, n, before) && n < |requests| && requests[n].Untyped?
    requires AddsOnly(before, added, requests[n].bits, requests[n].paddr)
    ensures AllAskedFor(requests, n + 1, added)
  {
    forall r | r in added
      ensures AskedFor(requests, n + 1, added[r])
    {
      if r in before && added[r] == before[r] {
        assert AskedFor(requests, n, before[r]);
      }
    }
  }

  lemma NothingAdded(requests: seq<Request>, n: nat, added: map<Node, Info>)
    requires AllAskedFor(requests, n, added) && n < |requests|
    ensures AllAskedFor(requests, n + 1, added)
  {
    forall r | r in added
      ensures AskedFor(requests, n + 1, added[r])
    {
      assert AskedFor(requests, n, added[r]);
    }
  }

  lemma NothingServed(f: Forest)
    requires f == Forest(map[], {}, map[])
    ensures Describes([f], [], f) && Holds([], Out([])) && forall requests :: AllAskedFor(requests, 0, Added([]))
  {
  }

  lemma DescribesRun(states: seq<Forest>, moves: seq<Move>, f: Forest)
    requires Describes(states, moves, f)
    ensures Run(states, moves) && |moves| < |states| && states[|moves|] == f
  {
  }
}
