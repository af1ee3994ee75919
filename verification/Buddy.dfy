// The split allocator for untypeds (libsel4allocman/src/utspace/split.c).
module Buddy {
  import opened Arithmetic
  import opened BuddyForest
  import opened BuddyLists
  import opened Environment

  // The three pools of utspace_split_t: heads, dev_heads and dev_mem_heads.
  const KERNEL: nat := 0
  const DEV: nat := 1
  const DEV_MEM: nat := 2

  lemma Pools()
    ensures KERNEL < 3 && DEV < 3 && DEV_MEM < 3
  {
  }

  // Node n can serve a request at physical address paddr (any node will do for NO_PADDR).
  predicate Matches(f: Forest, n: Node, paddr: nat) {
    n in f.nodes && (paddr == NO_PADDR || f.Covers(n, paddr))
  }

  // The forest g comes from f by splitting free nodes that match paddr.
  ghost predicate Grew(f: Forest, g: Forest, paddr: nat) {
    && (forall n | n in f.nodes :: n in g.nodes && g.nodes[n] == f.nodes[n])
    && (forall n | n in f.halves :: n in g.halves && g.halves[n] == f.halves[n])
    && (forall n | n in f.nodes && f.HandedOut(n) :: g.HandedOut(n))
    && (forall n | n in g.nodes && g.HandedOut(n) :: f.HandedOut(n))
    && (forall n | n in g.halves && n !in f.halves :: Matches(g, n, paddr))
    && (forall n | n in g.nodes && n !in f.nodes :: g.nodes[n].parent != null)
  }

  // Nothing on the list can serve paddr.
  ghost predicate NoMatch(f: Forest, list: seq<Node>, paddr: nat) {
    forall n | n in list :: n in f.nodes && !Matches(f, n, paddr)
  }

  // A node of size have can be cut down to size want: the largest size is never split.
  predicate CanCut(have: nat, want: nat) {
    want <= have && (have <= 62 || have == want)
  }

  // No free node of the pool that can be cut down to the size of s matches.
  ghost predicate NoMatchFrom(f: Forest, s: Slot, paddr: nat) {
    forall n | n in f.nodes && n in f.free ::
      f.nodes[n].slot.pool == s.pool && CanCut(f.nodes[n].slot.bits, s.bits) ==> !Matches(f, n, paddr)
  }

  lemma MatchesSmaller(f: Forest, s: Slot, paddr: nat)
    requires s.bits < 62 && !NoMatchFrom(f, Bigger(s), paddr)
    ensures !NoMatchFrom(f, s, paddr)
  {
  }

  // Lists a refill of list s does not look at.
  predicate SmallerOrElsewhere(x: Slot, s: Slot) {
    x.pool != s.pool || x.bits < s.bits
  }

  lemma BiggerIs(s: Slot)
    ensures Bigger(s).pool == s.pool && Bigger(s).bits == s.bits + 1 && Bigger(s) != s
    ensures SmallerOrElsewhere(s, Bigger(s))
    ensures forall x | SmallerOrElsewhere(x, s) :: SmallerOrElsewhere(x, Bigger(s)) && x != s && x != Bigger(s)
  {
  }

  // Only the two nodes on top of the list may be buddies that became free together.
  ghost predicate PairOnTop(f: Forest, g: Forest, list: seq<Node>) {
    2 <= |list| && NewPairs(f, g, {list[0], list[1]})
  }

  // A refill that found nothing on its list put two new buddies on top of it.
  ghost predicate Topped(f: Forest, g: Forest, before: seq<Node>, after: seq<Node>, paddr: nat) {
    && 2 <= |after| && after[2..] == before
    && after[0] in g.nodes && after[1] in g.nodes && after[0] != after[1]
    && g.nodes[after[0]].parent != null && g.nodes[after[1]].parent == g.nodes[after[0]].parent
    && g.nodes[after[0]].sibling == after[1] && g.nodes[after[1]].sibling == after[0]
    && NoMatch(f, before, paddr)
  }

  // Apart from the nodes in pair, no buddies are both free in g that were not both free in f.
  ghost predicate NewPairs(f: Forest, g: Forest, pair: set<Node>) {
    forall n | n in g.nodes && n !in pair && g.BothFree(n) :: n in f.nodes && f.BothFree(n)
  }

  // Splitting the buddy that matches leaves the other one alone.
  lemma SplitUsesPair(f: Forest, g: Forest, before: seq<Node>, after: seq<Node>, paddr: nat, k: nat, l: Node, r: Node)
    requires f.Valid() && g.Valid() && Grew(f, g, paddr) && Topped(f, g, before, after, paddr)
    requires NewPairs(f, g, {after[0], after[1]})
    requires k < |after| && Matches(g, after[k], paddr) && after[k] in g.free && 2 <= g.Bits(after[k])
    requires l !in g.nodes && r !in g.nodes && l != r
    ensures NewPairs(f, g.Split(after[k], l, r), {l, r})
  {
    hide Forest.Split, Forest.Valid, Pow2, Grew;
    var node := after[k];
    var h := g.Split(node, l, r);
    g.SplitFacts(node, l, r);
    MatchIsInPair(f, g, before, after, paddr, k);
    forall n | n in h.nodes && n !in {l, r} && h.BothFree(n)
      ensures n in f.nodes && f.BothFree(n)
    {
      SiblingExists(g, n);
      assert g.BothFree(n) && n != node && g.nodes[n].sibling != node;
    }
  }

  lemma MatchIsInPair(f: Forest, g: Forest, before: seq<Node>, after: seq<Node>, paddr: nat, k: nat)
    requires Grew(f, g, paddr) && Topped(f, g, before, after, paddr)
    requires k < |after| && Matches(g, after[k], paddr)
    ensures k < 2
  {
    hide *;
    if 2 <= k {
      RestDoesNotMatch(f, g, before, after, paddr, k);
    }
  }

  lemma RestDoesNotMatch(f: Forest, g: Forest, before: seq<Node>, after: seq<Node>, paddr: nat, k: nat)
    requires Grew(f, g, paddr) && Topped(f, g, before, after, paddr) && 2 <= k < |after|
    ensures !Matches(g, after[k], paddr)
  {
    hide Pow2, Forest.Valid;
    assert after[k] == after[2..][k - 2];
  }

  // A successful refill did nothing, or put a new pair on top of the list.
  ghost predicate RefillShape(f: Forest, before: map<Slot, seq<Node>>, g: Forest, after: map<Slot, seq<Node>>,
                              s: Slot, paddr: nat)
  {
    && s in before && s in after
    && ((g == f && after == before) || (Topped(f, g, before[s], after[s], paddr) && PairOnTop(f, g, after[s])))
  }

  lemma RefillShapeIs(f: Forest, before: map<Slot, seq<Node>>, g: Forest, after: map<Slot, seq<Node>>, s: Slot,
                      paddr: nat)
    requires s in before && s in after
    ensures RefillShape(f, before, f, before, s, paddr)
    ensures Topped(f, g, before[s], after[s], paddr) && PairOnTop(f, g, after[s]) ==>
      RefillShape(f, before, g, after, s, paddr)
    ensures RefillShape(f, before, g, after, s, paddr) ==>
      g == f || (Topped(f, g, before[s], after[s], paddr) && PairOnTop(f, g, after[s]))
  {
    hide Topped, PairOnTop;
  }

  // What a round of _refill_pool adds to what the round above it did.
  lemma RefillCombines(f: Forest, g: Forest, before: seq<Node>, after: seq<Node>, k: nat, l: Node, r: Node, paddr: nat,
                       list: seq<Node>)
    requires f.Valid() && g.Valid() && Grew(f, g, paddr)
    requires g == f || (Topped(f, g, before, after, paddr) && PairOnTop(f, g, after))
    requires k < |after| && after[k] in g.nodes && after[k] in g.free && 2 <= g.Bits(after[k])
    requires Matches(g, after[k], paddr) && l !in g.nodes && r !in g.nodes && l != r
    requires NoMatch(f, list, paddr)
    ensures var h := g.Split(after[k], l, r);
      && Grew(f, h, paddr)
      && !NoMatch(h, [l, r] + list, paddr)
      && Topped(f, h, list, [l, r] + list, paddr) && PairOnTop(f, h, [l, r] + list)
  {
    hide Forest.Valid, Forest.Split, Grew, Matches, Pow2, NewPairs;
    var h := g.Split(after[k], l, r);
    g.SplitFacts(after[k], l, r);
    SplitGrows(g, after[k], l, r, paddr);
    GrewTwice(f, g, h, paddr);
    HalfMatches(g, after[k], l, r, paddr);
    assert l in [l, r] + list && r in [l, r] + list;
    if g == f {
      SplitKeepsPairs(f, after[k], l, r);
    } else {
      SplitUsesPair(f, g, before, after, paddr, k, l, r);
    }
  }

  lemma SplitKeepsPairs(f: Forest, s: Node, l: Node, r: Node)
    requires f.Valid() && s in f.nodes && s in f.free && 2 <= f.Bits(s)
    requires l !in f.nodes && r !in f.nodes && l != r
    ensures NewPairs(f, f.Split(s, l, r), {l, r})
  {
    hide Forest.Split, Forest.Valid, Pow2;
    var h := f.Split(s, l, r);
    f.SplitFacts(s, l, r);
    forall n | n in h.nodes && n !in {l, r} && h.BothFree(n)
      ensures n in f.nodes && f.BothFree(n)
    {
      SiblingExists(f, n);
    }
  }

  lemma SiblingExists(f: Forest, n: Node)
    requires f.Valid() && n in f.nodes && f.nodes[n].parent != null
    ensures f.nodes[n].sibling != null && f.nodes[n].sibling in f.nodes
    ensures f.nodes[f.nodes[n].sibling].parent == f.nodes[n].parent
  {
    assert f.PointsUp(n);
    var p := f.nodes[n].parent;
    assert f.Halves(p, f.halves[p].0, f.halves[p].1);
  }

  // One of the halves of a node that matches does so too.
  lemma HalfMatches(f: Forest, s: Node, l: Node, r: Node, paddr: nat)
    requires f.Valid() && s in f.free && 2 <= f.Bits(s) && Matches(f, s, paddr)
    requires l !in f.nodes && r !in f.nodes && l != r
    ensures Matches(f.Split(s, l, r), l, paddr) || Matches(f.Split(s, l, r), r, paddr)
  {
    f.SplitFacts(s, l, r);
    assert f.InRange(s);
    Pow2Even(f.Bits(s));
    KnownHalf(f.nodes[s].paddr, f.Bits(s));
  }

  lemma GrewNot(f: Forest, paddr: nat)
    ensures Grew(f, f, paddr)
  {
  }

  lemma GrewTwice(f: Forest, g: Forest, h: Forest, paddr: nat)
    requires Grew(f, g, paddr) && Grew(g, h, paddr)
    ensures Grew(f, h, paddr)
  {
  }

  lemma SplitGrows(f: Forest, s: Node, l: Node, r: Node, paddr: nat)
    requires f.Valid() && s in f.free && 2 <= f.Bits(s) && Matches(f, s, paddr)
    requires l !in f.nodes && r !in f.nodes && l != r
    ensures Grew(f, f.Split(s, l, r), paddr)
  {
  }

  // The free lists hold the free nodes, each on the list of its pool and size.
  ghost predicate Listed(f: Forest, slotOf: map<Node, Slot>) {
    && slotOf.Keys == f.free
    && forall n | n in f.free :: n in f.nodes && slotOf[n] == f.nodes[n].slot
  }

  lemma TakeFacts(f: Forest, node: Node)
    requires node in f.nodes
    ensures f.Take(node).nodes == f.nodes && f.Bits(node) == f.nodes[node].slot.bits
  {
  }

  lemma TakeKeepsListed(f: Forest, slotOf: map<Node, Slot>, node: Node)
    requires Listed(f, slotOf)
    ensures Listed(f.Take(node), slotOf - {node})
  {
  }

  lemma PutKeepsListed(f: Forest, slotOf: map<Node, Slot>, node: Node)
    requires Listed(f, slotOf) && node in f.nodes
    ensures Listed(f.Put(node), slotOf[node := f.nodes[node].slot])
  {
  }

  lemma SplitKeepsListed(f: Forest, slotOf: map<Node, Slot>, s: Node, l: Node, r: Node)
    requires Listed(f, slotOf) && s in f.free && 1 <= f.Bits(s)
    requires l !in f.nodes && r !in f.nodes && l != r
    ensures var half := Slot(f.nodes[s].slot.pool, f.Bits(s) - 1);
      Listed(f.Split(s, l, r), (slotOf - {s})[r := half][l := half])
  {
  }

  lemma SlotIsValid(f: Forest, n: Node)
    requires f.Valid() && n in f.nodes
    ensures ValidSlot(f.nodes[n].slot)
  {
    assert f.InRange(n);
  }

  // The list of the next size up in the same pool.
  function Bigger(s: Slot): Slot {
    Slot(s.pool, s.bits + 1)
  }

  lemma SlotStep(s: Slot, f: Forest, node: Node)
    requires node in f.nodes && f.nodes[node].slot == Bigger(s)
    ensures s != Bigger(s) && f.Bits(node) == s.bits + 1 && Slot(f.nodes[node].slot.pool, f.Bits(node) - 1) == s
  {
  }

  // Handing out the match on the refilled list leaves no two buddies free.
  lemma TakeKeepsCoalesced(f: Forest, before: map<Slot, seq<Node>>, g: Forest, after: map<Slot, seq<Node>>, s: Slot,
                           k: nat, paddr: nat)
    requires f.Valid() && g.Valid() && Grew(f, g, paddr) && f.Coalesced()
    requires RefillShape(f, before, g, after, s, paddr)
    requires k < |after[s]| && after[s][k] in g.nodes && Matches(g, after[s][k], paddr)
    ensures g.Take(after[s][k]).Coalesced()
  {
    hide Forest.Valid, Grew, Matches, Pow2;
    var h := g.Take(after[s][k]);
    if g != f {
      MatchIsInPair(f, g, before[s], after[s], paddr, k);
    }
    forall n | n in h.nodes
      ensures !h.BothFree(n)
    {
      assert h.BothFree(n) ==> g.BothFree(n);
      assert g == f ==> !f.BothFree(n);
      if g.nodes[n].parent != null {
        SiblingExists(g, n);
      }
    }
  }

  // The whole block of size bits at paddr lies in node n.
  predicate HasRoom(f: Forest, n: Node, paddr: nat, bits: nat) {
    n in f.nodes && f.Known(n) && f.nodes[n].paddr <= paddr && paddr + Pow2(bits) <= f.nodes[n].paddr + Pow2(f.Bits(n))
  }

  // The pool has a free node with room for the block.
  ghost predicate PoolHasRoom(f: Forest, pool: nat, paddr: nat, bits: nat) {
    exists n :: n in f.nodes && n in f.free && f.nodes[n].slot.pool == pool && HasRoom(f, n, paddr, bits)
  }

  // The pool has a free node that can be cut down to the requested size.
  ghost predicate PoolHasNode(f: Forest, pool: nat, bits: nat) {
    exists n :: n in f.nodes && n in f.free && f.nodes[n].slot.pool == pool && CanCut(f.Bits(n), bits)
  }

  // No free node is bigger than what _refill_pool can split.
  ghost predicate Splittable(f: Forest) {
    forall n | n in f.nodes && n in f.free :: f.Bits(n) <= 62
  }

  // Some pool the request may use has room for the block.
  ghost predicate RoomAt(f: Forest, bits: nat, paddr: nat, canBeDev: bool) {
    || (canBeDev && (PoolHasRoom(f, DEV, paddr, bits) || PoolHasRoom(f, DEV_MEM, paddr, bits)))
    || PoolHasRoom(f, KERNEL, paddr, bits)
  }

  // Some pool the request may use has a node that is big enough.
  ghost predicate RoomAnywhere(f: Forest, bits: nat, canBeDev: bool) {
    (canBeDev && PoolHasNode(f, DEV_MEM, bits)) || PoolHasNode(f, KERNEL, bits)
  }

  // Node n serves a request for any node of list s: it is the first of this list, or if the list was empty the lower
  // half of what served the same request for the next size.
  ghost predicate FirstServed(before: map<Slot, seq<Node>>, g: Forest, n: Node, s: Slot)
    decreases 63 - s.bits
  {
    s in before &&
    if before[s] != [] then n == before[s][0]
    else
      && s.bits < 62 && n in g.nodes && g.nodes[n].parent != null
      && g.nodes[n].parent in g.halves && g.halves[g.nodes[n].parent].0 == n
      && FirstServed(before, g, g.nodes[n].parent, Bigger(s))
  }

  lemma {:induction false} StillFirst(before: map<Slot, seq<Node>>, f: Forest, g: Forest, n: Node, s: Slot, paddr: nat)
    requires FirstServed(before, f, n, s) && Grew(f, g, paddr)
    ensures FirstServed(before, g, n, s)
    decreases 63 - s.bits
  {
    hide Pow2, Matches;
    if before[s] == [] {
      StillFirst(before, f, g, f.nodes[n].parent, Bigger(s), paddr);
    }
  }

  // The lower half of what serves the next size
  lemma HalfServes(before: map<Slot, seq<Node>>, g: Forest, node: Node, l: Node, r: Node, s: Slot)
    requires FirstServed(before, g, node, Bigger(s)) && s in before && before[s] == [] && s.bits < 62
    requires node in g.nodes && 1 <= g.Bits(node) && l !in g.nodes && r !in g.nodes && l != r
    requires Grew(g, g.Split(node, l, r), NO_PADDR)
    ensures FirstServed(before, g.Split(node, l, r), l, s)
  {
    StillFirst(before, g, g.Split(node, l, r), node, Bigger(s), NO_PADDR);
    hide Pow2, Grew, Matches;
  }

  lemma FirstIsServed(before: map<Slot, seq<Node>>, f: Forest, s: Slot, k: nat)
    requires s in before && k < |before[s]|
    ensures before[s] != [] && FirstServed(before, f, before[s][0], s)
  {
  }

  lemma NoMatchIsEmpty(f: Forest, list: seq<Node>)
    ensures NoMatch(f, list, NO_PADDR) ==> list == []
  {
    assert list != [] ==> list[0] in list;
  }

  lemma HalfIsServed(before: map<Slot, seq<Node>>, g: Forest, node: Node, l: Node, r: Node, s: Slot)
    requires FirstServed(before, g, node, Bigger(s)) && s in before && before[s] == [] && s.bits < 62
    requires node in g.nodes && node in g.free && g.Bits(node) == s.bits + 1 && l !in g.nodes && r !in g.nodes && l != r
    requires g.Valid() && 1 <= s.bits
    ensures [l, r] + before[s] != [] && ([l, r] + before[s])[0] == l
    ensures FirstServed(before, g.Split(node, l, r), l, s)
  {
    SplitGrows(g, node, l, r, NO_PADDR);
    hide Forest.Valid, Forest.Split, Grew, FirstServed, Pow2;
    HalfServes(before, g, node, l, r, s);
  }

  // A round of _refill_pool on top of the one for the next size, which left the lists at taken.
  lemma HalvesRefill(f: Forest, before: map<Slot, seq<Node>>, g: Forest, taken: map<Slot, seq<Node>>,
                     after: map<Slot, seq<Node>>, k: nat, l: Node, r: Node, s: Slot, paddr: nat)
    requires f.Valid() && g.Valid() && Grew(f, g, paddr) && 1 <= s.bits < 62 && s in before && s in after
    requires RefillShape(f, before, g, taken, Bigger(s), paddr) && Bigger(s) in taken
    requires k < |taken[Bigger(s)]| && (paddr == NO_PADDR ==> k == 0)
    requires var n := taken[Bigger(s)][k];
      n in g.nodes && n in g.free && g.Bits(n) == s.bits + 1 && Matches(g, n, paddr)
    requires paddr == NO_PADDR ==> FirstServed(before, g, taken[Bigger(s)][0], Bigger(s))
    requires l !in g.nodes && r !in g.nodes && l != r && NoMatch(f, before[s], paddr)
    requires after[s] == [l, r] + before[s]
    ensures var h := g.Split(taken[Bigger(s)][k], l, r);
      && Grew(f, h, paddr) && !NoMatch(h, after[s], paddr) && RefillShape(f, before, h, after, s, paddr)
      && (paddr == NO_PADDR ==> after[s] != [] && FirstServed(before, h, after[s][0], s))
  {
    hide *;
    ShapeHas(f, before, g, taken, Bigger(s), paddr);
    RefillShapeIs(f, before, g, taken, Bigger(s), paddr);
    var n := taken[Bigger(s)][k];
    RefillCombines(f, g, before[Bigger(s)], taken[Bigger(s)], k, l, r, paddr, before[s]);
    RefillShapeIs(f, before, g.Split(n, l, r), after, s, paddr);
    if paddr == NO_PADDR {
      NoMatchIsEmpty(f, before[s]);
      HalfIsServed(before, g, n, l, r, s);
    }
  }

  lemma ShapeHas(f: Forest, before: map<Slot, seq<Node>>, g: Forest, after: map<Slot, seq<Node>>, s: Slot, paddr: nat)
    requires RefillShape(f, before, g, after, s, paddr)
    ensures s in before && s in after
  {
  }

  // The pool find_head_for_paddr settles on.
  ghost function PoolAt(f: Forest, bits: nat, paddr: nat, canBeDev: bool): nat {
    if canBeDev && PoolHasRoom(f, DEV, paddr, bits) then DEV
    else if canBeDev && PoolHasRoom(f, DEV_MEM, paddr, bits) then DEV_MEM
    else KERNEL
  }

  // The pool a request without an address is served from.
  ghost function PoolAnywhere(f: Forest, bits: nat, canBeDev: bool): nat {
    if canBeDev && PoolHasNode(f, DEV_MEM, bits) then DEV_MEM else KERNEL
  }

  // find_head_for_paddr picks a pool, and a node there covers the address and can be cut down to the size.
  ghost predicate Servable(f: Forest, bits: nat, paddr: nat, canBeDev: bool) {
    RoomAt(f, bits, paddr, canBeDev) && !NoMatchFrom(f, Slot(PoolAt(f, bits, paddr, canBeDev), bits), paddr)
  }

  lemma ServableIs(f: Forest, bits: nat, paddr: nat, canBeDev: bool)
    ensures Servable(f, bits, paddr, canBeDev) <==>
      RoomAt(f, bits, paddr, canBeDev) && !NoMatchFrom(f, Slot(PoolAt(f, bits, paddr, canBeDev), bits), paddr)
  {
    hide RoomAt, NoMatchFrom, PoolAt;
  }

  lemma PoolAtIs(f: Forest, bits: nat, paddr: nat, canBeDev: bool)
    ensures canBeDev && PoolHasRoom(f, DEV, paddr, bits) ==> PoolAt(f, bits, paddr, canBeDev) == DEV
    ensures canBeDev && !PoolHasRoom(f, DEV, paddr, bits) && PoolHasRoom(f, DEV_MEM, paddr, bits) ==>
      PoolAt(f, bits, paddr, canBeDev) == DEV_MEM
    ensures !canBeDev || (!PoolHasRoom(f, DEV, paddr, bits) && !PoolHasRoom(f, DEV_MEM, paddr, bits)) ==>
      PoolAt(f, bits, paddr, canBeDev) == KERNEL
  {
    hide PoolHasRoom;
  }

  lemma PoolAnywhereIs(f: Forest, bits: nat, canBeDev: bool)
    ensures PoolAnywhere(f, bits, canBeDev) ==
      if canBeDev && !NoMatchFrom(f, Slot(DEV_MEM, bits), NO_PADDR) then DEV_MEM else KERNEL
  {
    hide PoolHasNode;
    NodeMatches(f, Slot(DEV_MEM, bits));
  }

  lemma RoomAtIs(f: Forest, bits: nat, paddr: nat, canBeDev: bool)
    ensures RoomAt(f, bits, paddr, canBeDev) <==>
      || (canBeDev && (PoolHasRoom(f, DEV, paddr, bits) || PoolHasRoom(f, DEV_MEM, paddr, bits)))
      || PoolHasRoom(f, KERNEL, paddr, bits)
  {
    hide PoolHasRoom;
  }

  lemma RoomAnywhereIs(f: Forest, bits: nat, canBeDev: bool)
    ensures RoomAnywhere(f, bits, canBeDev) <==>
      (canBeDev && !NoMatchFrom(f, Slot(DEV_MEM, bits), NO_PADDR)) || !NoMatchFrom(f, Slot(KERNEL, bits), NO_PADDR)
  {
    hide PoolHasNode;
    NodeMatches(f, Slot(DEV_MEM, bits));
    NodeMatches(f, Slot(KERNEL, bits));
  }

  ghost predicate NoRoomBelow(f: Forest, pool: nat, paddr: nat, bits: nat, i: nat) {
    forall n | n in f.nodes && n in f.free ::
      f.nodes[n].slot.pool == pool && f.Bits(n) < i ==> !HasRoom(f, n, paddr, bits)
  }

  lemma NoRoomEnds(f: Forest, pool: nat, paddr: nat, bits: nat)
    requires f.Valid()
    ensures NoRoomBelow(f, pool, paddr, bits, 0)
    ensures NoRoomBelow(f, pool, paddr, bits, 64) <==> !PoolHasRoom(f, pool, paddr, bits)
  {
    hide HasRoom;
    assert forall n | n in f.nodes :: f.InRange(n);
  }

  lemma RoomMatches(f: Forest, s: Slot, paddr: nat)
    requires f.Valid() && paddr != NO_PADDR && PoolHasRoom(f, s.pool, paddr, s.bits) && Splittable(f)
    ensures !NoMatchFrom(f, s, paddr)
  {
    var n :| n in f.nodes && n in f.free && f.nodes[n].slot.pool == s.pool && HasRoom(f, n, paddr, s.bits);
    Pow2Order(s.bits, f.Bits(n));
    assert Matches(f, n, paddr);
  }

  // As long as no free node is too big to be split, a pool that find_head_for_paddr picks can serve the request.
  lemma RoomIsServable(f: Forest, bits: nat, paddr: nat, canBeDev: bool)
    requires f.Valid() && paddr != NO_PADDR && Splittable(f)
    ensures Servable(f, bits, paddr, canBeDev) <==> RoomAt(f, bits, paddr, canBeDev)
  {
    hide PoolHasRoom, NoMatchFrom, Splittable;
    if RoomAt(f, bits, paddr, canBeDev) {
      RoomMatches(f, Slot(PoolAt(f, bits, paddr, canBeDev), bits), paddr);
    }
  }

  // A node of 2^63 bytes is never split, so the pool is picked but the request fails.
  lemma TooBigToSplit(n: Node, f: Forest)
    requires f == Forest(map[], {}, map[]).AddRoot(n, Slot(KERNEL, 63), 0)
    ensures f.Valid() && RoomAt(f, 12, 0, false) && !Servable(f, 12, 0, false)
  {
    hide Pow2, Forest.AddRoot;
    var none := Forest(map[], {}, map[]);
    none.AddRootIsValid(n, Slot(KERNEL, 63), 0);
    none.AddRootFacts(n, Slot(KERNEL, 63), 0);
    hide Forest.Valid;
    Pow2Order(12, 63);
    assert HasRoom(f, n, 0, 12);
  }

  lemma NodeMatches(f: Forest, s: Slot)
    ensures PoolHasNode(f, s.pool, s.bits) <==> !NoMatchFrom(f, s, NO_PADDR)
  {
  }

  // An aligned block inside a node of its own size is that node.
  lemma ExactMatch(f: Forest, n: Node, paddr: nat)
    requires f.Valid() && n in f.nodes && paddr != NO_PADDR && paddr % Pow2(f.Bits(n)) == 0
    ensures Matches(f, n, paddr) <==> f.nodes[n].paddr == paddr
  {
    assert f.InRange(n);
    var size, a := Pow2(f.Bits(n)), f.nodes[n].paddr;
    if f.Covers(n, paddr) {
      MultipleBelow(paddr, a, size);
    }
  }

  // Give back what was just allocated, and the forest is the one before the request: the splits are undone.
  lemma AllocThenFree(f: Forest, middle: Forest, node: Node, paddr: nat)
    requires f.Valid() && middle.Valid() && Grew(f, middle, paddr) && node in middle.nodes && node in middle.free
    requires f.Coalesced() && middle.Take(node).Coalesced()
    ensures middle.Take(node).Valid() && middle.Take(node).HandedOut(node)
    ensures middle.Take(node).Release(node) == f
  {
    hide Forest.Release;
    var g := middle.Take(node);
    middle.TakeIsValid(node);
    g.ReleaseFacts(node);
    g.ReleaseKeepsCoalesced(node);
    f.HandedOutDecides(g, g.Release(node));
  }

  // utspace_split_t
  class SplitAllocator {
    const lists: FreeLists
    ghost var forest: Forest
    // Whether requests for bookkeeping memory and slots, and retypes, are granted, and how many were made
    const answers: Answers
    var asked: nat

    // The fields of the nodes say what the forest says ...
    ghost predicate Linked(f: Forest)
      reads f.nodes.Keys`parent, f.nodes.Keys`sibling, f.nodes.Keys`originHead, f.nodes.Keys`paddr
    {
      forall n | n in f.nodes ::
        && n.parent == f.nodes[n].parent
        && (n.parent != null ==> n.sibling == f.nodes[n].sibling)
        && n.originHead == f.nodes[n].slot
        && n.paddr == f.nodes[n].paddr
    }

    // ... and head is NULL exactly for the free ones; the others remember the list they were on.
    ghost predicate Marked(f: Forest, but: set<Node>)
      reads (f.nodes.Keys - but)`head
    {
      forall n | n in f.nodes && n !in but :: n.head == if n in f.free then Null else Head(f.nodes[n].slot)
    }

    ghost predicate Valid()
      reads this`forest, lists, lists.heads, lists.slotOf.Keys`next, lists.slotOf.Keys`prev
      reads forest.nodes.Keys`parent, forest.nodes.Keys`sibling, forest.nodes.Keys`originHead, forest.nodes.Keys`paddr
      reads (forest.nodes.Keys - {})`head
    {
      lists.Valid() && forest.Valid() && Linked(forest) && Marked(forest, {}) && Listed(forest, lists.slotOf)
    }

    lemma Parts()
      requires Valid()
      ensures lists.Valid() && forest.Valid() && Linked(forest) && Marked(forest, {}) && Listed(forest, lists.slotOf)
      ensures lists.slotOf.Keys == forest.free <= forest.nodes.Keys
      ensures Placed(lists.contents, lists.slotOf)
    {
      hide Linked, Marked, Chained, Placed;
    }

    lemma Whole()
      requires lists.Valid() && forest.Valid() && Linked(forest) && Marked(forest, {})
      requires Listed(forest, lists.slotOf)
      ensures Valid()
    {
    }

    lemma MarkedBut(f: Forest, n: Node)
      requires Marked(f, {})
      ensures Marked(f, {n})
    {
    }

    // utspace_split_create
    constructor (answers: Answers)
      ensures Valid() && forest == Forest(map[], {}, map[]) && fresh(lists) && fresh(lists.heads)
      ensures this.answers == answers
    {
      this.answers := answers;
      asked := 0;
      lists := new FreeLists();
      forest := Forest(map[], {}, map[]);
    }

    lemma TakenNodeIsFree(s: Slot, k: nat)
      requires Valid() && ValidSlot(s) && s in lists.contents && k < |lists.contents[s]|
      ensures lists.contents[s][k] in forest.free && lists.contents[s][k] in forest.nodes
      ensures forest.nodes[lists.contents[s][k]].slot == s
      ensures lists.contents[s][k].paddr == forest.nodes[lists.contents[s][k]].paddr
    {
      hide Chained, FreeLists.Valid;
      lists.Member(s, k);
    }

    lemma TakeKeepsLinks(f: Forest, node: Node)
      requires Linked(f) && Marked(f, {node}) && node in f.nodes && node.head == Head(f.nodes[node].slot)
      ensures Linked(f.Take(node)) && Marked(f.Take(node), {})
    {
    }

    lemma PutKeepsLinks(f: Forest, node: Node)
      requires Linked(f) && Marked(f, {node}) && node in f.nodes && node.head == Null
      ensures Linked(f.Put(node)) && Marked(f.Put(node), {})
    {
    }

    // Take a free node off its list.
    method TakeNode(s: Slot, node: Node, ghost k: nat)
      requires Valid() && ValidSlot(s) && s in lists.contents && k < |lists.contents[s]| && lists.contents[s][k] == node
      modifies this`forest, lists, lists.heads, forest.nodes.Keys
      ensures Valid() && forest == old(forest).Take(node) && node in old(forest).free
      ensures lists.contents == old(lists.contents)[s := Without(old(lists.contents[s]), k)]
    {
      hide *;
      Parts();
      TakenNodeIsFree(s, k);
      MarkedBut(forest, node);
      lists.Remove(s, node, k);
      forest.TakeIsValid(node);
      TakeKeepsListed(forest, old(lists.slotOf), node);
      TakeKeepsLinks(forest, node);
      forest := forest.Take(node);
      Whole();
    }

    // _insert_node, for a leaf that is on no list
    method PutNode(node: Node)
      requires Valid() && forest.HandedOut(node) && node.head.Head?
      modifies this`forest, lists, lists.heads, forest.nodes.Keys
      ensures Valid() && forest == old(forest).Put(node)
      ensures old(node.head.slot) in old(lists.contents)
      ensures lists.contents ==
        old(lists.contents)[old(node.head.slot) := [node] + old(lists.contents[node.head.slot])]
    {
      hide *;
      Parts();
      HandedOutNode(node);
      MarkedBut(forest, node);
      lists.Insert(node.head.slot, node);
      forest.PutIsValid(node);
      PutKeepsListed(forest, old(lists.slotOf), node);
      PutKeepsLinks(forest, node);
      forest := forest.Put(node);
      Whole();
    }

    // The fields of a node that is handed out
    lemma HandedOutNode(n: Node)
      requires Valid() && forest.HandedOut(n)
      ensures n in forest.nodes && n !in forest.free && forest.Leaf(n) && forest.InRange(n)
      ensures n.head == Head(forest.nodes[n].slot) && ValidSlot(n.head.slot) && n.head.slot in lists.contents
      ensures n.parent == forest.nodes[n].parent
      ensures n.parent != null ==>
        && n.sibling == forest.nodes[n].sibling && n.sibling != null && n.sibling in forest.nodes
        && (n.sibling.head == Null <==> n.sibling in forest.free)
        && n.sibling.originHead == forest.nodes[n].slot
    {
      hide Chained;
      SlotIsValid(forest, n);
      if n.parent != null {
        forest.PairIs(n);
      }
    }

    // The first node on a list that can serve paddr
    method FindMatch(s: Slot, paddr: nat) returns (node: Node?, ghost k: nat)
      requires Valid() && ValidSlot(s) && s in lists.contents
      ensures node == null ==> NoMatch(forest, lists.contents[s], paddr)
      ensures node != null ==>
        && k < |lists.contents[s]| && lists.contents[s][k] == node && Matches(forest, node, paddr)
        && (forall i | 0 <= i < k :: !Matches(forest, lists.contents[s][i], paddr))
    {
      hide Forest.Valid, Listed, Pow2, Placed;
      ListFacts(s);
      node := lists.heads[s.pool, s.bits];
      k := 0;
      while node != null && !CanServe(node, paddr, s.bits)
        invariant k <= |lists.contents[s]| && node == if k < |lists.contents[s]| then lists.contents[s][k] else null
        invariant forall i | 0 <= i < k :: !Matches(forest, lists.contents[s][i], paddr)
        decreases |lists.contents[s]| - k
      {
        node := node.next;
        k := k + 1;
      }
      if node == null {
        assert forall n | n in lists.contents[s] :: n in forest.nodes && !Matches(forest, n, paddr);
      }
    }

    // The test the search loops make on a node of size bits
    predicate CanServe(node: Node, paddr: nat, bits: nat)
      reads node`paddr
    {
      paddr == NO_PADDR || (node.paddr != NO_PADDR && node.paddr <= paddr <= node.paddr + (Pow2(bits) - 1))
    }

    // What is on a list is free, has the size of the list, and the test on it decides whether it matches.
    lemma ListFacts(s: Slot)
      requires Valid() && ValidSlot(s) && s in lists.contents
      ensures Chained(lists.contents[s]) && lists.heads[s.pool, s.bits] == First(lists.contents[s])
      ensures forall i, a | 0 <= i < |lists.contents[s]| ::
        CanServe(lists.contents[s][i], a, s.bits) <==> Matches(forest, lists.contents[s][i], a)
      ensures forall i | 0 <= i < |lists.contents[s]| :: lists.contents[s][i] in forest.nodes
    {
      hide Forest.Valid, Pow2, Chained;
      forall i, a | 0 <= i < |lists.contents[s]|
        ensures CanServe(lists.contents[s][i], a, s.bits) <==> Matches(forest, lists.contents[s][i], a)
      {
        TakenNodeIsFree(s, i);
      }
    }

    // The end of a successful round of _refill_pool: the halves take the place of the node they came from.
    method ReplaceByHalves(s: Slot, node: Node, ghost k: nat, left: Node, right: Node)
      requires Valid() && 1 <= s.bits && ValidSlot(s) && ValidSlot(Bigger(s))
      requires s in lists.contents && Bigger(s) in lists.contents
      requires k < |lists.contents[Bigger(s)]| && lists.contents[Bigger(s)][k] == node
      requires left !in forest.nodes && right !in forest.nodes && left != right
      requires left.parent == node && right.parent == node && left.sibling == right && right.sibling == left
      requires left.originHead == s && right.originHead == s && left.paddr == node.paddr
      requires right.paddr == if node.paddr != NO_PADDR then node.paddr + Pow2(s.bits) else NO_PADDR
      modifies this`forest, lists, lists.heads, forest.nodes.Keys, left, right
      ensures Valid() && node in old(forest).free && node in old(forest).nodes && old(forest).Bits(node) == s.bits + 1
      ensures forest == old(forest).Split(node, left, right)
      ensures forest.nodes.Keys == old(forest.nodes.Keys) + {left, right}
      ensures lists.contents.Keys == old(lists.contents.Keys)
      ensures lists.contents[s] == [left, right] + old(lists.contents[s])
      ensures forall x | x in lists.contents && x != s && x != Bigger(s) :: lists.contents[x] == old(lists.contents[x])
    {
      hide *;
      Parts();
      TakenNodeIsFree(Bigger(s), k);
      SlotStep(s, forest, node);
      MarkedBut(forest, node);
      forest.SplitIsValid(node, left, right);
      forest.SplitFacts(node, left, right);
      SplitKeepsListed(forest, lists.slotOf, node, left, right);
      lists.Replace(Bigger(s), node, k, s, left, right);
      SplitKeepsLinks(forest, s, node, left, right);
      forest := forest.Split(node, left, right);
      Whole();
    }

    lemma SplitKeepsLinks(f: Forest, s: Slot, node: Node, left: Node, right: Node)
      requires Linked(f) && Marked(f, {node}) && node in f.nodes && f.nodes[node].slot == Bigger(s)
      requires left !in f.nodes && right !in f.nodes && left != right
      requires left.parent == node && right.parent == node && left.sibling == right && right.sibling == left
      requires left.originHead == s && right.originHead == s && left.paddr == node.paddr
      requires right.paddr == if node.paddr != NO_PADDR then node.paddr + Pow2(s.bits) else NO_PADDR
      requires node.head == Head(Bigger(s)) && left.head == Null && right.head == Null
      ensures Linked(f.Split(node, left, right)) && Marked(f.Split(node, left, right), {})
    {
      hide Pow2;
      f.SplitFacts(node, left, right);
    }

    // The two nodes _refill_pool prepares for the halves of a node
    method NewHalves(s: Slot, node: Node) returns (left: Node, right: Node)
      ensures fresh(left) && fresh(right) && left != right
      ensures left.parent == node && right.parent == node && left.sibling == right && right.sibling == left
      ensures left.originHead == s && right.originHead == s && left.paddr == node.paddr
      ensures right.paddr == if node.paddr != NO_PADDR then node.paddr + Pow2(s.bits) else NO_PADDR
    {
      left := new Node();
      right := new Node();
      left.parent, right.parent := node, node;
      left.sibling, right.sibling := right, left;
      left.originHead, right.originHead := s, s;
      if node.paddr != NO_PADDR {
        left.paddr, right.paddr := node.paddr, node.paddr + Pow2(s.bits);
      } else {
        left.paddr, right.paddr := NO_PADDR, NO_PADDR;
      }
    }

    // One level of _refill_pool: cut a free node of the next size into two halves. Bookkeeping or a retype may fail.
    method SplitNode(s: Slot, node: Node, ghost k: nat) returns (left: Node?, right: Node?)
      requires Valid() && 1 <= s.bits && ValidSlot(s) && ValidSlot(Bigger(s))
      requires s in lists.contents && Bigger(s) in lists.contents
      requires k < |lists.contents[Bigger(s)]| && lists.contents[Bigger(s)][k] == node
      modifies this`forest, this`asked, lists, lists.heads, forest.nodes.Keys
      ensures Valid() && fresh(forest.nodes.Keys - old(forest.nodes.Keys))
      ensures asked == old(asked) + 1 && (left != null && right != null <==> answers(old(asked)))
      ensures left == null || right == null ==> forest == old(forest) && lists.contents == old(lists.contents)
      ensures left != null && right != null ==>
        && node in old(forest).free && node in old(forest).nodes && old(forest).Bits(node) == s.bits + 1
        && left !in old(forest).nodes && right !in old(forest).nodes && left != right
        && forest == old(forest).Split(node, left, right)
        && lists.contents.Keys == old(lists.contents.Keys)
        && lists.contents[s] == [left, right] + old(lists.contents[s])
        && forall x | x in lists.contents && x != s && x != Bigger(s) :: lists.contents[x] == old(lists.contents[x])
    {
      hide *;
      Parts();
      asked := asked + 1;
      if !answers(asked - 1) {
        return null, null;
      }
      left, right := NewHalves(s, node);
      ReplaceByHalves(s, node, k, left, right);
    }

    lemma NoMatchHere(s: Slot, paddr: nat)
      requires Valid() && ValidSlot(s) && s in lists.contents && NoMatch(forest, lists.contents[s], paddr)
      ensures s.bits < 62 && NoMatchFrom(forest, Bigger(s), paddr) ==> NoMatchFrom(forest, s, paddr)
      ensures 62 <= s.bits ==> NoMatchFrom(forest, s, paddr)
    {
      hide Forest.Valid, Matches, Chained, First;
    }

    lemma SlotExists(s: Slot)
      requires Valid() && s.pool < 3 && s.bits < 64
      ensures ValidSlot(s) && s in lists.contents
    {
    }

    lemma SomeMatch(s: Slot, paddr: nat, k: nat)
      requires Valid() && ValidSlot(s) && s in lists.contents && k < |lists.contents[s]|
      requires Matches(forest, lists.contents[s][k], paddr)
      ensures !NoMatch(forest, lists.contents[s], paddr) && !NoMatchFrom(forest, s, paddr)
    {
      hide Matches, Forest.Valid, Chained, FreeLists.Valid;
      TakenNodeIsFree(s, k);
    }

    // _refill_pool: make sure that list s has a node that matches. oom: a new node or a retype failed.
    method Refill(s: Slot, paddr: nat) returns (ok: bool, oom: bool)
      requires Valid() && s.pool < 3 && 1 <= s.bits < 64
      modifies this`forest, this`asked, lists, lists.heads, forest.nodes.Keys
      ensures Valid() && fresh(forest.nodes.Keys - old(forest.nodes.Keys))
      ensures old(asked) <= asked && (oom <==> Denied(answers, old(asked), asked))
      ensures Grew(old(forest), forest, paddr)
      ensures s in lists.contents && lists.contents.Keys == old(lists.contents).Keys
      ensures ok ==> !NoMatch(forest, lists.contents[s], paddr) && !oom && !NoMatchFrom(old(forest), s, paddr)
      ensures !ok && !oom ==>
        forest == old(forest) && lists.contents == old(lists.contents) && NoMatchFrom(forest, s, paddr)
      ensures ok ==> RefillShape(old(forest), old(lists.contents), forest, lists.contents, s, paddr)
      ensures ok && paddr == NO_PADDR ==>
        lists.contents[s] != [] && FirstServed(old(lists.contents), forest, lists.contents[s][0], s)
      ensures forall x | x in lists.contents && SmallerOrElsewhere(x, s) ::
        lists.contents[x] == old(lists.contents)[x]
      decreases 64 - s.bits
    {
      hide *;
      Parts();
      GrewNot(forest, paddr);
      SlotExists(s);
      var node; ghost var k;
      node, k := FindMatch(s, paddr);
      DeniedOnce(answers, asked);
      if node != null {
        SomeMatch(s, paddr, k);
        FirstIsServed(lists.contents, forest, s, k);
        RefillShapeIs(forest, lists.contents, forest, lists.contents, s, paddr);
        return true, false;
      }
      NoMatchHere(s, paddr);
      if s.bits >= 62 {
        return false, false;
      }
      BiggerIs(s);
      SlotExists(Bigger(s));
      ok, oom := Refill(Bigger(s), paddr);
      if !ok {
        return false, oom;
      }
      MatchesSmaller(old(forest), s, paddr);
      ghost var middle, taken := forest, lists.contents;
      Parts();
      node, k := FindMatch(Bigger(s), paddr);
      FirstMatches(Bigger(s), k, paddr);
      ghost var count := asked;
      var left, right := SplitNode(s, node, k);
      DeniedIn(answers, old(asked), count, asked);
      DeniedOnce(answers, count);
      if left == null || right == null {
        return false, true;
      }
      HalvesRefill(old(forest), old(lists.contents), middle, taken, lists.contents, k, left, right, s, paddr);
      return true, false;
    }

    // Without an address every node of a list matches.
    lemma FirstMatches(s: Slot, k: nat, paddr: nat)
      requires Valid() && ValidSlot(s) && s in lists.contents && k < |lists.contents[s]|
      requires forall i | 0 <= i < k :: !Matches(forest, lists.contents[s][i], paddr)
      ensures paddr == NO_PADDR ==> k == 0
      ensures lists.contents[s][k] in forest.nodes
    {
      hide Chained, Forest.Valid, Placed;
      TakenNodeIsFree(s, 0);
      TakenNodeIsFree(s, k);
    }

    lemma FreeIsListed(n: Node)
      requires Valid() && n in forest.nodes && n in forest.free
      ensures ValidSlot(forest.nodes[n].slot) && forest.nodes[n].slot in lists.contents
      ensures n in lists.contents[forest.nodes[n].slot]
    {
      hide Chained, Forest.Valid;
    }

    // The inner loop of find_head_for_paddr
    method FindRoom(s: Slot, paddr: nat, bits: nat) returns (found: bool)
      requires Valid() && ValidSlot(s) && s in lists.contents
      ensures found <==> exists n :: n in lists.contents[s] && HasRoom(forest, n, paddr, bits)
    {
      hide Forest.Valid, Listed, Pow2, Placed, Forest.Covers;
      ListFacts(s);
      var node := lists.heads[s.pool, s.bits];
      ghost var k := 0;
      while node != null
        invariant k <= |lists.contents[s]| && node == if k < |lists.contents[s]| then lists.contents[s][k] else null
        invariant forall i | 0 <= i < k :: !HasRoom(forest, lists.contents[s][i], paddr, bits)
        decreases |lists.contents[s]| - k
      {
        TakenNodeIsFree(s, k);
        if node.paddr != NO_PADDR && node.paddr <= paddr &&
           paddr + (Pow2(bits) - 1) <= node.paddr + (Pow2(s.bits) - 1) {
          assert node in lists.contents[s] && HasRoom(forest, node, paddr, bits);
          return true;
        }
        node := node.next;
        k := k + 1;
      }
      return false;
    }

    // find_head_for_paddr
    method FindHead(pool: nat, paddr: nat, bits: nat) returns (found: bool)
      requires Valid() && pool < 3
      ensures found <==> PoolHasRoom(forest, pool, paddr, bits)
    {
      hide *;
      Parts();
      NoRoomEnds(forest, pool, paddr, bits);
      var i := 0;
      while i < 64
        invariant i <= 64
        invariant NoRoomBelow(forest, pool, paddr, bits, i)
      {
        SlotExists(Slot(pool, i));
        found := FindRoom(Slot(pool, i), paddr, bits);
        RoomOnList(pool, paddr, bits, i);
        if found {
          return;
        }
        i := i + 1;
      }
      return false;
    }

    lemma RoomOnList(pool: nat, paddr: nat, bits: nat, i: nat)
      requires Valid() && pool < 3 && i < 64 && Slot(pool, i) in lists.contents
      requires NoRoomBelow(forest, pool, paddr, bits, i)
      ensures (exists n :: n in lists.contents[Slot(pool, i)] && HasRoom(forest, n, paddr, bits)) ==>
        PoolHasRoom(forest, pool, paddr, bits)
      ensures !(exists n :: n in lists.contents[Slot(pool, i)] && HasRoom(forest, n, paddr, bits)) ==>
        NoRoomBelow(forest, pool, paddr, bits, i + 1)
    {
    }

    // The last search of _utspace_split_alloc: the node that starts at paddr. It is the first one that matches.
    method FindExact(s: Slot, paddr: nat) returns (node: Node, ghost k: nat)
      requires Valid() && ValidSlot(s) && s in lists.contents
      requires paddr != NO_PADDR && paddr % Pow2(s.bits) == 0 && !NoMatch(forest, lists.contents[s], paddr)
      ensures k < |lists.contents[s]| && lists.contents[s][k] == node
      ensures node in forest.nodes && forest.nodes[node].paddr == paddr && Matches(forest, node, paddr)
    {
      hide Pow2, Listed, Placed, Matches;
      ListFacts(s);
      var p := lists.heads[s.pool, s.bits];
      k := 0;
      while p != null && (p.paddr == NO_PADDR || p.paddr != paddr)
        invariant k <= |lists.contents[s]| && p == if k < |lists.contents[s]| then lists.contents[s][k] else null
        invariant forall i | 0 <= i < k :: !Matches(forest, lists.contents[s][i], paddr)
        decreases |lists.contents[s]| - k
      {
        TakenNodeIsFree(s, k);
        ExactMatch(forest, p, paddr);
        p := p.next;
        k := k + 1;
      }
      assert p != null;
      TakenNodeIsFree(s, k);
      ExactMatch(forest, p, paddr);
      node := p;
    }

    // The part of _utspace_split_alloc that picks a node at a given address
    method ObtainAt(bits: nat, paddr: nat, canBeDev: bool) returns (node: Node?, s: Slot, oom: bool, ghost k: nat)
      requires Valid() && 1 <= bits < 64 && paddr != NO_PADDR && paddr % Pow2(bits) == 0
      modifies this`forest, this`asked, lists, lists.heads, forest.nodes.Keys
      ensures Valid() && fresh(forest.nodes.Keys - old(forest.nodes.Keys)) && Grew(old(forest), forest, paddr)
      ensures old(asked) <= asked && (oom <==> Denied(answers, old(asked), asked))
      ensures node == null && !oom ==> forest == old(forest)
      ensures node != null ==>
        s == Slot(PoolAt(old(forest), bits, paddr, canBeDev), bits) && Picked(node, s, k, paddr)
      ensures node != null ==>
        !oom && RefillShape(old(forest), old(lists.contents), forest, lists.contents, s, paddr)
      ensures !oom ==> (node != null <==> Servable(old(forest), bits, paddr, canBeDev))
    {
      hide *;
      Parts();
      GrewNot(forest, paddr);
      Pools();
      RoomAtIs(forest, bits, paddr, canBeDev);
      PoolAtIs(forest, bits, paddr, canBeDev);
      ServableIs(forest, bits, paddr, canBeDev);
      s, k, oom, node := Slot(KERNEL, bits), 0, false, null;
      DeniedOnce(answers, asked);
      var found := false;
      if canBeDev {
        s := Slot(DEV, bits);
        found := FindHead(DEV, paddr, bits);
        if !found {
          s := Slot(DEV_MEM, bits);
          found := FindHead(DEV_MEM, paddr, bits);
        }
      }
      if !found {
        s := Slot(KERNEL, bits);
        found := FindHead(KERNEL, paddr, bits);
      }
      if !found {
        return;
      }
      var ok;
      ok, oom := Refill(s, paddr);
      if !ok {
        return;
      }
      SlotExists(s);
      node, k := FindExact(s, paddr);
      PickedIs(node, s, k, paddr);
    }

    // Node is element k of list s, and serves paddr exactly.
    ghost predicate Picked(node: Node, s: Slot, k: nat, paddr: nat)
      reads this`forest, lists
    {
      && s in lists.contents && k < |lists.contents[s]| && lists.contents[s][k] == node && ValidSlot(s)
      && node in forest.nodes && Matches(forest, node, paddr)
      && (paddr != NO_PADDR ==> forest.nodes[node].paddr == paddr)
    }

    lemma PickedIs(node: Node, s: Slot, k: nat, paddr: nat)
      requires s in lists.contents && k < |lists.contents[s]| && lists.contents[s][k] == node && ValidSlot(s)
      requires node in forest.nodes && Matches(forest, node, paddr)
      requires paddr != NO_PADDR ==> forest.nodes[node].paddr == paddr
      ensures Picked(node, s, k, paddr)
    {
    }

    // The part of _utspace_split_alloc that picks a node anywhere
    method ObtainAny(bits: nat, canBeDev: bool) returns (node: Node?, s: Slot, oom: bool, ghost k: nat)
      requires Valid() && 1 <= bits < 64
      modifies this`forest, this`asked, lists, lists.heads, forest.nodes.Keys
      ensures Valid() && fresh(forest.nodes.Keys - old(forest.nodes.Keys)) && Grew(old(forest), forest, NO_PADDR)
      ensures old(asked) <= asked && (oom <==> Denied(answers, old(asked), asked))
      ensures node == null && !oom ==> forest == old(forest)
      ensures node != null ==> s.bits == bits && Picked(node, s, k, NO_PADDR)
      ensures node != null && !oom ==>
        s.pool == PoolAnywhere(old(forest), bits, canBeDev) && FirstServed(old(lists.contents), forest, node, s)
      ensures node != null && !oom ==>
        RefillShape(old(forest), old(lists.contents), forest, lists.contents, s, NO_PADDR)
      ensures !oom ==> (node != null <==> RoomAnywhere(old(forest), bits, canBeDev))
    {
      hide *;
      Parts();
      Pools();
      RoomAnywhereIs(forest, bits, canBeDev);
      PoolAnywhereIs(forest, bits, canBeDev);
      s, k, oom, node := Slot(DEV_MEM, bits), 0, false, null;
      DeniedOnce(answers, asked);
      var ok := false;
      GrewNot(forest, NO_PADDR);
      if canBeDev {
        ok, oom := Refill(s, NO_PADDR);
      }
      if !ok {
        s := Slot(KERNEL, bits);
        ghost var middle := forest;
        var failed;
        ghost var count := asked;
        ok, failed := Refill(s, NO_PADDR);
        DeniedIn(answers, old(asked), count, asked);
        GrewTwice(old(forest), middle, forest, NO_PADDR);
        oom := oom || failed;
        if !ok {
          return;
        }
      }
      SlotExists(s);
      node, k := PickFirst(s);
      PickedMeans(node, s, k, NO_PADDR);
    }

    // node = head[size_bits]
    method PickFirst(s: Slot) returns (node: Node, ghost k: nat)
      requires Valid() && ValidSlot(s) && s in lists.contents && !NoMatch(forest, lists.contents[s], NO_PADDR)
      ensures Picked(node, s, k, NO_PADDR) && k == 0
    {
      hide Chained, Forest.Valid, Placed;
      TakenNodeIsFree(s, 0);
      node := lists.heads[s.pool, s.bits];
      k := 0;
    }

    // The end of _utspace_split_alloc: the retype into the requested type went well.
    method HandOut(node: Node, s: Slot, ghost k: nat, paddr: nat)
      requires Valid() && Picked(node, s, k, paddr)
      modifies this`forest, lists, lists.heads, forest.nodes.Keys
      ensures Valid() && forest == old(forest).Take(node) && forest.nodes == old(forest).nodes
      ensures node in old(forest).nodes && node in old(forest).free && old(forest).nodes[node].slot == s
      ensures old(forest).Bits(node) == s.bits
      ensures paddr != NO_PADDR ==> old(forest).nodes[node].paddr == paddr
      ensures lists.contents == old(lists.contents)[s := Without(old(lists.contents[s]), k)]
    {
      hide *;
      PickedMeans(node, s, k, paddr);
      TakenNodeIsFree(s, k);
      TakeFacts(forest, node);
      TakeNode(s, node, k);
    }

    lemma PickedMeans(node: Node, s: Slot, k: nat, paddr: nat)
      requires Picked(node, s, k, paddr)
      ensures s in lists.contents && k < |lists.contents[s]| && lists.contents[s][k] == node && ValidSlot(s)
      ensures node in forest.nodes && Matches(forest, node, paddr)
      ensures paddr != NO_PADDR ==> forest.nodes[node].paddr == paddr
    {
    }

    // _utspace_split_alloc. sizeMatches: the size is the one the kernel gives the type. oom: bookkeeping or a retype
    // failed on the way. middle is the forest right before the node is handed out.
    method Alloc(bits: nat, sizeMatches: bool, paddr: nat, canBeDev: bool)
      returns (node: Node?, oom: bool, ghost middle: Forest)
      requires Valid() && bits < 64 && (paddr != NO_PADDR ==> paddr % Pow2(bits) == 0)
      modifies this`forest, this`asked, lists, lists.heads, forest.nodes.Keys
      ensures Valid() && fresh(forest.nodes.Keys - old(forest.nodes.Keys))
      ensures Grew(old(forest), middle, paddr) && middle.Valid()
      ensures old(asked) <= asked && (oom <==> Denied(answers, old(asked), asked))
      ensures node == null ==> forest == middle && (oom || forest == old(forest))
      ensures node != null ==>
        && node in middle.nodes && node in middle.free && forest == middle.Take(node)
        && middle.Bits(node) == bits && (paddr != NO_PADDR ==> middle.nodes[node].paddr == paddr)
      ensures node != null && paddr != NO_PADDR ==>
        !oom && middle.nodes[node].slot.pool == PoolAt(old(forest), bits, paddr, canBeDev)
      ensures node != null && paddr == NO_PADDR && !oom ==>
        var pool := PoolAnywhere(old(forest), bits, canBeDev);
        middle.nodes[node].slot.pool == pool && FirstServed(old(lists.contents), middle, node, Slot(pool, bits))
      ensures node != null && !oom && old(forest).Coalesced() ==> forest.Coalesced()
      ensures !oom && (!sizeMatches || bits == 0) ==> node == null
      ensures !oom && sizeMatches && bits != 0 && paddr != NO_PADDR ==>
        (node != null <==> Servable(old(forest), bits, paddr, canBeDev))
      ensures !oom && sizeMatches && bits != 0 && paddr == NO_PADDR ==>
        (node != null <==> RoomAnywhere(old(forest), bits, canBeDev))
    {
      hide *;
      Parts();
      GrewNot(forest, paddr);
      middle, oom := forest, false;
      DeniedOnce(answers, asked);
      if !sizeMatches || bits == 0 {
        return null, false, middle;
      }
      var s; ghost var k;
      if paddr != NO_PADDR {
        node, s, oom, k := ObtainAt(bits, paddr, canBeDev);
      } else {
        node, s, oom, k := ObtainAny(bits, canBeDev);
      }
      middle := forest;
      Parts();
      if node == null {
        return;
      }
      ghost var count := asked;
      asked := asked + 1;
      DeniedIn(answers, old(asked), count, asked);
      DeniedOnce(answers, count);
      if !answers(asked - 1) {
        return null, true, middle;
      }
      PickedMeans(node, s, k, paddr);
      if !oom && old(forest).Coalesced() {
        TakeKeepsCoalesced(old(forest), old(lists.contents), forest, lists.contents, s, k, paddr);
      }
      HandOut(node, s, k, paddr);
    }

    lemma AddRootKeepsLinks(f: Forest, node: Node, slot: Slot, paddr: nat)
      requires Linked(f) && Marked(f, {}) && node !in f.nodes
      requires node.parent == null && node.paddr == paddr && node.originHead == slot && node.head == Null
      ensures Linked(f.AddRoot(node, slot, paddr)) && Marked(f.AddRoot(node, slot, paddr), {})
    {
    }

    lemma AddRootKeepsListed(f: Forest, slotOf: map<Node, Slot>, node: Node, slot: Slot, paddr: nat)
      requires Listed(f, slotOf) && node !in f.nodes
      ensures Listed(f.AddRoot(node, slot, paddr), slotOf[node := slot])
    {
    }

    // _insert_new_node
    method InsertNewNode(s: Slot, paddr: nat) returns (node: Node?)
      requires Valid() && ValidSlot(s) && (paddr != NO_PADDR ==> paddr % Pow2(s.bits) == 0)
      modifies this`forest, this`asked, lists, lists.heads, forest.nodes.Keys
      ensures asked == old(asked) + 1 && (node != null <==> answers(old(asked)))
      ensures Valid() && (node == null ==> forest == old(forest))
      ensures node != null ==> fresh(node) && forest == old(forest).AddRoot(node, s, paddr)
      ensures node != null ==> forest.nodes.Keys == old(forest.nodes.Keys) + {node}
    {
      hide *;
      Parts();
      asked := asked + 1;
      if !answers(asked - 1) {
        return null;
      }
      var root := new Node();
      root.parent := null;
      root.paddr := paddr;
      root.originHead := s;
      SlotParts(s);
      forest.AddRootIsValid(root, s, paddr);
      AddRootKeepsListed(forest, lists.slotOf, root, s, paddr);
      lists.Insert(s, root);
      AddRootKeepsLinks(forest, root, s, paddr);
      forest.AddRootFacts(root, s, paddr);
      forest := forest.AddRoot(root, s, paddr);
      Whole();
      node := root;
    }

    lemma SlotParts(s: Slot)
      requires ValidSlot(s)
      ensures s.pool < 3 && s.bits < 64
    {
    }

    // _utspace_split_add_uts: on an error some of the untypeds have been added. A missing address array is one of
    // NO_PADDR.
    method AddUntypeds(bits: seq<nat>, paddrs: seq<nat>, utType: int) returns (error: int, ghost roots: seq<Node>)
      requires Valid() && |paddrs| == |bits|
      requires forall i | 0 <= i < |bits| ::
        bits[i] < 64 && (paddrs[i] != NO_PADDR ==> paddrs[i] % Pow2(bits[i]) == 0)
      modifies this`forest, this`asked, lists, lists.heads, forest.nodes.Keys
      ensures Valid() && fresh(forest.nodes.Keys - old(forest.nodes.Keys))
      ensures !(0 <= utType < 3) ==> error == -1 && forest == old(forest) && asked == old(asked)
      ensures old(asked) <= asked && (error == 1 <==> Denied(answers, old(asked), asked))
      ensures 0 <= utType < 3 ==>
        && 0 <= error <= 1 && |roots| <= |bits| && (error == 0 <==> |roots| == |bits|) && fresh(roots)
        && forest == old(forest).AddRoots(roots, utType, bits, paddrs)
      ensures forall i, j | 0 <= i < j < |roots| :: roots[i] != roots[j]
    {
      hide Forest.AddRoot, Forest.Valid, SplitAllocator.Valid, Pow2;
      error, roots := 0, [];
      var pool: nat;
      match utType {
        case 0 => pool := KERNEL;
        case 1 => pool := DEV;
        case 2 => pool := DEV_MEM;
        case _ => return -1, roots;
      }
      var i := 0;
      while i < |bits|
        invariant i <= |bits| && |roots| == i && error == 0 && fresh(roots)
        invariant old(asked) <= asked && !Denied(answers, old(asked), asked)
        invariant Valid() && fresh(forest.nodes.Keys - old(forest.nodes.Keys))
        invariant forest == old(forest).AddRoots(roots, pool, bits, paddrs)
        invariant forall k, j | 0 <= k < j < |roots| :: roots[k] != roots[j]
      {
        var node := InsertNewNode(Slot(pool, bits[i]), paddrs[i]);
        if node == null {
          return 1, roots;
        }
        assert (roots + [node])[..i] == roots;
        roots := roots + [node];
        i := i + 1;
      }
    }

    lemma MergeKeepsLinks(f: Forest, n: Node)
      requires f.Valid() && f.HandedOut(n) && f.nodes[n].parent != null && f.nodes[n].sibling in f.free
      requires Linked(f) && Marked(f, {f.nodes[n].sibling})
      ensures f.nodes[n].parent in f.halves
      ensures Linked(f.Merge(f.nodes[n].parent)) && Marked(f.Merge(f.nodes[n].parent), {})
    {
      hide Forest.Valid, Forest.Merge;
      f.PairIs(n);
      f.MergeFacts(f.nodes[n].parent);
    }

    lemma MergeKeepsListed(f: Forest, n: Node, slotOf: map<Node, Slot>)
      requires f.Valid() && f.HandedOut(n) && f.nodes[n].parent != null && f.nodes[n].sibling in f.free
      requires Listed(f, slotOf)
      ensures f.nodes[n].parent in f.halves
      ensures Listed(f.Merge(f.nodes[n].parent), slotOf - {f.nodes[n].sibling})
    {
      hide Forest.Valid, Forest.Merge;
      f.PairIs(n);
      f.MergeFacts(f.nodes[n].parent);
    }

    lemma WhereListed(n: Node) returns (k: nat)
      requires Valid() && n in forest.free
      ensures n in forest.nodes && ValidSlot(forest.nodes[n].slot) && forest.nodes[n].slot in lists.contents
      ensures k < |lists.contents[forest.nodes[n].slot]| && lists.contents[forest.nodes[n].slot][k] == n
    {
      hide Chained;
      FreeIsListed(n);
      k :| 0 <= k < |lists.contents[forest.nodes[n].slot]| && lists.contents[forest.nodes[n].slot][k] == n;
    }

    // Node and its free sibling go away; their parent is what is handed out now.
    method Rejoin(node: Node, sibling: Node)
      requires Valid() && forest.HandedOut(node) && node.parent != null && node.sibling == sibling
      requires sibling in forest.nodes && sibling in forest.free
      modifies this`forest, lists, lists.heads, forest.nodes.Keys
      ensures node in old(forest).nodes && old(forest).nodes[node].parent == old(node.parent)
      ensures old(node.parent) in old(forest).halves && old(node.parent) in old(forest).nodes
      ensures Valid() && forest == old(forest).Merge(old(node.parent)) && forest.HandedOut(old(node.parent))
      ensures forest.nodes.Keys <= old(forest.nodes.Keys) && old(node.parent) in forest.nodes
      ensures forest.Bits(old(node.parent)) == old(forest).Bits(node) + 1 < 64
    {
      hide *;
      Parts();
      HandedOutNode(node);
      ghost var k := WhereListed(sibling);
      MarkedBut(forest, sibling);
      forest.PairIs(node);
      forest.CanMerge(node);
      forest.MergeFacts(node.parent);
      MergeKeepsListed(forest, node, lists.slotOf);
      lists.Remove(sibling.originHead, sibling, k);
      MergeKeepsLinks(forest, node);
      forest := forest.Merge(node.parent);
      Whole();
    }

    // _utspace_split_free
    method Free(node: Node)
      requires Valid() && forest.HandedOut(node)
      modifies this`forest, lists, lists.heads, forest.nodes.Keys
      ensures Valid() && forest == old(forest).Release(node) && forest.nodes.Keys <= old(forest.nodes.Keys)
      decreases 64 - forest.Bits(node)
    {
      hide *;
      Parts();
      HandedOutNode(node);
      forest.ReleaseUnfolds(node);
      var parent := node.parent;
      if parent != null && node.sibling.head == Null {
        Rejoin(node, node.sibling);
        Free(parent);
      } else {
        forest.PutFacts(node);
        PutNode(node);
      }
    }
  }
}
