// The untypeds a split allocator manages, as a forest of buddies (libsel4allocman/src/utspace/split.c).
module BuddyForest {
  import opened Arithmetic

  // ALLOCMAN_NO_PADDR: the physical address is unknown.
  const NO_PADDR: nat := 1

  // A free list: one of the three pools of utspace_split_t, and a size.
  datatype Slot = Slot(pool: nat, bits: nat)

  // A pointer to a list head.
  datatype ListRef = Null | Head(slot: Slot)

  // struct utspace_split_node
  class Node {
    var parent: Node?
    var sibling: Node?
    // Null while the node is on a free list, else the list it was taken from
    var head: ListRef
    var originHead: Slot
    var paddr: nat
    var next: Node?
    var prev: Node?

    constructor ()
    {
      parent, sibling, head, originHead, paddr, next, prev := null, null, Null, Slot(0, 0), NO_PADDR, null, null;
    }
  }

  function Pow2(n: nat): (r: nat)
    ensures 0 < r
  {
    if n == 0 then 1 else 2 * Pow2(n - 1)
  }

  // What never changes while a node exists.
  datatype Info = Info(parent: Node?, sibling: Node?, slot: Slot, paddr: nat)

  // All existing nodes, the free ones, and the two halves of every node that is split.
  datatype Forest = Forest(nodes: map<Node, Info>, free: set<Node>, halves: map<Node, (Node, Node)>) {
    function Bits(n: Node): nat
      requires n in nodes
    {
      nodes[n].slot.bits
    }

    predicate Known(n: Node)
      requires n in nodes
    {
      nodes[n].paddr != NO_PADDR
    }

    // Physical address a lies in node n.
    predicate Covers(n: Node, a: nat)
      requires n in nodes
    {
      Known(n) && nodes[n].paddr <= a < nodes[n].paddr + Pow2(Bits(n))
    }

    predicate Leaf(n: Node) {
      n in nodes && n !in halves
    }

    predicate HandedOut(n: Node) {
      Leaf(n) && n !in free
    }

    predicate Root(n: Node) {
      n in nodes && nodes[n].parent == null
    }

    // l and r are the lower and the upper half of s.
    predicate Halves(s: Node, l: Node, r: Node)
      requires s in nodes
    {
      && l in nodes && r in nodes && l != r
      && nodes[l].parent == s && nodes[r].parent == s
      && nodes[l].sibling == r && nodes[r].sibling == l
      && 2 <= Bits(s)
      && nodes[l].slot == Slot(nodes[s].slot.pool, Bits(s) - 1) && nodes[r].slot == nodes[l].slot
      && nodes[l].paddr == nodes[s].paddr
      && nodes[r].paddr == if Known(s) then nodes[s].paddr + Pow2(Bits(s) - 1) else NO_PADDR
    }

    // A half points to a split node that has it as one of its halves.
    predicate PointsUp(n: Node)
      requires n in nodes
    {
      nodes[n].parent != null ==>
        && nodes[n].parent in halves
        && (n == halves[nodes[n].parent].0 || n == halves[nodes[n].parent].1)
    }

    predicate InRange(n: Node)
      requires n in nodes
    {
      && Bits(n) < 64 && nodes[n].slot.pool < 3
      && (Known(n) ==> nodes[n].paddr % Pow2(Bits(n)) == 0)
    }

    ghost predicate Valid() {
      && free <= nodes.Keys && halves.Keys <= nodes.Keys && free !! halves.Keys
      && (forall n | n in nodes :: InRange(n))
      && (forall n | n in nodes :: PointsUp(n))
      && (forall s | s in halves :: Halves(s, halves[s].0, halves[s].1))
    }

    // No two halves of the same node are both free.
    ghost predicate Coalesced() {
      forall n | n in nodes :: !BothFree(n)
    }

    predicate BothFree(n: Node)
      requires n in nodes
    {
      nodes[n].parent != null && n in free && nodes[n].sibling in free
    }

    // --- the moves the allocator makes

    function AddRoot(n: Node, slot: Slot, paddr: nat): Forest {
      Forest(nodes[n := Info(null, null, slot, paddr)], free + {n}, halves)
    }

    function Split(s: Node, l: Node, r: Node): Forest
      requires s in nodes && 1 <= Bits(s)
    {
      var slot := Slot(nodes[s].slot.pool, Bits(s) - 1);
      Forest(
        nodes[l := Info(s, r, slot, nodes[s].paddr)]
             [r := Info(s, l, slot, if Known(s) then nodes[s].paddr + Pow2(Bits(s) - 1) else NO_PADDR)],
        free - {s} + {l, r},
        halves[s := (l, r)])
    }

    function Take(n: Node): Forest {
      this.(free := free - {n})
    }

    function Put(n: Node): Forest {
      this.(free := free + {n})
    }

    // Both halves of s go away.
    function Merge(s: Node): Forest
      requires s in halves
    {
      var (l, r) := halves[s];
      Forest(nodes - {l, r}, free - {l, r}, halves - {s})
    }

    lemma AddRootIsValid(n: Node, slot: Slot, paddr: nat)
      requires Valid() && n !in nodes
      requires slot.bits < 64 && slot.pool < 3 && (paddr != NO_PADDR ==> paddr % Pow2(slot.bits) == 0)
      ensures AddRoot(n, slot, paddr).Valid()
    {
      hide Pow2;
      var g := AddRoot(n, slot, paddr);
      forall m | m in g.nodes
        ensures g.InRange(m) && g.PointsUp(m)
      {
        if m != n {
          assert InRange(m) && PointsUp(m);
        }
      }
      forall s | s in g.halves
        ensures g.Halves(s, g.halves[s].0, g.halves[s].1)
      {
        assert Halves(s, halves[s].0, halves[s].1);
      }
    }

    lemma SplitIsValid(s: Node, l: Node, r: Node)
      requires Valid() && s in free && 2 <= Bits(s)
      requires l !in nodes && r !in nodes && l != r
      ensures Split(s, l, r).Valid()
    {
      hide Pow2, InRange, PointsUp, Halves;
      SplitInRange(s, l, r);
      SplitPointsUp(s, l, r);
      SplitHalves(s, l, r);
    }

    lemma SplitHalves(s: Node, l: Node, r: Node)
      requires Valid() && s in free && 2 <= Bits(s)
      requires l !in nodes && r !in nodes && l != r
      ensures var t := Split(s, l, r); forall x | x in t.halves :: t.Halves(x, t.halves[x].0, t.halves[x].1)
    {
      hide Pow2, InRange, PointsUp;
      var t := Split(s, l, r);
      forall x | x in t.halves
        ensures t.Halves(x, t.halves[x].0, t.halves[x].1)
      {
        if x != s {
          assert Halves(x, halves[x].0, halves[x].1);
        }
      }
    }

    lemma SplitFacts(s: Node, l: Node, r: Node)
      requires s in nodes && 1 <= Bits(s) && l !in nodes && r !in nodes && l != r
      ensures var t := Split(s, l, r);
        && t.nodes.Keys == nodes.Keys + {l, r}
        && (forall n | n in nodes :: t.nodes[n] == nodes[n])
        && t.nodes[l] == Info(s, r, Slot(nodes[s].slot.pool, Bits(s) - 1), nodes[s].paddr)
        && t.nodes[r] == Info(s, l, Slot(nodes[s].slot.pool, Bits(s) - 1),
                              if Known(s) then nodes[s].paddr + Pow2(Bits(s) - 1) else NO_PADDR)
        && t.free == free - {s} + {l, r}
    {
    }

    lemma SplitInRange(s: Node, l: Node, r: Node)
      requires Valid() && s in free && 2 <= Bits(s)
      requires l !in nodes && r !in nodes && l != r
      ensures forall n | n in Split(s, l, r).nodes :: Split(s, l, r).InRange(n)
    {
      hide Pow2, PointsUp, Halves;
      var t := Split(s, l, r);
      assert InRange(s);
      if Known(s) {
        HalfIsAligned(nodes[s].paddr, Bits(s));
      }
      forall n | n in t.nodes
        ensures t.InRange(n)
      {
        if n != l && n != r {
          assert InRange(n);
        }
      }
    }

    lemma SplitPointsUp(s: Node, l: Node, r: Node)
      requires Valid() && s in free && 2 <= Bits(s)
      requires l !in nodes && r !in nodes && l != r
      ensures forall n | n in Split(s, l, r).nodes :: Split(s, l, r).PointsUp(n)
    {
      hide Pow2, InRange, Halves;
      var t := Split(s, l, r);
      forall n | n in t.nodes
        ensures t.PointsUp(n)
      {
        if n != l && n != r {
          assert PointsUp(n);
        }
      }
    }

    lemma TakeIsValid(n: Node)
      requires Valid()
      ensures Take(n).Valid()
    {
    }

    lemma PutIsValid(n: Node)
      requires Valid() && Leaf(n)
      ensures Put(n).Valid()
    {
    }

    lemma MergeIsValid(s: Node)
      requires Valid() && s in halves && Leaf(halves[s].0) && Leaf(halves[s].1)
      ensures Merge(s).Valid()
    {
    }

    // --- what every reachable forest satisfies

    // m is n or lies below it.
    ghost predicate Under(m: Node, n: Node)
      requires Valid() && m in nodes
      decreases 64 - Bits(m)
    {
      m == n || (nodes[m].parent != null && UnderParent(m, n))
    }

    ghost predicate UnderParent(m: Node, n: Node)
      requires Valid() && m in nodes && nodes[m].parent != null
      decreases 64 - Bits(m), 0
    {
      ParentIsBigger(m);
      Under(nodes[m].parent, n)
    }

    lemma ParentIsBigger(m: Node)
      requires Valid() && m in nodes && nodes[m].parent != null
      ensures nodes[m].parent in nodes && Bits(nodes[m].parent) == Bits(m) + 1 < 64
    {
      assert PointsUp(m);
      assert InRange(nodes[m].parent);
      assert Halves(nodes[m].parent, halves[nodes[m].parent].0, halves[nodes[m].parent].1);
    }

    lemma {:induction false} UnderIsTransitive(m: Node, n: Node, s: Node)
      requires Valid() && m in nodes && n in nodes && Under(m, n) && Under(n, s)
      ensures Under(m, s)
      decreases 64 - Bits(m)
    {
      if m != n {
        ParentIsBigger(m);
        UnderIsTransitive(nodes[m].parent, n, s);
      }
    }

    // Below a node means below one of its halves.
    lemma {:induction false} UnderHalf(m: Node, s: Node)
      requires Valid() && m in nodes && s in nodes && m != s && Under(m, s)
      ensures s in halves && (Under(m, halves[s].0) || Under(m, halves[s].1))
      decreases 64 - Bits(m)
    {
      ParentIsBigger(m);
      assert PointsUp(m);
      if nodes[m].parent != s {
        UnderHalf(nodes[m].parent, s);
      }
    }

    // A node lies inside every node above it.
    lemma {:induction false} UnderIsInside(m: Node, n: Node)
      requires Valid() && m in nodes && n in nodes && Under(m, n)
      ensures Known(m) <==> Known(n)
      ensures Known(m) ==>
        && nodes[n].paddr <= nodes[m].paddr
        && nodes[m].paddr + Pow2(Bits(m)) <= nodes[n].paddr + Pow2(Bits(n))
      decreases 64 - Bits(m)
    {
      if m != n {
        var p := nodes[m].parent;
        ParentIsBigger(m);
        UnderIsInside(p, n);
        HalfIsInside(m);
      }
    }

    lemma HalfIsInside(m: Node)
      requires Valid() && m in nodes && nodes[m].parent != null
      ensures var p := nodes[m].parent;
        p in nodes && (Known(m) <==> Known(p)) &&
        (Known(m) ==> nodes[p].paddr <= nodes[m].paddr &&
                      nodes[m].paddr + Pow2(Bits(m)) <= nodes[p].paddr + Pow2(Bits(p)))
    {
      var p := nodes[m].parent;
      ParentIsBigger(m);
      assert PointsUp(m) && InRange(p);
      var (l, r) := halves[p];
      assert Halves(p, l, r);
      Pow2Even(Bits(p));
      if Known(p) {
        HalfIsAligned(nodes[p].paddr, Bits(p));
        KnownHalf(nodes[p].paddr, Bits(p));
      }
    }

    // Every address of a node lies in a leaf below it ...
    lemma {:induction false} SomeLeafCovers(n: Node, a: nat) returns (m: Node)
      requires Valid() && n in nodes && Covers(n, a)
      ensures Leaf(m) && Under(m, n) && Covers(m, a)
      decreases Bits(n)
    {
      if n in halves {
        var (l, r) := halves[n];
        assert Halves(n, l, r);
        Pow2Even(Bits(n));
        KnownHalf(nodes[n].paddr, Bits(n));
        assert InRange(n);
        var h := if a < nodes[r].paddr then l else r;
        m := SomeLeafCovers(h, a);
        assert Under(h, n);
        UnderIsTransitive(m, h, n);
      } else {
        m := n;
      }
    }

    // ... and in no other.
    lemma {:induction false} OnlyOneLeafCovers(n: Node, m: Node, k: Node, a: nat)
      requires Valid() && n in nodes && Leaf(m) && Leaf(k)
      requires Under(m, n) && Under(k, n) && Covers(m, a) && Covers(k, a)
      ensures m == k
      decreases Bits(n)
    {
      if m != n {
        UnderHalf(m, n);
      }
      if k != n {
        UnderHalf(k, n);
      }
      if m != n && k != n {
        var (l, r) := halves[n];
        assert Halves(n, l, r);
        assert InRange(n);
        var h := if Under(m, l) then l else r;
        var g := if Under(k, l) then l else r;
        UnderIsInside(m, h);
        UnderIsInside(k, g);
        Pow2Even(Bits(n));
        OnlyOneLeafCovers(h, m, k, a);
      }
    }

    // In a coalesced forest a node is split only for the sake of a leaf below it that is handed out.
    lemma {:induction false} SplitNodeHasUser(s: Node) returns (n: Node)
      requires Valid() && Coalesced() && s in halves
      ensures HandedOut(n) && Under(n, s)
      decreases Bits(s)
    {
      var (l, r) := halves[s];
      assert Halves(s, l, r);
      assert !BothFree(l);
      var h := if l in halves || l !in free then l else r;
      assert Under(h, s);
      if h in halves {
        n := SplitNodeHasUser(h);
        UnderIsTransitive(n, h, s);
      } else {
        n := h;
      }
    }

    // With everything given back, a coalesced forest is just its roots, all of them free.
    lemma EverythingFreed()
      requires Valid() && Coalesced()
      requires forall n | n in nodes :: !HandedOut(n)
      ensures halves == map[]
      ensures forall n | n in nodes :: Root(n) && n in free
    {
      if halves != map[] {
        var s :| s in halves;
        var n := SplitNodeHasUser(s);
        assert false;
      }
      forall n | n in nodes
        ensures Root(n) && n in free
      {
        assert PointsUp(n) && !HandedOut(n);
      }
    }

    // Untypeds added one after the other.
    function AddRoots(roots: seq<Node>, pool: nat, bits: seq<nat>, paddrs: seq<nat>): Forest
      requires |roots| <= |bits| == |paddrs|
    {
      if roots == [] then this
      else
        var i := |roots| - 1;
        AddRoots(roots[..i], pool, bits, paddrs).AddRoot(roots[i], Slot(pool, bits[i]), paddrs[i])
    }

    lemma AddRootFacts(n: Node, slot: Slot, paddr: nat)
      ensures AddRoot(n, slot, paddr).nodes == nodes[n := Info(null, null, slot, paddr)]
      ensures AddRoot(n, slot, paddr).free == free + {n} && AddRoot(n, slot, paddr).halves == halves
    {
    }

    // An untyped that overlaps none of the others leaves the forest coalesced and the roots apart.
    lemma AddRootKeeps(n: Node, slot: Slot, paddr: nat)
      requires Valid() && n !in nodes && Coalesced() && RootsApart()
      requires paddr != NO_PADDR ==> forall r: Node, a: nat | r in nodes && Root(r) && Covers(r, a) ::
        a < paddr || paddr + Pow2(slot.bits) <= a
      ensures AddRoot(n, slot, paddr).Coalesced() && AddRoot(n, slot, paddr).RootsApart()
    {
      var g := AddRoot(n, slot, paddr);
      forall m | m in g.nodes
        ensures !g.BothFree(m)
      {
        if m != n && nodes[m].parent != null {
          PairIs(m);
          assert !BothFree(m);
        }
      }
      forall r: Node, q: Node, a: nat |
        r in g.nodes && q in g.nodes && g.Root(r) && g.Root(q) && g.Covers(r, a) && g.Covers(q, a)
        ensures r == q
      {
        assert r != n ==> r in nodes && Root(r) && Covers(r, a);
        assert q != n ==> q in nodes && Root(q) && Covers(q, a);
      }
    }

    // n and its sibling are the two halves of their parent.
    lemma PairIs(n: Node)
      requires Valid() && n in nodes && nodes[n].parent != null
      ensures var p, m := nodes[n].parent, nodes[n].sibling;
        && p in nodes && p in halves && p !in free && p != n && m != null && p != m && m in nodes && m != n
        && (halves[p] == (n, m) || halves[p] == (m, n))
        && nodes[m].parent == p && nodes[m].sibling == n && nodes[m].slot == nodes[n].slot
        && nodes[p].slot == Slot(nodes[n].slot.pool, Bits(n) + 1) && Bits(p) < 64
    {
      ParentIsBigger(n);
      assert PointsUp(n);
      var p := nodes[n].parent;
      assert Halves(p, halves[p].0, halves[p].1);
    }

    lemma MergeFacts(s: Node)
      requires Valid() && s in halves && s in nodes
      ensures var h := Merge(s);
        && h.nodes == nodes - {halves[s].0, halves[s].1} && h.free == free - {halves[s].0, halves[s].1}
        && h.halves == halves - {s} && s in h.nodes && h.nodes[s] == nodes[s]
    {
      assert Halves(s, halves[s].0, halves[s].1);
    }

    lemma CanMerge(n: Node)
      requires Valid() && HandedOut(n) && nodes[n].parent != null && nodes[n].sibling in free
      ensures var p := nodes[n].parent;
        p in halves && p in nodes && Merge(p).Valid() && Merge(p).HandedOut(p) && Merge(p).Bits(p) == Bits(n) + 1 < 64
    {
      PairIs(n);
      var p := nodes[n].parent;
      MergeIsValid(p);
      MergeFacts(p);
    }

    // What _utspace_split_free makes of the forest when n is given back.
    ghost function Release(n: Node): Forest
      requires Valid() && HandedOut(n)
      decreases 64 - Bits(n)
    {
      if nodes[n].parent != null && nodes[n].sibling in free then
        CanMerge(n);
        Merge(nodes[n].parent).Release(nodes[n].parent)
      else
        Put(n)
    }

    lemma ReleaseUnfolds(n: Node)
      requires Valid() && HandedOut(n)
      ensures n in nodes && Release(n) ==
        if nodes[n].parent != null && nodes[n].sibling in free then
          CanMerge(n); Merge(nodes[n].parent).Release(nodes[n].parent)
        else Put(n)
    {
    }

    // This forest is a part of g that reaches down less far.
    ghost predicate PartOf(g: Forest) {
      && (forall n | n in nodes :: n in g.nodes && nodes[n] == g.nodes[n])
      && (forall n | n in halves :: n in g.halves && halves[n] == g.halves[n])
      && (forall n | n in g.nodes && n !in nodes :: g.nodes[n].parent != null)
    }

    // Merging turns the two halves into their parent, now the one that is handed out.
    lemma MergeStep(n: Node)
      requires Valid() && HandedOut(n) && nodes[n].parent != null && nodes[n].sibling in free
      ensures var p := nodes[n].parent;
        p in halves && Merge(p).PartOf(this) &&
        forall m :: Merge(p).HandedOut(m) <==> m == p || (HandedOut(m) && m != n)
    {
      hide Valid, Halves, PointsUp, InRange, Merge;
      PairIs(n);
      MergeFacts(nodes[n].parent);
    }

    lemma PartOfTransitive(g: Forest, h: Forest)
      requires PartOf(g) && g.PartOf(h)
      ensures PartOf(h)
    {
    }

    // Giving back a node frees it and no other, and drops no root.
    lemma {:induction false} ReleaseFacts(n: Node)
      requires Valid() && HandedOut(n)
      ensures Release(n).Valid() && Release(n).PartOf(this)
      ensures forall m :: Release(n).HandedOut(m) <==> HandedOut(m) && m != n
      decreases 64 - Bits(n)
    {
      hide Valid, Merge, PartOf, InRange;
      if nodes[n].parent != null && nodes[n].sibling in free {
        CanMerge(n);
        MergeStep(n);
        var p := nodes[n].parent;
        Merge(p).ReleaseFacts(p);
        Merge(p).Release(p).PartOfTransitive(Merge(p), this);
      } else {
        PutIsValid(n);
        PutIsPart(n);
      }
    }

    lemma PutFacts(n: Node)
      ensures Put(n).nodes == nodes && Put(n).free == free + {n} && Put(n).halves == halves
    {
    }

    lemma PutIsPart(n: Node)
      ensures Put(n).PartOf(this)
    {
    }

    lemma {:induction false} ReleaseKeepsCoalesced(n: Node)
      requires Valid() && HandedOut(n) && Coalesced()
      ensures Release(n).Coalesced()
      decreases 64 - Bits(n)
    {
      if nodes[n].parent != null && nodes[n].sibling in free {
        CanMerge(n);
        PairIs(n);
        var p := nodes[n].parent;
        MergeFacts(p);
        assert forall m | m in Merge(p).nodes :: Merge(p).BothFree(m) ==> BothFree(m);
        Merge(p).ReleaseKeepsCoalesced(p);
      } else {
        forall m | m in nodes
          ensures !Put(n).BothFree(m)
        {
          assert !BothFree(m);
          if nodes[m].parent != null {
            PairIs(m);
          }
        }
      }
    }

    // --- a coalesced forest is determined by its roots and by what is handed out

    lemma {:induction false} UnderInBoth(g: Forest, h: Forest, m: Node, s: Node)
      requires Valid() && g.Valid() && h.Valid() && PartOf(g) && h.PartOf(g)
      requires m in nodes && m in h.nodes && Under(m, s) && m != s
      ensures s in h.halves
      decreases 64 - Bits(m)
    {
      ParentIsBigger(m);
      h.ParentIsBigger(m);
      assert h.PointsUp(m);
      if nodes[m].parent != s {
        UnderInBoth(g, h, nodes[m].parent, s);
      }
    }

    lemma HalvesInBoth(g: Forest, h: Forest)
      requires Valid() && g.Valid() && h.Valid() && PartOf(g) && h.PartOf(g) && Coalesced()
      requires forall n :: HandedOut(n) ==> h.HandedOut(n)
      ensures forall s | s in halves :: s in h.halves
    {
      forall s | s in halves
        ensures s in h.halves
      {
        var n := SplitNodeHasUser(s);
        UnderInBoth(g, h, n, s);
      }
    }

    lemma NodesInBoth(g: Forest, h: Forest)
      requires Valid() && g.Valid() && h.Valid() && PartOf(g) && h.PartOf(g)
      requires halves.Keys == h.halves.Keys
      ensures forall n | n in nodes :: n in h.nodes
    {
      hide Halves, InRange;
      forall n | n in nodes
        ensures n in h.nodes
      {
        if nodes[n].parent != null {
          assert PointsUp(n);
          var p := nodes[n].parent;
          assert h.halves[p] == halves[p];
          h.HalvesExist(p);
        }
      }
    }

    lemma HalvesExist(s: Node)
      requires Valid() && s in halves
      ensures halves[s].0 in nodes && halves[s].1 in nodes
    {
      assert Halves(s, halves[s].0, halves[s].1);
    }

    lemma FreeInBoth(h: Forest)
      requires Valid() && h.Valid() && nodes == h.nodes && halves == h.halves
      requires forall n :: HandedOut(n) <==> h.HandedOut(n)
      ensures free <= h.free
    {
      forall n | n in free
        ensures n in h.free
      {
        assert Leaf(n) && !HandedOut(n) && h.Leaf(n) && !h.HandedOut(n);
      }
    }

    // Two coalesced forests with the same roots and the same nodes handed out are the same forest.
    lemma HandedOutDecides(g: Forest, h: Forest)
      requires Valid() && g.Valid() && h.Valid() && PartOf(g) && h.PartOf(g) && Coalesced() && h.Coalesced()
      requires forall n :: HandedOut(n) <==> h.HandedOut(n)
      ensures this == h
    {
      HalvesInBoth(g, h);
      h.HalvesInBoth(g, this);
      assert halves == h.halves;
      NodesInBoth(g, h);
      h.NodesInBoth(g, this);
      assert nodes == h.nodes;
      FreeInBoth(h);
      h.FreeInBoth(this);
    }

    // --- the tiling

    lemma {:induction false} HasRoot(n: Node) returns (r: Node)
      requires Valid() && n in nodes
      ensures Root(r) && Under(n, r)
      decreases 64 - Bits(n)
    {
      if nodes[n].parent == null {
        r := n;
      } else {
        ParentIsBigger(n);
        r := HasRoot(nodes[n].parent);
      }
    }

    // The untypeds that were added do not overlap.
    ghost predicate RootsApart() {
      forall r: Node, q: Node, a: nat | r in nodes && q in nodes && Root(r) && Root(q) ::
        Covers(r, a) && Covers(q, a) ==> r == q
    }

    lemma LeafHasRoot(m: Node, a: nat) returns (r: Node)
      requires Valid() && Leaf(m) && Covers(m, a)
      ensures Root(r) && Under(m, r) && Covers(r, a)
    {
      r := HasRoot(m);
      UnderIsInside(m, r);
    }

    // Free and handed-out nodes together tile the untypeds: same addresses, and never two nodes at one address.
    lemma LeavesTileRoots(a: nat)
      requires Valid() && RootsApart()
      ensures (exists r :: Root(r) && Covers(r, a)) <==> (exists m :: Leaf(m) && Covers(m, a))
      ensures forall m, k | Leaf(m) && Leaf(k) && Covers(m, a) && Covers(k, a) :: m == k
    {
      if r :| Root(r) && Covers(r, a) {
        var m := SomeLeafCovers(r, a);
      }
      if m :| Leaf(m) && Covers(m, a) {
        var r := LeafHasRoot(m, a);
      }
      forall m, k | Leaf(m) && Leaf(k) && Covers(m, a) && Covers(k, a)
        ensures m == k
      {
        var r := LeafHasRoot(m, a);
        var q := LeafHasRoot(k, a);
        OnlyOneLeafCovers(r, m, k, a);
      }
    }
  }

  lemma Pow2Even(b: nat)
    requires 1 <= b
    ensures Pow2(b) == 2 * Pow2(b - 1)
  {
  }

  lemma {:induction false} Pow2Monotone(a: nat, b: nat)
    requires a <= b
    ensures Pow2(a) <= Pow2(b)
    ensures a < b ==> 2 * Pow2(a) <= Pow2(b)
    decreases b
  {
    if a < b {
      Pow2Monotone(a, b - 1);
    }
  }

  lemma Pow2Order(a: nat, b: nat)
    ensures a <= b <==> Pow2(a) <= Pow2(b)
    ensures a < b <==> Pow2(a) < Pow2(b)
  {
    if a <= b {
      Pow2Monotone(a, b);
    } else {
      Pow2Monotone(b, a);
    }
  }

  // The upper half of an aligned block never starts at the reserved address.
  lemma KnownHalf(a: nat, b: nat)
    requires 2 <= b
    ensures a % Pow2(b) == 0 ==> a + Pow2(b - 1) != NO_PADDR
  {
    Pow2Even(b - 1);
  }

  // Both halves of an aligned block are aligned.
  lemma HalfIsAligned(a: nat, b: nat)
    requires 1 <= b && a % Pow2(b) == 0
    ensures a % Pow2(b - 1) == 0 && (a + Pow2(b - 1)) % Pow2(b - 1) == 0
  {
    var h := Pow2(b - 1);
    Pow2Even(b);
    var k := a / (2 * h);
    assert a == (2 * h) * k;
    assert a == h * (2 * k);
    MultipleAt(2 * k, h);
    MultipleAt(2 * k + 1, h);
    assert h * (2 * k + 1) == h * (2 * k) + h;
  }
}
