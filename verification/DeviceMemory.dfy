// Separating RAM from a device untyped (perform_sub_allocation and handle_device_untyped_cap,
// libsel4allocman/src/bootstrap.c), on top of the split allocator.
module DeviceMemory {
  import opened Alignment
  import opened BuddyForest
  import opened Buddy
  import opened BuddyRuns
  import opened Environment

  // pmem_region_t; ram is type == PMEM_TYPE_RAM.
  datatype Region = Region(base: nat, length: nat, ram: bool) {
    function End(): nat {
      base + length
    }
  }

  // An untyped handed to the main allocator as ALLOCMAN_UT_DEV_MEM or ALLOCMAN_UT_DEV.
  datatype Piece = Piece(base: nat, bits: nat, mem: bool) {
    function End(): nat {
      base + Pow2(bits)
    }

    predicate Has(a: nat) {
      base <= a < End()
    }
  }

  // --- what is left in the split allocator

  // What is free is exactly [cur, end), and no node that is split starts there.
  ghost predicate Remaining(f: Forest, cur: nat, end: nat) {
    && (forall n | n in f.nodes && n in f.free :: Leftover(f, n, cur, end))
    && (forall n | n in f.nodes && n in f.halves && f.Known(n) :: !(cur <= f.nodes[n].paddr < end))
    && (forall a: nat | cur <= a < end :: FreeAt(f, a))
  }

  predicate Leftover(f: Forest, n: Node, cur: nat, end: nat)
    requires n in f.nodes
  {
    && f.nodes[n].slot.pool == DEV && f.Known(n) && f.Bits(n) <= 62
    && cur <= f.nodes[n].paddr && f.nodes[n].paddr + Pow2(f.Bits(n)) <= end
    && (f.Root(n) ==> f.nodes[n].paddr + Pow2(f.Bits(n)) == end)
  }

  ghost predicate FreeAt(f: Forest, a: nat) {
    exists n :: n in f.nodes && n in f.free && f.Covers(n, a)
  }

  // The upper half of a node is aligned to its own size and no more.
  lemma UpperHalfAlignment(f: Forest, n: Node)
    requires f.Valid() && n in f.nodes && f.Known(n) && f.nodes[n].parent != null
    requires f.nodes[n].parent in f.nodes && f.nodes[n].paddr != f.nodes[f.nodes[n].parent].paddr
    ensures !AlignedTo(f.nodes[n].paddr, f.Bits(n) + 1)
  {
    hide Pow2, Forest.Valid;
    var p, b := f.nodes[n].parent, f.Bits(n);
    UpperHalfIs(f, n);
    AlignedSum(f.nodes[p].paddr, Pow2(b), b + 1);
    if AlignedTo(Pow2(b), b + 1) {
      AlignedIsBig(Pow2(b), b + 1);
      Pow2Order(b + 1, b);
    }
  }

  lemma UpperHalfIs(f: Forest, n: Node)
    requires f.Valid() && n in f.nodes && f.Known(n) && f.nodes[n].parent != null
    requires f.nodes[n].parent in f.nodes && f.nodes[n].paddr != f.nodes[f.nodes[n].parent].paddr
    ensures f.nodes[n].paddr == f.nodes[f.nodes[n].parent].paddr + Pow2(f.Bits(n))
    ensures AlignedTo(f.nodes[f.nodes[n].parent].paddr, f.Bits(n) + 1)
  {
    hide Pow2;
    var p := f.nodes[n].parent;
    assert f.PointsUp(n) && f.InRange(p);
    assert f.Halves(p, f.halves[p].0, f.halves[p].1);
  }

  // An aligned block at cur that fits lies in the free node that starts there: a smaller node would be the lower half
  // of a split node starting at cur.
  lemma BlockAtCur(f: Forest, cur: nat, end: nat, bits: nat)
    requires f.Valid() && Remaining(f, cur, end) && AlignedTo(cur, bits) && cur + Pow2(bits) <= end
    ensures PoolHasRoom(f, DEV, cur, bits)
  {
    hide Pow2, AlignedTo, Forest.Valid;
    assert FreeAt(f, cur);
    var n :| n in f.nodes && n in f.free && f.Covers(n, cur);
    assert f.nodes[n].paddr == cur;
    if f.Root(n) {
      Pow2Order(bits, f.Bits(n));
    } else if f.Bits(n) < bits {
      f.PairIs(n);
      f.HalfIsInside(n);
      AlignedToLess(cur, bits, f.Bits(n) + 1);
      if f.nodes[f.nodes[n].parent].paddr != cur {
        UpperHalfAlignment(f, n);
      }
      assert false;
    }
    Pow2Order(bits, f.Bits(n));
    assert HasRoom(f, n, cur, bits);
  }

  // Every node that is new in g was cut out of a node that is free in f.
  lemma {:induction false} NodeHasOrigin(f: Forest, g: Forest, paddr: nat, m: Node) returns (p: Node)
    requires f.Valid() && g.Valid() && Grew(f, g, paddr) && m in g.nodes && (m in f.nodes ==> m in f.free)
    ensures p in f.nodes && p in f.free && p in g.nodes && g.Under(m, p)
    ensures g.nodes[m].slot.pool == f.nodes[p].slot.pool && g.Bits(m) <= f.Bits(p)
    ensures m in f.nodes ==> p == m
    decreases 64 - g.Bits(m)
  {
    hide Pow2, Forest.Valid;
    if m in f.nodes {
      p := m;
    } else {
      g.PairIs(m);
      var q := g.nodes[m].parent;
      if q in f.nodes {
        SplitSince(f, g, paddr, m, q);
      }
      p := NodeHasOrigin(f, g, paddr, q);
    }
  }

  // The parent of a new node was free before.
  lemma SplitSince(f: Forest, g: Forest, paddr: nat, m: Node, q: Node)
    requires f.Valid() && g.Valid() && Grew(f, g, paddr) && m in g.nodes && m !in f.nodes
    requires g.nodes[m].parent == q && q in f.nodes
    ensures q in f.free
  {
    g.PairIs(m);
    if q in f.halves {
      f.HalvesExist(q);
      assert false;
    }
    assert f.HandedOut(q) ==> g.HandedOut(q);
  }

  lemma FreeWasFree(f: Forest, g: Forest, paddr: nat, m: Node)
    requires f.Valid() && g.Valid() && Grew(f, g, paddr) && m in g.free && m in f.nodes
    ensures m in f.free
  {
    assert m in f.halves ==> m in g.halves;
    assert !f.HandedOut(m);
  }

  // Allocating the block at cur leaves [cur + 2^bits, end).
  lemma StepRemaining(f: Forest, g: Forest, node: Node, cur: nat, bits: nat, end: nat)
    requires f.Valid() && g.Valid() && f.RootsApart() && Remaining(f, cur, end) && Grew(f, g, cur)
    requires node in g.nodes && node in g.free && g.nodes[node].paddr == cur && cur != NO_PADDR && g.Bits(node) == bits
    requires cur + Pow2(bits) <= end
    ensures Remaining(g.Take(node), cur + Pow2(bits), end) && g.Take(node).RootsApart()
  {
    hide Pow2, Forest.Valid, Forest.RootsApart, Grew, Remaining;
    GrewKeepsRootsApart(f, g, cur);
    var h, next := g.Take(node), cur + Pow2(bits);
    SameRoots(g, node);
    forall n | n in h.nodes && n in h.free
      ensures Leftover(h, n, next, end)
    {
      StillLeft(f, g, node, cur, bits, end, n);
    }
    forall a: nat | next <= a < end
      ensures FreeAt(h, a)
    {
      StillFree(f, g, node, cur, bits, end, a);
    }
    NoSplitLater(f, g, node, cur, bits, end);
    RemainingIs(h, next, end);
  }

  lemma RemainingIs(f: Forest, cur: nat, end: nat)
    requires forall n | n in f.nodes && n in f.free :: Leftover(f, n, cur, end)
    requires forall n | n in f.nodes && n in f.halves && f.Known(n) :: !(cur <= f.nodes[n].paddr < end)
    requires forall a: nat | cur <= a < end :: FreeAt(f, a)
    ensures Remaining(f, cur, end)
  {
  }

  lemma StillLeft(f: Forest, g: Forest, node: Node, cur: nat, bits: nat, end: nat, n: Node)
    requires f.Valid() && g.Valid() && g.RootsApart() && Remaining(f, cur, end) && Grew(f, g, cur)
    requires node in g.nodes && node in g.free && g.nodes[node].paddr == cur && cur != NO_PADDR && g.Bits(node) == bits
    requires n in g.nodes && n in g.free && n != node
    ensures Leftover(g.Take(node), n, cur + Pow2(bits), end)
  {
    hide Pow2, Forest.Valid, Forest.RootsApart, Grew;
    if n in f.nodes {
      FreeWasFree(f, g, cur, n);
    }
    var p := NodeHasOrigin(f, g, cur, n);
    assert Leftover(f, p, cur, end);
    KeptNodes(f, g, cur, p);
    g.UnderIsInside(n, p);
    if n !in f.nodes {
      NewNodesAreHalves(f, g, cur, n);
    }
    if g.nodes[n].paddr < cur + Pow2(bits) {
      var a := g.nodes[n].paddr;
      LeafAt(g, n);
      LeafAt(g, node);
      assert g.Covers(n, a) && g.Covers(node, a);
      g.LeavesTileRoots(a);
      assert false;
    }
  }

  lemma LeafAt(g: Forest, n: Node)
    requires g.Valid() && n in g.free
    ensures g.Leaf(n)
    ensures n in g.nodes && g.Known(n) ==> g.Covers(n, g.nodes[n].paddr)
  {
  }

  lemma KeptNodes(f: Forest, g: Forest, paddr: nat, n: Node)
    requires Grew(f, g, paddr) && n in f.nodes
    ensures n in g.nodes && g.nodes[n] == f.nodes[n]
  {
  }

  lemma NewNodesAreHalves(f: Forest, g: Forest, paddr: nat, n: Node)
    requires Grew(f, g, paddr) && n in g.nodes && n !in f.nodes
    ensures !g.Root(n)
  {
  }

  lemma StillFree(f: Forest, g: Forest, node: Node, cur: nat, bits: nat, end: nat, a: nat)
    requires f.Valid() && g.Valid() && f.RootsApart() && Remaining(f, cur, end) && Grew(f, g, cur)
    requires node in g.nodes && node in g.free && g.nodes[node].paddr == cur && g.Bits(node) == bits
    requires cur + Pow2(bits) <= a < end
    ensures FreeAt(g.Take(node), a)
  {
    hide Pow2, Forest.Valid, Forest.RootsApart, Grew;
    assert FreeAt(f, a);
    var n :| n in f.nodes && n in f.free && f.Covers(n, a);
    KeptNodes(f, g, cur, n);
    var m := g.SomeLeafCovers(n, a);
    if m !in g.free {
      HandedOutBefore(f, g, cur, m);
      LeafAt(f, n);
      f.LeavesTileRoots(a);
      assert false;
    }
    assert g.Take(node).Covers(m, a);
  }

  lemma HandedOutBefore(f: Forest, g: Forest, paddr: nat, m: Node)
    requires Grew(f, g, paddr) && g.HandedOut(m) && m in g.nodes
    ensures f.HandedOut(m) && m in f.nodes && f.nodes[m] == g.nodes[m]
  {
  }

  lemma NoSplitLater(f: Forest, g: Forest, node: Node, cur: nat, bits: nat, end: nat)
    requires f.Valid() && Remaining(f, cur, end) && Grew(f, g, cur) && cur != NO_PADDR
    ensures var h := g.Take(node);
      forall n | n in h.nodes && n in h.halves && h.Known(n) :: !(cur + Pow2(bits) <= h.nodes[n].paddr < end)
  {
    hide Pow2, FreeAt, Leftover;
  }

  lemma RemainingStarts(f: Forest, root: Node, bits: nat, paddr: nat)
    requires f.Valid() && f.free == {} && root !in f.nodes && root !in f.halves && bits <= 62 && paddr != NO_PADDR
    requires FreshRange(f, paddr, paddr + Pow2(bits))
    ensures Remaining(f.AddRoot(root, Slot(DEV, bits), paddr), paddr, paddr + Pow2(bits))
  {
    hide Pow2, Forest.Valid;
    var g, end := f.AddRoot(root, Slot(DEV, bits), paddr), paddr + Pow2(bits);
    forall n | n in g.nodes && n in g.halves && g.Known(n)
      ensures !(paddr <= g.nodes[n].paddr < end)
    {
      assert n != root;
      SplitElsewhere(f, paddr, end, n);
    }
    forall a: nat | paddr <= a < end
      ensures FreeAt(g, a)
    {
      assert g.Covers(root, a);
    }
    RemainingIs(g, paddr, end);
  }

  // No untyped of the allocator lies in [start, end) already.
  ghost predicate FreshRange(f: Forest, start: nat, end: nat) {
    forall r: Node, a: nat | r in f.nodes && f.Root(r) && f.Covers(r, a) :: a < start || end <= a
  }

  lemma SplitElsewhere(f: Forest, start: nat, end: nat, n: Node)
    requires f.Valid() && FreshRange(f, start, end) && n in f.nodes && f.Known(n)
    ensures !(start <= f.nodes[n].paddr < end)
  {
    hide Pow2, Forest.Valid;
    var r := f.HasRoot(n);
    f.UnderIsInside(n, r);
    assert f.Covers(r, f.nodes[n].paddr);
  }

  // At the end nothing is free.
  lemma NothingRemains(f: Forest, end: nat)
    requires f.Valid() && Remaining(f, end, end)
    ensures f.free == {}
  {
    assert forall n | n in f.nodes :: !Leftover(f, n, end, end);
    assert f.free <= f.nodes.Keys;
  }

  // --- the pieces

  // The pieces cover [lo, hi) one after the other.
  predicate Tiles(pieces: seq<Piece>, lo: nat, hi: nat) {
    if pieces == [] then lo == hi
    else
      var last := pieces[|pieces| - 1];
      last.End() == hi && lo <= last.base && Tiles(pieces[..|pieces| - 1], lo, last.base)
  }

  lemma {:induction false} TilesCover(pieces: seq<Piece>, lo: nat, hi: nat, a: nat) returns (i: nat)
    requires Tiles(pieces, lo, hi) && lo <= a < hi
    ensures i < |pieces| && pieces[i].base <= a < pieces[i].End()
    ensures forall j | 0 <= j < |pieces| && pieces[j].base <= a < pieces[j].End() :: j == i
    decreases |pieces|
  {
    hide Pow2, Piece.End;
    var n := |pieces| - 1;
    if pieces[n].base <= a {
      i := n;
      forall j | 0 <= j < n
        ensures pieces[j].End() <= pieces[n].base
      {
        TilesBelow(pieces[..n], lo, pieces[n].base, j);
      }
    } else {
      i := TilesCover(pieces[..n], lo, pieces[n].base, a);
    }
  }

  lemma {:induction false} TilesBelow(pieces: seq<Piece>, lo: nat, hi: nat, j: nat)
    requires Tiles(pieces, lo, hi) && j < |pieces|
    ensures pieces[j].End() <= hi
    decreases |pieces|
  {
    var n := |pieces| - 1;
    if j < n {
      TilesBelow(pieces[..n], lo, pieces[n].base, j);
    }
  }

  lemma TilesGrow(pieces: seq<Piece>, lo: nat, hi: nat, p: Piece)
    requires Tiles(pieces, lo, hi) && p.base == hi && lo <= hi
    ensures Tiles(pieces + [p], lo, p.End())
  {
    assert (pieces + [p])[..|pieces|] == pieces;
  }

  // Every piece labelled as memory lies inside a RAM region.
  ghost predicate MemoryIsRam(pieces: seq<Piece>, regions: seq<Region>) {
    forall i | 0 <= i < |pieces| && pieces[i].mem :: InsideRam(pieces[i], regions)
  }

  predicate InsideRam(p: Piece, regions: seq<Region>) {
    exists j :: 0 <= j < |regions| && regions[j].ram && regions[j].base <= p.base && p.End() <= regions[j].End()
  }

  predicate InRam(regions: seq<Region>, a: nat) {
    exists j :: 0 <= j < |regions| && regions[j].ram && regions[j].base <= a < regions[j].End()
  }

  // No other piece has an address in RAM.
  ghost predicate RamIsMemory(pieces: seq<Piece>, regions: seq<Region>) {
    forall i, a: nat | 0 <= i < |pieces| && !pieces[i].mem && pieces[i].Has(a) :: !InRam(regions, a)
  }

  // Of the RAM regions that begin below end, region j is the first one in the list that ends above a.
  predicate FirstAbove(regions: seq<Region>, j: nat, end: nat, a: nat) {
    && j < |regions| && regions[j].ram && regions[j].base < end && a < regions[j].End()
    && forall k | 0 <= k < j && regions[k].ram && regions[k].base < end :: regions[k].End() <= a
  }

  // The first region that ends above a contains a.
  ghost predicate Lands(regions: seq<Region>, end: nat, a: nat) {
    exists j: nat :: FirstAbove(regions, j, end, a) && regions[j].base <= a
  }

  ghost predicate PieceLabelled(p: Piece, regions: seq<Region>, end: nat) {
    forall a: nat | p.Has(a) :: p.mem <==> Lands(regions, end, a)
  }

  // What the labels say, for regions in any order.
  ghost predicate Labelled(pieces: seq<Piece>, regions: seq<Region>, end: nat) {
    forall i | 0 <= i < |pieces| :: PieceLabelled(pieces[i], regions, end)
  }

  // Where the piece that begins at a has to stop: at the end of the region that contains a, or where the first region
  // that ends above a begins; at the end of the untyped if there is none.
  ghost function GoalAt(regions: seq<Region>, end: nat, a: nat): nat {
    if exists j: nat :: FirstAbove(regions, j, end, a) then
      var j: nat :| FirstAbove(regions, j, end, a);
      if regions[j].base <= a then Min(regions[j].End(), end) else regions[j].base
    else end
  }

  lemma GoalIs(regions: seq<Region>, j: nat, end: nat, a: nat)
    requires FirstAbove(regions, j, end, a)
    ensures GoalAt(regions, end, a) ==
      if regions[j].base <= a then Min(regions[j].End(), end) else regions[j].base
  {
    forall k: nat | FirstAbove(regions, k, end, a)
      ensures k == j
    {
    }
  }

  // The piece is aligned, does not pass its goal, and is as big as the limit and these two allow.
  ghost predicate PieceSized(p: Piece, regions: seq<Region>, end: nat, max: nat) {
    && AlignedTo(p.base, p.bits) && p.End() <= GoalAt(regions, end, p.base)
    && forall b | p.bits < b <= max && AlignedTo(p.base, b) :: GoalAt(regions, end, p.base) < p.base + Pow2(b)
  }

  ghost predicate Sized(pieces: seq<Piece>, regions: seq<Region>, end: nat, max: nat) {
    forall i | 0 <= i < |pieces| :: PieceSized(pieces[i], regions, end, max)
  }

  predicate Bounded(pieces: seq<Piece>, max: nat) {
    forall i | 0 <= i < |pieces| :: pieces[i].bits <= max
  }

  function BitsOf(pieces: seq<Piece>): seq<nat> {
    seq(|pieces|, i requires 0 <= i < |pieces| => pieces[i].bits)
  }

  // From each piece on the pieces have the sizes that lead from its base to its goal, where one of them ends; so none
  // of these sizes occurs three times.
  lemma {:induction false} LeadsToGoal(pieces: seq<Piece>, regions: seq<Region>, start: nat, end: nat, max: nat, i: nat)
    returns (j: nat)
    requires Tiles(pieces, start, end) && Sized(pieces, regions, end, max) && Bounded(pieces, max) && i < |pieces|
    ensures i < j <= |pieces| && pieces[j - 1].End() == GoalAt(regions, end, pieces[i].base)
    ensures var lo, goal := pieces[i].base, GoalAt(regions, end, pieces[i].base);
      lo <= goal && BitsOf(pieces[i..j]) == Pieces(lo, goal, max)
    decreases i
  {
    hide *;
    if i == 0 {
      j := StretchLeadsToGoal(pieces, regions, start, end, max);
      TilesFromFirst(pieces, start, end);
      assert pieces[0..j] == pieces[..j];
    } else {
      TilesFromFirst(pieces, start, end);
      FirstIsSized(pieces, regions, end, max);
      var m := LeadsToGoal(pieces[1..], regions, pieces[0].End(), end, max, i - 1);
      j := m + 1;
      SliceOfTail(pieces, i, j);
    }
  }

  lemma SliceOfTail(pieces: seq<Piece>, i: nat, j: nat)
    requires 0 < i <= j <= |pieces|
    ensures pieces[i..j] == pieces[1..][i - 1..j - 1]
  {
    var a, b := pieces[i..j], pieces[1..][i - 1..j - 1];
    assert |a| == |b| == j - i;
    forall k | 0 <= k < j - i
      ensures a[k] == b[k]
    {
      assert a[k] == pieces[i + k] && b[k] == pieces[1..][i - 1 + k];
    }
  }

  lemma TailOfSlice(pieces: seq<Piece>, j: nat)
    requires 0 < j <= |pieces|
    ensures pieces[..j][1..] == pieces[1..][..j - 1]
  {
  }

  lemma {:induction false} StretchLeadsToGoal(pieces: seq<Piece>, regions: seq<Region>, lo: nat, end: nat, max: nat)
    returns (j: nat)
    requires Tiles(pieces, lo, end) && Sized(pieces, regions, end, max) && Bounded(pieces, max) && pieces != []
    ensures 0 < j <= |pieces| && pieces[j - 1].End() == GoalAt(regions, end, lo)
    ensures lo <= GoalAt(regions, end, lo) && BitsOf(pieces[..j]) == Pieces(lo, GoalAt(regions, end, lo), max)
    decreases |pieces|
  {
    hide *;
    var p, goal := pieces[0], GoalAt(regions, end, lo);
    TilesFromFirst(pieces, lo, end);
    FirstIsSized(pieces, regions, end, max);
    GoalIsAhead(regions, end, lo);
    SizedIsBiggest(p, regions, end, max);
    PiecesStep(lo, goal, max);
    PieceEnd(p);
    if p.End() == goal {
      j := 1;
      FirstBits(pieces[..1]);
      assert pieces[..1][1..] == [];
      NoBits(goal, max);
    } else {
      if |pieces| == 1 {
        NoTiles(p.End(), end);
        assert false;
      }
      GoalStays(regions, end, lo, p.End());
      var m := StretchLeadsToGoal(pieces[1..], regions, p.End(), end, max);
      j := m + 1;
      FirstBits(pieces[..j]);
      TailOfSlice(pieces, j);
    }
  }

  lemma NoTiles(lo: nat, hi: nat)
    requires Tiles([], lo, hi)
    ensures lo == hi
  {
  }

  lemma NoBits(goal: nat, max: nat)
    ensures BitsOf([]) == Pieces(goal, goal, max)
  {
  }

  lemma FirstBits(pieces: seq<Piece>)
    requires pieces != []
    ensures BitsOf(pieces) == [pieces[0].bits] + BitsOf(pieces[1..])
  {
  }

  lemma PiecesStep(lo: nat, goal: nat, max: nat)
    requires lo < goal
    ensures var b := NextAlignmentBits(lo, goal, max);
      lo + Pow2(b) <= goal && Pieces(lo, goal, max) == [b] + Pieces(lo + Pow2(b), goal, max)
  {
    hide Pow2, NextAlignmentBits;
    NextPiece(lo, goal, max);
  }

  lemma FirstIsSized(pieces: seq<Piece>, regions: seq<Region>, end: nat, max: nat)
    requires pieces != [] && Sized(pieces, regions, end, max) && Bounded(pieces, max)
    ensures PieceSized(pieces[0], regions, end, max) && pieces[0].bits <= max
    ensures Sized(pieces[1..], regions, end, max) && Bounded(pieces[1..], max)
  {
    hide PieceSized;
  }

  lemma GoalIsAhead(regions: seq<Region>, end: nat, a: nat)
    requires a < end
    ensures a < GoalAt(regions, end, a) <= end
  {
  }

  // Up to the goal it is the same goal.
  lemma GoalStays(regions: seq<Region>, end: nat, a: nat, b: nat)
    requires a <= b < GoalAt(regions, end, a)
    ensures GoalAt(regions, end, b) == GoalAt(regions, end, a)
  {
    if j: nat :| FirstAbove(regions, j, end, a) {
      GoalIs(regions, j, end, a);
      assert FirstAbove(regions, j, end, b);
      GoalIs(regions, j, end, b);
    } else {
      forall j: nat
        ensures !FirstAbove(regions, j, end, b)
      {
        NothingAbove(regions, j, end, a);
      }
    }
  }

  // If no region is the first one above a, then no region ends above a.
  lemma {:induction false} NothingAbove(regions: seq<Region>, j: nat, end: nat, a: nat)
    requires forall k: nat :: !FirstAbove(regions, k, end, a)
    ensures j < |regions| && regions[j].ram && regions[j].base < end ==> regions[j].End() <= a
    decreases j
  {
    forall k | 0 <= k < j && k < |regions| && regions[k].ram && regions[k].base < end
      ensures regions[k].End() <= a
    {
      NothingAbove(regions, k, end, a);
    }
    assert !FirstAbove(regions, j, end, a);
  }

  // There is only one size that a sized piece can have.
  lemma SizedIsBiggest(p: Piece, regions: seq<Region>, end: nat, max: nat)
    requires PieceSized(p, regions, end, max) && p.bits <= max && p.base < GoalAt(regions, end, p.base)
    ensures p.bits == NextAlignmentBits(p.base, GoalAt(regions, end, p.base), max)
  {
    hide Pow2, AlignedTo, NextAlignmentBits, GoalAt;
    var goal := GoalAt(regions, end, p.base);
    NextPiece(p.base, goal, max);
    NextPieceIsBiggest(p.base, goal, max, p.bits);
  }

  lemma {:induction false} TilesFromFirst(pieces: seq<Piece>, lo: nat, hi: nat)
    requires Tiles(pieces, lo, hi) && pieces != []
    ensures pieces[0].base == lo && lo < pieces[0].End() <= hi && Tiles(pieces[1..], pieces[0].End(), hi)
    decreases |pieces|
  {
    hide Pow2;
    var n := |pieces| - 1;
    if n > 0 {
      TilesFromFirst(pieces[..n], lo, pieces[n].base);
      assert pieces[1..][..n - 1] == pieces[..n][1..];
    } else {
      assert pieces[..0] == [];
    }
  }

  // All RAM of the untyped is labelled as memory exactly if for each of its addresses the first region that ends above
  // it contains it.
  lemma LabelsDecide(pieces: seq<Piece>, regions: seq<Region>, start: nat, end: nat)
    requires Tiles(pieces, start, end) && Labelled(pieces, regions, end)
    ensures RamIsMemory(pieces, regions) <==>
      forall a: nat | start <= a < end && InRam(regions, a) :: Lands(regions, end, a)
  {
    hide Tiles, InRam, Lands, Piece.End;
    forall a: nat | start <= a < end && InRam(regions, a) && RamIsMemory(pieces, regions)
      ensures Lands(regions, end, a)
    {
      var i := TilesCover(pieces, start, end, a);
      assert pieces[i].Has(a) && PieceLabelled(pieces[i], regions, end);
    }
    forall i, a: nat | 0 <= i < |pieces| && !pieces[i].mem && pieces[i].Has(a)
      ensures start <= a < end && !Lands(regions, end, a)
    {
      TilesWithin(pieces, start, end, i);
      assert PieceLabelled(pieces[i], regions, end);
    }
  }

  lemma {:induction false} TilesWithin(pieces: seq<Piece>, lo: nat, hi: nat, j: nat)
    requires Tiles(pieces, lo, hi) && j < |pieces|
    ensures lo <= pieces[j].base && pieces[j].End() <= hi
    decreases |pieces|
  {
    var n := |pieces| - 1;
    if j < n {
      TilesWithin(pieces[..n], lo, pieces[n].base, j);
    }
  }

  // Sorted regions always do.
  lemma SortedLands(regions: seq<Region>, end: nat, a: nat)
    requires SortedRam(regions) && InRam(regions, a) && a < end
    ensures Lands(regions, end, a)
  {
    var j: nat :| j < |regions| && regions[j].ram && regions[j].base <= a < regions[j].End();
    assert FirstAbove(regions, j, end, a);
  }

  ghost predicate SeparateRam(regions: seq<Region>, start: nat, end: nat) {
    && (forall i | 0 <= i < |regions| && regions[i].ram ::
          start <= regions[i].base < regions[i].End() <= end)
    && (forall i, j | 0 <= i < j < |regions| && regions[i].ram && regions[j].ram ::
          regions[i].End() <= regions[j].base || regions[j].End() <= regions[i].base)
  }

  // For regions of the untyped that do not overlap it is the order that decides.
  lemma OrderDecides(regions: seq<Region>, start: nat, end: nat)
    requires SeparateRam(regions, start, end)
    ensures (forall a: nat | start <= a < end && InRam(regions, a) :: Lands(regions, end, a)) <==> SortedRam(regions)
  {
    if SortedRam(regions) {
      forall a: nat | start <= a < end && InRam(regions, a)
        ensures Lands(regions, end, a)
      {
        SortedLands(regions, end, a);
      }
    } else {
      var i, j :| 0 <= i < j < |regions| && regions[i].ram && regions[j].ram && regions[i].End() > regions[j].base;
      assert InRam(regions, regions[j].base);
      forall k: nat | FirstAbove(regions, k, end, regions[j].base)
        ensures regions[j].base < regions[k].base
      {
      }
    }
  }

  predicate SortedRam(regions: seq<Region>) {
    forall i, j | 0 <= i < j < |regions| && regions[i].ram && regions[j].ram :: regions[i].End() <= regions[j].base
  }

  // The first i regions have nothing of [cur, end).
  predicate Passed(regions: seq<Region>, i: nat, cur: nat, end: nat) {
    forall j | 0 <= j < i && j < |regions| && regions[j].ram ::
      regions[j].End() <= cur || end <= regions[j].base || cur == end
  }

  // The granularity of everything that is cut here: a page, or the untyped if that is smaller.
  function Granule(bits: nat): nat {
    Min(bits, 12)
  }

  predicate PageAligned(regions: seq<Region>) {
    forall j | 0 <= j < |regions| :: AlignedTo(regions[j].base, 12) && AlignedTo(regions[j].End(), 12)
  }

  // Why a ZF_LOGF_IF fired: there was no slot, the sub-allocator returned no node, the piece could not be added to the
  // main allocator, or the untyped could not be added to the sub-allocator.
  datatype Fault = NoFault | NoSlot | NoNode | NotDeposited | NotAdded

  // The main allocator is asked for slots and to take the pieces; the sub-allocator asks for memory and for retypes.
  // One of the two kinds of fault is there exactly if one of these was refused.
  ghost predicate FaultIs(fault: Fault, main: Answers, asked: nat, asked': nat, own: Answers, first: nat, last: nat) {
    && asked <= asked' && first <= last
    && (Denied(main, asked, asked') <==> fault.NoSlot? || fault.NotDeposited?)
    && (Denied(own, first, last) <==> fault.NoNode? || fault.NotAdded?)
  }

  lemma FaultMeans(fault: Fault, main: Answers, asked: nat, asked': nat, own: Answers, first: nat, last: nat)
    requires asked <= asked' && first <= last
    ensures FaultIs(fault, main, asked, asked', own, first, last) <==>
      && (Denied(main, asked, asked') <==> fault.NoSlot? || fault.NotDeposited?)
      && (Denied(own, first, last) <==> fault.NoNode? || fault.NotAdded?)
  {
  }

  lemma NoFaultYet(main: Answers, asked: nat, own: Answers, first: nat)
    ensures FaultIs(NoFault, main, asked, asked, own, first, first)
  {
  }

  lemma FaultLater(fault: Fault, main: Answers, asked: nat, between: nat, asked': nat, own: Answers, first: nat,
                   middle: nat, last: nat)
    requires FaultIs(NoFault, main, asked, between, own, first, middle)
    requires FaultIs(fault, main, between, asked', own, middle, last)
    ensures FaultIs(fault, main, asked, asked', own, first, last)
  {
    hide Denied;
    DeniedIn(main, asked, between, asked');
    DeniedIn(own, first, middle, last);
  }

  // perform_sub_allocation: if the sub-allocator returns no node, this is never because none is there.
  method PerformSubAllocation(alloc: SplitAllocator, base: nat, goal: nat, max: nat, main: Answers, asked: nat,
                              ghost end: nat, ghost g: nat)
    returns (bits: nat, fault: Fault, asked': nat)
    requires alloc.Valid() && alloc.forest.RootsApart() && Remaining(alloc.forest, base, end)
    requires base < goal <= end && 1 <= g <= max <= 62 && AlignedTo(base, g) && AlignedTo(goal, g)
    modifies alloc`forest, alloc`asked, alloc.lists, alloc.lists.heads, alloc.forest.nodes.Keys
    ensures alloc.Valid() && fresh(alloc.forest.nodes.Keys - old(alloc.forest.nodes.Keys))
    ensures FaultIs(fault, main, asked, asked', alloc.answers, old(alloc.asked), alloc.asked)
    ensures fault.NoFault? ==>
      && bits == NextAlignmentBits(base, goal, max)
      && base < base + Pow2(bits) <= goal && AlignedTo(base + Pow2(bits), g)
      && Remaining(alloc.forest, base + Pow2(bits), end) && alloc.forest.RootsApart()
      && KeepsRoots(old(alloc.forest), alloc.forest)
  {
    hide *;
    alloc.Parts();
    bits, fault, asked' := NextAlignmentBits(base, goal, max), NoSlot, asked + 1;
    SubAllocationSize(base, goal, max, g);
    DeniedOnce(main, asked);
    DeniedOnce(main, asked + 1);
    DeniedIn(main, asked, asked + 1, asked + 2);
    DeniedOnce(alloc.answers, alloc.asked);
    FaultMeans(NoSlot, main, asked, asked + 1, alloc.answers, alloc.asked, alloc.asked);
    if !main(asked) {
      return;
    }
    BlockAtCur(alloc.forest, base, end, bits);
    RoomIsFound(alloc.forest, bits, base, end);
    var node, oom; ghost var middle;
    node, oom, middle := alloc.Alloc(bits, true, base, true);
    FaultMeans(NoNode, main, asked, asked + 1, alloc.answers, old(alloc.asked), alloc.asked);
    if node == null {
      fault := NoNode;
      return;
    }
    asked' := asked + 2;
    fault := if main(asked + 1) then NoFault else NotDeposited;
    FaultMeans(fault, main, asked, asked + 2, alloc.answers, old(alloc.asked), alloc.asked);
    if fault != NoFault {
      return;
    }
    StepRemaining(old(alloc.forest), middle, node, base, bits, end);
    GrewKeepsRoots(old(alloc.forest), middle, base, node);
  }

  lemma SubAllocationSize(base: nat, goal: nat, max: nat, g: nat)
    requires base < goal && 1 <= g <= max <= 62 && AlignedTo(base, g) && AlignedTo(goal, g)
    ensures var bits := NextAlignmentBits(base, goal, max);
      && 1 <= bits <= 62 && AlignedTo(base, bits) && base % Pow2(bits) == 0 && base != NO_PADDR
      && base < base + Pow2(bits) <= goal && AlignedTo(base + Pow2(bits), g)
  {
    hide Pow2, NextAlignmentBits, Log2, Ctz;
    var bits := NextAlignmentBits(base, goal, max);
    NextPiece(base, goal, max);
    AlignedSum(base, goal - base, g);
    AlignedIsBig(goal - base, g);
    NextPieceIsBiggest(base, goal, max, g);
    Pow2IsAligned(bits);
    AlignedToLess(Pow2(bits), bits, g);
    AlignedSum(base, Pow2(bits), g);
    AlignedToLess(base, g, 1);
    TwoIs();
  }

  lemma TwoIs()
    ensures Pow2(1) == 2
  {
  }

  lemma RoomIsFound(f: Forest, bits: nat, base: nat, end: nat)
    requires f.Valid() && Remaining(f, base, end) && PoolHasRoom(f, DEV, base, bits) && base != NO_PADDR
    ensures Servable(f, bits, base, true)
  {
    hide Pow2, Forest.Valid, PoolHasRoom, Servable;
    assert Splittable(f);
    RoomIsServable(f, bits, base, true);
  }

  // g has the roots of f and no more.
  ghost predicate KeepsRoots(f: Forest, g: Forest) {
    forall r | r in g.nodes && g.Root(r) :: r in f.nodes && g.nodes[r] == f.nodes[r]
  }

  lemma GrewKeepsRoots(f: Forest, g: Forest, paddr: nat, node: Node)
    requires Grew(f, g, paddr)
    ensures KeepsRoots(f, g.Take(node))
  {
  }

  // How far the cutting has come.
  ghost predicate Progress(pieces: seq<Piece>, regions: seq<Region>, i: nat, start: nat, cur: nat, end: nat, max: nat) {
    && start <= cur <= end
    && Tiles(pieces, start, cur)
    && MemoryIsRam(pieces, regions)
    && Labelled(pieces, regions, end)
    && Sized(pieces, regions, end, max) && Bounded(pieces, max)
    && Passed(regions, i, cur, end)
  }

  predicate Overlaps(r: Region, cur: nat, end: nat) {
    r.ram && !(cur >= r.End() || end <= r.base)
  }

  lemma ProgressByPiece(pieces: seq<Piece>, regions: seq<Region>, i: nat, start: nat, cur: nat, end: nat, p: Piece,
                        max: nat)
    requires Progress(pieces, regions, i, start, cur, end, max) && i <= |regions|
    requires cur < end && p.base == cur && p.End() <= end
    requires (p.mem ==> InsideRam(p, regions)) && PieceLabelled(p, regions, end)
    requires PieceSized(p, regions, end, max) && p.bits <= max
    ensures Progress(pieces + [p], regions, i, start, p.End(), end, max)
  {
    hide Pow2, InsideRam, PieceLabelled, PieceSized;
    TilesGrow(pieces, start, cur, p);
  }

  // In front of a region that overlaps what is left, and in it
  lemma AtRegion(pieces: seq<Piece>, regions: seq<Region>, i: nat, start: nat, cur: nat, end: nat, p: Piece, max: nat)
    requires Progress(pieces, regions, i, start, cur, end, max) && i < |regions| && Overlaps(regions[i], cur, end)
    requires p.base == cur && p.End() <= end
    requires if p.mem then regions[i].base <= p.base && p.End() <= regions[i].End() else p.End() <= regions[i].base
    requires var goal := if p.mem then Min(regions[i].End(), end) else regions[i].base;
      cur < goal && p.bits == NextAlignmentBits(cur, goal, max)
    ensures PieceLabelled(p, regions, end) && (p.mem ==> InsideRam(p, regions))
    ensures PieceSized(p, regions, end, max) && p.bits <= max
  {
    hide Pow2, Tiles, MemoryIsRam, Labelled, Sized, Bounded, NextAlignmentBits, PieceSized, GoalAt;
    forall a: nat | p.Has(a)
      ensures FirstAbove(regions, i, end, a)
    {
    }
    NextPiece(cur, if p.mem then Min(regions[i].End(), end) else regions[i].base, max);
    PieceEnd(p);
    assert p.Has(cur);
    GoalIs(regions, i, end, cur);
    SizedByGoal(p, regions, end, max);
  }

  // A piece of the size the source chooses
  lemma SizedByGoal(p: Piece, regions: seq<Region>, end: nat, max: nat)
    requires p.base < GoalAt(regions, end, p.base)
    requires p.bits == NextAlignmentBits(p.base, GoalAt(regions, end, p.base), max)
    ensures PieceSized(p, regions, end, max) && p.bits <= max
  {
    hide Pow2, AlignedTo, NextAlignmentBits, GoalAt;
    var goal := GoalAt(regions, end, p.base);
    NextPiece(p.base, goal, max);
    forall b | p.bits < b <= max && AlignedTo(p.base, b)
      ensures goal < p.base + Pow2(b)
    {
      NextPieceIsBiggest(p.base, goal, max, b);
    }
  }

  lemma AfterRegions(pieces: seq<Piece>, regions: seq<Region>, start: nat, cur: nat, end: nat, p: Piece, max: nat)
    requires Progress(pieces, regions, |regions|, start, cur, end, max) && cur < end
    requires p.base == cur && p.End() <= end && !p.mem
    ensures PieceLabelled(p, regions, end) && GoalAt(regions, end, cur) == end
  {
    hide Pow2, Tiles, MemoryIsRam, Labelled, Sized, Bounded;
  }

  lemma PassRegion(pieces: seq<Piece>, regions: seq<Region>, i: nat, start: nat, cur: nat, end: nat, max: nat)
    requires Progress(pieces, regions, i, start, cur, end, max) && i < |regions|
    requires !regions[i].ram || regions[i].End() <= cur || end <= regions[i].base || cur == end
    ensures Progress(pieces, regions, i + 1, start, cur, end, max)
  {
    hide Pow2, Tiles, MemoryIsRam, Labelled, Sized, Bounded;
  }

  // The while loop for one region
  method CutRegion(alloc: SplitAllocator, regions: seq<Region>, i: nat, ghost start: nat, end: nat, max: nat,
                   main: Answers, asked: nat, ghost g: nat, before: seq<Piece>, from: nat)
    returns (pieces: seq<Piece>, paddr: nat, fault: Fault, asked': nat)
    requires alloc.Valid() && alloc.forest.RootsApart() && Remaining(alloc.forest, from, end)
    requires i < |regions| && Overlaps(regions[i], from, end) && Progress(before, regions, i, start, from, end, max)
    requires 1 <= g <= max <= 62 && g <= 12 && AlignedTo(from, g) && AlignedTo(end, g) && PageAligned(regions)
    modifies alloc`forest, alloc`asked, alloc.lists, alloc.lists.heads, alloc.forest.nodes.Keys
    ensures alloc.Valid() && fresh(alloc.forest.nodes.Keys - old(alloc.forest.nodes.Keys))
    ensures FaultIs(fault, main, asked, asked', alloc.answers, old(alloc.asked), alloc.asked)
    ensures fault.NoFault? ==>
      && Remaining(alloc.forest, paddr, end) && alloc.forest.RootsApart() && AlignedTo(paddr, g)
      && Progress(pieces, regions, i + 1, start, paddr, end, max) && KeepsRoots(old(alloc.forest), alloc.forest)
  {
    hide Pow2, AlignedTo, Remaining, KeepsRoots, Progress, SplitAllocator.Valid, InsideRam, PieceLabelled,
      NextAlignmentBits, Forest.RootsApart, FaultIs, Denied, PieceSized;
    pieces, paddr, fault, asked' := before, from, NoFault, asked;
    NoFaultYet(main, asked, alloc.answers, alloc.asked);
    var region := regions[i];
    ProgressBounds(pieces, regions, i, start, paddr, end, max);
    AlignedToLess(region.base, 12, g);
    AlignedToLess(region.End(), 12, g);
    var top := Min(region.End(), end);
    KeepsRootsIs(alloc.forest);
    while paddr < top
      invariant paddr <= top && fault.NoFault?
      invariant FaultIs(NoFault, main, asked, asked', alloc.answers, old(alloc.asked), alloc.asked)
      invariant alloc.Valid() && fresh(alloc.forest.nodes.Keys - old(alloc.forest.nodes.Keys))
      invariant Remaining(alloc.forest, paddr, end) && alloc.forest.RootsApart() && AlignedTo(paddr, g)
      invariant Progress(pieces, regions, i, start, paddr, end, max) && KeepsRoots(old(alloc.forest), alloc.forest)
    {
      var goal, mem := top, true;
      if paddr < region.base {
        goal, mem := region.base, false;
      }
      ghost var f, between, middle := alloc.forest, asked', alloc.asked;
      var bits;
      bits, fault, asked' := PerformSubAllocation(alloc, paddr, goal, max, main, asked', end, g);
      FaultLater(fault, main, asked, between, asked', alloc.answers, old(alloc.asked), middle, alloc.asked);
      if !fault.NoFault? {
        return;
      }
      KeepsRootsTwice(old(alloc.forest), f, alloc.forest);
      var p := Piece(paddr, bits, mem);
      AtRegion(pieces, regions, i, start, paddr, end, p, max);
      ProgressByPiece(pieces, regions, i, start, paddr, end, p, max);
      pieces, paddr := pieces + [p], paddr + Pow2(bits);
    }
    PassRegion(pieces, regions, i, start, paddr, end, max);
  }

  lemma ProgressBounds(pieces: seq<Piece>, regions: seq<Region>, i: nat, start: nat, cur: nat, end: nat, max: nat)
    requires Progress(pieces, regions, i, start, cur, end, max)
    ensures start <= cur <= end
  {
  }

  lemma KeepsRootsIs(f: Forest)
    ensures KeepsRoots(f, f)
  {
  }

  lemma KeepsRootsTwice(f: Forest, g: Forest, h: Forest)
    requires KeepsRoots(f, g) && KeepsRoots(g, h)
    ensures KeepsRoots(f, h)
  {
  }

  // The sub-allocator as it is between calls: nothing free, and the untypeds it has seen do not overlap.
  ghost predicate Drained(f: Forest) {
    f.free == {} && f.RootsApart()
  }

  // Only the addresses in [start, end) came under the allocator's management.
  ghost predicate OnlyAdds(f: Forest, g: Forest, start: nat, end: nat) {
    forall r: Node, a: nat | r in g.nodes && g.Root(r) && g.Covers(r, a) ::
      (start <= a < end) || (r in f.nodes && f.Root(r) && f.Covers(r, a))
  }

  // handle_device_untyped_cap: pieces are the untypeds that reach the main allocator.
  method HandleDeviceUntyped(alloc: SplitAllocator, paddr: nat, bits: nat, regions: seq<Region>, max: nat,
                             main: Answers, asked: nat)
    returns (pieces: seq<Piece>, fault: Fault, asked': nat)
    requires alloc.Valid() && Drained(alloc.forest)
    requires 1 <= bits <= 62 && 12 <= max <= 62 && AlignedTo(paddr, bits) && PageAligned(regions)
    requires FreshRange(alloc.forest, paddr, paddr + Pow2(bits))
    modifies alloc`forest, alloc`asked, alloc.lists, alloc.lists.heads, alloc.forest.nodes.Keys
    ensures alloc.Valid() && fresh(alloc.forest.nodes.Keys - old(alloc.forest.nodes.Keys))
    ensures FaultIs(fault, main, asked, asked', alloc.answers, old(alloc.asked), alloc.asked)
    ensures fault.NoFault? ==>
      && Tiles(pieces, paddr, paddr + Pow2(bits)) && MemoryIsRam(pieces, regions)
      && Labelled(pieces, regions, paddr + Pow2(bits)) && (SortedRam(regions) ==> RamIsMemory(pieces, regions))
      && Sized(pieces, regions, paddr + Pow2(bits), max)
      && (Bounded(pieces, max) || pieces == [Piece(paddr, bits, false)])
      && Drained(alloc.forest) && OnlyAdds(old(alloc.forest), alloc.forest, paddr, paddr + Pow2(bits))
  {
    hide *;
    ghost var start, g, f := paddr, Granule(bits), alloc.forest;
    var end, cur := paddr + Pow2(bits), paddr;
    pieces, fault, asked' := [], NoFault, asked;
    var tainted, i := false, 0;
    NoFaultYet(main, asked, alloc.answers, alloc.asked);
    ProgressStarts(regions, start, bits, max);
    KeepsRootsIs(alloc.forest);
    while i < |regions|
      invariant i <= |regions| && fault.NoFault? && paddr <= cur <= end
      invariant FaultIs(NoFault, main, asked, asked', alloc.answers, old(alloc.asked), alloc.asked)
      invariant alloc.Valid() && fresh(alloc.forest.nodes.Keys - old(alloc.forest.nodes.Keys))
      invariant Progress(pieces, regions, i, start, cur, end, max) && AlignedTo(cur, g)
      invariant !tainted ==>
        && pieces == [] && cur == paddr && alloc.forest == old(alloc.forest)
        && asked' == asked && alloc.asked == old(alloc.asked)
      invariant tainted ==>
        && Remaining(alloc.forest, cur, end) && alloc.forest.RootsApart() && KeepsRoots(f, alloc.forest)
        && OnlyAdds(old(alloc.forest), f, start, end)
    {
      OverlapsIs(regions[i], cur, end);
      if Overlaps(regions[i], cur, end) {
        if !tainted {
          tainted := true;
          var error; ghost var roots;
          StartFacts(paddr, bits);
          alloc.Parts();
          error, roots := alloc.AddUntypeds([bits], [paddr], 1);
          DeniedOnce(main, asked);
          FaultMeans(if error == 0 then NoFault else NotAdded, main, asked, asked, alloc.answers, old(alloc.asked),
                     alloc.asked);
          if error != 0 {
            // The source carries on here, but its next sub-allocation then fails and aborts.
            fault := NotAdded;
            return;
          }
          AddedRoot(old(alloc.forest), alloc.forest, roots, bits, paddr);
          f := alloc.forest;
          KeepsRootsIs(f);
        }
        ghost var before, between, middle := alloc.forest, asked', alloc.asked;
        pieces, cur, fault, asked' := CutRegion(alloc, regions, i, start, end, max, main, asked', g, pieces, cur);
        FaultLater(fault, main, asked, between, asked', alloc.answers, old(alloc.asked), middle, alloc.asked);
        if !fault.NoFault? {
          return;
        }
        ProgressBounds(pieces, regions, i + 1, start, cur, end, max);
        KeepsRootsTwice(f, before, alloc.forest);
      } else {
        PassRegion(pieces, regions, i, start, cur, end, max);
      }
      i := i + 1;
    }
    if !tainted {
      fault, asked' := if main(asked) then NoFault else NotDeposited, asked + 1;
      DeniedOnce(main, asked);
      DeniedOnce(alloc.answers, alloc.asked);
      FaultMeans(fault, main, asked, asked', alloc.answers, alloc.asked, alloc.asked);
      WholeUntyped(pieces, regions, start, bits, max);
      OnlyAddsNothing(alloc.forest, start, end);
      pieces := [Piece(paddr, bits, false)];
      SortedIsLabelled(pieces, regions, start, end);
      return;
    }
    while cur < end
      invariant fault.NoFault? && cur <= end
      invariant FaultIs(NoFault, main, asked, asked', alloc.answers, old(alloc.asked), alloc.asked)
      invariant alloc.Valid() && fresh(alloc.forest.nodes.Keys - old(alloc.forest.nodes.Keys))
      invariant Progress(pieces, regions, |regions|, start, cur, end, max) && AlignedTo(cur, g)
      invariant Remaining(alloc.forest, cur, end) && alloc.forest.RootsApart() && KeepsRoots(f, alloc.forest)
      invariant OnlyAdds(old(alloc.forest), f, start, end)
    {
      ghost var before, between, middle := alloc.forest, asked', alloc.asked;
      var next;
      next, fault, asked' := PerformSubAllocation(alloc, cur, end, max, main, asked', end, g);
      FaultLater(fault, main, asked, between, asked', alloc.answers, old(alloc.asked), middle, alloc.asked);
      if !fault.NoFault? {
        return;
      }
      KeepsRootsTwice(f, before, alloc.forest);
      var p := Piece(cur, next, false);
      PieceEnd(p);
      AfterRegions(pieces, regions, start, cur, end, p, max);
      SizedByGoal(p, regions, end, max);
      ProgressByPiece(pieces, regions, |regions|, start, cur, end, p, max);
      pieces, cur := pieces + [p], cur + Pow2(next);
    }
    alloc.Parts();
    Finished(pieces, regions, start, end, old(alloc.forest), f, alloc.forest, max);
    SortedIsLabelled(pieces, regions, start, end);
  }

  lemma SortedIsLabelled(pieces: seq<Piece>, regions: seq<Region>, start: nat, end: nat)
    requires Tiles(pieces, start, end) && Labelled(pieces, regions, end)
    ensures SortedRam(regions) ==> RamIsMemory(pieces, regions)
  {
    hide Tiles, Labelled, InRam, Lands, RamIsMemory;
    LabelsDecide(pieces, regions, start, end);
    if SortedRam(regions) {
      forall a: nat | start <= a < end && InRam(regions, a)
        ensures Lands(regions, end, a)
      {
        SortedLands(regions, end, a);
      }
    }
  }

  // 4K of RAM behind 8K of RAM in the list, but in front of it in the untyped
  const LATE_REGION := [Region(0x2000, 0x2000, true), Region(0, 0x1000, true)]

  // Such a region is labelled as a device.
  method LateRegionIsMissed() returns (pieces: seq<Piece>)
    ensures Tiles(pieces, 0, 0x4000) && MemoryIsRam(pieces, LATE_REGION) && !RamIsMemory(pieces, LATE_REGION)
  {
    hide Tiles, MemoryIsRam, RamIsMemory, Labelled, SplitAllocator.Valid;
    var alloc := new SplitAllocator(_ => true);
    LateRegion();
    var fault, asked;
    pieces, fault, asked := HandleDeviceUntyped(alloc, 0, 14, LATE_REGION, 47, _ => true, 0);
    assert fault == NoFault;
    LabelsDecide(pieces, LATE_REGION, 0, 0x4000);
  }

  lemma LateRegion()
    ensures Pow2(14) == 0x4000 && AlignedTo(0, 14) && PageAligned(LATE_REGION)
    ensures InRam(LATE_REGION, 0) && !Lands(LATE_REGION, 0x4000, 0)
  {
    assert LATE_REGION[1].base <= 0 < LATE_REGION[1].End();
    forall j: nat | FirstAbove(LATE_REGION, j, 0x4000, 0)
      ensures LATE_REGION[j].base > 0
    {
      assert LATE_REGION[0].End() > 0;
    }
  }

  lemma OverlapsIs(r: Region, cur: nat, end: nat)
    ensures !Overlaps(r, cur, end) ==> !r.ram || r.End() <= cur || end <= r.base
  {
  }

  lemma PieceEnd(p: Piece)
    ensures p.End() == p.base + Pow2(p.bits)
  {
  }

  lemma ProgressStarts(regions: seq<Region>, start: nat, bits: nat, max: nat)
    requires 1 <= bits && AlignedTo(start, bits)
    ensures Progress([], regions, 0, start, start, start + Pow2(bits), max)
    ensures 1 <= Granule(bits) <= 12
    ensures AlignedTo(start, Granule(bits)) && AlignedTo(start + Pow2(bits), Granule(bits))
    ensures start < start + Pow2(bits)
  {
    hide Pow2, AlignedTo;
    AlignedToLess(start, bits, Granule(bits));
    Pow2IsAligned(bits);
    AlignedToLess(Pow2(bits), bits, Granule(bits));
    AlignedSum(start, Pow2(bits), Granule(bits));
  }

  lemma StartFacts(paddr: nat, bits: nat)
    requires 1 <= bits && AlignedTo(paddr, bits)
    ensures paddr % Pow2(bits) == 0 && paddr != NO_PADDR
  {
    hide Pow2;
    AlignedToLess(paddr, bits, 1);
    TwoIs();
  }

  // The forest after the untyped was added to a drained allocator.
  lemma AddedRoot(f: Forest, g: Forest, roots: seq<Node>, bits: nat, paddr: nat)
    requires f.Valid() && Drained(f) && 1 <= bits <= 62 && AlignedTo(paddr, bits)
    requires FreshRange(f, paddr, paddr + Pow2(bits))
    requires |roots| == 1 && roots[0] !in f.nodes && g == f.AddRoots(roots, 1, [bits], [paddr])
    ensures Remaining(g, paddr, paddr + Pow2(bits)) && g.RootsApart() && OnlyAdds(f, g, paddr, paddr + Pow2(bits))
  {
    hide Pow2, Remaining, Forest.Valid, AlignedTo, Forest.RootsApart;
    StartFacts(paddr, bits);
    assert g == f.AddRoot(roots[0], Slot(DEV, bits), paddr);
    DrainedIsCoalesced(f);
    f.AddRootKeeps(roots[0], Slot(DEV, bits), paddr);
    NoHalves(f, roots[0]);
    RemainingStarts(f, roots[0], bits, paddr);
  }

  lemma DrainedIsCoalesced(f: Forest)
    requires Drained(f)
    ensures f.Coalesced()
  {
  }

  lemma NoHalves(f: Forest, n: Node)
    requires f.Valid() && n !in f.nodes
    ensures n !in f.halves
  {
  }

  lemma WholeUntyped(pieces: seq<Piece>, regions: seq<Region>, start: nat, bits: nat, max: nat)
    requires Progress(pieces, regions, |regions|, start, start, start + Pow2(bits), max) && pieces == []
    requires AlignedTo(start, bits)
    ensures var all, end := [Piece(start, bits, false)], start + Pow2(bits);
      && Tiles(all, start, end) && MemoryIsRam(all, regions)
      && Labelled(all, regions, end) && Sized(all, regions, end, max)
  {
    hide *;
    var p, end := Piece(start, bits, false), start + Pow2(bits);
    PieceEnd(p);
    AfterRegions(pieces, regions, start, start, end, p, max);
    WholeIsSized(p, regions, end, max);
    OnePiece(p, regions, end, max);
  }

  lemma OnePiece(p: Piece, regions: seq<Region>, end: nat, max: nat)
    requires PieceLabelled(p, regions, end) && !p.mem && PieceSized(p, regions, end, max)
    ensures Tiles([p], p.base, p.End()) && MemoryIsRam([p], regions)
    ensures Labelled([p], regions, end) && Sized([p], regions, end, max)
  {
    hide PieceLabelled, PieceSized, Piece.End;
    assert [p][..0] == [];
  }

  lemma WholeIsSized(p: Piece, regions: seq<Region>, end: nat, max: nat)
    requires AlignedTo(p.base, p.bits) && p.End() == end && GoalAt(regions, end, p.base) == end
    ensures PieceSized(p, regions, end, max)
  {
    hide AlignedTo, Pow2, GoalAt;
    forall b | p.bits < b
      ensures Pow2(p.bits) < Pow2(b)
    {
      Pow2Order(p.bits + 1, b);
      Pow2Grows(p.bits);
    }
  }

  lemma Pow2Grows(b: nat)
    ensures Pow2(b) < Pow2(b + 1)
  {
  }

  lemma OnlyAddsNothing(f: Forest, start: nat, end: nat)
    ensures OnlyAdds(f, f, start, end)
  {
  }

  lemma Finished(pieces: seq<Piece>, regions: seq<Region>, start: nat, end: nat, f: Forest, g: Forest, h: Forest,
                 max: nat)
    requires Progress(pieces, regions, |regions|, start, end, end, max)
    requires h.Valid() && Remaining(h, end, end) && h.RootsApart() && KeepsRoots(g, h) && OnlyAdds(f, g, start, end)
    ensures Tiles(pieces, start, end) && MemoryIsRam(pieces, regions) && Labelled(pieces, regions, end)
    ensures Sized(pieces, regions, end, max) && Bounded(pieces, max)
    ensures Drained(h) && OnlyAdds(f, h, start, end)
  {
    hide Pow2, Remaining, Forest.Valid, OnlyAdds;
    NothingRemains(h, end);
    OnlyAddsStill(f, g, h, start, end);
  }

  lemma OnlyAddsStill(f: Forest, g: Forest, h: Forest, start: nat, end: nat)
    requires KeepsRoots(g, h) && OnlyAdds(f, g, start, end)
    ensures OnlyAdds(f, h, start, end)
  {
    hide Pow2;
    forall r: Node, a: nat | r in h.nodes && h.Root(r) && h.Covers(r, a)
      ensures (start <= a < end) || (r in f.nodes && f.Root(r) && f.Covers(r, a))
    {
      assert g.Root(r) && g.Covers(r, a);
    }
  }
}
