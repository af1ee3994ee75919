// The free blocks of the K&R heap as a sequence ordered by address (libsel4allocman/src/mspace/k_r_malloc.c).
// Addresses and sizes are counted in units of sizeof(k_r_malloc_header_t).
module FreeBlocks {
  datatype Block = Block(start: nat, size: nat) {
    function End(): nat {
      start + size
    }
  }

  // Ordered by address, never adjacent. Only the list header at base has no units.
  ghost predicate Ordered(free: seq<Block>, base: nat) {
    && (forall i, j | 0 <= i < j < |free| :: free[i].End() < free[j].start)
    && (forall i | 0 <= i < |free| :: free[i].size == 0 <==> free[i].start == base)
  }

  ghost predicate HasBase(free: seq<Block>, base: nat) {
    exists i :: 0 <= i < |free| && free[i].start == base
  }

  predicate Within(u: nat, start: nat, size: nat) {
    start <= u < start + size
  }

  function Range(start: nat, size: nat): set<nat> {
    set u: nat | start <= u < start + size && Within(u, start, size)
  }

  function Units(free: seq<Block>): set<nat> {
    if free == [] then {} else Units(free[..|free| - 1]) + Range(free[|free| - 1].start, free[|free| - 1].size)
  }

  lemma {:induction false} InUnits(free: seq<Block>, u: nat)
    ensures u in Units(free) <==> exists i :: 0 <= i < |free| && free[i].start <= u < free[i].End()
    decreases |free|
  {
    if free != [] {
      var n := |free| - 1;
      var rest := free[..n];
      InUnits(rest, u);
      if i :| 0 <= i < |free| && free[i].start <= u < free[i].End() {
        if i < n {
          assert rest[i].start <= u < rest[i].End();
        }
      }
      if i :| 0 <= i < n && rest[i].start <= u < rest[i].End() {
        assert free[i].start <= u < free[i].End();
      }
    }
  }

  function TotalSize(free: seq<Block>): nat {
    if free == [] then 0 else TotalSize(free[..|free| - 1]) + free[|free| - 1].size
  }

  lemma {:induction false} RangeSize(start: nat, size: nat)
    ensures |Range(start, size)| == size
    decreases size
  {
    if size > 0 {
      RangeSize(start, size - 1);
      assert Range(start, size) == Range(start, size - 1) + {start + size - 1};
    }
  }

  lemma {:induction false} UnitsBelow(free: seq<Block>, base: nat, limit: nat)
    requires Ordered(free, base) && forall i | 0 <= i < |free| :: free[i].End() <= limit
    ensures forall u | u in Units(free) :: u < limit
  {
    forall u | u in Units(free)
      ensures u < limit
    {
      InUnits(free, u);
    }
  }

  // The sizes add up to the number of free units.
  lemma {:induction false} UnitsCount(free: seq<Block>, base: nat)
    requires Ordered(free, base)
    ensures |Units(free)| == TotalSize(free)
    decreases |free|
  {
    if free != [] {
      var n := |free| - 1;
      UnitsCount(free[..n], base);
      UnitsBelow(free[..n], base, free[n].start);
      RangeSize(free[n].start, free[n].size);
      assert Units(free[..n]) !! Range(free[n].start, free[n].size);
    }
  }

  // --- the free units determine the list

  lemma {:induction false} FreeUnitsDecide(f: seq<Block>, g: seq<Block>, base: nat)
    requires Ordered(f, base) && Ordered(g, base) && (HasBase(f, base) <==> HasBase(g, base))
    requires Units(f) == Units(g)
    ensures f == g
    decreases |f| + |g|
  {
    hide *;
    if f == [] {
      NoUnitsIs(f);
      NoUnits(g, base);
    } else if g == [] {
      NoUnitsIs(g);
      NoUnits(f, base);
    } else {
      var m, n := |f| - 1, |g| - 1;
      LastIsSame(f, g, base);
      LastIsSame(g, f, base);
      SameBlock(f[m], g[n]);
      WithoutLast(f, base);
      WithoutLast(g, base);
      FreeUnitsDecide(f[..m], g[..n], base);
      assert f == f[..m] + [f[m]] && g == g[..n] + [g[n]];
    }
  }

  lemma SameBlock(a: Block, b: Block)
    requires a.End() == b.End() && a.start == b.start
    ensures a == b
  {
  }

  lemma NoUnitsIs(f: seq<Block>)
    requires f == []
    ensures Units(f) == {} && forall base :: !HasBase(f, base)
  {
  }

  lemma NoUnits(f: seq<Block>, base: nat)
    requires Ordered(f, base) && Units(f) == {} && !HasBase(f, base)
    ensures f == []
  {
    if f != [] {
      InUnits(f, f[0].start);
    }
  }

  // Neither list can end above the other, and the blocks at the end start at the same place.
  lemma LastIsSame(f: seq<Block>, g: seq<Block>, base: nat)
    requires f != [] && g != [] && Ordered(f, base) && Ordered(g, base) && (HasBase(f, base) <==> HasBase(g, base))
    requires Units(f) == Units(g)
    ensures f[|f| - 1].End() <= g[|g| - 1].End()
    ensures f[|f| - 1].End() == g[|g| - 1].End() ==> f[|f| - 1].start <= g[|g| - 1].start
  {
    var a, b := f[|f| - 1], g[|g| - 1];
    if g[|g| - 1].End() < a.End() {
      assert a.size == 0 ==> a.start == base;
      if a.size > 0 {
        InUnits(f, a.End() - 1);
        InUnits(g, a.End() - 1);
      }
    }
    if a.End() == b.End() && b.start < a.start {
      InUnits(g, a.start - 1);
      InUnits(f, a.start - 1);
    }
  }

  lemma WithoutLast(f: seq<Block>, base: nat)
    requires f != [] && Ordered(f, base)
    ensures var n := |f| - 1;
      && Ordered(f[..n], base) && Units(f[..n]) == Units(f) - Range(f[n].start, f[n].size)
      && (HasBase(f[..n], base) <==> HasBase(f, base) && f[n].size != 0)
  {
    var n := |f| - 1;
    UnitsBelow(f[..n], base, f[n].start);
    if HasBase(f, base) && f[n].size != 0 {
      var i :| 0 <= i < |f| && f[i].start == base;
      assert f[..n][i].start == base;
    }
  }

  // --- what alloc and free make of the list

  function Without(free: seq<Block>, k: nat): seq<Block>
    requires k < |free|
  {
    free[..k] + free[k + 1..]
  }

  // The tail of block k is handed out.
  function Shrunk(free: seq<Block>, k: nat, units: nat): seq<Block>
    requires k < |free| && units <= free[k].size
  {
    free[k := Block(free[k].start, free[k].size - units)]
  }

  predicate JoinsUpper(free: seq<Block>, i: nat, b: Block) {
    i < |free| && b.End() == free[i].start
  }

  predicate JoinsLower(free: seq<Block>, i: nat, b: Block) {
    0 < i <= |free| && free[i - 1].End() == b.start
  }

  // Block b is put in front of block i, and joined with the neighbours it touches.
  function Inserted(free: seq<Block>, i: nat, b: Block): seq<Block>
    requires i <= |free|
  {
    var low, high := JoinsLower(free, i, b), JoinsUpper(free, i, b);
    var start := if low then free[i - 1].start else b.start;
    var size := (if low then free[i - 1].size else 0) + b.size + (if high then free[i].size else 0);
    (if low then free[..i - 1] else free[..i]) + [Block(start, size)] + (if high then free[i + 1..] else free[i..])
  }

  // Index i is the place of address a in the list.
  ghost predicate PlaceOf(free: seq<Block>, i: nat, a: nat) {
    && i <= |free|
    && (forall j | 0 <= j < i :: free[j].start < a)
    && (forall j | i <= j < |free| :: a < free[j].start)
  }

  lemma PlaceIsIndex(free: seq<Block>, i: nat, a: nat)
    requires PlaceOf(free, i, a)
    ensures i <= |free|
  {
  }

  // Block b has no unit in common with the list, and does not end at the list header.
  ghost predicate Apart(free: seq<Block>, b: Block, base: nat) {
    && 0 < b.size && b.End() != base && !(b.start <= base < b.End())
    && (forall u | b.start <= u < b.End() :: u !in Units(free))
  }

  lemma NeighboursOf(free: seq<Block>, i: nat, b: Block, base: nat)
    requires Ordered(free, base) && PlaceOf(free, i, b.start) && Apart(free, b, base)
    ensures forall j | 0 <= j < i :: free[j].End() <= b.start
    ensures forall j | i <= j < |free| :: b.End() <= free[j].start
  {
    forall j | 0 <= j < i
      ensures free[j].End() <= b.start
    {
      InUnits(free, b.start);
    }
    forall j | i <= j < |free|
      ensures b.End() <= free[j].start
    {
      InUnits(free, free[j].start);
    }
  }

  // The blocks low..high of the list make way for block m.
  function Spliced(free: seq<Block>, low: nat, high: nat, m: Block): seq<Block>
    requires low <= high <= |free|
  {
    free[..low] + [m] + free[high..]
  }

  lemma InsertedIsSpliced(free: seq<Block>, i: nat, b: Block, base: nat) returns (low: nat, high: nat, m: Block)
    requires Ordered(free, base) && PlaceOf(free, i, b.start) && Apart(free, b, base)
    ensures low <= i <= high <= |free| && Inserted(free, i, b) == Spliced(free, low, high, m)
    ensures 0 < m.size && m.start != base
    ensures low == if JoinsLower(free, i, b) then i - 1 else i
    ensures high == if JoinsUpper(free, i, b) then i + 1 else i
    ensures m.start == if JoinsLower(free, i, b) then free[i - 1].start else b.start
    ensures m.End() == if JoinsUpper(free, i, b) then free[i].End() else b.End()
  {
    low := if JoinsLower(free, i, b) then i - 1 else i;
    high := if JoinsUpper(free, i, b) then i + 1 else i;
    m := Inserted(free, i, b)[low];
  }

  lemma InsertedIsOrdered(free: seq<Block>, i: nat, b: Block, base: nat)
    requires Ordered(free, base) && PlaceOf(free, i, b.start) && Apart(free, b, base)
    ensures Ordered(Inserted(free, i, b), base)
  {
    hide Units, Inserted, Spliced, Apart;
    NeighboursOf(free, i, b, base);
    var low, high, m := InsertedIsSpliced(free, i, b, base);
    SplicedIsOrdered(free, low, high, m, base);
  }

  lemma SplicedIsOrdered(free: seq<Block>, low: nat, high: nat, m: Block, base: nat)
    requires Ordered(free, base) && low <= high <= |free| && 0 < m.size && m.start != base
    requires forall j | 0 <= j < low :: free[j].End() < m.start
    requires forall j | high <= j < |free| :: m.End() < free[j].start
    ensures Ordered(Spliced(free, low, high, m), base)
  {
    var g := Spliced(free, low, high, m);
    assert forall j | 0 <= j < low :: g[j] == free[j];
    assert g[low] == m;
    assert forall j | low < j < |g| :: g[j] == free[j - low - 1 + high];
    hide Spliced, Block.End;
    forall i, j | 0 <= i < j < |g|
      ensures g[i].End() < g[j].start
    {
      var x, y := if i < low then i else i - low - 1 + high, if j < low then j else j - low - 1 + high;
      assert i != low && j != low ==> free[x].End() < free[y].start;
      if i < low < j {
        BlockGrows(m);
        assert g[i].End() < m.start;
      }
    }
  }

  lemma BlockGrows(m: Block)
    ensures m.start <= m.End()
  {
  }

  lemma InsertedKeepsBase(free: seq<Block>, i: nat, b: Block, base: nat)
    requires Ordered(free, base) && PlaceOf(free, i, b.start) && Apart(free, b, base) && HasBase(free, base)
    ensures HasBase(Inserted(free, i, b), base)
  {
    hide Units, Inserted, Spliced, Ordered, PlaceOf;
    var k :| 0 <= k < |free| && free[k].start == base;
    var low, high, m := InsertedIsSpliced(free, i, b, base);
    BaseIsNotJoined(free, i, b, base, k);
    SplicedKeeps(free, low, high, m, k);
  }

  lemma BaseIsNotJoined(free: seq<Block>, i: nat, b: Block, base: nat, k: nat)
    requires Ordered(free, base) && Apart(free, b, base) && k < |free| && free[k].start == base
    ensures k == i - 1 ==> !JoinsLower(free, i, b)
    ensures k == i ==> !JoinsUpper(free, i, b)
  {
    assert free[k].size == 0;
  }

  lemma SplicedKeeps(free: seq<Block>, low: nat, high: nat, m: Block, k: nat)
    requires low <= high <= |free| && k < |free| && (k < low || high <= k)
    ensures HasBase(Spliced(free, low, high, m), free[k].start)
  {
    assert Spliced(free, low, high, m)[if k < low then k else k - high + low + 1] == free[k];
  }

  lemma {:induction false} UnitsJoin(f: seq<Block>, g: seq<Block>)
    ensures Units(f + g) == Units(f) + Units(g)
    decreases |g|
  {
    if g == [] {
      assert f + g == f;
    } else {
      var n := |g| - 1;
      UnitsJoin(f, g[..n]);
      assert (f + g)[..|f + g| - 1] == f + g[..n];
    }
  }

  lemma SplicedUnits(free: seq<Block>, low: nat, high: nat, m: Block)
    requires low <= high <= |free|
    ensures Units(free) == Units(free[..low]) + Units(free[low..high]) + Units(free[high..])
    ensures Units(Spliced(free, low, high, m)) == Units(free[..low]) + Range(m.start, m.size) + Units(free[high..])
  {
    hide Units, Range;
    assert free == free[..low] + free[low..high] + free[high..];
    UnitsJoin(free[..low] + free[low..high], free[high..]);
    UnitsJoin(free[..low], free[low..high]);
    UnitsJoin(free[..low] + [m], free[high..]);
    UnitsJoin(free[..low], [m]);
    OneBlock(m);
  }

  lemma OneBlock(m: Block)
    ensures Units([m]) == Range(m.start, m.size)
  {
    assert [m][..0] == [];
  }

  lemma InsertedUnits(free: seq<Block>, i: nat, b: Block, base: nat)
    requires Ordered(free, base) && PlaceOf(free, i, b.start) && Apart(free, b, base)
    ensures Units(Inserted(free, i, b)) == Units(free) + Range(b.start, b.size)
  {
    hide Units, Inserted, Spliced, Apart, PlaceOf, Ordered;
    var low, high, m := InsertedIsSpliced(free, i, b, base);
    SplicedUnits(free, low, high, m);
    MergedUnits(free, i, b, low, high, m);
  }

  // The merged block has the units of its parts.
  lemma MergedUnits(free: seq<Block>, i: nat, b: Block, low: nat, high: nat, m: Block)
    requires low <= i <= high <= |free|
    requires low == if JoinsLower(free, i, b) then i - 1 else i
    requires high == if JoinsUpper(free, i, b) then i + 1 else i
    requires m.start == if JoinsLower(free, i, b) then free[i - 1].start else b.start
    requires m.End() == if JoinsUpper(free, i, b) then free[i].End() else b.End()
    ensures Range(m.start, m.size) == Units(free[low..high]) + Range(b.start, b.size)
  {
    hide Units, Range;
    assert free[low..high] == free[low..i] + free[i..high];
    UnitsJoin(free[low..i], free[i..high]);
    NoBlocks();
    var start, end := free[low..i], free[i..high];
    if low < i {
      assert start == [free[i - 1]];
      OneBlock(free[i - 1]);
      RangeJoin(free[i - 1].start, free[i - 1].size, b.size);
    } else {
      assert start == [];
    }
    if i < high {
      assert end == [free[i]];
      OneBlock(free[i]);
      RangeJoin(m.start, b.End() - m.start, free[i].size);
    } else {
      assert end == [];
    }
  }

  lemma NoBlocks()
    ensures Units([]) == {}
  {
  }

  lemma RangeJoin(start: nat, m: nat, n: nat)
    ensures Range(start, m) + Range(start + m, n) == Range(start, m + n)
  {
  }

  // Taking a whole block out of the list
  lemma WithoutIsFine(free: seq<Block>, k: nat, base: nat)
    requires Ordered(free, base) && k < |free| && 0 < free[k].size
    ensures Ordered(Without(free, k), base) && (HasBase(free, base) ==> HasBase(Without(free, k), base))
    ensures Units(Without(free, k)) == Units(free) - Range(free[k].start, free[k].size)
  {
    hide Units, Range, Ordered;
    WithoutUnits(free, k, base);
    WithoutIsOrdered(free, k, base);
    if i :| 0 <= i < |free| && free[i].start == base {
      BaseIsEmpty(free, i, base);
      assert Without(free, k)[if i < k then i else i - 1].start == base;
    }
  }

  lemma BaseIsEmpty(free: seq<Block>, i: nat, base: nat)
    requires Ordered(free, base) && i < |free| && free[i].start == base
    ensures free[i].size == 0
  {
  }

  lemma WithoutIsOrdered(free: seq<Block>, k: nat, base: nat)
    requires Ordered(free, base) && k < |free|
    ensures Ordered(Without(free, k), base)
  {
    var g := Without(free, k);
    assert forall j | 0 <= j < |g| :: g[j] == if j < k then free[j] else free[j + 1];
    hide Without;
  }

  lemma WithoutUnits(free: seq<Block>, k: nat, base: nat)
    requires Ordered(free, base) && k < |free|
    ensures Units(Without(free, k)) == Units(free) - Range(free[k].start, free[k].size)
  {
    hide Units, Range;
    assert free == free[..k] + [free[k]] + free[k + 1..];
    UnitsJoin(free[..k] + [free[k]], free[k + 1..]);
    UnitsJoin(free[..k], [free[k]]);
    UnitsJoin(free[..k], free[k + 1..]);
    OneBlock(free[k]);
    forall u | u in Units(free[..k]) || u in Units(free[k + 1..])
      ensures u !in Range(free[k].start, free[k].size)
    {
      OnlyInItsBlock(free, k, base, u);
    }
  }

  lemma OnlyInItsBlock(free: seq<Block>, k: nat, base: nat, u: nat)
    requires Ordered(free, base) && k < |free| && (u in Units(free[..k]) || u in Units(free[k + 1..]))
    ensures u !in Range(free[k].start, free[k].size)
  {
    hide Units;
    InUnits(free[..k], u);
    InUnits(free[k + 1..], u);
  }

  // Taking the tail of a block out of the list
  lemma ShrunkIsFine(free: seq<Block>, k: nat, units: nat, base: nat)
    requires Ordered(free, base) && k < |free| && 0 < units < free[k].size
    ensures Ordered(Shrunk(free, k, units), base) && (HasBase(free, base) ==> HasBase(Shrunk(free, k, units), base))
    ensures Units(Shrunk(free, k, units)) == Units(free) - Range(free[k].End() - units, units)
  {
    hide Units, Range;
    ShrunkUnits(free, k, units, base);
    var g := Shrunk(free, k, units);
    if i :| 0 <= i < |free| && free[i].start == base {
      assert g[i].start == base;
    }
  }

  lemma ShrunkUnits(free: seq<Block>, k: nat, units: nat, base: nat)
    requires Ordered(free, base) && k < |free| && 0 < units < free[k].size
    ensures Units(Shrunk(free, k, units)) == Units(free) - Range(free[k].End() - units, units)
  {
    hide *;
    var m := Block(free[k].start, free[k].size - units);
    WithoutUnits(free, k, base);
    ShrunkIsSpliced(free, k, units, m);
    SplicedUnits(free, k, k + 1, m);
    UnitsJoin(free[..k], free[k + 1..]);
    assert free[k..k + 1] == [free[k]];
    OneBlock(free[k]);
    RangeTail(free[k], units);
  }

  lemma ShrunkIsSpliced(free: seq<Block>, k: nat, units: nat, m: Block)
    requires k < |free| && units <= free[k].size && m == Block(free[k].start, free[k].size - units)
    ensures Shrunk(free, k, units) == Spliced(free, k, k + 1, m)
    ensures Without(free, k) == free[..k] + free[k + 1..]
  {
  }

  lemma RangeTail(b: Block, units: nat)
    requires units <= b.size
    ensures b.End() - units >= 0
    ensures Range(b.start, b.size - units) == Range(b.start, b.size) - Range(b.End() - units, units)
    ensures Range(b.End() - units, units) <= Range(b.start, b.size)
  {
  }

  // Units in a row lie in one block, since blocks are never adjacent.
  lemma {:induction false} RowInOneBlock(free: seq<Block>, base: nat, start: nat, size: nat) returns (i: nat)
    requires Ordered(free, base) && 0 < size && Range(start, size) <= Units(free)
    ensures i < |free| && free[i].start <= start && start + size <= free[i].End()
    decreases size
  {
    assert start in Range(start, size) && start + size - 1 in Range(start, size);
    InUnits(free, start + size - 1);
    if size == 1 {
      i :| 0 <= i < |free| && free[i].start <= start < free[i].End();
    } else {
      assert Range(start, size - 1) <= Range(start, size);
      i := RowInOneBlock(free, base, start, size - 1);
    }
  }
}
