// The K&R heap (libsel4allocman/src/mspace/k_r_malloc.c).
module KRHeap {
  import opened FreeBlocks

  const NULL: nat := 0

  // sizeof(k_r_malloc_header_t)
  const UNIT: nat := 16

  function UnitsFor(nbytes: nat): nat {
    (nbytes + UNIT - 1) / UNIT + 1
  }

  // Behind the header there is room for the bytes asked for.
  lemma UnitsSuffice(nbytes: nat)
    ensures NULL == 0 && 1 <= UnitsFor(nbytes) && nbytes <= (UnitsFor(nbytes) - 1) * UNIT < nbytes + UNIT
  {
  }

  // The successor of index i in a ring of n blocks.
  function Next(i: nat, n: nat): nat {
    if i + 1 < n then i + 1 else 0
  }

  // Header i holds its size and points to the next block, the last one to the first.
  predicate LinkAt(free: seq<Block>, ptr: map<nat, nat>, size: map<nat, nat>, i: nat)
    requires i < |free|
  {
    && free[i].start in ptr && free[i].start in size
    && size[free[i].start] == free[i].size && ptr[free[i].start] == free[Next(i, |free|)].start
  }

  // The headers form one cycle through the free blocks, in the order of their addresses.
  ghost predicate Ring(free: seq<Block>, ptr: map<nat, nat>, size: map<nat, nat>) {
    forall i | 0 <= i < |free| :: LinkAt(free, ptr, size, i)
  }

  ghost predicate IsStart(free: seq<Block>, a: nat) {
    exists i :: 0 <= i < |free| && free[i].start == a
  }

  function LiveUnits(live: map<nat, nat>): set<nat> {
    set h, u | h in live && u in Range(h, live[h]) :: u
  }

  ghost predicate LiveApart(live: map<nat, nat>) {
    && (forall h | h in live :: 0 < live[h])
    && (forall g, h | g in live && h in live && g != h :: Range(g, live[g]) !! Range(h, live[h]))
  }

  // Free and live blocks share out the units obtained from morecore. No block ends exactly at the list header.
  ghost predicate Shared(free: seq<Block>, live: map<nat, nat>, obtained: set<nat>, base: nat) {
    && Units(free) !! LiveUnits(live) && Units(free) + LiveUnits(live) == obtained && LiveApart(live)
    && base != NULL && base !in obtained && base - 1 !in obtained && NULL !in obtained
  }

  // --- the pointer updates of free, as a function of the headers

  // p: the block behind which bp goes.
  function Relinked(ptr: map<nat, nat>, size: map<nat, nat>, p: nat, bp: nat): (map<nat, nat>, map<nat, nat>)
    requires p in ptr && ptr[p] in ptr && ptr[p] in size && p in size && bp in size
  {
    var q := ptr[p];
    var joins := bp + size[bp] == q;
    var size1 := if joins then size[bp := size[bp] + size[q]] else size;
    var ptr1 := ptr[bp := if joins then ptr[q] else q];
    if p + size1[p] == bp then (ptr1[p := ptr1[bp]], size1[p := size1[p] + size1[bp]]) else (ptr1[p := bp], size1)
  }

  // Index k is the block behind which the block with place i goes.
  predicate Before(free: seq<Block>, i: nat, k: nat) {
    k < |free| && i <= |free| && (if i > 0 then k == i - 1 else k == |free| - 1)
  }

  lemma SplicedRing(free: seq<Block>, low: nat, high: nat, m: Block, ptr: map<nat, nat>, size: map<nat, nat>)
    requires low <= high <= |free|
    requires forall j | (0 <= j < low || high <= j < |free|) && j < |free| ::
      free[j].start in ptr && free[j].start in size && size[free[j].start] == free[j].size
    requires forall j | (0 <= j < low - 1 || high <= j < |free| - 1) && j < |free| - 1 ::
      ptr[free[j].start] == free[j + 1].start
    requires low > 0 ==> ptr[free[low - 1].start] == m.start
    requires m.start in ptr && m.start in size && size[m.start] == m.size
    requires ptr[m.start] == if high < |free| then free[high].start else (if low > 0 then free[0].start else m.start)
    requires high < |free| ==> ptr[free[|free| - 1].start] == (if low > 0 then free[0].start else m.start)
    ensures Ring(Spliced(free, low, high, m), ptr, size)
  {
    var g := Spliced(free, low, high, m);
    forall i | 0 <= i < |g|
      ensures LinkAt(g, ptr, size, i)
    {
      if i < low {
        assert g[i] == free[i];
      } else if i > low {
        assert g[i] == free[i - low - 1 + high];
      }
    }
  }

  // What Relinked does, for each of the joins.
  lemma RelinkedIs(ptr: map<nat, nat>, size: map<nat, nat>, p: nat, bp: nat)
    requires p in ptr && ptr[p] in ptr && ptr[p] in size && p in size && bp in size && p != bp && ptr[p] != bp
    ensures var q := ptr[p];
      var (ptr', size') := Relinked(ptr, size, p, bp);
      var high, low := bp + size[bp] == q, p + size[p] == bp;
      var end := if high then ptr[q] else q;
      && (forall a | a in ptr && a != p && a != bp :: a in ptr' && ptr'[a] == ptr[a])
      && (forall a | a in size && a != p && a != bp :: a in size' && size'[a] == size[a])
      && bp in ptr' && bp in size' && p in ptr' && p in size'
      && (if low then ptr'[p] == end && size'[p] == size[p] + size[bp] + (if high then size[q] else 0)
          else ptr'[p] == bp && size'[p] == size[p] && ptr'[bp] == end &&
               size'[bp] == size[bp] + (if high then size[q] else 0))
  {
  }

  ghost predicate Distinct(free: seq<Block>, a: nat) {
    && (forall i, j | 0 <= i < j < |free| :: free[i].start != free[j].start)
    && (forall i | 0 <= i < |free| :: free[i].start != a)
  }

  // The tests free makes on the neighbours decide about the joins.
  lemma JoinTests(free: seq<Block>, ptr: map<nat, nat>, size: map<nat, nat>, base: nat, i: nat, k: nat, b: Block)
    requires Ordered(free, base) && HasBase(free, base) && Ring(free, ptr, size) && Before(free, i, k)
    requires PlaceOf(free, i, b.start) && Apart(free, b, base)
    ensures Next(k, |free|) == if i < |free| then i else 0
    ensures b.End() == free[Next(k, |free|)].start <==> JoinsUpper(free, i, b)
    ensures free[k].End() == b.start <==> JoinsLower(free, i, b)
    ensures Distinct(free, b.start)
    ensures |free| == 1 ==> !JoinsUpper(free, i, b)
  {
    hide Units, Apart, HasBase;
    NeighboursOf(free, i, b, base);
    NotOnlyBase(free, i, b, base);
  }

  lemma RelinkedIsRing(free: seq<Block>, ptr: map<nat, nat>, size: map<nat, nat>, base: nat, i: nat, k: nat, b: Block)
    requires Ordered(free, base) && HasBase(free, base) && Ring(free, ptr, size) && Before(free, i, k)
    requires PlaceOf(free, i, b.start) && Apart(free, b, base) && b.start in size && size[b.start] == b.size
    ensures var p := free[k].start;
      && p in ptr && ptr[p] in ptr && ptr[p] in size && p in size
      && Ring(Inserted(free, i, b), Relinked(ptr, size, p, b.start).0, Relinked(ptr, size, p, b.start).1)
      && IsStart(Inserted(free, i, b), p)
  {
    hide Units, Apart, HasBase, PlaceOf, Ordered, Inserted, Spliced, Relinked, JoinsUpper, JoinsLower;
    JoinTests(free, ptr, size, base, i, k, b);
    var low, high, m := InsertedIsSpliced(free, i, b, base);
    var p, q := free[k].start, free[Next(k, |free|)].start;
    assert LinkAt(free, ptr, size, k) && LinkAt(free, ptr, size, Next(k, |free|));
    RelinkedIs(ptr, size, p, b.start);
    var (ptr', size') := Relinked(ptr, size, p, b.start);
    if JoinsLower(free, i, b) {
      JoinedBelow(free, ptr, size, ptr', size', i, high, b, m);
    } else {
      NotJoinedBelow(free, ptr, size, ptr', size', i, high, k, b, m);
    }
    SplicedStart(free, low, high, m, k);
  }

  // The headers of all blocks but block k stay as they are.
  lemma OthersKept(free: seq<Block>, ptr: map<nat, nat>, size: map<nat, nat>, ptr': map<nat, nat>,
                   size': map<nat, nat>, k: nat, a: nat)
    requires Ring(free, ptr, size) && Distinct(free, a) && k < |free|
    requires forall x | x in ptr && x != free[k].start && x != a :: x in ptr' && ptr'[x] == ptr[x]
    requires forall x | x in size && x != free[k].start && x != a :: x in size' && size'[x] == size[x]
    ensures forall j | 0 <= j < |free| && j != k ::
      && free[j].start in ptr' && free[j].start in size'
      && size'[free[j].start] == free[j].size && ptr'[free[j].start] == free[if j + 1 < |free| then j + 1 else 0].start
  {
    forall j | 0 <= j < |free| && j != k
      ensures free[j].start in ptr' && free[j].start in size'
      ensures size'[free[j].start] == free[j].size
      ensures ptr'[free[j].start] == free[if j + 1 < |free| then j + 1 else 0].start
    {
      assert LinkAt(free, ptr, size, j);
    }
  }

  lemma JoinedBelow(free: seq<Block>, ptr: map<nat, nat>, size: map<nat, nat>, ptr': map<nat, nat>,
                    size': map<nat, nat>, i: nat, high: nat, b: Block, m: Block)
    requires Ring(free, ptr, size) && Distinct(free, b.start) && 0 < i <= high <= |free| && high <= i + 1
    requires high == i + 1 ==> |free| > 1
    requires m.start == free[i - 1].start && m.End() == if i < high then free[i].End() else b.End()
    requires free[i - 1].End() == b.start && (i < high ==> b.End() == free[i].start)
    requires forall a | a in ptr && a != m.start && a != b.start :: a in ptr' && ptr'[a] == ptr[a]
    requires forall a | a in size && a != m.start && a != b.start :: a in size' && size'[a] == size[a]
    requires m.start in ptr' && m.start in size' && size'[m.start] == m.size
    requires var q := free[if i < |free| then i else 0].start;
      ptr'[m.start] == if i < high then free[if i + 1 < |free| then i + 1 else 0].start else q
    ensures Ring(Spliced(free, i - 1, high, m), ptr', size')
  {
    hide *;
    OthersKept(free, ptr, size, ptr', size', i - 1, b.start);
    SplicedRing(free, i - 1, high, m, ptr', size');
  }

  lemma NotJoinedBelow(free: seq<Block>, ptr: map<nat, nat>, size: map<nat, nat>, ptr': map<nat, nat>,
                       size': map<nat, nat>, i: nat, high: nat, k: nat, b: Block, m: Block)
    requires Ring(free, ptr, size) && Distinct(free, b.start) && i <= high <= |free| && high <= i + 1
    requires k < |free| && (if i > 0 then k == i - 1 else k == |free| - 1) && (high == i + 1 ==> |free| > 1)
    requires m.start == b.start && m.End() == if i < high then free[i].End() else b.End()
    requires i < high ==> b.End() == free[i].start
    requires forall a | a in ptr && a != free[k].start && a != b.start :: a in ptr' && ptr'[a] == ptr[a]
    requires forall a | a in size && a != b.start :: a in size' && size'[a] == size[a]
    requires m.start in ptr' && m.start in size' && size'[m.start] == m.size
    requires free[k].start in ptr' && ptr'[free[k].start] == b.start
    requires free[k].start in size' && size'[free[k].start] == free[k].size
    requires var q := free[if i < |free| then i else 0].start;
      ptr'[m.start] == if i < high then free[if i + 1 < |free| then i + 1 else 0].start else q
    ensures Ring(Spliced(free, i, high, m), ptr', size')
  {
    hide *;
    OthersKept(free, ptr, size, ptr', size', k, b.start);
    SplicedRing(free, i, high, m, ptr', size');
  }

  lemma SplicedStart(free: seq<Block>, low: nat, high: nat, m: Block, k: nat)
    requires low <= high <= |free| && k < |free| && (k < low || high <= k || m.start == free[k].start)
    ensures IsStart(Spliced(free, low, high, m), free[k].start)
  {
    var g := Spliced(free, low, high, m);
    var at := if k < low then k else if high <= k then k - high + low + 1 else low;
    assert g[at].start == free[k].start;
  }

  // The list never consists of just a block that the new one joins from below.
  lemma NotOnlyBase(free: seq<Block>, i: nat, b: Block, base: nat)
    requires Ordered(free, base) && HasBase(free, base) && Apart(free, b, base) && i <= |free|
    ensures |free| == 1 ==> !JoinsUpper(free, i, b)
  {
  }

  lemma {:induction false} PlaceExists(free: seq<Block>, base: nat, a: nat) returns (i: nat)
    requires Ordered(free, base) && forall j | 0 <= j < |free| :: free[j].start != a
    ensures PlaceOf(free, i, a)
    decreases |free|
  {
    if free == [] || free[|free| - 1].start < a {
      i := |free|;
    } else {
      i := PlaceExists(free[..|free| - 1], base, a);
      assert forall j | i <= j < |free| - 1 :: free[..|free| - 1][j] == free[j];
    }
  }

  // How far it is from index k to index t on a ring of n.
  function Distance(k: nat, t: nat, n: nat): int {
    if k <= t then t - k else t + n - k
  }

  // The test with which free recognises the block behind which bp goes.
  predicate GoesBehind(p: nat, next: nat, bp: nat) {
    (p < bp && bp < next) || (p >= next && (bp > p || bp < next))
  }

  lemma GoesBehindDecides(free: seq<Block>, base: nat, i: nat, k: nat, bp: nat)
    requires Ordered(free, base) && PlaceOf(free, i, bp) && k < |free|
    ensures GoesBehind(free[k].start, free[Next(k, |free|)].start, bp) <==> Before(free, i, k)
  {
  }

  // Index k of a ring of n, counted from index f.
  function Wrap(k: nat, n: nat): nat {
    if k < n then k else k - n
  }

  function SizeAt(free: seq<Block>, f: nat, j: nat): nat
    requires f < |free| && j <= |free|
  {
    free[Wrap(f + j, |free|)].size
  }

  // The blocks after index f, up to the one seen places further on, are all smaller.
  ghost predicate Smaller(free: seq<Block>, f: nat, seen: nat, units: nat) {
    f < |free| && seen < |free| && forall j | 1 <= j <= seen :: SizeAt(free, f, j) < units
  }

  // Block k is the first one after freep, in the order of the ring, that is big enough.
  ghost predicate NextFit(free: seq<Block>, freep: nat, k: nat, units: nat) {
    && k < |free| && units <= free[k].size
    && exists f: nat, seen: nat ::
         f < |free| && free[f].start == freep && Smaller(free, f, seen, units) &&
         k == Next(Wrap(f + seen, |free|), |free|)
  }

  // Next fit from start takes units from the tail of block k and leaves freep at the block in front of it.
  ghost predicate NextFitTakes(free: seq<Block>, start: nat, units: nat, taken: nat, freep: nat) {
    exists prev: nat, k: nat ::
      && prev < |free| && k == Next(prev, |free|) && NextFit(free, start, k, units)
      && taken == free[k].End() - units && freep == free[prev].start
  }

  // Block b goes behind the block in front of it in the ring, and freep is left there.
  ghost predicate FreedBehind(before: seq<Block>, b: Block, after: seq<Block>, freep: nat) {
    exists i: nat, k: nat ::
      && i <= |before| && PlaceOf(before, i, b.start) && Before(before, i, k)
      && after == Inserted(before, i, b) && freep == before[k].start
  }

  // The units of core are put on the list like a freed block, and next fit goes on from where that left freep.
  ghost predicate TakenFromCore(before: seq<Block>, core: Block, taken: nat, freep: nat) {
    exists after: seq<Block>, start: nat ::
      FreedBehind(before, core, after, start) && NextFitTakes(after, start, core.size, taken, freep)
  }

  lemma IsFreedBehind(before: seq<Block>, b: Block, i: nat, k: nat)
    requires i <= |before| && PlaceOf(before, i, b.start) && Before(before, i, k)
    ensures FreedBehind(before, b, Inserted(before, i, b), before[k].start)
  {
  }

  lemma TakesNextFit(free: seq<Block>, start: nat, units: nat, prev: nat, k: nat)
    requires prev < |free| && k == Next(prev, |free|) && NextFit(free, start, k, units)
    ensures k < |free| && NextFitTakes(free, start, units, free[k].End() - units, free[prev].start)
  {
  }

  lemma TakesFromCore(before: seq<Block>, core: Block, after: seq<Block>, start: nat, taken: nat, freep: nat)
    requires FreedBehind(before, core, after, start) && NextFitTakes(after, start, core.size, taken, freep)
    ensures TakenFromCore(before, core, taken, freep)
  {
  }

  ghost predicate NoneFits(free: seq<Block>, units: nat) {
    forall i | 0 <= i < |free| :: free[i].size < units
  }

  // A trip around the whole ring sees every block.
  lemma SeenAll(free: seq<Block>, f: nat, units: nat)
    requires free != [] && Smaller(free, f, |free| - 1, units) && free[f].size < units
    ensures NoneFits(free, units)
  {
    forall i | 0 <= i < |free|
      ensures free[i].size < units
    {
      if i != f {
        var j := if i > f then i - f else i + |free| - f;
        assert SizeAt(free, f, j) == free[i].size;
      }
    }
  }

  // --- the units of live blocks

  lemma LiveRange(live: map<nat, nat>, h: nat)
    requires h in live
    ensures Range(h, live[h]) <= LiveUnits(live)
  {
  }

  lemma Released(live: map<nat, nat>, h: nat)
    requires h in live && LiveApart(live)
    ensures LiveApart(live - {h}) && LiveUnits(live - {h}) == LiveUnits(live) - Range(h, live[h])
  {
    hide Range;
    forall u
      ensures u in LiveUnits(live - {h}) <==> u in LiveUnits(live) && u !in Range(h, live[h])
    {
      if u in LiveUnits(live) && u !in Range(h, live[h]) {
        var g :| g in live && u in Range(g, live[g]);
        assert g in live - {h};
      }
      if g :| g in live - {h} && u in Range(g, (live - {h})[g]) {
        assert g in live && u in Range(g, live[g]);
        assert Range(g, live[g]) !! Range(h, live[h]);
      }
    }
  }

  lemma Acquired(live: map<nat, nat>, h: nat, units: nat)
    requires LiveApart(live) && LiveUnits(live) !! Range(h, units) && 0 < units
    ensures h !in live
    ensures LiveApart(live[h := units]) && LiveUnits(live[h := units]) == LiveUnits(live) + Range(h, units)
  {
    assert h in Range(h, units);
    var after := live[h := units];
    forall g | g in live
      ensures g != h
    {
      LiveRange(live, g);
      assert g in Range(g, live[g]);
    }
    hide Range;
    forall g | g in live
      ensures Range(g, live[g]) !! Range(h, units)
    {
      LiveRange(live, g);
    }
    forall u
      ensures u in LiveUnits(after) <==> u in LiveUnits(live) || u in Range(h, units)
    {
      if u in LiveUnits(live) {
        var g :| g in live && u in Range(g, live[g]);
        assert g in after && after[g] == live[g];
      }
      if u in Range(h, units) {
        assert h in after && after[h] == units;
      }
    }
  }

  // Pointing past block k takes it out of the ring.
  lemma WithoutIsRing(free: seq<Block>, ptr: map<nat, nat>, size: map<nat, nat>, base: nat, prev: nat, k: nat)
    requires Ordered(free, base) && HasBase(free, base) && Ring(free, ptr, size)
    requires prev < |free| && k < |free| && k == Next(prev, |free|) && 0 < free[k].size
    ensures k != prev && free[k].start in ptr
    ensures Ring(Without(free, k), ptr[free[prev].start := ptr[free[k].start]], size)
    ensures IsStart(Without(free, k), free[prev].start)
  {
    hide Units, Without, Ring;
    NotAlone(free, base, prev, k);
    hide Ordered, HasBase;
    StartStays(free, k, prev);
    RingHas(free, ptr, size, k);
    WithoutLinks(free, ptr, size, ptr[free[prev].start := ptr[free[k].start]], prev, k);
  }

  // A block with units is not the only one: there is the list header.
  lemma NotAlone(free: seq<Block>, base: nat, prev: nat, k: nat)
    requires Ordered(free, base) && HasBase(free, base)
    requires prev < |free| && k < |free| && k == Next(prev, |free|) && 0 < free[k].size
    ensures |free| > 1 && k != prev
    ensures forall j | 0 <= j < |free| && j != prev :: free[j].start != free[prev].start
  {
    var at :| 0 <= at < |free| && free[at].start == base;
    assert at != k;
  }

  lemma RingHas(free: seq<Block>, ptr: map<nat, nat>, size: map<nat, nat>, k: nat)
    requires Ring(free, ptr, size) && k < |free|
    ensures free[k].start in ptr && free[k].start in size
  {
    assert LinkAt(free, ptr, size, k);
  }

  lemma StartStays(free: seq<Block>, k: nat, i: nat)
    requires k < |free| && i < |free| && i != k
    ensures IsStart(Without(free, k), free[i].start)
  {
    assert Without(free, k)[if i < k then i else i - 1] == free[i];
  }

  lemma WithoutLinks(free: seq<Block>, ptr: map<nat, nat>, size: map<nat, nat>, ptr': map<nat, nat>, prev: nat, k: nat)
    requires Ring(free, ptr, size) && prev < |free| && k < |free| && k == Next(prev, |free|) && k != prev
    requires forall j | 0 <= j < |free| && j != prev :: free[j].start != free[prev].start
    requires free[k].start in ptr && ptr' == ptr[free[prev].start := ptr[free[k].start]]
    ensures Ring(Without(free, k), ptr', size)
  {
    var g := Without(free, k);
    forall i | 0 <= i < |g|
      ensures LinkAt(g, ptr', size, i)
    {
      var j := if i < k then i else i + 1;
      assert g[i] == free[j];
      assert LinkAt(free, ptr, size, j) && LinkAt(free, ptr, size, k);
      var next := if j == prev then Next(k, |free|) else Next(j, |free|);
      assert next != k && g[Next(i, |g|)] == free[next];
    }
  }

  // Cutting the tail off block k changes no pointer.
  lemma ShrunkIsRing(free: seq<Block>, ptr: map<nat, nat>, size: map<nat, nat>, base: nat, k: nat, units: nat)
    requires Ordered(free, base) && Ring(free, ptr, size) && k < |free| && 0 < units < free[k].size
    ensures var rest := free[k].size - units;
      Ring(Shrunk(free, k, units), ptr, size[free[k].start := rest][free[k].start + rest := units])
  {
    hide Units;
    var g, h := Shrunk(free, k, units), free[k].End() - units;
    assert forall j | 0 <= j < |free| && j != k :: free[j].start != free[k].start && free[j].start != h;
    hide Ordered;
    var size' := size[free[k].start := free[k].size - units][h := units];
    forall i | 0 <= i < |g|
      ensures LinkAt(g, ptr, size', i)
    {
      assert g[i].start == free[i].start && LinkAt(free, ptr, size, i);
    }
    assert LinkAt(free, ptr, size, k);
  }

  lemma StartKept(free: seq<Block>, k: nat, units: nat, i: nat)
    requires k < |free| && i < |free| && units <= free[k].size
    ensures IsStart(Shrunk(free, k, units), free[i].start)
  {
    assert Shrunk(free, k, units)[i].start == free[i].start;
  }

  ghost function LiveTotal(live: map<nat, nat>): nat
    decreases |live|
  {
    if live == map[] then 0
    else
      var h :| h in live;
      live[h] + LiveTotal(live - {h})
  }

  lemma {:induction false} LiveCount(live: map<nat, nat>)
    requires LiveApart(live)
    ensures |LiveUnits(live)| == LiveTotal(live)
    decreases |live|
  {
    if live == map[] {
      assert LiveUnits(live) == {};
    } else {
      hide *;
      var h := SomeLive(live);
      Released(live, h);
      LiveRange(live, h);
      LiveCount(live - {h});
      RangeSize(h, live[h]);
      SetSplit(LiveUnits(live), Range(h, live[h]));
    }
  }

  lemma SetSplit(a: set<nat>, b: set<nat>)
    requires b <= a
    ensures |a| == |a - b| + |b|
  {
    assert a == (a - b) + b;
  }

  lemma SomeLive(live: map<nat, nat>) returns (h: nat)
    requires live != map[]
    ensures h in live && LiveTotal(live) == live[h] + LiveTotal(live - {h}) && |live - {h}| < |live|
  {
    h :| h in live && LiveTotal(live) == live[h] + LiveTotal(live - {h});
    assert live.Keys == (live - {h}).Keys + {h};
  }

  // The sizes of the free and the live blocks add up to the units obtained from morecore.
  lemma UnitsAreConserved(free: seq<Block>, live: map<nat, nat>, obtained: set<nat>, base: nat)
    requires Ordered(free, base) && Shared(free, live, obtained, base)
    ensures TotalSize(free) + LiveTotal(live) == |obtained|
  {
    UnitsCount(free, base);
    LiveCount(live);
  }

  // Free undoes alloc: if the units h.. left the list and came back, the list is the one from before.
  lemma AllocThenFree(before: seq<Block>, middle: seq<Block>, after: seq<Block>, base: nat, h: nat, units: nat)
    requires Ordered(before, base) && Ordered(after, base) && HasBase(before, base) && HasBase(after, base)
    requires Units(middle) + Range(h, units) == Units(before) && Units(after) == Units(middle) + Range(h, units)
    ensures after == before
  {
    FreeUnitsDecide(before, after, base);
  }

  // The free blocks have the same pointers and sizes.
  ghost predicate SameRing(free: seq<Block>, ptr: map<nat, nat>, size: map<nat, nat>, ptr': map<nat, nat>,
                           size': map<nat, nat>)
  {
    forall a | IsStart(free, a) ::
      a in ptr && a in ptr' && ptr[a] == ptr'[a] && a in size && a in size' && size[a] == size'[a]
  }

  // The list determines the pointers of the ring.
  lemma RingIsDetermined(free: seq<Block>, ptr: map<nat, nat>, size: map<nat, nat>, ptr': map<nat, nat>,
                         size': map<nat, nat>)
    requires Ring(free, ptr, size) && Ring(free, ptr', size')
    ensures SameRing(free, ptr, size, ptr', size')
  {
    forall a | IsStart(free, a)
      ensures a in ptr && a in ptr' && ptr[a] == ptr'[a] && a in size && a in size' && size[a] == size'[a]
    {
      var i :| 0 <= i < |free| && free[i].start == a;
      assert LinkAt(free, ptr, size, i) && LinkAt(free, ptr', size', i);
    }
  }

  // What morecore may return: units that were never handed over before, away from the list header.
  ghost predicate Fresh(core: nat, units: nat, base: nat, obtained: set<nat>) {
    0 < core && 0 < units && core + units != base && !(core <= base < core + units) && Range(core, units) !! obtained
  }

  // mspace_k_r_malloc_t
  class Heap {
    // The address of the list header
    const base: nat
    var freep: nat
    // The fields of the block headers, by address
    var ptr: map<nat, nat>
    var size: map<nat, nat>

    ghost var free: seq<Block>
    ghost var live: map<nat, nat>
    ghost var obtained: set<nat>

    ghost predicate Valid()
      reads this
    {
      && Shared(free, live, obtained, base) && Sized()
      && (if freep == NULL then free == [] && live == map[] else Initialised())
    }

    ghost predicate Sized()
      reads this
    {
      forall h | h in live :: h in size && size[h] == live[h]
    }

    ghost predicate Initialised()
      reads this
    {
      Ordered(free, base) && HasBase(free, base) && Ring(free, ptr, size) && IsStart(free, freep)
    }

    // mspace_k_r_malloc_init
    constructor (base: nat)
      requires base != NULL
      ensures Valid() && freep == NULL && obtained == {} && this.base == base
    {
      this.base := base;
      freep := NULL;
      ptr, size := map[], map[];
      free, live, obtained := [], map[], {};
    }

    lemma LiveBlock(h: nat)
      requires Valid() && h in live
      ensures freep != NULL && Initialised() && h in size && size[h] == live[h] && h != NULL
      ensures Apart(free, Block(h, live[h]), base)
    {
      LiveRange(live, h);
      assert h in Range(h, live[h]);
      assert forall u | h <= u < h + live[h] :: u in Range(h, live[h]);
    }

    // The search loop of free: p is the block behind which bp goes.
    method FindPlace(bp: nat, ghost b: Block) returns (p: nat, ghost i: nat, ghost k: nat)
      requires Initialised() && Apart(free, b, base) && b.start == bp
      ensures PlaceOf(free, i, bp) && Before(free, i, k) && p == free[k].start
    {
      hide Units, Apart;
      NotAStart(b);
      i := PlaceExists(free, base, bp);
      ghost var t := if i > 0 then i - 1 else |free| - 1;
      p := freep;
      k :| 0 <= k < |free| && free[k].start == p;
      assert LinkAt(free, ptr, size, k);
      while !(p < bp && bp < ptr[p])
        invariant k < |free| && p == free[k].start && LinkAt(free, ptr, size, k)
        decreases Distance(k, t, |free|)
      {
        GoesBehindDecides(free, base, i, k, bp);
        if p >= ptr[p] && (bp > p || bp < ptr[p]) {
          return;
        }
        p := ptr[p];
        k := Next(k, |free|);
        assert LinkAt(free, ptr, size, k);
      }
      GoesBehindDecides(free, base, i, k, bp);
    }

    lemma NotAStart(b: Block)
      requires Ordered(free, base) && HasBase(free, base) && Apart(free, b, base)
      ensures free != [] && forall j | 0 <= j < |free| :: free[j].start != b.start
    {
      forall j | 0 <= j < |free|
        ensures free[j].start != b.start
      {
        InUnits(free, b.start);
      }
    }

    // A live block does not start where a free one does.
    lemma StartIsNotLive(h: nat)
      requires Shared(free, live, obtained, base) && Ordered(free, base) && IsStart(free, h)
      ensures h !in live
    {
      var i :| 0 <= i < |free| && free[i].start == h;
      if h in live {
        LiveRange(live, h);
        assert h in Range(h, live[h]);
        InUnits(free, h);
      }
    }

    // The pointer updates of free
    method PutBehind(p: nat, bp: nat)
      requires p in ptr && ptr[p] in ptr && ptr[p] in size && p in size && bp in size
      modifies `ptr, `size, `freep
      ensures (ptr, size) == Relinked(old(ptr), old(size), p, bp) && freep == p
    {
      var q := ptr[p];
      if bp + size[bp] == q {
        size := size[bp := size[bp] + size[q]];
        ptr := ptr[bp := ptr[q]];
      } else {
        ptr := ptr[bp := q];
      }
      if p + size[p] == bp {
        size := size[p := size[p] + size[bp]];
        ptr := ptr[p := ptr[bp]];
      } else {
        ptr := ptr[p := bp];
      }
      freep := p;
    }

    lemma InsertedIsFine(b: Block, i: nat)
      requires Shared(free, live, obtained, base) && Ordered(free, base) && HasBase(free, base)
      requires PlaceOf(free, i, b.start) && Apart(free, b, base) && b.start in live && live[b.start] == b.size
      ensures var after := Inserted(free, i, b);
        && Ordered(after, base) && HasBase(after, base) && Units(after) == Units(free) + Range(b.start, b.size)
        && Shared(after, live - {b.start}, obtained, base)
    {
      hide Apart, PlaceOf, Ordered, HasBase, Inserted, Range, Units, LiveUnits, LiveApart;
      InsertedIsOrdered(free, i, b, base);
      InsertedKeepsBase(free, i, b, base);
      InsertedUnits(free, i, b, base);
      LiveRange(live, b.start);
      Released(live, b.start);
    }

    lemma SizedAfter(before: map<nat, nat>, p: nat, bp: nat, links: map<nat, nat>)
      requires forall h | h in live :: h in before && before[h] == live[h]
      requires p in links && links[p] in links && links[p] in before && p in before && bp in before && p !in live
      requires size == Relinked(links, before, p, bp).1
      ensures forall h | h in live - {bp} :: h in size && size[h] == live[h]
    {
    }

    // mspace_k_r_malloc_free
    method Free(ap: nat)
      requires Valid() && (ap == NULL || ap - 1 in live)
      modifies this
      ensures Valid() && obtained == old(obtained)
      ensures ap == NULL ==> free == old(free) && live == old(live) && freep == old(freep)
      ensures ap != NULL ==> freep != NULL && live == old(live) - {ap - 1}
      ensures ap != NULL ==> FreedBehind(old(free), Block(ap - 1, old(live)[ap - 1]), free, freep)
      ensures ap != NULL ==> Units(free) == Units(old(free)) + Range(ap - 1, old(live)[ap - 1])
    {
      hide *;
      if ap == NULL {
        return;
      }
      var bp := ap - 1;
      LiveBlock(bp);
      Parts();
      ghost var b := Block(bp, size[bp]);
      var p; ghost var i, k;
      p, i, k := FindPlace(bp, b);
      RelinkedIsRing(free, ptr, size, base, i, k, b);
      PlaceIsIndex(free, i, bp);
      InsertedIsFine(b, i);
      StartsAt(i, k);
      ghost var before, links := size, ptr;
      PutBehind(p, bp);
      SizedAfter(before, p, bp, links);
      IsFreedBehind(free, b, i, k);
      free := Inserted(free, i, b);
      live := live - {bp};
      Whole();
    }

    lemma Parts()
      requires Valid()
      ensures Shared(free, live, obtained, base) && (forall h | h in live :: h in size && size[h] == live[h])
      ensures freep != NULL ==>
        Ordered(free, base) && HasBase(free, base) && Ring(free, ptr, size) && IsStart(free, freep)
    {
    }

    lemma Whole()
      requires Shared(free, live, obtained, base) && (forall h | h in live :: h in size && size[h] == live[h])
      requires Ordered(free, base) && HasBase(free, base) && Ring(free, ptr, size) && IsStart(free, freep)
      ensures Valid() && freep != NULL
    {
      hide Ring, Range, LiveUnits, LiveApart;
      var i :| 0 <= i < |free| && free[i].start == freep;
      InUnits(free, freep);
    }

    lemma StartsAt(i: nat, k: nat)
      requires Shared(free, live, obtained, base) && Ordered(free, base) && Before(free, i, k)
      ensures free[k].start !in live
    {
      hide Units, LiveUnits, Ordered, Shared;
      StartIsNotLive(free[k].start);
    }

    // Units taken from a free block become a live block.
    lemma TakenIsShared(after: seq<Block>, h: nat, units: nat)
      requires Shared(free, live, obtained, base) && 0 < units
      requires Range(h, units) <= Units(free) && Units(after) == Units(free) - Range(h, units)
      ensures h !in live && Shared(after, live[h := units], obtained, base)
    {
      hide Range, Units, LiveUnits, LiveApart;
      Acquired(live, h, units);
    }

    lemma BlockInUnits(k: nat, units: nat)
      requires k < |free| && units <= free[k].size
      ensures Range(free[k].End() - units, units) <= Units(free)
    {
      forall u | u in Range(free[k].End() - units, units)
        ensures u in Units(free)
      {
        InUnits(free, u);
      }
    }

    // The end of a successful search: block k, behind block prev, has exactly the right size.
    method TakeWhole(prevp: nat, p: nat, ghost prev: nat, ghost k: nat)
      requires Valid() && Initialised() && prev < |free| && k < |free| && k == Next(prev, |free|) && 0 < free[k].size
      requires prevp == free[prev].start && p == free[k].start && p in ptr && prevp in ptr
      modifies this
      ensures Valid() && obtained == old(obtained) && freep == prevp && freep != NULL
      ensures p !in old(live) && live == old(live)[p := old(free)[k].size]
      ensures Units(free) == Units(old(free)) - Range(p, old(free)[k].size)
    {
      hide *;
      Parts();
      InitialisedParts();
      WithoutIsFine(free, k, base);
      WithoutIsRing(free, ptr, size, base, prev, k);
      BlockInUnits(k, free[k].size);
      BlockEnd(free[k]);
      TakenIsShared(Without(free, k), p, free[k].size);
      RingAt(k);
      ptr := ptr[prevp := ptr[p]];
      freep := prevp;
      live := live[p := free[k].size];
      free := Without(free, k);
      Whole();
    }

    // The end of a successful search: the tail of block k is cut off.
    method TakeTail(prevp: nat, p: nat, units: nat, ghost prev: nat, ghost k: nat) returns (h: nat)
      requires Valid() && Initialised() && prev < |free| && k < |free| && 0 < units < free[k].size
      requires prevp == free[prev].start && p == free[k].start && p in size && size[p] == free[k].size
      modifies this
      ensures Valid() && obtained == old(obtained) && freep == prevp && freep != NULL
      ensures h == p + old(free)[k].size - units && h !in old(live) && live == old(live)[h := units]
      ensures Units(free) == Units(old(free)) - Range(h, units)
    {
      hide *;
      Parts();
      InitialisedParts();
      ShrunkIsFine(free, k, units, base);
      ShrunkIsRing(free, ptr, size, base, k, units);
      StartKept(free, k, units, prev);
      BlockEnd(free[k]);
      BlockInUnits(k, units);
      PrevIsStart(k);
      StartIsNotLive(p);
      size := size[p := size[p] - units];
      h := p + size[p];
      TakenIsShared(Shrunk(free, k, units), h, units);
      size := size[h := units];
      freep := prevp;
      live := live[h := units];
      free := Shrunk(free, k, units);
      Whole();
    }

    // The end of a successful search
    method Take(prevp: nat, p: nat, units: nat, ghost prev: nat, ghost k: nat) returns (h: nat)
      requires Valid() && Initialised() && prev < |free| && k < |free| && k == Next(prev, |free|)
      requires 0 < units <= free[k].size && prevp == free[prev].start && p == free[k].start
      modifies this
      ensures Valid() && obtained == old(obtained) && freep == prevp && freep != NULL
      ensures h == old(free)[k].End() - units && h != NULL && h !in old(live) && live == old(live)[h := units]
      ensures Units(free) == Units(old(free)) - Range(h, units)
    {
      hide *;
      BlockEnd(free[k]);
      RingAt(k);
      RingAt(prev);
      StartIsNotNull(k);
      if size[p] == units {
        h := p;
        TakeWhole(prevp, p, prev, k);
      } else {
        h := TakeTail(prevp, p, units, prev, k);
      }
    }

    lemma InitialisedParts()
      requires Initialised()
      ensures Ordered(free, base) && HasBase(free, base) && Ring(free, ptr, size) && IsStart(free, freep)
    {
    }

    lemma RingAt(k: nat)
      requires Initialised() && k < |free|
      ensures free[k].start in ptr && free[k].start in size && size[free[k].start] == free[k].size
      ensures Next(k, |free|) < |free| && ptr[free[k].start] == free[Next(k, |free|)].start
    {
      assert LinkAt(free, ptr, size, k);
    }

    lemma PrevIsStart(k: nat)
      requires k < |free|
      ensures IsStart(free, free[k].start)
    {
    }

    lemma BlockEnd(b: Block)
      ensures b.End() == b.start + b.size
    {
    }

    lemma StartIsNotNull(k: nat)
      requires Valid() && Initialised() && k < |free|
      ensures 0 < free[k].start && NULL == 0
    {
      hide Range, LiveUnits, LiveApart, Ring;
      InUnits(free, free[k].start);
    }

    // The search stands at block p behind prevp, seen places after freep, and found nothing big enough on the way.
    ghost predicate Searching(f: nat, seen: nat, prevp: nat, p: nat, units: nat)
      reads this
    {
      && f < |free| && freep == free[f].start && seen < |free| && Smaller(free, f, seen, units)
      && prevp == free[Wrap(f + seen, |free|)].start && p == free[Next(Wrap(f + seen, |free|), |free|)].start
      && p in ptr && p in size
    }

    lemma SearchStarts(units: nat) returns (f: nat)
      requires Initialised()
      ensures freep in ptr && ptr[freep] in ptr && ptr[freep] in size && Searching(f, 0, freep, ptr[freep], units)
    {
      f :| 0 <= f < |free| && free[f].start == freep;
      assert LinkAt(free, ptr, size, f) && LinkAt(free, ptr, size, Next(f, |free|));
    }

    lemma SearchSteps(f: nat, seen: nat, prevp: nat, p: nat, units: nat)
      requires Initialised() && Searching(f, seen, prevp, p, units) && size[p] < units
      ensures p == freep ==> NoneFits(free, units)
      ensures p != freep ==> seen + 1 < |free| && Searching(f, seen + 1, p, ptr[p], units)
      ensures p != freep ==> ptr[p] in ptr && ptr[p] in size
    {
      var k := Next(Wrap(f + seen, |free|), |free|);
      assert LinkAt(free, ptr, size, k) && LinkAt(free, ptr, size, Next(k, |free|));
      assert SizeAt(free, f, seen + 1) < units;
      if seen + 1 < |free| {
        assert k == Wrap(f + seen + 1, |free|);
        StartsDiffer(f, k);
      } else {
        SeenAll(free, f, units);
      }
    }

    lemma StartsDiffer(i: nat, j: nat)
      requires Initialised() && i < |free| && j < |free| && i != j
      ensures free[i].start != free[j].start
    {
    }

    lemma SearchEnds(f: nat, seen: nat, prevp: nat, p: nat, units: nat) returns (prev: nat, k: nat)
      requires Initialised() && Searching(f, seen, prevp, p, units)
      ensures prev < |free| && k < |free| && k == Next(prev, |free|)
      ensures prevp == free[prev].start && p == free[k].start && p in size && size[p] == free[k].size
      ensures units <= size[p] ==> !NoneFits(free, units) && NextFit(free, freep, k, units)
    {
      prev := Wrap(f + seen, |free|);
      k := Next(prev, |free|);
      assert LinkAt(free, ptr, size, k);
      assert Smaller(free, f, seen, units);
    }

    // The list that alloc starts with
    ghost function Started(): seq<Block>
      reads this
    {
      if freep == NULL then [Block(base, 0)] else free
    }

    lemma StartedIs()
      ensures freep != NULL ==> Started() == free
    {
    }

    // The lazy initialisation in alloc
    method Start()
      requires Valid()
      modifies this
      ensures Valid() && Initialised() && freep != NULL && live == old(live) && obtained == old(obtained)
      ensures free == old(Started()) && freep == if old(freep) == NULL then base else old(freep)
      ensures old(freep) == NULL ==> forall units | 0 < units :: NoneFits(free, units)
      ensures Units(free) == Units(old(free))
      ensures forall units | 0 < units :: NoneFits(free, units) <==> NoneFits(old(free), units)
    {
      if freep == NULL {
        freep := base;
        ptr := ptr[base := base];
        size := size[base := 0];
        free := [Block(base, 0)];
        assert free[..0] == [];
        assert free[0].start == base && LinkAt(free, ptr, size, 0);
      }
    }

    // alloc puts what it got from morecore on the list by freeing it.
    method AddCore(core: nat, units: nat)
      requires Valid() && freep != NULL && Fresh(core, units, base, obtained)
      modifies this
      ensures Valid() && Initialised() && freep != NULL && live == old(live)
      ensures obtained == old(obtained) + Range(core, units) && Units(free) == Units(old(free)) + Range(core, units)
      ensures !NoneFits(free, units) && FreedBehind(old(free), Block(core, units), free, freep)
    {
      hide *;
      Parts();
      CoreIsLive(core, units);
      size := size[core := units];
      live := live[core := units];
      obtained := obtained + Range(core, units);
      Whole();
      Free(core + 1);
      IsInitialised();
      InitialisedParts();
      var k := RowInOneBlock(free, base, core, units);
      BlockFits(k, core, units);
    }

    lemma CoreIsLive(core: nat, units: nat)
      requires Valid() && freep != NULL && Fresh(core, units, base, obtained)
      ensures core !in live && core + 1 != NULL && 0 < units
      ensures Shared(free, live[core := units], obtained + Range(core, units), base)
      ensures Ring(free, ptr, size[core := units])
    {
      hide Units, LiveUnits, LiveApart;
      Acquired(live, core, units);
      assert core in Range(core, units);
      var size' := size[core := units];
      forall i | 0 <= i < |free|
        ensures LinkAt(free, ptr, size', i)
      {
        assert LinkAt(free, ptr, size, i);
        InUnits(free, free[i].start);
      }
    }

    lemma IsInitialised()
      requires Valid() && freep != NULL
      ensures Initialised()
    {
    }

    lemma BlockFits(k: nat, core: nat, units: nat)
      requires k < |free| && free[k].start <= core && core + units <= free[k].End()
      ensures !NoneFits(free, units)
    {
    }

    // mspace_k_r_malloc_alloc. core is what morecore returns if it is asked; asked says whether it was.
    method Alloc(nbytes: nat, core: nat) returns (ap: nat, asked: bool)
      requires Valid() && (core != NULL ==> Fresh(core, UnitsFor(nbytes), base, obtained))
      modifies this
      ensures Valid()
      ensures asked <==> NoneFits(old(free), UnitsFor(nbytes))
      ensures ap == NULL <==> asked && core == NULL
      ensures obtained == old(obtained) + (if asked && core != NULL then Range(core, UnitsFor(nbytes)) else {})
      ensures ap == NULL ==> live == old(live) && Units(free) == Units(old(free))
      ensures ap != NULL ==>
        && ap - 1 !in old(live) && live == old(live)[ap - 1 := UnitsFor(nbytes)]
        && Units(free) + Range(ap - 1, UnitsFor(nbytes)) ==
             Units(old(free)) + (if asked then Range(core, UnitsFor(nbytes)) else {})
        && Units(free) !! Range(ap - 1, UnitsFor(nbytes))
      ensures ap != NULL && !asked ==> NextFitTakes(old(free), old(freep), UnitsFor(nbytes), ap - 1, freep)
      ensures ap != NULL && asked ==> TakenFromCore(old(Started()), Block(core, UnitsFor(nbytes)), ap - 1, freep)
      ensures ap == NULL ==> free == old(Started()) && freep == if old(freep) == NULL then base else old(freep)
    {
      hide *;
      var units := UnitsFor(nbytes);
      UnitsSuffice(nbytes);
      StartedIs();
      Start();
      asked := false;
      ghost var first, start := free, freep;
      ghost var f := SearchStarts(units);
      ghost var seen := 0;
      var prevp := freep;
      var p := ptr[prevp];
      while true
        invariant Valid() && Initialised() && freep != NULL && Searching(f, seen, prevp, p, units)
        invariant !asked ==> free == first && freep == start && obtained == old(obtained)
        invariant asked ==> NoneFits(first, units) && !NoneFits(free, units) && core != NULL
        invariant asked ==> FreedBehind(first, Block(core, units), free, freep)
        invariant asked ==>
          && obtained == old(obtained) + Range(core, units) && Units(free) == Units(first) + Range(core, units)
        invariant live == old(live) && p in ptr && p in size
        decreases if asked then 0 else 1, |free| - seen
      {
        ghost var prev, k;
        prev, k := SearchEnds(f, seen, prevp, p, units);
        if size[p] >= units {
          BlockInUnits(k, units);
          TakesNextFit(free, freep, units, prev, k);
          ghost var list, from := free, freep;
          var h := Take(prevp, p, units, prev, k);
          if asked {
            TakesFromCore(first, Block(core, units), list, from, h, freep);
          }
          return h + 1, asked;
        }
        SearchSteps(f, seen, prevp, p, units);
        if p == freep {
          // wrapped around the list
          asked := true;
          if core == NULL {
            return NULL, true;
          }
          AddCore(core, units);
          f := SearchStarts(units);
          seen := 0;
          prevp := freep;
          p := ptr[freep];
        } else {
          seen := seen + 1;
          prevp := p;
          p := ptr[p];
        }
      }
    }

    // An alloc and the free of its block leave the list, and the pointers and sizes of its ring, as they were, unless
    // morecore added units.
    method AllocAndFree(nbytes: nat, core: nat) returns (asked: bool)
      requires Valid() && (core != NULL ==> Fresh(core, UnitsFor(nbytes), base, obtained))
      modifies this
      ensures Valid() && live == old(live)
      ensures asked <==> NoneFits(old(free), UnitsFor(nbytes))
      ensures Units(free) ==
        Units(old(free)) + (if asked && core != NULL then Range(core, UnitsFor(nbytes)) else {})
      ensures !asked ==> free == old(free) && SameRing(free, old(ptr), old(size), ptr, size)
    {
      hide *;
      ghost var before, links, sizes := free, ptr, size;
      Parts();
      NothingFree();
      var ap;
      ap, asked := Alloc(nbytes, core);
      ghost var middle := free;
      Free(ap);
      Parts();
      if ap != NULL {
        ghost var h, units := ap - 1, UnitsFor(nbytes);
        TakenOut(old(live), h, units);
        if !asked {
          AllocThenFree(before, middle, free, base, h, units);
          RingIsDetermined(free, links, sizes, ptr, size);
        }
      }
    }

    lemma NothingFree()
      requires Valid()
      ensures freep == NULL ==> forall units :: NoneFits(free, units)
    {
    }
  }

  lemma TakenOut(live: map<nat, nat>, h: nat, units: nat)
    requires h !in live
    ensures live[h := units] - {h} == live && live[h := units][h] == units
  {
  }
}
