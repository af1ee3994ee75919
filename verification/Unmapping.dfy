// What unmapping a range makes of the pages, on values (libsel4utils/src/vspace/vspace.c).
module Unmapping {
  import opened Arithmetic
  import opened PageTables

  // A page, and whether it has a word of its own in a bottom table
  datatype Fact = Fact(page: Page, held: bool)

  // The first page of a range decides what all of them become: Empty outside every reservation, else Reserved.
  function Freed(outside: bool): Page {
    if outside then EMPTY_PAGE else RESERVED_PAGE
  }

  // Where clear_entries stops, and where reserve_entries does
  predicate Stops(f: Fact, outside: bool) {
    if outside then !f.held && f.page.cap != EMPTY else f.page.cap == RESERVED
  }

  // Nothing stops between the two pages.
  ghost predicate GetsTo(before: seq<Fact>, first: nat, p: nat, outside: bool)
    requires p < |before|
  {
    forall q | first <= q <= p :: !Stops(before[q], outside)
  }

  // The first 4K page of the page of the given size that p belongs to
  function UnitOf(start: nat, size: nat, p: nat): (u: nat)
    requires 0 < size && start <= p
    ensures start <= u <= p
  {
    RemainderOf(p - start, size);
    MulMonotone(size, 0, (p - start) / size);
    p - (p - start) % size
  }

  // The assertion of the source, that the cap changes, holds for a page: it was mapped; or outside every reservation it
  // was Reserved in a word of its own; or inside one it was Empty, and is Reserved in a word of its own afterwards.
  predicate Passes(before: Fact, after: Fact, outside: bool) {
    (before.page.cap != EMPTY && before.page.cap != RESERVED) ||
    (if outside then before.held && before.page.cap == RESERVED
     else before.page.cap == EMPTY && after.held && after.page.cap == RESERVED)
  }

  // What one page of the given size, at [v, end), becomes.
  ghost predicate UnitUnmapped(before: seq<Fact>, after: seq<Fact>, v: nat, end: nat, outside: bool, oom: bool) {
    && v < end <= |before| == |after|
    && (forall p: nat | p < |before| && !(v <= p < end) :: after[p].page == before[p].page)
    && (forall p: nat | v <= p < end :: after[p].page == before[p].page || after[p].page == Freed(outside))
    && (!oom ==> forall p: nat | v <= p < end ::
          after[p].page == if GetsTo(before, v, p, outside) then Freed(outside) else before[p].page)
    && (oom ==> !outside && exists p: nat :: v <= p < end && before[p].page.cap == EMPTY)
    && (forall p: nat | p < |before| && before[p].held :: after[p].held)
    && (outside ==> forall p: nat | p < |before| :: after[p].held == before[p].held)
  }

  // What the range [start, v) becomes, size by size.
  ghost predicate Unmapped(before: seq<Fact>, after: seq<Fact>, start: nat, v: nat, size: nat, outside: bool, oom: bool)
    requires 0 < size
  {
    && start <= v <= |before| == |after|
    && (forall p: nat | p < |before| && !(start <= p < v) :: after[p].page == before[p].page)
    && (forall p: nat | start <= p < v :: after[p].page == before[p].page || after[p].page == Freed(outside))
    && (!oom ==> forall p: nat | start <= p < v ::
          after[p].page ==
          if GetsTo(before, UnitOf(start, size, p), p, outside) then Freed(outside) else before[p].page)
    && (oom ==> !outside && exists p: nat :: start <= p < v && before[p].page.cap == EMPTY)
    && (forall p: nat | p < |before| && before[p].held :: after[p].held)
    && (outside ==> forall p: nat | p < |before| :: after[p].held == before[p].held)
  }

  // The assertions hold in [start, v).
  ghost predicate AllPass(before: seq<Fact>, after: seq<Fact>, start: nat, v: nat, size: nat, outside: bool)
    requires 0 < size && v <= |before| == |after|
  {
    forall p: nat | start <= p < v && MultipleOfSize(p - start, size) :: Passes(before[p], after[p], outside)
  }

  ghost predicate AllOccupied(before: seq<Fact>, start: nat, end: nat)
    requires end <= |before|
  {
    forall p: nat | start <= p < end :: Occupied(before[p].page) && before[p].held
  }

  lemma UnmappedNothing(before: seq<Fact>, start: nat, size: nat, outside: bool)
    requires 0 < size && start <= |before|
    ensures Unmapped(before, before, start, start, size, outside, false)
    ensures AllPass(before, before, start, start, size, outside)
  {
  }

  // A page of the range in the unit that starts at v
  lemma UnitIs(start: nat, size: nat, v: nat, p: nat)
    requires 0 < size && start <= v <= p < v + size && MultipleOfSize(v - start, size)
    ensures UnitOf(start, size, p) == v
    ensures MultipleOfSize(p - start, size) ==> p == v
  {
    var k := (v - start) / size;
    MultipleOf(v - start, size);
    DivUnique(p - start, size, k, p - v);
  }

  lemma UnmappedIs(before: seq<Fact>, after: seq<Fact>, start: nat, v: nat, size: nat, outside: bool, oom: bool)
    requires 0 < size && Unmapped(before, after, start, v, size, outside, oom)
    ensures start <= v <= |before| == |after|
  {
  }

  // A failed assertion is due to a page that was not mapped.
  lemma MappedPasses(before: seq<Fact>, after: seq<Fact>, start: nat, v: nat, size: nat, outside: bool, oom: bool,
                     end: nat)
    requires 0 < size && start <= v && v + size <= end <= |before| == |after| && MultipleOfSize(v - start, size)
    requires Unmapped(before, after, start, v + size, size, outside, oom)
    ensures AllOccupied(before, start, end) ==> Passes(before[v], after[v], outside)
  {
    hide Unmapped, MultipleOfSize;
    if AllOccupied(before, start, end) {
      MappedIsUnmapped(before, after, start, v + size, size, outside, oom);
    }
  }

  lemma UnmappedMore(before: seq<Fact>, mid: seq<Fact>, after: seq<Fact>, start: nat, v: nat, size: nat, outside: bool,
                     oom: bool, oom': bool)
    requires 0 < size && Unmapped(before, mid, start, v, size, outside, oom)
    requires UnitUnmapped(mid, after, v, v + size, outside, oom') && MultipleOfSize(v - start, size)
    ensures Unmapped(before, after, start, v + size, size, outside, oom || oom')
    ensures Passes(before[v], after[v], outside) == Passes(mid[v], after[v], outside)
    ensures AllPass(before, mid, start, v, size, outside) ==> AllPass(before, after, start, v, size, outside)
    ensures AllPass(before, mid, start, v, size, outside) && Passes(mid[v], after[v], outside) ==>
      AllPass(before, after, start, v + size, size, outside)
  {
    hide UnitOf, MultipleOfSize, GetsTo;
    forall p: nat | v <= p < v + size
      ensures UnitOf(start, size, p) == v && (MultipleOfSize(p - start, size) ==> p == v)
      ensures GetsTo(mid, v, p, outside) == GetsTo(before, v, p, outside)
    {
      UnitIs(start, size, v, p);
      SameWay(before, mid, v, p, outside);
    }
    if AllPass(before, mid, start, v, size, outside) {
      forall p: nat | start <= p < v + size && MultipleOfSize(p - start, size)
        ensures p <= v && (p < v ==> Passes(before[p], after[p], outside))
      {
        if p < v {
          assert Passes(before[p], mid[p], outside) && after[p].page == mid[p].page;
        } else {
          UnitIs(start, size, v, p);
        }
      }
    }
  }

  lemma SameWay(before: seq<Fact>, mid: seq<Fact>, first: nat, p: nat, outside: bool)
    requires p < |before| == |mid|
    requires forall q: nat | first <= q <= p ::
      mid[q].page == before[q].page && (outside ==> mid[q].held == before[q].held)
    ensures GetsTo(mid, first, p, outside) == GetsTo(before, first, p, outside)
  {
  }

  // clear_entries and reserve_entries change the pages up to the one that stops them.
  ghost predicate UpTo(before: seq<Fact>, after: seq<Fact>, v: nat, stop: nat, end: nat, outside: bool, oom: bool) {
    && v <= stop <= end <= |before| == |after| && v < end
    && (forall p: nat | p < |before| ::
          after[p].page == if v <= p < stop then Freed(outside) else before[p].page)
    && (forall p: nat | v <= p < stop :: !Stops(before[p], outside))
    && (stop < end && !oom ==> Stops(before[stop], outside))
    && (oom ==> !outside && stop < end && before[stop].page.cap == EMPTY)
    && (forall p: nat | p < |before| && before[p].held :: after[p].held)
    && (forall p: nat | p < |before| && after[p].held && !before[p].held :: before[p].page == EMPTY_PAGE)
    && (outside ==> forall p: nat | p < |before| :: after[p].held == before[p].held)
  }

  lemma UpToStop(before: seq<Fact>, after: seq<Fact>, v: nat, stop: nat, end: nat, outside: bool, oom: bool)
    requires UpTo(before, after, v, stop, end, outside, oom)
    ensures UnitUnmapped(before, after, v, end, outside, oom)
  {
    forall p: nat | v <= p < end && !oom
      ensures GetsTo(before, v, p, outside) <==> p < stop
    {
      if stop <= p {
        assert Stops(before[stop], outside);
      }
    }
  }

  // What the source finds at a page: nothing if it has no word of its own.
  function Seen(f: Fact): Page {
    if f.held then f.page else EMPTY_PAGE
  }

  // The two assertions of the source about the first page, and when they hold
  lemma PassMeans(before: seq<Fact>, after: seq<Fact>, v: nat, stop: nat, end: nat, outside: bool, oom: bool)
    requires UpTo(before, after, v, stop, end, outside, oom)
    requires before[v].held || before[v].page == EMPTY_PAGE || before[v].page == RESERVED_PAGE
    ensures Seen(after[v]).cap != Seen(before[v]).cap && Seen(after[v]).cookie == 0 <==>
      Passes(before[v], after[v], outside)
  {
  }

  // Mapped pages are all given back.
  lemma MappedIsUnmapped(before: seq<Fact>, after: seq<Fact>, start: nat, v: nat, size: nat, outside: bool, oom: bool)
    requires 0 < size && Unmapped(before, after, start, v, size, outside, oom) && AllOccupied(before, start, v)
    ensures !oom && forall p: nat | start <= p < v :: after[p].page == Freed(outside)
    ensures AllPass(before, after, start, v, size, outside)
  {
    hide UnitOf;
    assert forall p: nat | start <= p < v :: GetsTo(before, UnitOf(start, size, p), p, outside);
  }

  // The ranges [lo, hi) have no Empty page before.
  lemma NoneLost(before: seq<Fact>, after: seq<Fact>, start: nat, v: nat, size: nat, outside: bool, oom: bool,
                 lo: nat, hi: nat)
    requires 0 < size && Unmapped(before, after, start, v, size, outside, oom) && hi <= |before|
    requires forall p: nat | lo <= p < hi :: before[p].page.cap != EMPTY
    ensures (forall p: nat | lo <= p < hi :: after[p].page.cap != EMPTY) <==>
      !outside || Keeps(before, start, v, size, lo, hi)
  {
    hide UnitOf, GetsTo;
    if outside && !Keeps(before, start, v, size, lo, hi) {
      var p: nat :| start <= p < v && lo <= p < hi && GetsTo(before, UnitOf(start, size, p), p, true);
      assert after[p].page == EMPTY_PAGE;
    }
  }

  // Outside every reservation no page of [lo, hi) is given back.
  ghost predicate Keeps(before: seq<Fact>, start: nat, v: nat, size: nat, lo: nat, hi: nat)
    requires 0 < size && hi <= |before|
  {
    forall p: nat | start <= p < v && lo <= p < hi :: !GetsTo(before, UnitOf(start, size, p), p, true)
  }

  // If all pages of the range are mapped this is so exactly if it does not meet [lo, hi).
  lemma KeepsMapped(before: seq<Fact>, start: nat, v: nat, size: nat, lo: nat, hi: nat)
    requires 0 < size && v <= |before| && hi <= |before| && lo < hi && AllOccupied(before, start, v)
    ensures Keeps(before, start, v, size, lo, hi) <==> hi <= start || v <= lo || v <= start
  {
    hide UnitOf;
    if !(hi <= start || v <= lo || v <= start) {
      var p := if lo < start then start else lo;
      assert GetsTo(before, UnitOf(start, size, p), p, true);
    }
  }
}
