// A virtual address space manager (libsel4utils/src/vspace/vspace.c): page book-keeping plus reservations, in 4K pages.
module VSpaceManager {
  import opened Arithmetic
  import opened Environment
  import opened LevelIndex
  import opened PageTables
  import opened Reservations
  import opened Unmapping

  // sel4utils_alloc_data_t
  class VSpace {
    // VSPACE_NUM_LEVELS - 1: the level of the top table
    const topLevel: nat
    const top: MidLevel
    const list: ReservationList
    // KERNEL_RESERVED_START, as a page number
    const kernelStart: nat
    var lastAllocated: nat
    // Whether requests for memory for a table are granted, and how many were made
    const memory: Answers
    var asked: nat

    // An address space without pre-reserved regions: every page is Empty.
    constructor (topLevel: nat, kernelStart: nat, memory: Answers)
      requires 1 <= topLevel && 0x10000 <= kernelStart
      ensures Valid() && list.items == [] && this.topLevel == topLevel && this.kernelStart == kernelStart
      ensures AllEmpty(0, Limit()) && NoneHeld(0, Limit())
      ensures lastAllocated == 0x10000 && this.memory == memory
      ensures fresh(list) && fresh(top) && fresh(top.Repr)
    {
      this.topLevel := topLevel;
      this.kernelStart := kernelStart;
      this.memory := memory;
      asked := 0;
      top := new MidLevel(Empty, topLevel);
      list := new ReservationList();
      lastAllocated := 0x10000;
    }

    // The pages the top table covers.
    ghost function Limit(): nat {
      Span(topLevel + 1)
    }

    // The tables and the list are well formed and do not share memory.
    ghost predicate Tables()
      reads top, top.Repr, list, list.items`next
    {
      && top.Valid(topLevel)
      && list.Valid()
      && this !in top.Repr && list !in top.Repr && Apart(list.items)
    }

    ghost predicate Apart(rs: seq<Reservation>)
      reads top
    {
      forall i | 0 <= i < |rs| :: rs[i] !in top.Repr
    }

    // Every reservation lies inside the tables and holds no Empty page.
    ghost predicate Backed(rs: seq<Reservation>)
      requires top.Valid(topLevel)
      reads top, top.Repr, rs`start, rs`end
    {
      forall i | 0 <= i < |rs| :: rs[i].end <= Limit() && NoneEmpty(rs[i].start, rs[i].end)
    }

    ghost function PageAt(p: nat): Page
      requires top.Valid(topLevel)
      reads top, top.Repr
    {
      top.At(topLevel, p)
    }

    // The listed reservations are disjoint, sorted by descending start, and hold no Empty page.
    ghost predicate Valid()
      reads this`lastAllocated, top, top.Repr, list, list.items`next, list.items`start, list.items`end
    {
      && Tables()
      && lastAllocated <= kernelStart
      && Sorted(list.items)
      && Backed(list.items)
    }

    ghost predicate NoneEmpty(start: nat, end: nat)
      requires top.Valid(topLevel)
      reads top, top.Repr
    {
      forall p: nat | start <= p < end :: PageAt(p).cap != EMPTY
    }

    ghost predicate AllEmpty(start: nat, end: nat)
      requires top.Valid(topLevel)
      reads top, top.Repr
    {
      forall p: nat | start <= p < end :: PageAt(p).cap == EMPTY
    }

    ghost predicate AllReserved(start: nat, end: nat)
      requires top.Valid(topLevel)
      reads top, top.Repr
    {
      forall p: nat | start <= p < end :: PageAt(p).cap == RESERVED
    }

    // No page of the range has a word of its own in a bottom table.
    ghost predicate NoneHeld(start: nat, end: nat)
      requires top.Valid(topLevel)
      reads top, top.Repr
    {
      forall p: nat | start <= p < end :: !top.Holds(topLevel, p)
    }

    // The range consists of whole words of the top table.
    ghost predicate WholeWords(start: nat, end: nat) {
      Aligned(start, topLevel) && Aligned(end, topLevel)
    }

    // reserve_entries_range
    method ReserveEntries(start: nat, end: nat, preserve: bool) returns (ok: bool, ghost done: nat, ghost oom: bool)
      requires Tables() && start <= end <= Limit()
      modifies this`asked, top.Repr
      ensures Tables() && fresh(top.Repr - old(top.Repr))
      ensures old(asked) <= asked && (oom <==> Denied(memory, old(asked), asked)) && (ok ==> !oom)
      ensures start <= done <= end && (ok <==> done == end)
      ensures forall p: nat | p < Limit() :: PageAt(p) == if start <= p < done then RESERVED_PAGE else old(PageAt(p))
      ensures forall p: nat | p < Limit() && start <= p < done :: !Unreservable(old(PageAt(p)), preserve)
      ensures !ok && !oom ==> Unreservable(old(PageAt(done)), preserve)
      ensures !ok && oom ==> !old(top.Holds(topLevel, done)) && !WholeWords(start, end)
      ensures forall p: nat | p < Limit() ::
        HeldGrows(old(PageAt(p)), old(top.Holds(topLevel, p)), top.Holds(topLevel, p))
      ensures ok ==> forall p: nat | p < Limit() ::
        top.Holds(topLevel, p) <==> old(top.Holds(topLevel, p)) || Cut(p, start, end)
      ensures old(Valid()) ==> Valid()
    {
      hide Span, Index, Cut;
      var count;
      ok, count, done, oom := top.Reserve(topLevel, start, end, preserve, memory, asked, 0);
      asked := count;
      assert forall p: nat | p < Limit() :: InTable(0, topLevel, p);
      forall p: nat | p < Limit() && start <= p < done
        ensures !Unreservable(old(PageAt(p)), preserve)
      {
        assert InTable(0, topLevel, p);
      }
    }

    // update_entries
    method UpdateEntries(start: nat, end: nat, cap: Word, cookie: Word)
      returns (ok: bool, ghost done: nat, ghost oom: bool)
      requires Tables() && start <= end <= Limit()
      modifies this`asked, top.Repr
      ensures Tables() && fresh(top.Repr - old(top.Repr))
      ensures old(asked) <= asked && (oom <==> Denied(memory, old(asked), asked)) && (ok ==> !oom)
      ensures start <= done <= end && (ok <==> done == end)
      ensures forall p: nat | p < Limit() ::
        PageAt(p) == if start <= p < done then Page(cap, cookie) else old(PageAt(p))
      ensures forall p: nat | p < Limit() && start <= p < done :: !Occupied(old(PageAt(p)))
      ensures !ok && !oom ==> Occupied(old(PageAt(done)))
      ensures !ok && oom ==> !old(top.Holds(topLevel, done))
      ensures forall p: nat | p < Limit() :: old(top.Holds(topLevel, p)) ==> top.Holds(topLevel, p)
      ensures old(Valid()) && cap != EMPTY ==> Valid()
    {
      hide Span, Index;
      var count;
      ok, count, done, oom := top.Update(topLevel, start, end, cap, cookie, memory, asked, 0);
      asked := count;
      assert forall p: nat | p < Limit() :: InTable(0, topLevel, p);
      forall p: nat | p < Limit() && start <= p < done
        ensures !Occupied(old(PageAt(p)))
      {
        assert InTable(0, topLevel, p);
      }
    }

    // clear_entries_range
    method ClearEntries(start: nat, end: nat, onlyReserved: bool, ghost others: seq<Reservation>)
      returns (ok: bool, ghost done: nat)
      requires Tables() && start <= end <= Limit()
      requires Apart(others) && Backed(others) && Spares(others, start, end)
      modifies this`lastAllocated, top.Repr
      ensures Tables() && top.Repr == old(top.Repr)
      ensures start <= done <= end && (ok <==> done == end)
      ensures forall p: nat | p < Limit() :: PageAt(p) == if start <= p < done then EMPTY_PAGE else old(PageAt(p))
      ensures forall p: nat | p < Limit() && start <= p < done ::
        Clearable(old(top.Holds(topLevel, p)), old(PageAt(p)), onlyReserved)
      ensures !ok ==> !Clearable(old(top.Holds(topLevel, done)), old(PageAt(done)), onlyReserved)
      ensures forall p: nat | p < Limit() :: old(top.Holds(topLevel, p)) == top.Holds(topLevel, p)
      ensures Backed(others)
      ensures lastAllocated == if ok && start < old(lastAllocated) then start else old(lastAllocated)
    {
      hide Span, Index;
      ok, done := top.Clear(topLevel, start, end, onlyReserved, 0);
      assert forall p: nat | p < Limit() :: InTable(0, topLevel, p);
      forall p: nat | p < Limit() && start <= p < done
        ensures Clearable(old(top.Holds(topLevel, p)), old(PageAt(p)), onlyReserved)
      {
        assert InTable(0, topLevel, p);
      }
      if ok && start < lastAllocated {
        lastAllocated := start;
      }
    }

    // is_available_range
    method IsAvailable(start: nat, end: nat) returns (r: bool)
      requires Tables() && start <= end <= Limit()
      ensures r <==> AllEmpty(start, end)
    {
      hide Span, Index;
      r := top.IsReservedOrEmpty(topLevel, start, end, Empty, 0);
      if r {
        forall p: nat | start <= p < end
          ensures PageAt(p).cap == EMPTY
        {
          assert InTable(0, topLevel, p);
        }
      } else {
        ghost var p: nat :| InTable(0, topLevel, p) && start <= p < end && top.At(topLevel, p).cap != EMPTY;
        assert PageAt(p).cap != EMPTY;
      }
    }

    // is_reserved_range
    method IsReserved(start: nat, end: nat) returns (r: bool)
      requires Tables() && start <= end <= Limit()
      ensures r <==> AllReserved(start, end)
    {
      hide Span, Index;
      r := top.IsReservedOrEmpty(topLevel, start, end, Reserved, 0);
      if r {
        forall p: nat | start <= p < end
          ensures PageAt(p).cap == RESERVED
        {
          assert InTable(0, topLevel, p);
        }
      } else {
        ghost var p: nat :| InTable(0, topLevel, p) && start <= p < end && top.At(topLevel, p).cap != RESERVED;
        assert PageAt(p).cap != RESERVED;
      }
    }

    // find_range: first fit from last_allocated on, in steps of the page size; 0 is NULL
    method FindRange(num: nat, size: nat) returns (start: nat)
      requires Tables() && 0 < num && 0 < size
      requires lastAllocated <= kernelStart && kernelStart + 2 * size <= Limit()
      modifies this`lastAllocated
      ensures start != 0 ==>
        && MultipleOfSize(start, size) && old(lastAllocated) <= start
        && AllEmpty(start, start + Pages(num, size))
        && lastAllocated == start + Pages(num, size) < kernelStart
        && FirstFit(old(lastAllocated), start, Pages(num, size), size)
      ensures start == 0 <==>
        FirstPageFound(old(lastAllocated), Pages(num, size)) || NoneFits(old(lastAllocated), Pages(num, size), size)
      ensures start == 0 ==>
        lastAllocated ==
        if FirstPageFound(old(lastAllocated), Pages(num, size)) then Pages(num, size) else old(lastAllocated)
      ensures lastAllocated <= kernelStart
    {
      hide Span, Index, MidLevel.At, MultipleOfSize, Pages, AllEmpty, FirstPageFound, NoneFits, FirstFit;
      var current; ghost var k;
      start, current, k := SearchRange(num, size);
      if k < num {
        StepUp(k, num, size);
      }
      if current >= kernelStart {
        NoFitLeft(lastAllocated, start, Pages(num, size), size);
        if FirstPageFound(lastAllocated, Pages(num, size)) {
          FirstPageFits(lastAllocated, Pages(num, size), size);
        }
        return 0;
      }
      Fits(lastAllocated, start, Pages(num, size), size);
      lastAllocated := current;
    }

    // The loop of find_range: current is where it stopped, at or past kernelStart when it gave up.
    method SearchRange(num: nat, size: nat) returns (start: nat, current: nat, ghost k: nat)
      requires Tables() && top.Valid(topLevel) && 0 < num && 0 < size
      requires lastAllocated <= kernelStart && kernelStart + 2 * size <= Limit()
      ensures k <= num && Searching(lastAllocated, start, current, k, num, size)
      ensures current < kernelStart ==> k == num
    {
      hide *;
      start := AlignUp(lastAllocated, size);
      current := start;
      var contiguous := 0;
      SearchStarts(lastAllocated, start, num, size);
      while contiguous < num
        invariant contiguous <= num && Searching(lastAllocated, start, current, contiguous, num, size)
        invariant current < kernelStart + size
        decreases kernelStart + size - current
      {
        var available := IsAvailable(current, current + size);
        SearchGoesOn(lastAllocated, start, current, contiguous, num, size);
        current := current + size;
        if available {
          contiguous := contiguous + 1;
        } else {
          start := current;
          contiguous := 0;
        }
        if current >= kernelStart {
          k := contiguous;
          return;
        }
      }
      k := contiguous;
    }

    // Invariant of the search: k free pages run from start to current, and no earlier start fits.
    ghost predicate Searching(first: nat, start: nat, current: nat, k: nat, num: nat, size: nat)
      requires top.Valid(topLevel) && 0 < size
      reads top, top.Repr
    {
      && first <= start && MultipleOfSize(start, size)
      && current == start + Pages(k, size) && MultipleOfSize(current, size)
      && AllEmpty(start, current)
      && FirstFit(first, start, Pages(num, size), size)
    }

    lemma SearchStarts(first: nat, start: nat, num: nat, size: nat)
      requires top.Valid(topLevel) && 0 < size && start == AlignUp(first, size)
      ensures Searching(first, start, start, 0, num, size)
    {
      hide Span, Index, MidLevel.At;
    }

    lemma SearchGoesOn(first: nat, start: nat, current: nat, k: nat, num: nat, size: nat)
      requires top.Valid(topLevel) && 0 < size && k < num
      requires Searching(first, start, current, k, num, size)
      ensures AllEmpty(current, current + size) ==> Searching(first, start, current + size, k + 1, num, size)
      ensures !AllEmpty(current, current + size) ==>
        Searching(first, current + size, current + size, 0, num, size)
    {
      hide Span, Index, MidLevel.At, Pages, MultipleOfSize;
      StepUp(k, num, size);
      NextMultiple(current, size);
      StepUp(0, num, size);
      if !AllEmpty(current, current + size) {
        BlockedUpTo(first, start, current, Pages(num, size), size);
      }
    }

    // The search starts at page 0 and it is there that the range fits: the address returned is then NULL, which callers
    // take for a failure.
    ghost predicate FirstPageFound(first: nat, total: nat)
      requires top.Valid(topLevel)
      reads top, top.Repr
    {
      first == 0 && total < kernelStart && AllEmpty(0, total)
    }

    // No free range of the given length begins at a multiple of size below the kernel.
    ghost predicate NoneFits(first: nat, total: nat, size: nat)
      requires top.Valid(topLevel) && 0 < size
      reads top, top.Repr
    {
      forall c: nat | first <= c && MultipleOfSize(c, size) && c + total < kernelStart :: !AllEmpty(c, c + total)
    }

    // No multiple of size between first and start begins a free range of the given length.
    ghost predicate FirstFit(first: nat, start: nat, total: nat, size: nat)
      requires top.Valid(topLevel) && 0 < size
      reads top, top.Repr
    {
      forall c: nat | first <= c < start && MultipleOfSize(c, size) :: !AllEmpty(c, c + total)
    }

    lemma NoFitLeft(first: nat, start: nat, total: nat, size: nat)
      requires top.Valid(topLevel) && 0 < size
      requires FirstFit(first, start, total, size) && kernelStart <= start + total
      ensures NoneFits(first, total, size)
    {
      hide Span, Index, MidLevel.At;
    }

    lemma FirstPageFits(first: nat, total: nat, size: nat)
      requires top.Valid(topLevel) && 0 < size && FirstPageFound(first, total)
      ensures !NoneFits(first, total, size)
    {
      hide Span, Index, MidLevel.At;
      MultipleAt(0, size);
      assert MultipleOfSize(0, size) && 0 + total < kernelStart;
    }

    lemma Fits(first: nat, start: nat, total: nat, size: nat)
      requires top.Valid(topLevel) && 0 < size && first <= start && MultipleOfSize(start, size)
      requires FirstFit(first, start, total, size) && AllEmpty(start, start + total) && start + total < kernelStart
      ensures !NoneFits(first, total, size) && (start == 0 <==> FirstPageFound(first, total))
    {
      hide Span, Index, MidLevel.At;
      MultipleAt(0, size);
      assert MultipleOfSize(0, size);
    }

    lemma BlockedUpTo(first: nat, start: nat, current: nat, total: nat, size: nat)
      requires top.Valid(topLevel) && 0 < size && start <= current && MultipleOfSize(current, size)
      requires FirstFit(first, start, total, size) && !AllEmpty(current, current + size)
      requires current + size <= start + total
      ensures FirstFit(first, current + size, total, size)
    {
      hide Span, Index, MidLevel.At;
      forall c: nat | start <= c < current + size && MultipleOfSize(c, size)
        ensures !AllEmpty(c, c + total)
      {
        MultipleBelow(c, current, size);
        ghost var p: nat :| current <= p < current + size && PageAt(p).cap != EMPTY;
      }
    }

    // A range of Empty pages overlaps no listed reservation.
    lemma EmptyRangeIsUnreserved(start: nat, end: nat)
      requires Valid() && start < end && AllEmpty(start, end)
      ensures Spares(list.items, start, end)
    {
      hide Span, Index, MidLevel.At;
      forall i | 0 <= i < |list.items|
        ensures list.items[i].end <= start || end <= list.items[i].start
      {
        var x := list.items[i];
        var p: nat := if start < x.start then x.start else start;
        assert p < end ==> PageAt(p).cap == EMPTY;
        assert p < x.end ==> PageAt(p).cap != EMPTY;
      }
    }

    // perform_reservation; false stands for its assertion failing, when no table could be allocated
    method PerformReservation(r: Reservation, start: nat, end: nat) returns (ok: bool, ghost k: nat)
      requires Valid() && r !in list.items && r !in top.Repr
      requires start < end <= Limit() && AllEmpty(start, end)
      modifies this`asked, r`start, r`end, r`next, list, list.items`next, top.Repr
      ensures Valid() && fresh(top.Repr - old(top.Repr))
      ensures ok ==> k <= |old(list.items)| && list.items == old(list.items)[..k] + [r] + old(list.items)[k..]
      ensures ok ==> r.start == start && r.end == end
      ensures ok ==>
        forall p: nat | p < Limit() :: PageAt(p) == if start <= p < end then RESERVED_PAGE else old(PageAt(p))
      ensures ok ==> forall p: nat | p < Limit() ::
        top.Holds(topLevel, p) <==> old(top.Holds(topLevel, p)) || Cut(p, start, end)
      ensures !ok ==> list.items == old(list.items) && !WholeWords(start, end)
      ensures old(asked) <= asked && (ok <==> !Denied(memory, old(asked), asked))
    {
      hide Span, Index, MidLevel.At, MidLevel.Holds, Sorted, Backed, ReservationList.Valid, Cut, WholeWords;
      EmptyRangeIsUnreserved(start, end);
      r.start, r.end := start, end;
      ghost var done, oom;
      k := 0;
      assert Valid();
      ok, done, oom := ReserveEntries(start, end, true);
      if ok {
        k := ListReservation(r);
      }
    }

    // insert_reservation, for a reservation whose pages are set up
    method ListReservation(r: Reservation) returns (ghost k: nat)
      requires Valid() && r !in list.items && r !in top.Repr
      requires r.start < r.end <= Limit() && NoneEmpty(r.start, r.end)
      requires Spares(list.items, r.start, r.end)
      modifies list, list.items`next, r`next
      ensures Valid()
      ensures k <= |old(list.items)| && list.items == old(list.items)[..k] + [r] + old(list.items)[k..]
    {
      hide Span, Index, MidLevel.At, Sorted, Backed, NoneEmpty, ReservationList.Valid;
      ghost var items := list.items;
      k := list.Insert(r);
      InsertKeepsSorted(items, r, k);
      InsertKeepsBacked(items, r, k);
    }

    lemma InsertKeepsBacked(rs: seq<Reservation>, r: Reservation, k: nat)
      requires top.Valid(topLevel) && k <= |rs| && Backed(rs) && Apart(rs)
      requires r.end <= Limit() && NoneEmpty(r.start, r.end) && r !in top.Repr
      ensures Backed(rs[..k] + [r] + rs[k..]) && Apart(rs[..k] + [r] + rs[k..])
    {
      hide Span, Index, MidLevel.At, NoneEmpty;
    }

    // sel4utils_reserve_range_at_no_alloc
    method ReserveRangeAt(r: Reservation, start: nat, count: nat) returns (error: int, aborted: bool, ghost k: nat)
      requires Valid() && r !in list.items && r !in top.Repr
      requires 0 < count && start + count <= Limit()
      modifies this`asked, r, list, list.items`next, top.Repr
      ensures Valid() && fresh(top.Repr - old(top.Repr))
      ensures error == 0 ==>
        && old(AllEmpty(start, start + count))
        && k <= |old(list.items)| && list.items == old(list.items)[..k] + [r] + old(list.items)[k..]
        && r.start == start && r.end == start + count && !r.rightsDeferred
        && forall p: nat | p < Limit() ::
          PageAt(p) == if start <= p < start + count then RESERVED_PAGE else old(PageAt(p))
      ensures error == 0 ==> forall p: nat | p < Limit() ::
        top.Holds(topLevel, p) <==> old(top.Holds(topLevel, p)) || Cut(p, start, start + count)
      ensures error != 0 ==> list.items == old(list.items)
      ensures error != 0 && !aborted ==>
        !old(AllEmpty(start, start + count)) && forall p: nat | p < Limit() :: PageAt(p) == old(PageAt(p))
      ensures old(asked) <= asked && (aborted <==> Denied(memory, old(asked), asked)) && (aborted ==> error != 0)
      ensures aborted ==> !WholeWords(start, start + count)
    {
      hide Span, Index, MidLevel.At, MidLevel.Holds, Sorted, Backed, NoneEmpty, ReservationList.Valid, Cut, WholeWords;
      var available := IsAvailable(start, start + count);
      if !available {
        return -1, false, 0;
      }
      r.rightsDeferred := false;
      var ok;
      ok, k := PerformReservation(r, start, start + count);
      if !ok {
        return -1, true, 0;
      }
      return 0, false, k;
    }

    // sel4utils_reserve_range_no_alloc_aligned: count pages somewhere, start aligned to size
    method ReserveRange(r: Reservation, count: nat, size: nat)
      returns (error: int, start: nat, aborted: bool, ghost k: nat)
      requires Valid() && r !in list.items && r !in top.Repr
      requires 0 < count && 0 < size && kernelStart + 2 * size <= Limit()
      modifies this`lastAllocated, this`asked, r, list, list.items`next, top.Repr
      ensures Valid() && fresh(top.Repr - old(top.Repr))
      ensures error == 0 ==>
        && old(AllEmpty(start, start + count)) && MultipleOfSize(start, size)
        && old(lastAllocated) <= start && start + count < kernelStart
        && k <= |old(list.items)| && list.items == old(list.items)[..k] + [r] + old(list.items)[k..]
        && r.start == start && r.end == start + count && !r.rightsDeferred
        && forall p: nat | p < Limit() ::
          PageAt(p) == if start <= p < start + count then RESERVED_PAGE else old(PageAt(p))
      ensures error != 0 ==> list.items == old(list.items)
      ensures error == 0 ==> FirstFit(old(lastAllocated), start, RoundedUp(count, size), size)
      ensures old(asked) <= asked && (aborted <==> Denied(memory, old(asked), asked)) && (aborted ==> error != 0)
      ensures aborted ==> !WholeWords(start, start + count)
      ensures error != 0 && !aborted ==> forall p: nat | p < Limit() :: PageAt(p) == old(PageAt(p))
      ensures error != 0 && !aborted <==>
        old(FirstPageFound(lastAllocated, RoundedUp(count, size)) ||
            NoneFits(lastAllocated, RoundedUp(count, size), size))
      ensures error == 0 ==> lastAllocated == start + RoundedUp(count, size)
      ensures error != 0 && !aborted ==>
        lastAllocated ==
        if old(FirstPageFound(lastAllocated, RoundedUp(count, size))) then RoundedUp(count, size)
        else old(lastAllocated)
    {
      hide Span, Index, MidLevel.At, Sorted, Backed, NoneEmpty, ReservationList.Valid, Pages, MultipleOfSize;
      PagesCover(count, size);
      start := FindRange((count + size - 1) / size, size);
      if start == 0 {
        return -1, 0, false, 0;
      }
      assert AllEmpty(start, start + count);
      r.rightsDeferred := false;
      var ok;
      ok, k := PerformReservation(r, start, start + count);
      if !ok {
        return -1, start, true, 0;
      }
      return 0, start, false, k;
    }

    // sel4utils_free_reservation: an error of clear_entries_range is ignored
    method FreeReservation(r: Reservation) returns (ghost done: nat, ghost k: nat)
      requires Valid() && r in list.items
      modifies this`lastAllocated, list, list.items`next, top.Repr
      ensures Valid() && top.Repr == old(top.Repr)
      ensures k < |old(list.items)| && old(list.items)[k] == r
      ensures list.items == old(list.items)[..k] + old(list.items)[k + 1..]
      ensures r.start <= done <= r.end
      ensures forall p: nat | p < Limit() :: PageAt(p) == if r.start <= p < done then EMPTY_PAGE else old(PageAt(p))
      ensures done == r.end <==>
        forall p: nat | r.start <= p < r.end :: Clearable(old(top.Holds(topLevel, p)), old(PageAt(p)), true)
      ensures forall p: nat | r.start <= p < done :: Clearable(old(top.Holds(topLevel, p)), old(PageAt(p)), true)
      ensures done < r.end ==> !Clearable(old(top.Holds(topLevel, done)), old(PageAt(done)), true)
      ensures lastAllocated == if done == r.end && r.start < old(lastAllocated) then r.start else old(lastAllocated)
    {
      hide Span, Index, MidLevel.At, Sorted, Backed, NoneEmpty, ReservationList.Valid;
      ghost var items := list.items;
      k := PositionOf(r);
      ghost var others := items[..k] + items[k + 1..];
      OthersAreSpared(k);
      var ok;
      ok, done := ClearEntries(r.start, r.end, true, others);
      k := list.Remove(r);
    }

    // A range no page of which has a word of its own is reserved and freed again: the freeing stops at the first bottom
    // table that the range fills, and from there on the pages stay Reserved although no reservation holds them.
    method ReserveThenFree(r: Reservation, start: nat, count: nat)
      returns (error: int, aborted: bool, ghost done: nat)
      requires Valid() && r !in list.items && r !in top.Repr
      requires 0 < count && start + count <= Limit() && NoneHeld(start, start + count)
      modifies this`lastAllocated, this`asked, r, list, list.items`next, top.Repr
      ensures Valid() && list.items == old(list.items)
      ensures error == 0 ==> done == FirstFilled(start, start + count)
      ensures error == 0 ==> forall p: nat | p < Limit() ::
        PageAt(p) == if done <= p < start + count then RESERVED_PAGE
                     else if start <= p < done then EMPTY_PAGE else old(PageAt(p))
      ensures error != 0 && !aborted ==> !old(AllEmpty(start, start + count))
      ensures old(asked) <= asked && (aborted <==> Denied(memory, old(asked), asked)) && (aborted ==> error != 0)
      ensures aborted ==> !WholeWords(start, start + count)
    {
      hide Span, Index, MidLevel.At, MidLevel.Holds, Sorted, Backed, NoneEmpty, ReservationList.Valid, Cut, WholeWords;
      ghost var items := list.items;
      ghost var k;
      error, aborted, k := ReserveRangeAt(r, start, count);
      done := start;
      if error == 0 {
        assert list.items[k] == r;
        FilledStops(start, start + count);
        ghost var stop := FirstFilled(start, start + count);
        assert forall p: nat | start <= p < stop :: Clearable(top.Holds(topLevel, p), PageAt(p), true);
        assert stop < r.end ==> !Clearable(top.Holds(topLevel, stop), PageAt(stop), true);
        ghost var j;
        done, j := FreeReservation(r);
        OnlyAt(items, r, k, j);
      }
    }

    lemma PositionOf(r: Reservation) returns (k: nat)
      requires list.Valid() && r in list.items
      ensures k < |list.items| && list.items[k] == r
      ensures forall j | 0 <= j < |list.items| && list.items[j] == r :: j == k
    {
      k :| 0 <= k < |list.items| && list.items[k] == r;
    }

    lemma OthersAreSpared(k: nat)
      requires Valid() && k < |list.items|
      ensures var others := list.items[..k] + list.items[k + 1..];
        Sorted(others) && Backed(others) && Apart(others) && Spares(others, list.items[k].start, list.items[k].end)
      ensures list.items[k].start < list.items[k].end <= Limit()
      ensures list.items[k] !in list.items[..k] + list.items[k + 1..]
      ensures NoneEmpty(list.items[k].start, list.items[k].end)
    {
      hide Span, Index, MidLevel.At, NoneEmpty;
    }

    // sel4utils_map_pages_at_vaddr (deferred == false) and sel4utils_deferred_rights_map_pages_at_vaddr:
    // frame caps[i] becomes the i-th page of the given size. The kernel answers the i-th attempt to map with
    // results[i]. done 4K pages are recorded when it returns; oom: there was no memory for a table.
    method MapPagesAt(r: Reservation, caps: seq<Word>, cookies: seq<Word>, results: seq<int>,
                      start: nat, size: nat, deferred: bool)
      returns (error: int, ghost done: nat, ghost oom: bool)
      requires Valid() && r in list.items && 0 < size && start + Pages(|caps|, size) <= Limit()
      requires forall i | 0 <= i < |caps| :: caps[i] != EMPTY && caps[i] != RESERVED
      requires (cookies == [] || |cookies| == |caps|) && |results| == |caps|
      modifies this`asked, top.Repr
      ensures Valid() && fresh(top.Repr - old(top.Repr))
      ensures old(asked) <= asked && (oom <==> Denied(memory, old(asked), asked))
      ensures
        var end := start + Pages(|caps|, size);
        if r.start <= start && end <= r.end && r.rightsDeferred == deferred && old(AllReserved(start, end)) then
          Recorded(results, size, error, done, oom) && (oom ==> !old(top.Holds(topLevel, start + done)))
        else
          error == -1 && done == 0 && !oom
      ensures forall p: nat | p < Limit() ::
        PageAt(p) == if start <= p < start + done then FramePage(caps, cookies, start, size, p) else old(PageAt(p))
    {
      hide Span, Index, MidLevel.At, MidLevel.Holds, Sorted, Backed, ReservationList.Valid, Pages, FramePage, Recorded;
      var end := start + Pages(|caps|, size);
      ghost var k := PositionOf(r);
      if start < r.start || r.end < end {
        return -1, 0, false;
      }
      var reserved := IsReserved(start, end);
      if !reserved || r.rightsDeferred != deferred {
        return -1, 0, false;
      }
      error, done, oom := RecordFrames(caps, cookies, results, start, size);
    }

    // map_pages_at_vaddr: map one frame after the other and record it, until the first error
    method RecordFrames(caps: seq<Word>, cookies: seq<Word>, results: seq<int>, start: nat, size: nat)
      returns (error: int, ghost done: nat, ghost oom: bool)
      requires Valid() && 0 < size && start + Pages(|caps|, size) <= Limit()
      requires AllReserved(start, start + Pages(|caps|, size))
      requires forall i | 0 <= i < |caps| :: caps[i] != EMPTY && caps[i] != RESERVED
      requires (cookies == [] || |cookies| == |caps|) && |results| == |caps|
      modifies this`asked, top.Repr
      ensures Valid() && fresh(top.Repr - old(top.Repr))
      ensures old(asked) <= asked && (oom <==> Denied(memory, old(asked), asked))
      ensures Recorded(results, size, error, done, oom) && (oom ==> !old(top.Holds(topLevel, start + done)))
      ensures forall p: nat | p < Limit() ::
        PageAt(p) == if start <= p < start + done then FramePage(caps, cookies, start, size, p) else old(PageAt(p))
    {
      hide Span, Index, MidLevel.At, MidLevel.Holds, Sorted, Backed, ReservationList.Valid, Pages, FramePage;
      var cur, i := start, 0;
      StepUp(0, |caps| + 1, size);
      while i < |caps|
        invariant fresh(top.Repr - old(top.Repr))
        invariant i <= |caps| && Valid() && cur == start + Pages(i, size) <= start + Pages(|caps|, size)
        invariant i <= FirstError(results) && old(asked) <= asked && !Denied(memory, old(asked), asked)
        invariant forall p: nat | p < Limit() ::
          PageAt(p) == if start <= p < cur then FramePage(caps, cookies, start, size, p) else old(PageAt(p))
        invariant forall p: nat | p < Limit() :: old(top.Holds(topLevel, p)) ==> top.Holds(topLevel, p)
      {
        var mapError := results[i];
        if mapError != 0 {
          return mapError, cur - start, false;
        }
        var cookie := if cookies == [] then 0 else cookies[i];
        StepUp(i, |caps|, size);
        FrameOf(caps, cookies, start, size, i);
        PagesMonotone(i + 1, FirstError(results), size);
        var ok; ghost var stop;
        ok, stop, oom := UpdateEntries(cur, cur + size, caps[i], cookie);
        if !ok {
          assert oom;
          return -1, stop - start, true;
        }
        cur := cur + size;
        i := i + 1;
      }
      return 0, cur - start, false;
    }

    // What the tables say about every page
    ghost function Facts(): (f: seq<Fact>)
      requires top.Valid(topLevel)
      reads top, top.Repr
      ensures |f| == Limit()
      ensures forall p: nat | p < |f| :: f[p] == Fact(PageAt(p), top.Holds(topLevel, p))
    {
      seq(Limit(), (p: nat) requires top.Valid(topLevel) reads top, top.Repr =>
        Fact(PageAt(p), top.Holds(topLevel, p)))
    }

    ghost predicate AllMapped(start: nat, end: nat)
      requires top.Valid(topLevel)
      reads top, top.Repr
    {
      forall p: nat | start <= p < end :: Occupied(PageAt(p))
    }

    // sel4utils_unmap_pages, for any range. aborted: one of its assertions fails, at the page of the given size that is
    // tried last. oom: there was no memory to reserve a page that had been Empty. The invariant survives exactly if the
    // first page lies in a reservation, or no page that is given back does.
    method UnmapPages(start: nat, num: nat, size: nat)
      returns (aborted: bool, ghost oom: bool, ghost units: nat, ghost tried: nat)
      requires Valid() && 0 < size && start + Pages(num, size) <= Limit()
      modifies this`lastAllocated, this`asked, top.Repr
      ensures old(asked) <= asked && (oom ==> Denied(memory, old(asked), asked))
      ensures Tables() && lastAllocated <= kernelStart && Sorted(list.items) && list.items == old(list.items)
      ensures units <= num && (aborted <==> units < num) && tried == (if aborted then units + 1 else units)
      ensures
        var outside, before, at := InNone(list.items, start), old(Facts()), start + Pages(units, size);
        && Unmapped(before, Facts(), start, start + Pages(tried, size), size, outside, oom)
        && at <= Limit() && AllPass(before, Facts(), start, at, size, outside)
        && (aborted ==> at < Limit() && !Passes(before[at], Facts()[at], outside))
      ensures Valid() <==>
        !InNone(list.items, start) || KeepsAll(old(Facts()), list.items, start, start + Pages(tried, size), size)
      ensures old(AllMapped(start, start + Pages(num, size))) ==>
        && !aborted && !oom
        && (forall p: nat | start <= p < start + Pages(num, size) :: PageAt(p) == Freed(InNone(list.items, start)))
        && (Valid() <==> !InNone(list.items, start) || Spares(list.items, start, start + Pages(num, size)))
    {
      hide *;
      ValidIs();
      var reserve := list.Find(start);
      ghost var before, outside := Facts(), reserve == null;
      UnmapBegins(before, outside, reserve, start, start + Pages(num, size));
      UnmappedNothing(before, start, size, outside);
      StepUp(0, num + 1, size);
      MultipleAt(0, size);
      var v, i := start, 0;
      aborted, oom := false, false;
      while i < num
        invariant i <= num && !aborted && Listed(before, start, outside)
        invariant top.Valid(topLevel) && fresh(top.Repr - old(top.Repr))
        invariant list.items == old(list.items)
        invariant old(asked) <= asked && (oom ==> Denied(memory, old(asked), asked))
        invariant v == start + Pages(i, size) <= start + Pages(num, size) && MultipleOfSize(v - start, size)
        invariant Unmapped(before, Facts(), start, v, size, outside, oom)
        invariant AllPass(before, Facts(), start, v, size, outside)
      {
        StepUp(i, num, size);
        ghost var mid := Facts();
        ghost var lost, count := false, asked;
        aborted, lost := UnmapPage(v, v + size, reserve, before, start, outside);
        UnmappedMore(before, mid, Facts(), start, v, size, outside, oom, lost);
        DeniedIn(memory, old(asked), count, asked);
        oom := oom || lost;
        if aborted {
          Survives(before, start, v + size, size, outside, oom);
          MappedPasses(before, Facts(), start, v, size, outside, oom, start + Pages(num, size));
          return true, oom, i, i + 1;
        }
        NextMultiple(v - start, size);
        v := v + size;
        i := i + 1;
      }
      Survives(before, start, v, size, outside, oom);
      return false, oom, num, num;
    }

    lemma ValidIs()
      requires Valid()
      ensures top.Valid(topLevel) && list.Valid() && Tables()
    {
    }

    // What holds between the rounds of unmapping, where before is what the tables said at the beginning.
    ghost predicate Listed(before: seq<Fact>, start: nat, outside: bool)
      reads this`lastAllocated, top, top.Repr, list, list.items`next, list.items`start, list.items`end
    {
      && Tables() && lastAllocated <= kernelStart && Sorted(list.items) && BackedBy(before, list.items)
      && (outside <==> InNone(list.items, start))
    }

    lemma UnmapBegins(before: seq<Fact>, outside: bool, reserve: Reservation?, start: nat, end: nat)
      requires Valid() && before == Facts() && end <= Limit() && (outside <==> reserve == null)
      requires reserve == null ==> forall x :: x in list.items ==> !Contains(x, start)
      requires reserve != null ==> reserve in list.items && Contains(reserve, start)
      ensures Listed(before, start, outside) && top.Valid(topLevel) && |before| == Limit()
      ensures outside <==> InNone(list.items, start)
      ensures AllMapped(start, end) ==> AllOccupied(before, start, end)
    {
      hide Span, Index, MidLevel.At, MidLevel.Holds, ReservationList.Valid, Facts;
      forall p: nat | start <= p < end && Occupied(PageAt(p))
        ensures before[p].held
      {
        top.HeldOrCollapsed(topLevel, p);
      }
    }

    lemma Survives(before: seq<Fact>, start: nat, v: nat, size: nat, outside: bool, oom: bool)
      requires Listed(before, start, outside) && top.Valid(topLevel) && 0 < size
      requires Unmapped(before, Facts(), start, v, size, outside, oom)
      ensures Tables() && lastAllocated <= kernelStart && Sorted(list.items)
      ensures outside <==> InNone(list.items, start)
      ensures Valid() <==> !outside || KeepsAll(before, list.items, start, v, size)
      ensures v <= |before| && AllOccupied(before, start, v) ==>
        && !oom && (forall p: nat | start <= p < v :: PageAt(p) == Freed(outside))
        && (Valid() <==> !outside || Spares(list.items, start, v))
    {
      hide Span, Index, MidLevel.At, MidLevel.Holds, MidLevel.Valid, ReservationList.Valid, Facts, Unmapped, Keeps,
        AllOccupied;
      UnmappedIs(before, Facts(), start, v, size, outside, oom);
      forall i | 0 <= i < |list.items|
        ensures NoneEmpty(list.items[i].start, list.items[i].end) <==>
          !outside || Keeps(before, start, v, size, list.items[i].start, list.items[i].end)
        ensures AllOccupied(before, start, v) ==>
          (Keeps(before, start, v, size, list.items[i].start, list.items[i].end) <==>
           list.items[i].end <= start || v <= list.items[i].start || v <= start)
      {
        NoneLost(before, Facts(), start, v, size, outside, oom, list.items[i].start, list.items[i].end);
        if AllOccupied(before, start, v) {
          KeepsMapped(before, start, v, size, list.items[i].start, list.items[i].end);
        }
      }
      if AllOccupied(before, start, v) {
        MappedIsUnmapped(before, Facts(), start, v, size, outside, oom);
      }
    }

    // One round of the loop of sel4utils_unmap_pages, with the assertions it makes
    method UnmapPage(v: nat, end: nat, reserve: Reservation?,
                    ghost before: seq<Fact>, ghost start: nat, ghost outside: bool)
      returns (aborted: bool, ghost oom: bool)
      requires Listed(before, start, outside) && top.Valid(topLevel) && v < end <= Limit()
      modifies this`lastAllocated, this`asked, top.Repr
      ensures old(asked) <= asked && (oom ==> Denied(memory, old(asked), asked))
      ensures Listed(before, start, outside) && list.items == old(list.items)
      ensures top.Valid(topLevel) && fresh(top.Repr - old(top.Repr))
      ensures UnitUnmapped(old(Facts()), Facts(), v, end, reserve == null, oom)
      ensures aborted <==> !Passes(old(Facts())[v], Facts()[v], reserve == null)
    {
      hide *;
      ghost var was := Facts();
      top.HeldOrCollapsed(topLevel, v);
      var cap, cookie := top.GetPage(topLevel, v);
      FactIs(v);
      ghost var stop;
      stop, oom := GiveBack(v, end, reserve, before, start, outside);
      var newCap, newCookie := top.GetPage(topLevel, v);
      FactIs(v);
      aborted := newCap == cap || newCookie != 0;
      PassMeans(was, Facts(), v, stop, end, reserve == null, oom);
      UpToStop(was, Facts(), v, stop, end, reserve == null, oom);
    }

    lemma FactIs(v: nat)
      requires top.Valid(topLevel) && v < Limit()
      ensures v < |Facts()| && Facts()[v] == Fact(top.At(topLevel, v), top.Holds(topLevel, v))
      ensures Seen(Facts()[v]) == if top.Holds(topLevel, v) then top.At(topLevel, v) else EMPTY_PAGE
    {
    }

    // clear_entries outside every reservation, and reserve_entries inside one; an error is ignored
    method GiveBack(v: nat, end: nat, reserve: Reservation?,
                    ghost before: seq<Fact>, ghost start: nat, ghost outside: bool)
      returns (ghost stop: nat, ghost oom: bool)
      requires Listed(before, start, outside) && top.Valid(topLevel) && v < end <= Limit()
      modifies this`lastAllocated, this`asked, top.Repr
      ensures old(asked) <= asked && (oom ==> Denied(memory, old(asked), asked))
      ensures Listed(before, start, outside) && list.items == old(list.items)
      ensures top.Valid(topLevel) && fresh(top.Repr - old(top.Repr))
      ensures UpTo(old(Facts()), Facts(), v, stop, end, reserve == null, oom)
    {
      hide Span, Index, MidLevel.At, MidLevel.Holds, MidLevel.Valid, Sorted, BackedBy, ReservationList.Valid, Cut;
      var ok;
      oom := false;
      if reserve == null {
        ok, stop := ClearEntries(v, end, false, []);
      } else {
        forall p: nat | v <= p < end
          ensures !top.Holds(topLevel, p) ==> PageAt(p) == EMPTY_PAGE || PageAt(p) == RESERVED_PAGE
        {
          top.HeldOrCollapsed(topLevel, p);
        }
        ok, stop, oom := ReserveEntries(v, end, false);
        oom := !ok && oom && old(PageAt(stop)).cap == EMPTY;
      }
    }

    // sel4utils_get_cap: the cap mapped at a page, 0 for every other page
    method GetCap(p: nat) returns (cap: Word)
      requires Tables()
      ensures cap == if Occupied(PageAt(p)) then PageAt(p).cap else EMPTY
    {
      hide Span, Index, MidLevel.At, MidLevel.Holds;
      top.HeldOrCollapsed(topLevel, p);
      var cookie;
      cap, cookie := top.GetPage(topLevel, p);
      if cap == RESERVED {
        cap := EMPTY;
      }
    }

    // sel4utils_move_resize_reservation; aborted stands for its assertion failing, because there was no memory for a
    // table; a move that only gives up pages never does
    method MoveResize(r: Reservation, newStart: nat, newEnd: nat)
      returns (error: int, aborted: bool, ghost k: nat, ghost j: nat)
      requires Valid() && r in list.items && newStart < newEnd <= Limit()
      modifies this`lastAllocated, this`asked, r`start, r`end, list, list.items`next, top.Repr
      ensures Valid() && fresh(top.Repr - old(top.Repr))
      ensures error == 0 || aborted <==>
        old(AllEmpty(newStart, r.start)) && old(AllEmpty(r.end, newEnd))
      ensures k < |old(list.items)| && old(list.items)[k] == r
      ensures error == 0 && !aborted ==>
        && r.start == newStart && r.end == newEnd
        && Relisted(old(list.items), list.items, r, k, j)
      ensures error == 0 && !aborted ==> forall p: nat | p < Limit() ::
        PageAt(p) ==
        MovedPage(old(PageAt(p)), old(top.Holds(topLevel, p)), old(Contains(r, p)), newStart <= p < newEnd)
      ensures error != 0 || aborted ==>
        && r.start == old(r.start) && r.end == old(r.end) && list.items == old(list.items)
        && lastAllocated == old(lastAllocated)
      ensures error == 0 && !aborted ==> lastAllocated <= old(lastAllocated)
      ensures error == 0 && !aborted ==>
        forall p: nat | p < Limit() && old(PageAt(p)) != EMPTY_PAGE && PageAt(p) == EMPTY_PAGE :: lastAllocated <= p
      ensures lastAllocated != old(lastAllocated) ==>
        exists p: nat :: p < Limit() && p == lastAllocated && old(PageAt(p)) != EMPTY_PAGE && PageAt(p) == EMPTY_PAGE
      ensures error != 0 && !aborted ==> forall p: nat | p < Limit() :: PageAt(p) == old(PageAt(p))
      ensures old(asked) <= asked && (aborted <==> Denied(memory, old(asked), asked)) && (aborted ==> error != 0)
      ensures aborted ==>
        exists p: nat :: newStart <= p < newEnd && !old(Contains(r, p)) && !old(top.Holds(topLevel, p))
    {
      hide Span, Index, MidLevel.At, MidLevel.Holds, Sorted, Backed, ReservationList.Valid;
      k := PositionOf(r);
      j := 0;
      OthersAreSpared(k);
      if newStart < r.start {
        var available := IsAvailable(newStart, r.start);
        if !available {
          return -1, false, k, j;
        }
      }
      if newEnd > r.end {
        var available := IsAvailable(r.end, newEnd);
        if !available {
          return -2, false, k, j;
        }
      }
      aborted, j := CommitMove(r, newStart, newEnd, k);
      error := if aborted then -1 else 0;
    }

    // The rest of sel4utils_move_resize_reservation, once the new pages are known to be available
    method CommitMove(r: Reservation, newStart: nat, newEnd: nat, ghost k: nat) returns (aborted: bool, ghost j: nat)
      requires Valid() && k < |list.items| && list.items[k] == r && newStart < newEnd <= Limit()
      requires AllEmpty(newStart, r.start) && AllEmpty(r.end, newEnd)
      modifies this`lastAllocated, this`asked, r`start, r`end, list, list.items`next, top.Repr
      ensures Valid() && fresh(top.Repr - old(top.Repr))
      ensures !aborted ==> r.start == newStart && r.end == newEnd && Relisted(old(list.items), list.items, r, k, j)
      ensures !aborted ==> forall p: nat | p < Limit() ::
        PageAt(p) ==
        MovedPage(old(PageAt(p)), old(top.Holds(topLevel, p)), old(Contains(r, p)), newStart <= p < newEnd)
      ensures aborted ==>
        && r.start == old(r.start) && r.end == old(r.end) && list.items == old(list.items)
        && lastAllocated == old(lastAllocated)
      ensures !aborted ==> lastAllocated <= old(lastAllocated)
      ensures !aborted ==>
        forall p: nat | p < Limit() && old(PageAt(p)) != EMPTY_PAGE && PageAt(p) == EMPTY_PAGE :: lastAllocated <= p
      ensures lastAllocated != old(lastAllocated) ==>
        exists p: nat :: p < Limit() && p == lastAllocated && old(PageAt(p)) != EMPTY_PAGE && PageAt(p) == EMPTY_PAGE
      ensures old(asked) <= asked && (aborted <==> Denied(memory, old(asked), asked))
      ensures aborted ==>
        exists p: nat :: newStart <= p < newEnd && !old(Contains(r, p)) && !old(top.Holds(topLevel, p))
    {
      hide Span, Index, MidLevel.At, MidLevel.Holds, Sorted, Backed, ReservationList.Valid, NoneEmpty, AllEmpty;
      ghost var others := list.items[..k] + list.items[k + 1..];
      OthersAreSpared(k);
      NewRangeIsSpared(k, others, newStart, newEnd);
      OthersAreListed(k, others);
      var reserved := ReserveNewPages(r, newStart, newEnd);
      if !reserved {
        return true, 0;
      }
      OthersAreSpared(k);
      ReleaseOldPages(r, newStart, newEnd, others);
      j := Relist(r, newStart, newEnd, k, others);
      aborted := false;
    }

    // Moving reservation r, listed at position k, put it at position j and left the order of the others alone.
    ghost predicate Relisted(before: seq<Reservation>, after: seq<Reservation>, r: Reservation, k: nat, j: nat) {
      && k < |before| && before[k] == r
      && var others := before[..k] + before[k + 1..];
        j <= |others| && after == others[..j] + [r] + others[j..]
    }

    // What sel4utils_move_resize_reservation makes of a page.
    ghost function MovedPage(page: Page, held: bool, inOld: bool, inNew: bool): Page {
      if inNew then (if inOld then page else RESERVED_PAGE)
      else if inOld && held && page.cap == RESERVED then EMPTY_PAGE
      else page
    }

    // The availability checks keep the new range clear of every other reservation.
    lemma NewRangeIsSpared(k: nat, others: seq<Reservation>, newStart: nat, newEnd: nat)
      requires Valid() && k < |list.items| && newStart < newEnd
      requires others == list.items[..k] + list.items[k + 1..]
      requires AllEmpty(newStart, list.items[k].start) && AllEmpty(list.items[k].end, newEnd)
      ensures Spares(others, newStart, newEnd)
    {
      hide *;
      ghost var r := list.items[k];
      OthersAreSpared(k);
      OthersAreListed(k, others);
      if newStart < r.start {
        EmptyRangeIsUnreserved(newStart, r.start);
      }
      if r.end < newEnd {
        EmptyRangeIsUnreserved(r.end, newEnd);
      }
      SparesJoin(list.items, others, newStart, r.start, r.end, newEnd);
    }

    lemma OthersAreListed(k: nat, others: seq<Reservation>)
      requires Valid() && k < |list.items| && others == list.items[..k] + list.items[k + 1..]
      ensures forall x | x in others :: x in list.items
      ensures forall i | 0 <= i < |others| :: others[i].start < others[i].end
      ensures forall i | 0 <= i < k :: others[i].start >= list.items[k].start
      ensures k < |others| ==> others[k].start < list.items[k].start
    {
      hide Span, Index, MidLevel.At, ReservationList.Valid, Backed;
    }

    // The end of sel4utils_move_resize_reservation: take over the new bounds, and list again if the start moved.
    method Relist(r: Reservation, newStart: nat, newEnd: nat, ghost k: nat, ghost others: seq<Reservation>)
      returns (ghost j: nat)
      requires Tables() && lastAllocated <= kernelStart && r in list.items
      requires k < |list.items| && list.items[k] == r && others == list.items[..k] + list.items[k + 1..]
      requires r !in others
      requires Sorted(others) && Backed(others) && Spares(others, newStart, newEnd)
      requires forall i | 0 <= i < k :: others[i].start >= r.start
      requires k < |others| ==> others[k].start < r.start
      requires newStart < newEnd <= Limit() && NoneEmpty(newStart, newEnd)
      modifies r`start, r`end, list, list.items`next
      ensures Valid() && r.start == newStart && r.end == newEnd
      ensures Relisted(old(list.items), list.items, r, k, j)
    {
      hide Span, Index, MidLevel.At, MidLevel.Holds, MidLevel.Valid, Sorted, Backed, NoneEmpty, Spares;
      var needReinsert := r.start != newStart;
      r.start := newStart;
      r.end := newEnd;
      if needReinsert {
        Unlist(r, k, others);
        j := ListReservation(r);
      } else {
        StaysInPlace(r, k, others);
        j := k;
      }
    }

    method Unlist(r: Reservation, ghost k: nat, ghost others: seq<Reservation>)
      requires Tables() && lastAllocated <= kernelStart
      requires k < |list.items| && list.items[k] == r && others == list.items[..k] + list.items[k + 1..]
      requires r !in others && Sorted(others) && Backed(others)
      modifies list, list.items`next
      ensures Valid() && list.items == others && r !in top.Repr
    {
      hide Span, Index, MidLevel.At, MidLevel.Holds, MidLevel.Valid, Sorted, Backed;
      ghost var j := list.Remove(r);
    }

    // A reservation whose start did not move keeps its place in the list.
    lemma StaysInPlace(r: Reservation, k: nat, others: seq<Reservation>)
      requires Tables() && lastAllocated <= kernelStart
      requires k < |list.items| && list.items[k] == r && others == list.items[..k] + list.items[k + 1..]
      requires Sorted(others) && Backed(others) && Spares(others, r.start, r.end)
      requires forall i | 0 <= i < k :: others[i].start >= r.start
      requires k < |others| ==> others[k].start < r.start
      requires r.start < r.end <= Limit() && NoneEmpty(r.start, r.end)
      ensures Valid()
    {
      hide Span, Index, MidLevel.At, Sorted, Backed, NoneEmpty, ReservationList.Valid, Spares;
      InsertKeepsSorted(others, r, k);
      InsertKeepsBacked(others, r, k);
      PutBack(list.items, k);
    }

    // The first loop of sel4utils_move_resize_reservation: pages outside the old reservation become Reserved.
    method ReserveNewPages(r: Reservation, newStart: nat, newEnd: nat) returns (ok: bool)
      requires Valid() && r !in top.Repr && r.start < r.end && newStart < newEnd <= Limit()
      requires AllEmpty(newStart, r.start) && AllEmpty(r.end, newEnd) && NoneEmpty(r.start, r.end)
      modifies this`asked, top.Repr
      ensures Valid() && fresh(top.Repr - old(top.Repr))
      ensures old(asked) <= asked && (ok <==> !Denied(memory, old(asked), asked))
      ensures !ok ==>
        exists p: nat :: newStart <= p < newEnd && !Contains(r, p) && !old(top.Holds(topLevel, p))
      ensures ok ==> NoneEmpty(newStart, newEnd)
      ensures ok ==> forall p: nat | p < Limit() ::
        PageAt(p) == if newStart <= p < newEnd && !Contains(r, p) then RESERVED_PAGE else old(PageAt(p))
      ensures forall p: nat | p < Limit() ::
        HeldGrows(old(PageAt(p)), old(top.Holds(topLevel, p)), top.Holds(topLevel, p))
    {
      hide Span, Index, MidLevel.At, MidLevel.Holds, Sorted, Backed, ReservationList.Valid;
      var v := newStart;
      while v < newEnd
        invariant Valid() && fresh(top.Repr - old(top.Repr)) && r !in top.Repr && newStart <= v
        invariant old(asked) <= asked && !Denied(memory, old(asked), asked)
        invariant forall p: nat | p < Limit() ::
          PageAt(p) == if newStart <= p < v && p < newEnd && !Contains(r, p) then RESERVED_PAGE else old(PageAt(p))
        invariant forall p: nat | p < Limit() ::
          HeldGrows(old(PageAt(p)), old(top.Holds(topLevel, p)), top.Holds(topLevel, p))
      {
        if v < r.start || v >= r.end {
          ghost var done, oom;
          ok, done, oom := ReserveEntries(v, v + 1, true);
          if !ok {
            return;
          }
        } else {
          v := r.end - 1;
        }
        v := v + 1;
      }
      return true;
    }

    // The second loop: pages outside the new range that are Reserved and have a word of their own become Empty.
    method ReleaseOldPages(r: Reservation, newStart: nat, newEnd: nat, ghost others: seq<Reservation>)
      requires Tables() && r !in top.Repr && r.start < r.end <= Limit() && newStart < newEnd <= Limit()
      requires Apart(others) && Backed(others) && Spares(others, r.start, r.end) && lastAllocated <= kernelStart
      modifies this`lastAllocated, top.Repr
      ensures Tables() && top.Repr == old(top.Repr) && Backed(others) && lastAllocated <= kernelStart
      ensures old(NoneEmpty(newStart, newEnd)) ==> NoneEmpty(newStart, newEnd)
      ensures forall p: nat | p < Limit() ::
        PageAt(p) ==
        if Contains(r, p) && !(newStart <= p < newEnd) && old(PageAt(p)).cap == RESERVED && old(top.Holds(topLevel, p))
        then EMPTY_PAGE else old(PageAt(p))
      ensures lastAllocated <= old(lastAllocated)
      ensures forall p: nat | p < Limit() && old(PageAt(p)) != EMPTY_PAGE && PageAt(p) == EMPTY_PAGE ::
        lastAllocated <= p
      ensures lastAllocated != old(lastAllocated) ==>
        exists p: nat :: p < Limit() && p == lastAllocated && old(PageAt(p)) != EMPTY_PAGE && PageAt(p) == EMPTY_PAGE
    {
      hide Span, Index, MidLevel.At, MidLevel.Holds, Backed, ReservationList.Valid;
      var v := r.start;
      while v < r.end
        invariant r.start <= v && Tables() && top.Repr == old(top.Repr) && Backed(others)
        invariant lastAllocated <= kernelStart && lastAllocated <= old(lastAllocated)
        invariant forall p: nat | p < v && p < Limit() && old(PageAt(p)) != EMPTY_PAGE && PageAt(p) == EMPTY_PAGE ::
          lastAllocated <= p
        invariant lastAllocated != old(lastAllocated) ==>
          exists p: nat :: p < Limit() && p == lastAllocated && old(PageAt(p)) != EMPTY_PAGE && PageAt(p) == EMPTY_PAGE
        invariant forall p: nat | p < Limit() ::
          PageAt(p) ==
          (if r.start <= p < v && p < r.end && !(newStart <= p < newEnd) && old(PageAt(p)).cap == RESERVED &&
              old(top.Holds(topLevel, p))
           then EMPTY_PAGE else old(PageAt(p))) &&
          top.Holds(topLevel, p) == old(top.Holds(topLevel, p))
      {
        if v < newStart || v >= newEnd {
          var cap, cookie := top.GetPage(topLevel, v);
          if cap == RESERVED {
            var ok; ghost var done;
            ok, done := ClearEntries(v, v + 1, true, others);
          }
        } else {
          v := newEnd - 1;
        }
        v := v + 1;
      }
    }
  }

  ghost predicate InNone(rs: seq<Reservation>, p: nat)
    reads rs`start, rs`end
  {
    forall i | 0 <= i < |rs| :: !Contains(rs[i], p)
  }

  // No reservation had an Empty page.
  ghost predicate BackedBy(before: seq<Fact>, rs: seq<Reservation>)
    reads rs`start, rs`end
  {
    forall i | 0 <= i < |rs| ::
      rs[i].end <= |before| && forall p: nat | rs[i].start <= p < rs[i].end :: before[p].page.cap != EMPTY
  }

  // No page of a reservation is given back.
  ghost predicate KeepsAll(before: seq<Fact>, rs: seq<Reservation>, start: nat, v: nat, size: nat)
    requires 0 < size
    reads rs`start, rs`end
  {
    forall i | 0 <= i < |rs| :: rs[i].end <= |before| && Keeps(before, start, v, size, rs[i].start, rs[i].end)
  }

  // A new address space in which the first bottom table's worth of pages is Reserved although no reservation is left
  method LeavesReserved() returns (vspace: VSpace)
    ensures vspace.Valid() && vspace.topLevel == 1 && FAN <= vspace.Limit()
    ensures vspace.list.items == [] && vspace.AllReserved(0, FAN)
  {
    vspace := new VSpace(1, 0x10000, _ => true);
    var r := new Reservation();
    WholeTable();
    hide Span, Index, MidLevel.At, MidLevel.Holds, Sorted, VSpace.Backed, ReservationList.Valid, Cut;
    var error, aborted; ghost var done;
    error, aborted, done := vspace.ReserveThenFree(r, 0, FAN);
  }

  lemma WholeTable()
    ensures Aligned(0, 1) && Aligned(FAN, 1) && FAN <= Span(2) && FirstFilled(0, FAN) == 0
  {
    MulAtLeast(FAN, FAN);
    DivUnique(FAN, FAN, 1, 0);
  }

  // The first page of the first bottom table that [start, end) fills, and end if it fills none
  function FirstFilled(start: nat, end: nat): (p: nat)
    requires start <= end
    ensures start <= p <= end
    ensures p == end <==> end < AlignUp(start, FAN) + FAN
  {
    if AlignUp(start, FAN) + FAN <= end then AlignUp(start, FAN) else end
  }

  lemma FilledStops(start: nat, end: nat)
    requires start <= end
    ensures forall p: nat | start <= p < FirstFilled(start, end) :: Cut(p, start, end)
    ensures FirstFilled(start, end) < end ==> !Cut(FirstFilled(start, end), start, end)
  {
    var w := AlignUp(start, FAN);
    assert Span(1) == FAN && Aligned(w, 1);
    NextBlockAligned(w, 1);
    forall p: nat | start <= p < FirstFilled(start, end)
      ensures Cut(p, start, end)
    {
      BlockAligned(p, 1);
      var b := BlockStart(p, 1);
      assert MultipleOfSize(b, FAN);
      NotAcross(w, p, 1);
      NotAcross(w + FAN, p, 1);
    }
  }

  lemma OnlyAt<T>(s: seq<T>, x: T, k: nat, j: nat)
    requires k <= |s| && x !in s && j < |s| + 1 && (s[..k] + [x] + s[k..])[j] == x
    ensures var t := s[..k] + [x] + s[k..]; t[..j] + t[j + 1..] == s
  {
  }

  // 4K pages taken by num pages of the given size.
  function Pages(num: nat, size: nat): nat {
    num * size
  }

  // 4K pages taken by as many pages of the given size as count 4K pages need
  function RoundedUp(count: nat, size: nat): nat
    requires 0 < size
  {
    Pages((count + size - 1) / size, size)
  }

  lemma PutBack<T>(s: seq<T>, k: nat)
    requires k < |s|
    ensures var t := s[..k] + s[k + 1..]; s == t[..k] + [s[k]] + t[k..]
  {
  }

  // ALIGN_UP
  function AlignUp(n: nat, size: nat): (r: nat)
    requires 0 < size
    ensures n <= r < n + size && MultipleOfSize(r, size)
    ensures forall c: nat | n <= c < r :: !MultipleOfSize(c, size)
  {
    AlignUpIsLeast(n, size);
    if n % size == 0 then n else n - n % size + size
  }

  lemma AlignUpIsLeast(n: nat, size: nat)
    requires 0 < size
    ensures n % size != 0 ==> MultipleOfSize(n - n % size + size, size)
    ensures n % size != 0 ==> forall c: nat | n <= c < n - n % size + size :: !MultipleOfSize(c, size)
  {
    var q := n / size;
    MultipleAt(q, size);
    assert size * q == n - n % size;
    NextMultiple(size * q, size);
    if n % size != 0 {
      forall c: nat | n <= c < n - n % size + size
        ensures !MultipleOfSize(c, size)
      {
        if MultipleOfSize(c, size) {
          MultipleBelow(c, size * q, size);
        }
      }
    }
  }

  // What page p holds when frame caps[i] is mapped as the i-th page of the given size from start on.
  ghost function FramePage(caps: seq<Word>, cookies: seq<Word>, start: nat, size: nat, p: nat): Page
    requires 0 < size && start <= p
    requires cookies == [] || |cookies| == |caps|
  {
    var i := (p - start) / size;
    if i < |caps| then Page(caps[i], if cookies == [] then 0 else cookies[i]) else EMPTY_PAGE
  }

  // The first attempt to map that fails; as many as there are if none does
  function FirstError(results: seq<int>): (i: nat)
    ensures i <= |results| && forall j | 0 <= j < i :: results[j] == 0
    ensures i < |results| ==> results[i] != 0
  {
    if results == [] || results[0] != 0 then 0 else 1 + FirstError(results[1..])
  }

  // What map_pages_at_vaddr returns, and after how many 4K pages: everything up to the first error of the kernel is
  // recorded, unless there is no memory for a table before.
  ghost predicate Recorded(results: seq<int>, size: nat, error: int, done: nat, oom: bool) {
    var n := FirstError(results);
    if oom then error == -1 && done < Pages(n, size)
    else error == (if n < |results| then results[n] else 0) && done == Pages(n, size)
  }

  lemma PagesMonotone(i: nat, n: nat, size: nat)
    requires i <= n && 0 < size
    ensures Pages(i, size) <= Pages(n, size)
  {
    MulMonotone(size, i, n);
    assert Pages(i, size) == size * i && Pages(n, size) == size * n;
  }

  lemma FrameOf(caps: seq<Word>, cookies: seq<Word>, start: nat, size: nat, i: nat)
    requires 0 < size && i < |caps|
    requires cookies == [] || |cookies| == |caps|
    ensures forall p: nat {:trigger FramePage(caps, cookies, start, size, p)} |
      start + Pages(i, size) <= p < start + Pages(i, size) + size ::
      FramePage(caps, cookies, start, size, p) == Page(caps[i], if cookies == [] then 0 else cookies[i])
  {
    forall p: nat | start + Pages(i, size) <= p < start + Pages(i, size) + size
      ensures FramePage(caps, cookies, start, size, p) == Page(caps[i], if cookies == [] then 0 else cookies[i])
    {
      FrameIndex(p - start, i, size);
    }
  }

  lemma FrameIndex(r: nat, i: nat, size: nat)
    requires 0 < size && Pages(i, size) <= r < Pages(i, size) + size
    ensures r / size == i
  {
    assert Pages(i, size) == size * i;
    DivUnique(r, size, i, r - Pages(i, size));
  }

  // BYTES_TO_SIZE_BITS_PAGES rounds up.
  lemma PagesCover(count: nat, size: nat)
    requires 0 < size && 0 < count
    ensures 0 < (count + size - 1) / size && count <= Pages((count + size - 1) / size, size)
  {
    var n := count + size - 1;
    var q := n / size;
    assert n == size * q + n % size;
    if q <= 0 {
      MulMonotone(size, q, 0);
    }
    assert Pages(q, size) == size * q;
  }

  lemma StepUp(contiguous: nat, num: nat, size: nat)
    requires contiguous < num && 0 < size
    ensures Pages(contiguous + 1, size) == Pages(contiguous, size) + size <= Pages(num, size)
    ensures Pages(0, size) == 0
  {
    MulMonotone(size, contiguous + 1, num);
    assert Pages(contiguous + 1, size) == size * (contiguous + 1);
    assert Pages(num, size) == size * num;
  }
}
