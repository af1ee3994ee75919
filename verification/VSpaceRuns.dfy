// A run of the virtual address space manager that leaves a reservation without its page
// (libsel4utils/src/vspace/vspace.c).
module VSpaceRuns {
  import opened Arithmetic
  import opened Environment
  import opened LevelIndex
  import opened PageTables
  import opened Reservations
  import opened Unmapping
  import opened VSpaceManager

  // Reserve the pages of a whole word of the top table, and map one of them. There is memory for every table.
  method ReserveAndMap(vspace: VSpace, r: Reservation, start: nat, at: nat, cap: Word)
    returns (ghost k: nat)
    requires forall n: nat :: vspace.memory(n)
    requires vspace.Valid() && r !in vspace.list.items && r !in vspace.top.Repr
    requires start <= at < start + FAN <= vspace.Limit() && vspace.AllEmpty(start, start + FAN)
    requires vspace.WholeWords(start, start + FAN) && cap != EMPTY && cap != RESERVED
    modifies vspace`asked, r, vspace.list, vspace.list.items`next, vspace.top.Repr
    ensures vspace.Valid() && fresh(vspace.top.Repr - old(vspace.top.Repr))
    ensures k <= |old(vspace.list.items)|
    ensures vspace.list.items == old(vspace.list.items)[..k] + [r] + old(vspace.list.items)[k..]
    ensures r.start == start && r.end == start + FAN
    ensures vspace.PageAt(at) == Page(cap, 0)
    ensures forall p: nat | p < vspace.Limit() && !(start <= p < start + FAN) ::
      vspace.PageAt(p) == old(vspace.PageAt(p))
  {
    hide Span, Index, MidLevel.At, MidLevel.Holds, VSpace.Valid, Cut, VSpace.WholeWords, FramePage, FirstError,
      Recorded, Pages;
    OnePage();
    vspace.ValidIs();
    var error, aborted;
    error, aborted, k := vspace.ReserveRangeAt(r, start, FAN);
    assert vspace.list.items[k] == r;
    ghost var done, oom;
    vspace.ValidIs();
    error, done, oom := vspace.MapPagesAt(r, [cap], [], [0], at, 1, false);
    OneRecorded(error, done, oom, cap, at);
  }

  lemma OnePage()
    ensures Pages(1, 1) == 1 && Pages(2, 1) == 2
  {
  }

  lemma OneRecorded(error: int, done: nat, oom: bool, cap: Word, at: nat)
    requires Recorded([0], 1, error, done, oom)
    ensures done <= 1 && (!oom ==> done == 1) && FramePage([cap], [], at, 1, at) == Page(cap, 0)
  {
    assert FirstError([0]) == 1;
  }

  // Two neighbouring pages are mapped, each in its own reservation.
  method MapNeighbours() returns (vspace: VSpace, r: Reservation, s: Reservation, ghost k: nat)
    ensures vspace.Valid() && fresh(vspace) && fresh(vspace.top.Repr) && fresh(vspace.list)
    ensures fresh(r) && fresh(s) && r != s && FAN + FAN <= vspace.Limit()
    ensures k <= 1 && vspace.list.items == [r][..k] + [s] + [r][k..]
    ensures r.start == 0 && r.end == FAN && s.start == FAN && s.end == FAN + FAN
    ensures vspace.PageAt(FAN - 1) == Page(1, 0) && vspace.PageAt(FAN) == Page(2, 0)
    ensures forall n: nat :: vspace.memory(n)
  {
    hide Span, Index, MidLevel.At, MidLevel.Holds, MidLevel.Valid, VSpace.Valid, Cut, Sorted, ReservationList.Valid;
    vspace := new VSpace(1, 0x10000, _ => true);
    r := new Reservation();
    s := new Reservation();
    TwoTables();
    vspace.ValidIs();
    k := ReserveAndMap(vspace, r, 0, FAN - 1, 1);
    vspace.ValidIs();
    k := ReserveAndMap(vspace, s, FAN, FAN, 2);
    vspace.ValidIs();
  }

  // The first reservation is freed, which leaves its page mapped.
  method MapNextToReservation() returns (vspace: VSpace, s: Reservation)
    ensures vspace.Valid() && fresh(vspace) && fresh(vspace.top.Repr) && FAN + 1 <= vspace.Limit()
    ensures vspace.list.items == [s] && s.start == FAN && s.end == FAN + FAN && s !in vspace.top.Repr
    ensures vspace.AllMapped(FAN - 1, FAN + 1)
  {
    hide Span, Index, MidLevel.At, MidLevel.Holds, MidLevel.Valid, VSpace.Valid, Sorted, ReservationList.Valid;
    var r; ghost var k, j, done;
    vspace, r, s, k := MapNeighbours();
    vspace.ValidIs();
    assert vspace.list.items[1 - k] == r;
    done, j := vspace.FreeReservation(r);
    OtherStays(r, s, k, j);
    vspace.ValidIs();
    assert vspace.list.items[0] == s;
  }

  // Both pages are unmapped: the second one becomes Empty in its reservation.
  method UnmapRunsIntoReservation() returns (vspace: VSpace)
    ensures vspace.Tables() && !vspace.Valid()
  {
    hide *;
    var s;
    vspace, s := MapNextToReservation();
    OnePage();
    OneReservation(s);
    ghost var oom, units, tried;
    var aborted;
    aborted, oom, units, tried := vspace.UnmapPages(FAN - 1, 2, 1);
    OneReservation(s);
  }

  lemma OneReservation(s: Reservation)
    requires s.start == FAN && s.end == FAN + FAN
    ensures InNone([s], FAN - 1) && !Spares([s], FAN - 1, FAN + 1)
  {
    assert [s][0] == s;
  }

  lemma OtherStays<T>(r: T, s: T, k: nat, j: nat)
    requires r != s && k <= 1 && j < 2 && ([r][..k] + [s] + [r][k..])[j] == r
    ensures var t := [r][..k] + [s] + [r][k..]; t[..j] + t[j + 1..] == [s]
  {
  }

  lemma TwoTables()
    ensures 2 * FAN <= Span(2) && Aligned(0, 1) && Aligned(FAN, 1) && Aligned(2 * FAN, 1)
  {
    MulMonotone(FAN, 2, FAN);
    DivUnique(FAN, FAN, 1, 0);
    DivUnique(2 * FAN, FAN, 2, 0);
  }
}
