// The reservation list of a virtual address space (libsel4utils/src/vspace/vspace.c), in pages.
module Reservations {
  // sel4utils_res_t
  class Reservation {
    var start: nat
    var end: nat
    var rightsDeferred: bool
    var next: Reservation?

    constructor ()
      ensures next == null
    {
      start, end, rightsDeferred, next := 0, 0, false, null;
    }
  }

  // Disjoint, non-empty and descending by start address.
  ghost predicate Sorted(rs: seq<Reservation>)
    reads rs`start, rs`end
  {
    && (forall i :: 0 <= i < |rs| ==> rs[i].start < rs[i].end)
    && (forall i, j :: 0 <= i < j < |rs| ==> rs[j].end <= rs[i].start)
  }

  ghost predicate Contains(r: Reservation, p: nat)
    reads r`start, r`end
  {
    r.start <= p < r.end
  }

  // The range [start, end) overlaps none of the reservations.
  ghost predicate Spares(rs: seq<Reservation>, start: nat, end: nat)
    reads rs`start, rs`end
  {
    forall i | 0 <= i < |rs| :: rs[i].end <= start || end <= rs[i].start
  }

  // data->reservation_head and the chain of next pointers.
  class ReservationList {
    var head: Reservation?
    ghost var items: seq<Reservation>

    ghost predicate Valid()
      reads this, items`next
    {
      && head == (if |items| == 0 then null else items[0])
      && (forall i, j :: 0 <= i < j < |items| ==> items[i] != items[j])
      && (forall i {:trigger items[i].next} :: 0 <= i < |items| ==>
            items[i].next == if i + 1 < |items| then items[i + 1] else null)
    }

    constructor ()
      ensures Valid() && items == []
    {
      head, items := null, [];
    }

    // insert_reservation: after every reservation that does not start below it
    method Insert(r: Reservation) returns (ghost k: nat)
      requires Valid() && r !in items
      modifies this, items`next, r`next
      ensures Valid()
      ensures k <= |old(items)| && items == old(items)[..k] + [r] + old(items)[k..]
      ensures forall i :: 0 <= i < k ==> old(items)[i].start >= r.start
      ensures k < |old(items)| ==> r.start > old(items)[k].start
    {
      r.next := null;
      if head == null || r.start > head.start {
        r.next := head;
        head := r;
        items := [r] + items;
        return 0;
      }
      var prev: Reservation := head;
      var current := prev.next;
      k := 1;
      while current != null
        invariant 1 <= k <= |items| && prev == items[k - 1]
        invariant current == if k < |items| then items[k] else null
        invariant forall i :: 0 <= i < k ==> items[i].start >= r.start
        decreases |items| - k
      {
        if r.start > current.start {
          LinkAfter(prev, k, r);
          return;
        }
        prev := current;
        current := current.next;
        k := k + 1;
      }
      LinkAfter(prev, k, r);
    }

    // reservation->next = prev->next; prev->next = reservation
    method LinkAfter(prev: Reservation, ghost k: nat, r: Reservation)
      requires Valid() && r !in items && 1 <= k <= |items| && items[k - 1] == prev
      modifies this`items, prev`next, r`next
      ensures Valid() && items == old(items)[..k] + [r] + old(items)[k..]
    {
      r.next := prev.next;
      prev.next := r;
      items := items[..k] + [r] + items[k..];
    }

    // remove_reservation
    method Remove(r: Reservation) returns (ghost k: nat)
      requires Valid() && r in items
      modifies this, items`next
      ensures Valid()
      ensures k < |old(items)| && old(items)[k] == r && items == old(items)[..k] + old(items)[k + 1..]
    {
      if r == head {
        head := head.next;
        r.next := null;
        items := items[1..];
        return 0;
      }
      var prev: Reservation := head;
      var current := prev.next;
      k := 1;
      while current != null
        invariant 1 <= k <= |items| && prev == items[k - 1]
        invariant current == if k < |items| then items[k] else null
        invariant forall i :: 0 <= i < k ==> items[i] != r
        decreases |items| - k
      {
        if current == r {
          prev.next := r.next;
          r.next := null;
          items := items[..k] + items[k + 1..];
          return;
        }
        prev := current;
        current := current.next;
        k := k + 1;
      }
      assert false;
      return;
    }

    // find_reserve: the first listed reservation that contains the page
    method Find(p: nat) returns (r: Reservation?)
      requires Valid()
      ensures r == null ==> forall x :: x in items ==> !Contains(x, p)
      ensures r != null ==> r in items && Contains(r, p)
    {
      r := head;
      ghost var k := 0;
      while r != null
        invariant 0 <= k <= |items|
        invariant r == if k < |items| then items[k] else null
        invariant forall i :: 0 <= i < k ==> !Contains(items[i], p)
        decreases |items| - k
      {
        if r.start <= p && p < r.end {
          return;
        }
        r := r.next;
        k := k + 1;
      }
    }
  }

  // In a sorted list at most one reservation contains a page.
  lemma FindIsUnique(rs: seq<Reservation>, i: nat, j: nat, p: nat)
    requires Sorted(rs) && i < |rs| && j < |rs|
    requires Contains(rs[i], p) && Contains(rs[j], p)
    ensures i == j
  {
  }

  // Inserting a reservation that overlaps none of the others where insert_reservation does keeps the list sorted.
  lemma InsertKeepsSorted(rs: seq<Reservation>, r: Reservation, k: nat)
    requires Sorted(rs) && k <= |rs| && r.start < r.end
    requires forall i :: 0 <= i < k ==> rs[i].start >= r.start
    requires k < |rs| ==> r.start > rs[k].start
    requires Spares(rs, r.start, r.end)
    ensures Sorted(rs[..k] + [r] + rs[k..])
  {
    var s := rs[..k] + [r] + rs[k..];
    forall i, j | 0 <= i < j < |s|
      ensures s[j].end <= s[i].start
    {
    }
  }

  // Clear of [b, c), and of the parts of [a, d) outside it, is clear of all of [a, d).
  lemma SparesJoin(all: seq<Reservation>, rs: seq<Reservation>, a: nat, b: nat, c: nat, d: nat)
    requires forall x | x in rs :: x in all
    requires forall i | 0 <= i < |rs| :: rs[i].start < rs[i].end
    requires b < c && Spares(rs, b, c)
    requires a < b ==> Spares(all, a, b)
    requires c < d ==> Spares(all, c, d)
    ensures Spares(rs, a, d)
  {
    forall i | 0 <= i < |rs|
      ensures rs[i].end <= a || d <= rs[i].start
    {
      assert rs[i] in rs;
      var j :| 0 <= j < |all| && all[j] == rs[i];
    }
  }
}
