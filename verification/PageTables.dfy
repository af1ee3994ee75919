// Book-keeping tables of a virtual address space (libsel4utils/include/sel4utils/vspace_internal.h).
module PageTables {
  import opened Environment
  import opened LevelIndex

  // A machine word (uintptr_t / seL4_CPtr).
  type Word = nat

  const EMPTY: Word := 0
  const RESERVED: Word := 0xFFFF_FFFF_FFFF_FFFF

  // What the book-keeping knows about one 4K page.
  datatype Page = Page(cap: Word, cookie: Word)

  const EMPTY_PAGE := Page(EMPTY, 0)
  const RESERVED_PAGE := Page(RESERVED, 0)

  // One word of a mid-level table: a collapsed subtree or a pointer to the next table.
  datatype Entry =
    | Empty
    | Reserved
    | Bottom(bottom: BottomLevel)
    | Mid(mid: MidLevel)

  // The word a collapsed subtree stands for.
  function CollapsedWord(e: Entry): Word
    requires e.Empty? || e.Reserved?
  {
    if e.Empty? then EMPTY else RESERVED
  }

  // The objects reachable from an entry.
  ghost function Footprint(e: Entry): set<object>
    reads if e.Mid? then {e.mid} else {}
  {
    match e
    case Bottom(b) => {b.cap, b.cookie}
    case Mid(m) => {m} + m.Repr
    case _ => {}
  }

  // e is a well-formed word of a table at level l.
  ghost predicate EntryValid(e: Entry, l: nat)
    reads Footprint(e)
    decreases l, 0
  {
    match e
    case Bottom(b) => l == 1 && b.Valid()
    case Mid(m) => 1 < l && m.Valid(l - 1)
    case _ => true
  }

  // What entry e of a table at level l says about page p.
  ghost function EntryAt(e: Entry, l: nat, p: nat): Page
    requires EntryValid(e, l)
    reads Footprint(e)
    decreases l, 0
  {
    match e
    case Empty => EMPTY_PAGE
    case Reserved => RESERVED_PAGE
    case Bottom(b) => b.At(p)
    case Mid(m) => m.At(l - 1, p)
  }

  // [start, end) lies in the table at level l that starts at base.
  ghost predicate InRange(base: nat, l: nat, start: nat, end: nat) {
    Aligned(base, l + 1) && base <= start <= end <= base + Span(l + 1)
  }

  // The pages reserve_entries_bottom refuses.
  ghost predicate Unreservable(page: Page, preserve: bool) {
    page.cap == RESERVED || (page.cap != EMPTY && preserve)
  }

  // The pages update_entries_bottom refuses.
  ghost predicate Occupied(page: Page) {
    page.cap != RESERVED && page.cap != EMPTY
  }

  // The pages clear_entries_mid gets past: held says that the page has a word of its own in a bottom table.
  ghost predicate Clearable(held: bool, page: Page, onlyReserved: bool) {
    if held then onlyReserved ==> page.cap == RESERVED else page.cap == EMPTY
  }

  // Page p has a word of its own in a bottom table below entry e.
  ghost predicate EntryHolds(e: Entry, l: nat, p: nat)
    requires EntryValid(e, l)
    reads Footprint(e)
    decreases l, 0
  {
    match e
    case Bottom(b) => true
    case Mid(m) => m.Holds(l - 1, p)
    case _ => false
  }

  // Creating tables below a word that is EMPTY gives words of their own to Empty pages only.
  ghost predicate HeldGrows(page: Page, before: bool, after: bool) {
    (before ==> after) && (after && !before ==> page == EMPTY_PAGE)
  }

  // vspace_bottom_level_t
  class BottomLevel {
    const cap: array<Word>
    const cookie: array<Word>

    ghost predicate Valid()
    {
      cap.Length == FAN && cookie.Length == FAN && cap != cookie
    }

    ghost function At(p: nat): Page
      requires Valid()
      reads cap, cookie
    {
      Page(cap[Index(p, 0)], cookie[Index(p, 0)])
    }

    // create_bottom_level, once create_level has returned memory
    constructor (init: Word)
      ensures Valid() && fresh(cap) && fresh(cookie)
      ensures forall p: nat :: At(p) == Page(init, 0)
    {
      cap := new Word[FAN](_ => init);
      cookie := new Word[FAN](_ => 0);
    }

    // reserve_entries_bottom
    method Reserve(start: nat, end: nat, preserve: bool, ghost base: nat) returns (ok: bool, ghost done: nat)
      requires Valid() && InRange(base, 0, start, end)
      modifies cap, cookie
      ensures start <= done <= end && (ok <==> done == end)
      ensures forall p: nat | InTable(base, 0, p) :: At(p) == if start <= p < done then RESERVED_PAGE else old(At(p))
      ensures forall p: nat | InTable(base, 0, p) && start <= p < done :: !Unreservable(old(At(p)), preserve)
      ensures !ok ==> Unreservable(old(At(done)), preserve)
    {
      var cur := start;
      while cur < end
        invariant start <= cur <= end
        invariant forall p: nat | InTable(base, 0, p) :: At(p) == if start <= p < cur then RESERVED_PAGE else old(At(p))
        invariant forall p: nat | InTable(base, 0, p) && start <= p < cur :: !Unreservable(old(At(p)), preserve)
      {
        var index := Index(cur, 0);
        EntryBlock(base, 0, cur);
        if cap[index] == RESERVED || (cap[index] != EMPTY && preserve) {
          return false, cur;
        }
        cap[index] := RESERVED;
        cookie[index] := 0;
        cur := cur + 1;
      }
      return true, end;
    }

    // update_entries_bottom
    method Update(start: nat, end: nat, newCap: Word, newCookie: Word, ghost base: nat)
      returns (ok: bool, ghost done: nat)
      requires Valid() && InRange(base, 0, start, end)
      modifies cap, cookie
      ensures start <= done <= end && (ok <==> done == end)
      ensures forall p: nat | InTable(base, 0, p) ::
        At(p) == if start <= p < done then Page(newCap, newCookie) else old(At(p))
      ensures forall p: nat | InTable(base, 0, p) && start <= p < done :: !Occupied(old(At(p)))
      ensures !ok ==> Occupied(old(At(done)))
    {
      var cur := start;
      while cur < end
        invariant start <= cur <= end
        invariant forall p: nat | InTable(base, 0, p) ::
          At(p) == if start <= p < cur then Page(newCap, newCookie) else old(At(p))
        invariant forall p: nat | InTable(base, 0, p) && start <= p < cur :: !Occupied(old(At(p)))
      {
        var index := Index(cur, 0);
        EntryBlock(base, 0, cur);
        if cap[index] != RESERVED && cap[index] != EMPTY {
          return false, cur;
        }
        cap[index] := newCap;
        cookie[index] := newCookie;
        cur := cur + 1;
      }
      return true, end;
    }

    // clear_entries_bottom
    method Clear(start: nat, end: nat, onlyReserved: bool, ghost base: nat) returns (ok: bool, ghost done: nat)
      requires Valid() && InRange(base, 0, start, end)
      modifies cap, cookie
      ensures start <= done <= end && (ok <==> done == end)
      ensures forall p: nat | InTable(base, 0, p) :: At(p) == if start <= p < done then EMPTY_PAGE else old(At(p))
      ensures forall p: nat | InTable(base, 0, p) && start <= p < done :: Clearable(true, old(At(p)), onlyReserved)
      ensures !ok ==> !Clearable(true, old(At(done)), onlyReserved)
    {
      var cur := start;
      while cur < end
        invariant start <= cur <= end
        invariant forall p: nat | InTable(base, 0, p) :: At(p) == if start <= p < cur then EMPTY_PAGE else old(At(p))
        invariant forall p: nat | InTable(base, 0, p) && start <= p < cur :: Clearable(true, old(At(p)), onlyReserved)
      {
        var index := Index(cur, 0);
        EntryBlock(base, 0, cur);
        if cap[index] != RESERVED && onlyReserved {
          return false, cur;
        }
        cap[index] := EMPTY;
        cookie[index] := 0;
        cur := cur + 1;
      }
      return true, end;
    }

    // is_reserved_or_empty_bottom
    method IsReservedOrEmpty(start: nat, end: nat, good: Word, ghost base: nat) returns (r: bool)
      requires Valid() && InRange(base, 0, start, end)
      ensures r <==> forall p: nat | InTable(base, 0, p) && start <= p < end :: At(p).cap == good
    {
      var cur := start;
      while cur < end
        invariant start <= cur <= end
        invariant forall p: nat | InTable(base, 0, p) && start <= p < cur :: At(p).cap == good
      {
        if cap[Index(cur, 0)] != good {
          assert InTable(base, 0, cur) && At(cur).cap != good;
          return false;
        }
        cur := cur + 1;
      }
      return true;
    }
  }

  // vspace_mid_level_t
  class MidLevel {
    const table: array<Entry>
    ghost var Repr: set<object>

    ghost predicate Valid(l: nat)
      reads this, Repr
      decreases l, 1
      ensures Valid(l) ==> this in Repr && table in Repr
    {
      && 1 <= l
      && this in Repr && table in Repr
      && table.Length == FAN
      && (forall i :: 0 <= i < FAN && table[i].Mid? ==> table[i].mid in Repr)
      && (forall i :: 0 <= i < FAN ==> Footprint(table[i]) <= Repr - {this, table})
      && (forall i :: 0 <= i < FAN ==> EntryValid(table[i], l))
      && (forall i, j :: 0 <= i < j < FAN ==> Footprint(table[i]) !! Footprint(table[j]))
    }

    ghost function At(l: nat, p: nat): Page
      requires Valid(l)
      reads this, Repr
      decreases l, 1
    {
      EntryAt(table[Index(p, l)], l, p)
    }

    ghost predicate Holds(l: nat, p: nat)
      requires Valid(l)
      reads this, Repr
      decreases l, 1
    {
      EntryHolds(table[Index(p, l)], l, p)
    }

    // create_mid_level, once create_level has returned memory
    constructor (init: Entry, ghost l: nat)
      requires init.Empty? || init.Reserved?
      requires 1 <= l
      ensures Valid(l) && fresh(Repr)
      ensures forall p: nat :: At(l, p) == if init.Empty? then EMPTY_PAGE else RESERVED_PAGE
      ensures forall p: nat :: !Holds(l, p)
    {
      table := new Entry[FAN](_ => init);
      Repr := {this, table};
    }

    // level->table[index] = e, for an entry that is still collapsed
    method SetEntry(l: nat, index: nat, e: Entry)
      requires Valid(l) && index < FAN && (table[index].Empty? || table[index].Reserved?)
      requires EntryValid(e, l) && Footprint(e) !! Repr
      modifies this, table
      ensures Valid(l) && Repr == old(Repr) + Footprint(e) && table[..] == old(table[..])[index := e]
      ensures forall p: nat :: At(l, p) == if Index(p, l) == index then EntryAt(e, l, p) else old(At(l, p))
      ensures forall p: nat :: Holds(l, p) == if Index(p, l) == index then EntryHolds(e, l, p) else old(Holds(l, p))
    {
      hide Span, Index, BlockStart;
      table[index] := e;
      Repr := Repr + Footprint(e);
      assert forall j | 0 <= j < FAN && j != index :: Footprint(table[j]) == old(Footprint(table[j]));
    }

    // A collapsed word is replaced by a table full of it: no page changes. This takes one request for memory.
    method Expand(l: nat, index: nat, memory: Answers, asked: nat) returns (ok: bool)
      requires Valid(l) && index < FAN && (table[index].Empty? || table[index].Reserved?)
      modifies this, table
      ensures Valid(l) && fresh(Repr - old(Repr)) && ok == memory(asked)
      ensures forall p: nat :: At(l, p) == old(At(l, p))
      ensures forall p: nat :: old(Holds(l, p)) ==> Holds(l, p)
      ensures ok ==> forall p: nat :: Holds(l, p) <==> old(Holds(l, p)) || (l == 1 && Index(p, l) == index)
      ensures old(table[index]).Empty? ==> forall p: nat :: HeldGrows(old(At(l, p)), old(Holds(l, p)), Holds(l, p))
      ensures !ok ==> Repr == old(Repr) && table[..] == old(table[..])
      ensures ok ==> !table[index].Empty? && !table[index].Reserved?
    {
      hide Span, Index, BlockStart;
      var e := CreateLevel(l, table[index], memory(asked));
      if e.Empty? {
        return false;
      }
      SetEntry(l, index, e);
      return true;
    }

    // reserve_entries_mid
    method Reserve(l: nat, start: nat, end: nat, preserve: bool,
          memory: Answers, asked: nat, ghost base: nat)
      returns (ok: bool, asked': nat, ghost done: nat, ghost oom: bool)
      requires Valid(l) && InRange(base, l, start, end)
      modifies Repr
      ensures Valid(l) && fresh(Repr - old(Repr))
      ensures asked <= asked' && (oom <==> Denied(memory, asked, asked')) && (ok ==> !oom)
      ensures start <= done <= end && (ok <==> done == end)
      ensures forall p: nat | InTable(base, l, p) ::
        At(l, p) == if start <= p < done then RESERVED_PAGE else old(At(l, p))
      ensures forall p: nat | InTable(base, l, p) && start <= p < done :: !Unreservable(old(At(l, p)), preserve)
      ensures !ok && !oom ==> Unreservable(old(At(l, done)), preserve)
      ensures !ok && oom ==> !old(Holds(l, done)) && !(Aligned(start, l) && Aligned(end, l))
      ensures forall p: nat | InTable(base, l, p) :: HeldGrows(old(At(l, p)), old(Holds(l, p)), Holds(l, p))
      ensures ok ==> forall p: nat | InTable(base, l, p) :: Holds(l, p) <==> old(Holds(l, p)) || Cut(p, start, end)
      decreases l, 3
    {
      hide Span, Index, BlockStart, Aligned, Cut;
      var cur := start;
      asked', oom := asked, false;
      EmptyCutsNone(start);
      while cur < end
        invariant start <= cur <= end && asked <= asked' && !Denied(memory, asked, asked')
        invariant cur == start || cur == end || Aligned(cur, l)
        invariant Valid(l) && fresh(Repr - old(Repr))
        invariant forall p: nat | InTable(base, l, p) ::
          At(l, p) == if start <= p < cur then RESERVED_PAGE else old(At(l, p))
        invariant forall p: nat | InTable(base, l, p) :: HeldGrows(old(At(l, p)), old(Holds(l, p)), Holds(l, p))
        invariant forall p: nat | InTable(base, l, p) :: Holds(l, p) <==> old(Holds(l, p)) || Cut(p, start, cur)
        invariant forall p: nat | InTable(base, l, p) && start <= p < cur :: !Unreservable(old(At(l, p)), preserve)
      {
        var next := BlockStart(cur, l) + Span(l);
        var recurse := end < next || cur != BlockStart(cur, l);
        next := if end < next then end else next;
        EntryBlock(base, l, cur);
        RoundCuts(l, start, cur, next, end);
        ok, asked', done, oom := ReserveEntry(l, cur, next, recurse, preserve, memory, asked', base);
        if !ok {
          return;
        }
        cur := next;
      }
      return true, asked', end, false;
    }

    // One round of the loop of reserve_entries_mid: the part of the range under one table word.
    method ReserveEntry(l: nat, start: nat, next: nat, recurse: bool, preserve: bool,
          memory: Answers, asked: nat, ghost base: nat)
      returns (ok: bool, asked': nat, ghost done: nat, ghost oom: bool)
      requires Valid(l) && InRange(base, l, start, next) && start < next <= BlockStart(start, l) + Span(l)
      requires recurse <==> !(start == BlockStart(start, l) && next == start + Span(l))
      modifies Repr
      ensures Valid(l) && fresh(Repr - old(Repr))
      ensures asked <= asked' && (oom <==> Denied(memory, asked, asked')) && (ok ==> !oom)
      ensures start <= done <= next && (ok <==> done == next)
      ensures forall p: nat | InTable(base, l, p) ::
        At(l, p) == if start <= p < done then RESERVED_PAGE else old(At(l, p))
      ensures forall p: nat | InTable(base, l, p) && start <= p < done :: !Unreservable(old(At(l, p)), preserve)
      ensures !ok && !oom ==> Unreservable(old(At(l, done)), preserve)
      ensures !ok && oom ==> !old(Holds(l, done)) && recurse
      ensures forall p: nat | InTable(base, l, p) :: HeldGrows(old(At(l, p)), old(Holds(l, p)), Holds(l, p))
      ensures ok ==> forall p: nat | InTable(base, l, p) :: Holds(l, p) <==> old(Holds(l, p)) || Cut(p, start, next)
      decreases l, 2
    {
      hide Span, Index, BlockStart, Cut;
      var index := Index(start, l);
      EntryBlock(base, l, start);
      CutsUnderWord(base, l, start, next);
      if table[index].Reserved? {
        return false, asked, start, false;
      }
      asked' := asked;
      if table[index].Empty? {
        if !recurse {
          SetEntry(l, index, Reserved);
          return true, asked, next, false;
        }
        var expanded := Expand(l, index, memory, asked);
        asked' := asked + 1;
        if !expanded {
          return false, asked', start, true;
        }
      }
      ok, asked', done, oom := ReserveSubtree(l, start, next, preserve, memory, asked', base);
    }

    // The recursive call of reserve_entries_mid into the table under word index; the other words are untouched.
    method ReserveIn(l: nat, index: nat, start: nat, next: nat, preserve: bool,
          memory: Answers, asked: nat, ghost block: nat)
      returns (ok: bool, asked': nat, ghost done: nat, ghost oom: bool)
      requires Valid(l) && index < FAN && !table[index].Empty? && !table[index].Reserved?
      requires InRange(block, l - 1, start, next)
      modifies Repr
      ensures Valid(l) && fresh(Repr - old(Repr)) && table[..] == old(table[..])
      ensures asked <= asked' && (oom <==> Denied(memory, asked, asked')) && (ok ==> !oom)
      ensures start <= done <= next && (ok <==> done == next)
      ensures forall p: nat | Index(p, l) != index :: At(l, p) == old(At(l, p)) && Holds(l, p) == old(Holds(l, p))
      ensures forall p: nat | InBlock(block, l, p) ::
        EntryAt(table[index], l, p) == if start <= p < done then RESERVED_PAGE else old(EntryAt(table[index], l, p))
      ensures forall p: nat | InBlock(block, l, p) ::
        HeldGrows(old(EntryAt(table[index], l, p)), old(EntryHolds(table[index], l, p)), EntryHolds(table[index], l, p))
      ensures forall p: nat | InBlock(block, l, p) && start <= p < done ::
        !Unreservable(old(EntryAt(table[index], l, p)), preserve)
      ensures !ok && !oom ==> Unreservable(old(EntryAt(table[index], l, done)), preserve)
      ensures !ok && oom ==> !old(EntryHolds(table[index], l, done))
      ensures !ok && oom ==> !(start == block && next == block + Span(l))
      ensures ok ==> forall p: nat | InBlock(block, l, p) ::
        EntryHolds(table[index], l, p) <==> old(EntryHolds(table[index], l, p)) || (1 < l && Cut(p, start, next))
      decreases l, 0
    {
      hide Span, Index, BlockStart, Cut;
      ok, asked', done, oom := ReserveBelow(table[index], l, start, next, preserve, memory, asked, block);
      Repr := Repr + Footprint(table[index]);
      assert forall j | 0 <= j < FAN && j != index :: Footprint(table[j]) == old(Footprint(table[j]));
    }

    // The same, in terms of the whole table.
    method ReserveSubtree(l: nat, start: nat, next: nat, preserve: bool,
          memory: Answers, asked: nat, ghost base: nat)
      returns (ok: bool, asked': nat, ghost done: nat, ghost oom: bool)
      requires Valid(l) && InRange(base, l, start, next) && start < next <= BlockStart(start, l) + Span(l)
      requires !table[Index(start, l)].Empty? && !table[Index(start, l)].Reserved?
      modifies Repr
      ensures Valid(l) && fresh(Repr - old(Repr))
      ensures asked <= asked' && (oom <==> Denied(memory, asked, asked')) && (ok ==> !oom)
      ensures start <= done <= next && (ok <==> done == next)
      ensures forall p: nat | InTable(base, l, p) ::
        At(l, p) == if start <= p < done then RESERVED_PAGE else old(At(l, p))
      ensures forall p: nat | InTable(base, l, p) && start <= p < done :: !Unreservable(old(At(l, p)), preserve)
      ensures !ok && !oom ==> Unreservable(old(At(l, done)), preserve)
      ensures !ok && oom ==> !old(Holds(l, done)) && !(start == BlockStart(start, l) && next == start + Span(l))
      ensures forall p: nat | InTable(base, l, p) :: HeldGrows(old(At(l, p)), old(Holds(l, p)), Holds(l, p))
      ensures ok ==> forall p: nat | InTable(base, l, p) :: Holds(l, p) <==> old(Holds(l, p)) || Cut(p, start, next)
      decreases l, 1
    {
      hide Span, Index, BlockStart, Cut;
      var index := Index(start, l);
      ghost var block := BlockStart(start, l);
      EntryBlock(base, l, start);
      CutsUnderWord(base, l, start, next);
      ok, asked', done, oom := ReserveIn(l, index, start, next, preserve, memory, asked, block);
      assert forall p: nat | InTable(base, l, p) && Index(p, l) == index :: InBlock(block, l, p);
      forall p: nat | InTable(base, l, p) && start <= p < done
        ensures !Unreservable(old(At(l, p)), preserve)
      {
        assert InBlock(block, l, p);
      }
    }

    // update_entries_mid
    method Update(l: nat, start: nat, end: nat, cap: Word, cookie: Word,
          memory: Answers, asked: nat, ghost base: nat)
      returns (ok: bool, asked': nat, ghost done: nat, ghost oom: bool)
      requires Valid(l) && InRange(base, l, start, end)
      modifies Repr
      ensures Valid(l) && fresh(Repr - old(Repr))
      ensures asked <= asked' && (oom <==> Denied(memory, asked, asked')) && (ok ==> !oom)
      ensures start <= done <= end && (ok <==> done == end)
      ensures forall p: nat | InTable(base, l, p) ::
        At(l, p) == if start <= p < done then Page(cap, cookie) else old(At(l, p))
      ensures forall p: nat | InTable(base, l, p) && start <= p < done :: !Occupied(old(At(l, p)))
      ensures !ok && !oom ==> Occupied(old(At(l, done)))
      ensures !ok && oom ==> !old(Holds(l, done))
      ensures forall p: nat | InTable(base, l, p) :: old(Holds(l, p)) ==> Holds(l, p)
      decreases l, 3
    {
      hide Span, Index, BlockStart;
      var cur := start;
      asked', oom := asked, false;
      while cur < end
        invariant start <= cur <= end && asked <= asked' && !Denied(memory, asked, asked')
        invariant Valid(l) && fresh(Repr - old(Repr))
        invariant forall p: nat | InTable(base, l, p) ::
          At(l, p) == if start <= p < cur then Page(cap, cookie) else old(At(l, p))
        invariant forall p: nat | InTable(base, l, p) :: old(Holds(l, p)) ==> Holds(l, p)
        invariant forall p: nat | InTable(base, l, p) && start <= p < cur :: !Occupied(old(At(l, p)))
      {
        var next := BlockStart(cur, l) + Span(l);
        next := if end < next then end else next;
        EntryBlock(base, l, cur);
        ok, asked', done, oom := UpdateEntry(l, cur, next, cap, cookie, memory, asked', base);
        if !ok {
          return;
        }
        cur := next;
      }
      return true, asked', end, false;
    }

    // One round of the loop of update_entries_mid: a collapsed word is expanded first.
    method UpdateEntry(l: nat, start: nat, next: nat, cap: Word, cookie: Word,
          memory: Answers, asked: nat, ghost base: nat)
      returns (ok: bool, asked': nat, ghost done: nat, ghost oom: bool)
      requires Valid(l) && InRange(base, l, start, next) && start < next <= BlockStart(start, l) + Span(l)
      modifies Repr
      ensures Valid(l) && fresh(Repr - old(Repr))
      ensures asked <= asked' && (oom <==> Denied(memory, asked, asked')) && (ok ==> !oom)
      ensures start <= done <= next && (ok <==> done == next)
      ensures forall p: nat | InTable(base, l, p) ::
        At(l, p) == if start <= p < done then Page(cap, cookie) else old(At(l, p))
      ensures forall p: nat | InTable(base, l, p) && start <= p < done :: !Occupied(old(At(l, p)))
      ensures !ok && !oom ==> Occupied(old(At(l, done)))
      ensures !ok && oom ==> !old(Holds(l, done))
      ensures forall p: nat | InTable(base, l, p) :: old(Holds(l, p)) ==> Holds(l, p)
      decreases l, 2
    {
      hide Span, Index, BlockStart;
      var index := Index(start, l);
      asked' := asked;
      if table[index].Empty? || table[index].Reserved? {
        var expanded := Expand(l, index, memory, asked);
        asked' := asked + 1;
        if !expanded {
          return false, asked', start, true;
        }
      }
      ok, asked', done, oom := UpdateSubtree(l, start, next, cap, cookie, memory, asked', base);
    }

    // The recursive call of update_entries_mid into the table under word index; the other words are untouched.
    method UpdateIn(l: nat, index: nat, start: nat, next: nat, cap: Word, cookie: Word,
          memory: Answers, asked: nat, ghost block: nat)
      returns (ok: bool, asked': nat, ghost done: nat, ghost oom: bool)
      requires Valid(l) && index < FAN && !table[index].Empty? && !table[index].Reserved?
      requires InRange(block, l - 1, start, next)
      modifies Repr
      ensures Valid(l) && fresh(Repr - old(Repr)) && table[..] == old(table[..])
      ensures asked <= asked' && (oom <==> Denied(memory, asked, asked')) && (ok ==> !oom)
      ensures start <= done <= next && (ok <==> done == next)
      ensures forall p: nat | Index(p, l) != index :: At(l, p) == old(At(l, p)) && Holds(l, p) == old(Holds(l, p))
      ensures forall p: nat | InBlock(block, l, p) ::
        EntryAt(table[index], l, p) == if start <= p < done then Page(cap, cookie) else old(EntryAt(table[index], l, p))
      ensures forall p: nat | InBlock(block, l, p) ::
        old(EntryHolds(table[index], l, p)) ==> EntryHolds(table[index], l, p)
      ensures forall p: nat | InBlock(block, l, p) && start <= p < done :: !Occupied(old(EntryAt(table[index], l, p)))
      ensures !ok && !oom ==> Occupied(old(EntryAt(table[index], l, done)))
      ensures !ok && oom ==> !old(EntryHolds(table[index], l, done))
      decreases l, 0
    {
      hide Span, Index, BlockStart;
      ok, asked', done, oom := UpdateBelow(table[index], l, start, next, cap, cookie, memory, asked, block);
      Repr := Repr + Footprint(table[index]);
      assert forall j | 0 <= j < FAN && j != index :: Footprint(table[j]) == old(Footprint(table[j]));
    }

    // The same, in terms of the whole table.
    method UpdateSubtree(l: nat, start: nat, next: nat, cap: Word, cookie: Word,
          memory: Answers, asked: nat, ghost base: nat)
      returns (ok: bool, asked': nat, ghost done: nat, ghost oom: bool)
      requires Valid(l) && InRange(base, l, start, next) && start < next <= BlockStart(start, l) + Span(l)
      requires !table[Index(start, l)].Empty? && !table[Index(start, l)].Reserved?
      modifies Repr
      ensures Valid(l) && fresh(Repr - old(Repr))
      ensures asked <= asked' && (oom <==> Denied(memory, asked, asked')) && (ok ==> !oom)
      ensures start <= done <= next && (ok <==> done == next)
      ensures forall p: nat | InTable(base, l, p) ::
        At(l, p) == if start <= p < done then Page(cap, cookie) else old(At(l, p))
      ensures forall p: nat | InTable(base, l, p) && start <= p < done :: !Occupied(old(At(l, p)))
      ensures !ok && !oom ==> Occupied(old(At(l, done)))
      ensures !ok && oom ==> !old(Holds(l, done))
      ensures forall p: nat | InTable(base, l, p) :: old(Holds(l, p)) ==> Holds(l, p)
      decreases l, 1
    {
      hide Span, Index, BlockStart;
      var index := Index(start, l);
      ghost var block := BlockStart(start, l);
      EntryBlock(base, l, start);
      ok, asked', done, oom := UpdateIn(l, index, start, next, cap, cookie, memory, asked, block);
      assert forall p: nat | InTable(base, l, p) && Index(p, l) == index :: InBlock(block, l, p);
      forall p: nat | InTable(base, l, p) && start <= p < done
        ensures !Occupied(old(At(l, p)))
      {
        assert InBlock(block, l, p);
      }
    }

    // clear_entries_mid
    method Clear(l: nat, start: nat, end: nat, onlyReserved: bool, ghost base: nat) returns (ok: bool, ghost done: nat)
      requires Valid(l) && InRange(base, l, start, end)
      modifies Repr
      ensures Valid(l) && Repr == old(Repr)
      ensures start <= done <= end && (ok <==> done == end)
      ensures forall p: nat | InTable(base, l, p) ::
        At(l, p) == (if start <= p < done then EMPTY_PAGE else old(At(l, p))) && Holds(l, p) == old(Holds(l, p))
      ensures forall p: nat | InTable(base, l, p) && start <= p < done ::
        Clearable(old(Holds(l, p)), old(At(l, p)), onlyReserved)
      ensures !ok ==> !Clearable(old(Holds(l, done)), old(At(l, done)), onlyReserved)
      decreases l, 3
    {
      hide Span, Index, BlockStart;
      var cur := start;
      while cur < end
        invariant start <= cur <= end
        invariant Valid(l) && Repr == old(Repr)
        invariant forall p: nat | InTable(base, l, p) ::
          At(l, p) == (if start <= p < cur then EMPTY_PAGE else old(At(l, p))) && Holds(l, p) == old(Holds(l, p))
        invariant forall p: nat | InTable(base, l, p) && start <= p < cur ::
          Clearable(old(Holds(l, p)), old(At(l, p)), onlyReserved)
      {
        var next := BlockStart(cur, l) + Span(l);
        next := if end < next then end else next;
        EntryBlock(base, l, cur);
        ok, done := ClearEntry(l, cur, next, onlyReserved, base);
        if !ok {
          return;
        }
        cur := next;
      }
      return true, end;
    }

    // One round of the loop of clear_entries_mid: a collapsed RESERVED word is refused, a collapsed EMPTY word skipped.
    method ClearEntry(l: nat, start: nat, next: nat, onlyReserved: bool, ghost base: nat)
      returns (ok: bool, ghost done: nat)
      requires Valid(l) && InRange(base, l, start, next) && start < next <= BlockStart(start, l) + Span(l)
      modifies Repr
      ensures Valid(l) && Repr == old(Repr)
      ensures start <= done <= next && (ok <==> done == next)
      ensures forall p: nat | InTable(base, l, p) ::
        At(l, p) == (if start <= p < done then EMPTY_PAGE else old(At(l, p))) && Holds(l, p) == old(Holds(l, p))
      ensures forall p: nat | InTable(base, l, p) && start <= p < done ::
        Clearable(old(Holds(l, p)), old(At(l, p)), onlyReserved)
      ensures !ok ==> !Clearable(old(Holds(l, done)), old(At(l, done)), onlyReserved)
      decreases l, 1
    {
      hide Span, Index, BlockStart;
      var index := Index(start, l);
      EntryBlock(base, l, start);
      if table[index].Reserved? {
        return false, start;
      }
      if table[index].Empty? {
        return true, next;
      }
      ok, done := ClearSubtree(l, start, next, onlyReserved, base);
    }

    // The recursive call of clear_entries_mid into the table under one word.
    method ClearSubtree(l: nat, start: nat, next: nat, onlyReserved: bool, ghost base: nat)
      returns (ok: bool, ghost done: nat)
      requires Valid(l) && InRange(base, l, start, next) && start < next <= BlockStart(start, l) + Span(l)
      requires !table[Index(start, l)].Empty? && !table[Index(start, l)].Reserved?
      modifies Repr
      ensures Valid(l) && Repr == old(Repr)
      ensures start <= done <= next && (ok <==> done == next)
      ensures forall p: nat | InTable(base, l, p) ::
        At(l, p) == (if start <= p < done then EMPTY_PAGE else old(At(l, p))) && Holds(l, p) == old(Holds(l, p))
      ensures forall p: nat | InTable(base, l, p) && start <= p < done ::
        Clearable(old(Holds(l, p)), old(At(l, p)), onlyReserved)
      ensures !ok ==> !Clearable(old(Holds(l, done)), old(At(l, done)), onlyReserved)
      decreases l, 0
    {
      hide Span, Index, BlockStart;
      var index := Index(start, l);
      ghost var block := BlockStart(start, l);
      EntryBlock(base, l, start);
      ok, done := ClearBelow(table[index], l, start, next, onlyReserved, block);
      assert forall j | 0 <= j < FAN && j != index :: Footprint(table[j]) == old(Footprint(table[j]));
      assert forall p: nat | InTable(base, l, p) && Index(p, l) == index :: InBlock(block, l, p);
      forall p: nat | InTable(base, l, p) && start <= p < done
        ensures Clearable(old(Holds(l, p)), old(At(l, p)), onlyReserved)
      {
        assert InBlock(block, l, p);
        assert old(At(l, p)) == old(EntryAt(table[index], l, p));
      }
    }

    // is_reserved_or_empty_mid
    method IsReservedOrEmpty(l: nat, start: nat, end: nat, good: Entry, ghost base: nat) returns (r: bool)
      requires Valid(l) && InRange(base, l, start, end)
      requires good.Empty? || good.Reserved?
      ensures r <==> forall p: nat | InTable(base, l, p) && start <= p < end :: At(l, p).cap == CollapsedWord(good)
      decreases l, 1
    {
      hide Span, Index, BlockStart;
      var cur := start;
      while cur < end
        invariant start <= cur <= end
        invariant forall p: nat | InTable(base, l, p) && start <= p < cur :: At(l, p).cap == CollapsedWord(good)
      {
        var next := BlockStart(cur, l) + Span(l);
        next := if end < next then end else next;
        EntryBlock(base, l, cur);
        var good := IsReservedOrEmptyEntry(l, cur, next, good, base);
        if !good {
          return false;
        }
        cur := next;
      }
      return true;
    }

    // One round of the loop of is_reserved_or_empty_mid.
    method IsReservedOrEmptyEntry(l: nat, start: nat, next: nat, good: Entry, ghost base: nat) returns (r: bool)
      requires Valid(l) && InRange(base, l, start, next) && start < next <= BlockStart(start, l) + Span(l)
      requires good.Empty? || good.Reserved?
      ensures r <==> forall p: nat | InTable(base, l, p) && start <= p < next :: At(l, p).cap == CollapsedWord(good)
      decreases l, 0
    {
      hide Span, Index, BlockStart;
      var e := table[Index(start, l)];
      EntryBlock(base, l, start);
      ghost var block := BlockStart(start, l);
      if e.Empty? || e.Reserved? {
        assert InTable(base, l, start) && At(l, start) == EntryAt(e, l, start);
        return e == good;
      }
      r := IsReservedOrEmptyBelow(e, l, start, next, good, block);
      forall p: nat | start <= p < next
        ensures InTable(base, l, p) && InBlock(block, l, p) && At(l, p) == EntryAt(e, l, p)
      {
        assert InTable(base, l, p);
      }
    }

    // get_cap / get_cookie: walk down to the bottom table; a collapsed word stops the walk with 0.
    method GetPage(l: nat, p: nat) returns (cap: Word, cookie: Word)
      requires Valid(l)
      ensures Page(cap, cookie) == if Holds(l, p) then At(l, p) else EMPTY_PAGE
    {
      hide Span, Index;
      var level := this;
      var i := l;
      while i > 1
        invariant 1 <= i <= l && level.Valid(i)
        invariant level.At(i, p) == At(l, p) && level.Holds(i, p) == Holds(l, p)
      {
        var next := level.table[Index(p, i)];
        if next.Empty? || next.Reserved? {
          return EMPTY, 0;
        }
        level := next.mid;
        i := i - 1;
      }
      var next := level.table[Index(p, 1)];
      if next.Empty? || next.Reserved? {
        return EMPTY, 0;
      }
      return next.bottom.cap[Index(p, 0)], next.bottom.cookie[Index(p, 0)];
    }

    // A page without a word of its own is Empty or Reserved; in particular a mapped page always has one.
    lemma HeldOrCollapsed(l: nat, p: nat)
      requires Valid(l)
      ensures !Holds(l, p) ==> At(l, p) == EMPTY_PAGE || At(l, p) == RESERVED_PAGE
      decreases l
    {
      hide Span, Index;
      ghost var e := table[Index(p, l)];
      assert At(l, p) == EntryAt(e, l, p) && Holds(l, p) == EntryHolds(e, l, p);
      match e
      case Empty => assert EntryAt(e, l, p) == EMPTY_PAGE;
      case Reserved => assert EntryAt(e, l, p) == RESERVED_PAGE;
      case Bottom(b) =>
      case Mid(m) => m.HeldOrCollapsed(l - 1, p);
    }
  }

  method ReserveBelow(e: Entry, l: nat, start: nat, next: nat, preserve: bool,
        memory: Answers, asked: nat, ghost block: nat)
    returns (ok: bool, asked': nat, ghost done: nat, ghost oom: bool)
    requires 1 <= l && EntryValid(e, l) && !e.Empty? && !e.Reserved?
    requires InRange(block, l - 1, start, next)
    modifies Footprint(e)
    ensures EntryValid(e, l) && fresh(Footprint(e) - old(Footprint(e)))
    ensures asked <= asked' && (oom <==> Denied(memory, asked, asked')) && (ok ==> !oom)
    ensures start <= done <= next && (ok <==> done == next)
    ensures forall p: nat | InBlock(block, l, p) ::
      EntryAt(e, l, p) == if start <= p < done then RESERVED_PAGE else old(EntryAt(e, l, p))
    ensures forall p: nat | InBlock(block, l, p) && start <= p < done :: !Unreservable(old(EntryAt(e, l, p)), preserve)
    ensures !ok && !oom ==> Unreservable(old(EntryAt(e, l, done)), preserve)
    ensures !ok && oom ==> !old(EntryHolds(e, l, done)) && !(start == block && next == block + Span(l))
    ensures forall p: nat | InBlock(block, l, p) ::
      HeldGrows(old(EntryAt(e, l, p)), old(EntryHolds(e, l, p)), EntryHolds(e, l, p))
    ensures ok ==> forall p: nat | InBlock(block, l, p) ::
      EntryHolds(e, l, p) <==> old(EntryHolds(e, l, p)) || (1 < l && Cut(p, start, next))
    decreases l - 1, 4
  {
    hide Span, Index, BlockStart, Aligned, Cut;
    asked', oom := asked, false;
    match e
    case Bottom(b) =>
      ok, done := b.Reserve(start, next, preserve, block);
      assert forall p: nat | InBlock(block, l, p) :: InTable(block, 0, p);
    case Mid(m) =>
      WholeIsAligned(block, l);
      ok, asked', done, oom := m.Reserve(l - 1, start, next, preserve, memory, asked, block);
      assert forall p: nat | InBlock(block, l, p) :: InTable(block, l - 1, p);
      forall p: nat | InBlock(block, l, p) && start <= p < done
        ensures !Unreservable(old(EntryAt(e, l, p)), preserve)
      {
        assert InTable(block, l - 1, p);
      }
  }

  method UpdateBelow(e: Entry, l: nat, start: nat, next: nat, cap: Word, cookie: Word,
        memory: Answers, asked: nat, ghost block: nat)
    returns (ok: bool, asked': nat, ghost done: nat, ghost oom: bool)
    requires 1 <= l && EntryValid(e, l) && !e.Empty? && !e.Reserved?
    requires InRange(block, l - 1, start, next)
    modifies Footprint(e)
    ensures EntryValid(e, l) && fresh(Footprint(e) - old(Footprint(e)))
    ensures asked <= asked' && (oom <==> Denied(memory, asked, asked')) && (ok ==> !oom)
    ensures start <= done <= next && (ok <==> done == next)
    ensures forall p: nat | InBlock(block, l, p) ::
      EntryAt(e, l, p) == if start <= p < done then Page(cap, cookie) else old(EntryAt(e, l, p))
    ensures forall p: nat | InBlock(block, l, p) && start <= p < done :: !Occupied(old(EntryAt(e, l, p)))
    ensures !ok && !oom ==> Occupied(old(EntryAt(e, l, done)))
    ensures !ok && oom ==> !old(EntryHolds(e, l, done))
    ensures forall p: nat | InBlock(block, l, p) :: old(EntryHolds(e, l, p)) ==> EntryHolds(e, l, p)
    decreases l - 1, 4
  {
    hide Span, Index, BlockStart;
    asked', oom := asked, false;
    match e
    case Bottom(b) =>
      ok, done := b.Update(start, next, cap, cookie, block);
      assert forall p: nat | InBlock(block, l, p) :: InTable(block, 0, p);
    case Mid(m) =>
      ok, asked', done, oom := m.Update(l - 1, start, next, cap, cookie, memory, asked, block);
      assert forall p: nat | InBlock(block, l, p) :: InTable(block, l - 1, p);
      forall p: nat | InBlock(block, l, p) && start <= p < done
        ensures !Occupied(old(EntryAt(e, l, p)))
      {
        assert InTable(block, l - 1, p);
      }
  }

  method ClearBelow(e: Entry, l: nat, start: nat, next: nat, onlyReserved: bool, ghost block: nat)
    returns (ok: bool, ghost done: nat)
    requires 1 <= l && EntryValid(e, l) && !e.Empty? && !e.Reserved?
    requires InRange(block, l - 1, start, next)
    modifies Footprint(e)
    ensures EntryValid(e, l) && Footprint(e) == old(Footprint(e))
    ensures start <= done <= next && (ok <==> done == next)
    ensures forall p: nat | InBlock(block, l, p) ::
      EntryAt(e, l, p) == (if start <= p < done then EMPTY_PAGE else old(EntryAt(e, l, p))) &&
      EntryHolds(e, l, p) == old(EntryHolds(e, l, p))
    ensures forall p: nat | InBlock(block, l, p) && start <= p < done ::
      Clearable(old(EntryHolds(e, l, p)), old(EntryAt(e, l, p)), onlyReserved)
    ensures !ok ==> !Clearable(old(EntryHolds(e, l, done)), old(EntryAt(e, l, done)), onlyReserved)
    decreases l - 1, 4
  {
    hide Span, Index, BlockStart;
    match e
    case Bottom(b) =>
      ok, done := b.Clear(start, next, onlyReserved, block);
      assert forall p: nat | InBlock(block, l, p) :: InTable(block, 0, p);
    case Mid(m) =>
      ok, done := m.Clear(l - 1, start, next, onlyReserved, block);
      assert forall p: nat | InBlock(block, l, p) :: InTable(block, l - 1, p);
      forall p: nat | InBlock(block, l, p) && start <= p < done
        ensures Clearable(old(EntryHolds(e, l, p)), old(EntryAt(e, l, p)), onlyReserved)
      {
        assert InTable(block, l - 1, p);
      }
  }

  method IsReservedOrEmptyBelow(e: Entry, l: nat, start: nat, next: nat, good: Entry, ghost block: nat)
    returns (r: bool)
    requires 1 <= l && EntryValid(e, l) && !e.Empty? && !e.Reserved?
    requires InRange(block, l - 1, start, next)
    requires good.Empty? || good.Reserved?
    ensures r <==> forall p: nat | InBlock(block, l, p) && start <= p < next ::
      EntryAt(e, l, p).cap == CollapsedWord(good)
    decreases l - 1, 4
  {
    hide Span, Index, BlockStart;
    match e
    case Bottom(b) =>
      r := b.IsReservedOrEmpty(start, next, CollapsedWord(good), block);
      if !r {
        ghost var p: nat :| InTable(block, 0, p) && start <= p < next && b.At(p).cap != CollapsedWord(good);
        assert InBlock(block, l, p) && EntryAt(e, l, p) == b.At(p);
      }
      assert forall p: nat | InBlock(block, l, p) :: InTable(block, 0, p);
    case Mid(m) =>
      r := m.IsReservedOrEmpty(l - 1, start, next, good, block);
      if !r {
        ghost var p: nat :| InTable(block, l - 1, p) && start <= p < next && m.At(l - 1, p).cap != CollapsedWord(good);
        assert InBlock(block, l, p) && EntryAt(e, l, p) == m.At(l - 1, p);
      }
      assert forall p: nat | InBlock(block, l, p) :: InTable(block, l - 1, p);
  }

  // The word create_mid_level / create_bottom_level hand back; Empty (NULL) when there is no memory.
  method CreateLevel(l: nat, init: Entry, memory: bool) returns (e: Entry)
    requires 1 <= l
    requires init.Empty? || init.Reserved?
    ensures EntryValid(e, l) && fresh(Footprint(e)) && !e.Reserved? && (e.Empty? <==> !memory)
    ensures !e.Empty? ==> forall p: nat :: EntryAt(e, l, p) == if init.Empty? then EMPTY_PAGE else RESERVED_PAGE
    ensures !e.Empty? ==> forall p: nat :: EntryHolds(e, l, p) <==> l == 1
  {
    if !memory {
      e := Empty;
    } else if l == 1 {
      var b := new BottomLevel(if init.Empty? then EMPTY else RESERVED);
      e := Bottom(b);
    } else {
      var m := new MidLevel(init, l - 1);
      e := Mid(m);
    }
  }
}
