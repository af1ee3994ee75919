// Index arithmetic of the multi-level tables: which entry of a table covers which page.
module LevelIndex {
  import opened Arithmetic

  type Fanout = n: nat | 2 <= n witness 2

  // Entries per table (VSPACE_LEVEL_SIZE): an arbitrary but fixed parameter.
  const FAN: Fanout

  // Number of 4K pages covered by one entry of a table at level l.
  function Span(l: nat): (r: nat)
    ensures 0 < r
  {
    if l == 0 then 1 else FAN * Span(l - 1)
  }

  // The table entry that page p selects at level l (INDEX_FOR_LEVEL, on page numbers).
  function Index(p: nat, l: nat): (i: nat)
    ensures i < FAN
  {
    p / Span(l) % FAN
  }

  // First page covered by the entry of page p at level l (start & ALIGN_FOR_LEVEL).
  function BlockStart(p: nat, l: nat): (b: nat)
    ensures b <= p < b + Span(l)
  {
    p - p % Span(l)
  }

  // A table at level l whose entries span Span(l) pages starts at a multiple of Span(l + 1).
  ghost predicate Aligned(base: nat, l: nat) {
    base % Span(l) == 0
  }

  // The pages of the table at level l that starts at base.
  ghost predicate InTable(base: nat, l: nat, p: nat) {
    base <= p < base + Span(l + 1)
  }

  // The pages of one entry at level l, for the entry that starts at block.
  ghost predicate InBlock(block: nat, l: nat, p: nat) {
    block <= p < block + Span(l)
  }

  // Page p, s * i + d pages into a table of f entries of s pages that starts at base, has index i.
  lemma DivDiv(p: int, f: int, s: int, base: int, k: int, i: int, d: int)
    requires 0 < f && 0 < s && 0 <= i < f && 0 <= d < s
    requires base == f * s * k && p == base + s * i + d
    ensures p / s % f == i && p - p % s == base + s * i && (base + s * i) % s == 0
  {
    var q := f * k + i;
    Regroup(f, s, k);
    assert s * q == s * (f * k) + s * i;
    DivUnique(p, s, q, d);
    DivUnique(q, f, k, i);
    DivUnique(base + s * i, s, q, 0);
  }

  // In a table of f entries of s pages that starts at base, the index is the distance from the base in entries.
  lemma OffsetIndex(f: int, s: int, base: int, p: int)
    requires 0 < f && 0 < s && base % (f * s) == 0 && base <= p < base + f * s
    ensures var i := (p - base) / s;
      0 <= i < f && p / s % f == i && p - p % s == base + s * i && (base + s * i) % s == 0
  {
    var t := f * s;
    var i, d := (p - base) / s, (p - base) % s;
    assert p == base + s * i + d;
    MulCommute(f, s);
    DivLess(p - base, f, s);
    MultipleOf(base, t);
    DivDiv(p, f, s, base, base / t, i, d);
  }

  // Two pages of a table share an entry exactly when they lie in the same block of s pages.
  lemma SameEntry(f: int, s: int, base: int, p: int, q: int)
    requires 0 < f && 0 < s && base % (f * s) == 0
    requires base <= p < base + f * s && base <= q < base + f * s
    ensures q / s % f == p / s % f <==> p - p % s <= q < p - p % s + s
  {
    var i, j := (p - base) / s, (q - base) / s;
    OffsetIndex(f, s, base, p);
    OffsetIndex(f, s, base, q);
    DivRange(p - base, q - base, s);
    RemainderOf(p - base, s);
    assert p - p % s == base + (p - base) - (p - base) % s;
  }

  lemma BlockInTable(f: int, s: int, base: int, p: int)
    requires 0 < f && 0 < s && base % (f * s) == 0 && base <= p < base + f * s
    ensures base <= p - p % s && p - p % s + s <= base + f * s && (p - p % s) % s == 0
  {
    var i := (p - base) / s;
    OffsetIndex(f, s, base, p);
    MulCommute(f, s);
    MulMonotone(s, 0, i);
    MulMonotone(s, i + 1, f);
    assert s * (i + 1) == s * i + s;
  }

  // The entry of p covers exactly one aligned block of the table.
  lemma EntryBlock(base: nat, l: nat, p: nat)
    requires Aligned(base, l + 1) && InTable(base, l, p)
    ensures base <= BlockStart(p, l) && BlockStart(p, l) + Span(l) <= base + Span(l + 1)
    ensures Aligned(BlockStart(p, l), l)
    ensures forall q: nat {:trigger Index(q, l)} | InTable(base, l, q) ::
      Index(q, l) == Index(p, l) <==> BlockStart(p, l) <= q < BlockStart(p, l) + Span(l)
  {
    BlockInTable(FAN, Span(l), base, p);
    forall q: nat | InTable(base, l, q)
      ensures Index(q, l) == Index(p, l) <==> BlockStart(p, l) <= q < BlockStart(p, l) + Span(l)
    {
      SameEntry(FAN, Span(l), base, p, q);
    }
  }

  // --- the parts of a range that do not fill a bottom table

  // The bottom table of page p would lie across an end of the range: some of its pages are in [start, end), not all.
  ghost predicate Cut(p: nat, start: nat, end: nat) {
    var b := BlockStart(p, 1);
    && start < end && b < end && start < b + Span(1)
    && !(start <= b && b + Span(1) <= end)
  }

  lemma FactorDivides(n: int, f: int, s: int)
    requires 0 < f && 0 < s && n % (f * s) == 0
    ensures n % s == 0
  {
    var k := n / (f * s);
    MultipleOf(n, f * s);
    Regroup(f, s, k);
    DivUnique(n, s, f * k, 0);
  }

  // A multiple of a big block is a multiple of each smaller one.
  lemma AlignedBelow(n: nat, l: nat)
    requires 1 <= l && Aligned(n, l)
    ensures Aligned(n, l - 1)
  {
    FactorDivides(n, FAN, Span(l - 1));
  }

  lemma {:induction false} AlignedToBottom(n: nat, l: nat)
    requires 1 <= l && Aligned(n, l)
    ensures Aligned(n, 1)
    decreases l
  {
    if 1 < l {
      AlignedBelow(n, l);
      AlignedToBottom(n, l - 1);
    }
  }

  lemma NextBlockAligned(n: nat, l: nat)
    requires Aligned(n, l)
    ensures Aligned(n + Span(l), l)
  {
    MultipleOf(n, Span(l));
    DivUnique(n + Span(l), Span(l), n / Span(l) + 1, 0);
  }

  // A multiple of the size of a block does not lie inside a block.
  lemma NotAcross(n: nat, p: nat, l: nat)
    requires Aligned(n, l)
    ensures n <= BlockStart(p, l) || BlockStart(p, l) + Span(l) <= n
  {
    var s, q, k := Span(l), p / Span(l), n / Span(l);
    MultipleOf(n, s);
    RemainderOf(p, s);
    assert BlockStart(p, l) == s * q;
    if k <= q {
      MulMonotone(s, k, q);
    } else {
      MulMonotone(s, q + 1, k);
      assert s * (q + 1) == s * q + s;
    }
  }

  // A range of whole bottom tables cuts none.
  lemma WholeCutsNone(start: nat, end: nat, p: nat)
    requires Aligned(start, 1) && Aligned(end, 1)
    ensures !Cut(p, start, end)
  {
    hide Span, BlockStart, Aligned;
    NotAcross(start, p, 1);
    NotAcross(end, p, 1);
  }

  // A range can be taken in two parts that meet between two bottom tables.
  lemma CutJoins(start: nat, cur: nat, end: nat, p: nat)
    requires start <= cur <= end && (cur == start || Aligned(cur, 1))
    ensures Cut(p, start, end) <==> Cut(p, start, cur) || Cut(p, cur, end)
  {
    hide Span, BlockStart, Aligned;
    if cur != start {
      NotAcross(cur, p, 1);
    }
  }

  // What a part of the range under one word of a table at level l cuts.
  lemma CutUnderWord(base: nat, l: nat, start: nat, end: nat, p: nat)
    requires 1 <= l && Aligned(base, l + 1) && InTable(base, l, start) && InTable(base, l, p)
    requires start < end <= BlockStart(start, l) + Span(l)
    ensures Index(p, l) != Index(start, l) ==> !Cut(p, start, end)
    ensures start == BlockStart(start, l) && end == start + Span(l) ==> !Cut(p, start, end)
    ensures l == 1 && !(start == BlockStart(start, l) && end == start + Span(l)) && Index(p, l) == Index(start, l) ==>
      Cut(p, start, end)
  {
    hide Span, BlockStart, Aligned;
    var block := BlockStart(start, l);
    EntryBlock(base, l, start);
    NextBlockAligned(block, l);
    AlignedToBottom(block, l);
    AlignedToBottom(block + Span(l), l);
    NotAcross(block, p, 1);
    NotAcross(block + Span(l), p, 1);
    WholeCutsNone(block, block + Span(l), p);
    if l == 1 && Index(p, l) == Index(start, l) {
      NotAcross(block, p, 1);
      NotAcross(block + Span(1), p, 1);
    }
  }

  lemma CutsUnderWord(base: nat, l: nat, start: nat, end: nat)
    requires 1 <= l && Aligned(base, l + 1) && InTable(base, l, start)
    requires start < end <= BlockStart(start, l) + Span(l)
    ensures forall p: nat {:trigger Cut(p, start, end)} | InTable(base, l, p) ::
      && (Index(p, l) != Index(start, l) ==> !Cut(p, start, end))
      && (start == BlockStart(start, l) && end == start + Span(l) ==> !Cut(p, start, end))
      && (l == 1 && !(start == BlockStart(start, l) && end == start + Span(l)) && Index(p, l) == Index(start, l) ==>
            Cut(p, start, end))
  {
    hide Span, BlockStart, Index, Aligned, Cut;
    forall p: nat | InTable(base, l, p)
      ensures Index(p, l) != Index(start, l) ==> !Cut(p, start, end)
      ensures start == BlockStart(start, l) && end == start + Span(l) ==> !Cut(p, start, end)
      ensures l == 1 && !(start == BlockStart(start, l) && end == start + Span(l)) && Index(p, l) == Index(start, l) ==>
        Cut(p, start, end)
    {
      CutUnderWord(base, l, start, end, p);
    }
  }

  lemma EmptyCutsNone(start: nat)
    ensures forall p: nat :: !Cut(p, start, start)
  {
  }

  // One round of a loop over [start, end) word by word, which has come to cur and goes on to next
  lemma RoundCuts(l: nat, start: nat, cur: nat, next: nat, end: nat)
    requires 1 <= l && start <= cur < next <= end && (cur == start || Aligned(cur, l))
    requires next == BlockStart(cur, l) + Span(l) || (next == end && end < BlockStart(cur, l) + Span(l))
    ensures next == end || Aligned(next, l)
    ensures forall p: nat :: Cut(p, start, next) <==> Cut(p, start, cur) || Cut(p, cur, next)
    ensures Aligned(start, l) && Aligned(end, l) ==> cur == BlockStart(cur, l) && next == cur + Span(l)
  {
    hide Span, Cut;
    BlockAligned(cur, l);
    NextBlockAligned(BlockStart(cur, l), l);
    if cur != start {
      AlignedToBottom(cur, l);
    }
    if Aligned(end, l) {
      NotAcross(end, cur, l);
    }
    forall p: nat
      ensures Cut(p, start, next) <==> Cut(p, start, cur) || Cut(p, cur, next)
    {
      CutJoins(start, cur, next, p);
    }
  }

  lemma BlockAligned(p: nat, l: nat)
    ensures Aligned(BlockStart(p, l), l)
  {
    RemainderOf(p, Span(l));
    DivUnique(BlockStart(p, l), Span(l), p / Span(l), 0);
  }

  lemma WholeIsAligned(block: nat, l: nat)
    requires 1 <= l && Aligned(block, l)
    ensures Aligned(block, l - 1) && Aligned(block + Span(l), l - 1)
  {
    hide Span, Aligned;
    NextBlockAligned(block, l);
    AlignedBelow(block, l);
    AlignedBelow(block + Span(l), l);
  }
}
