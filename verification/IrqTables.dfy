// The tables of the IRQ interface (libsel4platsupport/src/irq.c): which IRQ is paired with which bit of which
// notification. A word is the set of its bits.
module IrqTables {
  import opened Options

  const WORD_BITS: nat := 64

  // seL4_BadgeBits, which is MAX_INTERRUPTS_TO_NOTIFICATIONS
  const BADGE_BITS: nat := 64

  const UNPAIRED: int := -1

  datatype IrqEntry = IrqEntry(inUse: bool, ntfn: int, badge: int)

  datatype NtfnEntry = NtfnEntry(inUse: bool, bound: nat, usable: set<nat>, status: set<nat>, irqs: seq<int>)

  datatype Error = EINVAL | ENOSPC | ENOMEM | EFAULT | EMFILE

  datatype Result = Ok(value: nat) | Err(error: Error)

  const NO_IRQ := IrqEntry(false, UNPAIRED, UNPAIRED)

  function NoNtfn(fill: int): NtfnEntry {
    NtfnEntry(false, 0, {}, {}, seq(BADGE_BITS, i => fill))
  }

  predicate IsBit(b: nat) {
    b < WORD_BITS
  }

  predicate IsWord(w: set<nat>) {
    forall b | b in w :: IsBit(b)
  }

  function AllBits(): set<nat> {
    set b: nat | b < WORD_BITS && IsBit(b)
  }

  // CTZL, counting from bit b
  function LowestFrom(w: set<nat>, b: nat): (r: nat)
    requires IsWord(w) && exists c :: c in w && b <= c
    ensures r in w && b <= r && forall c | c in w && b <= c :: r <= c
    decreases WORD_BITS - b
  {
    if b in w then b else LowestFrom(w, b + 1)
  }

  function Lowest(w: set<nat>): (r: nat)
    requires IsWord(w) && w != {}
    ensures r in w && forall c | c in w :: r <= c
  {
    LowestFrom(w, 0)
  }

  // --- the two-way index

  // A paired IRQ is named at its bit of its notification, and nothing else is known of an IRQ that is not in use.
  predicate IrqIndexed(irqs: seq<IrqEntry>, ntfns: seq<NtfnEntry>, i: nat)
    requires i < |irqs|
  {
    var e := irqs[i];
    && (!e.inUse ==> e == NO_IRQ)
    && (e.ntfn == UNPAIRED <==> e.badge == UNPAIRED)
    && (e.ntfn != UNPAIRED ==>
          && 0 <= e.ntfn < |ntfns| && e.badge in ntfns[e.ntfn].status && 0 <= e.badge < |ntfns[e.ntfn].irqs|
          && ntfns[e.ntfn].irqs[e.badge] == i)
  }

  // A bit that is taken in a notification belongs to the IRQ that is named there.
  predicate NtfnIndexed(irqs: seq<IrqEntry>, ntfns: seq<NtfnEntry>, n: nat)
    requires n < |ntfns|
  {
    var e := ntfns[n];
    && |e.irqs| == BADGE_BITS && e.status <= e.usable && e.bound == |e.status|
    && (forall b | b in e.usable :: b < BADGE_BITS)
    && (!e.inUse ==> e.status == {})
    && (forall b | b in e.status ::
          && b < BADGE_BITS && 0 <= e.irqs[b] < |irqs|
          && irqs[e.irqs[b]].inUse && irqs[e.irqs[b]].ntfn == n && irqs[e.irqs[b]].badge == b)
  }

  ghost predicate Indexed(irqs: seq<IrqEntry>, ntfns: seq<NtfnEntry>) {
    && (forall i | 0 <= i < |irqs| :: IrqIndexed(irqs, ntfns, i))
    && (forall n | 0 <= n < |ntfns| :: NtfnIndexed(irqs, ntfns, n))
  }

  // Bit b of notification n is taken exactly if one IRQ in use is paired with it.
  lemma BitIsTakenByOneIrq(irqs: seq<IrqEntry>, ntfns: seq<NtfnEntry>, n: nat, b: nat)
    requires Indexed(irqs, ntfns) && n < |ntfns|
    ensures b in ntfns[n].status <==>
      exists i :: 0 <= i < |irqs| && irqs[i].inUse && irqs[i].ntfn == n && irqs[i].badge == b
    ensures forall i, j | 0 <= i < |irqs| && 0 <= j < |irqs| ::
      irqs[i].ntfn == irqs[j].ntfn == n && irqs[i].badge == irqs[j].badge == b ==> i == j
  {
    if b in ntfns[n].status {
      assert NtfnIndexed(irqs, ntfns, n);
    }
    forall i | 0 <= i < |irqs| && irqs[i].ntfn == n && irqs[i].badge == b
      ensures b in ntfns[n].status && ntfns[n].irqs[b] == i
    {
      assert IrqIndexed(irqs, ntfns, i);
    }
  }

  // irq_set_ntfn_common's bookkeeping
  function Paired(e: IrqEntry, n: nat, b: nat): IrqEntry {
    e.(ntfn := n, badge := b)
  }

  function WithIrq(e: NtfnEntry, i: nat, b: nat): NtfnEntry
    requires b < |e.irqs|
  {
    e.(bound := e.bound + 1, status := e.status + {b}, irqs := e.irqs[b := i])
  }

  lemma BindKeepsIndex(irqs: seq<IrqEntry>, ntfns: seq<NtfnEntry>, i: nat, n: nat, b: nat)
    requires Indexed(irqs, ntfns) && i < |irqs| && n < |ntfns| && irqs[i].inUse && irqs[i].ntfn == UNPAIRED
    requires ntfns[n].inUse && b in ntfns[n].usable && b !in ntfns[n].status
    ensures b < BADGE_BITS == |ntfns[n].irqs|
    ensures Indexed(irqs[i := Paired(irqs[i], n, b)], ntfns[n := WithIrq(ntfns[n], i, b)])
  {
    assert NtfnIndexed(irqs, ntfns, n) && IrqIndexed(irqs, ntfns, i);
    var irqs', ntfns' := irqs[i := Paired(irqs[i], n, b)], ntfns[n := WithIrq(ntfns[n], i, b)];
    forall j | 0 <= j < |irqs'|
      ensures IrqIndexed(irqs', ntfns', j)
    {
      assert IrqIndexed(irqs, ntfns, j);
    }
    forall m | 0 <= m < |ntfns'|
      ensures NtfnIndexed(irqs', ntfns', m)
    {
      assert NtfnIndexed(irqs, ntfns, m);
    }
  }

  // What unregister and unset do to the notification
  function WithoutIrq(e: NtfnEntry, b: nat): NtfnEntry
    requires b < |e.irqs| && e.bound > 0
  {
    e.(bound := e.bound - 1, status := e.status - {b}, irqs := e.irqs[b := UNPAIRED])
  }

  lemma UnbindKeepsIndex(irqs: seq<IrqEntry>, ntfns: seq<NtfnEntry>, i: nat, e: IrqEntry)
    requires Indexed(irqs, ntfns) && i < |irqs| && irqs[i].ntfn != UNPAIRED
    requires e == NO_IRQ || e == irqs[i].(ntfn := UNPAIRED, badge := UNPAIRED)
    ensures var n, b := irqs[i].ntfn, irqs[i].badge;
      && 0 <= n < |ntfns| && 0 <= b < |ntfns[n].irqs| && ntfns[n].bound > 0
      && Indexed(irqs[i := e], ntfns[n := WithoutIrq(ntfns[n], b)])
  {
    assert IrqIndexed(irqs, ntfns, i);
    var n, b := irqs[i].ntfn, irqs[i].badge;
    assert NtfnIndexed(irqs, ntfns, n);
    assert ntfns[n].status != {};
    var irqs', ntfns' := irqs[i := e], ntfns[n := WithoutIrq(ntfns[n], b)];
    forall j | 0 <= j < |irqs'|
      ensures IrqIndexed(irqs', ntfns', j)
    {
      assert IrqIndexed(irqs, ntfns, j);
    }
    forall m | 0 <= m < |ntfns'|
      ensures NtfnIndexed(irqs', ntfns', m)
    {
      assert NtfnIndexed(irqs, ntfns, m);
    }
  }

  // --- the bitfields of the ids in use

  predicate BitSet(words: seq<set<nat>>, id: nat)
    requires id / WORD_BITS < |words|
  {
    id % WORD_BITS in words[id / WORD_BITS]
  }

  // The bits say which ids below max are in use; no other bit is set.
  ghost predicate Tracks(words: seq<set<nat>>, inUse: seq<bool>) {
    && (forall w | 0 <= w < |words| :: IsWord(words[w]))
    && |inUse| <= WORD_BITS * |words|
    && (forall id: nat | id < WORD_BITS * |words| :: BitSet(words, id) <==> id < |inUse| && inUse[id])
  }

  // new_irq_ops_common: the number of words; eight times as many as it takes
  function WordsFor(max: nat): nat {
    (max + WORD_BITS - 1) / WORD_BITS * WORD_BITS / 8
  }

  // The bits that find_free_irq_id leaves of the last word: the byte-swapped mask of the leftover bits
  function LastMask(words: nat, max: nat): set<nat> {
    var left := words * 8 - max;
    set b: nat | b < WORD_BITS && IsBit(b) && (7 - b / 8) * 8 + b % 8 < left
  }

  // Bits past the ids in use lie in words that are never looked at, as long as the word that gets masked is one of
  // them.
  lemma WordsSuffice(max: nat)
    requires max > 0
    ensures max <= WORD_BITS * (WordsFor(max) - 1) && 8 <= WordsFor(max)
    ensures max + 7 * WORD_BITS <= WORD_BITS * WordsFor(max)
  {
  }

  predicate AllWords(words: seq<set<nat>>) {
    forall w | 0 <= w < |words| :: IsWord(words[w])
  }

  // The search can return this id: its bit is not set, and it is not masked away.
  predicate Selectable(words: seq<set<nat>>, masked: nat, mask: set<nat>, id: nat) {
    id / WORD_BITS < |words| && !BitSet(words, id) && (id / WORD_BITS == masked ==> id % WORD_BITS in mask)
  }

  // What the search finds: the least such id, or -1.
  ghost predicate Finds(words: seq<set<nat>>, masked: nat, mask: set<nat>, id: int) {
    if id < 0 then id == -1 && forall j: nat :: !Selectable(words, masked, mask, j)
    else Selectable(words, masked, mask, id) && forall j: nat | j < id :: !Selectable(words, masked, mask, j)
  }

  // find_free_irq_id and find_free_ntfn_id. masked is the word that is masked.
  method FindFree(words: array<set<nat>>, masked: nat, mask: set<nat>) returns (id: int)
    requires AllWords(words[..])
    ensures Finds(words[..], masked, mask, id)
  {
    hide Selectable;
    var i := 0;
    while i < words.Length
      invariant i <= words.Length
      invariant forall j: nat | j < WORD_BITS * i :: !Selectable(words[..], masked, mask, j)
    {
      var free := AllBits() - words[i];
      if i == masked {
        free := free * mask;
      }
      assert forall c :: c in free <==> c in AllBits() - words[i] && (i == masked ==> c in mask);
      WordSelects(words[..], masked, mask, i);
      if free != {} {
        var b := Lowest(free);
        id := b + i * WORD_BITS;
        LowestSelects(words[..], masked, mask, i, b);
        return;
      }
      i := i + 1;
    }
    NoMoreWords(words[..], masked, mask);
    return -1;
  }

  // Among the ids of word i, those whose bit is left over can be returned.
  lemma WordSelects(words: seq<set<nat>>, masked: nat, mask: set<nat>, i: nat)
    requires i < |words|
    ensures forall j: nat | WORD_BITS * i <= j < WORD_BITS * (i + 1) ::
      Selectable(words, masked, mask, j) <==>
      j % WORD_BITS in AllBits() - words[i] && (i == masked ==> j % WORD_BITS in mask)
  {
    forall j: nat | WORD_BITS * i <= j < WORD_BITS * (i + 1)
      ensures Selectable(words, masked, mask, j) <==>
        j % WORD_BITS in AllBits() - words[i] && (i == masked ==> j % WORD_BITS in mask)
    {
      assert IsBit(j % WORD_BITS) && j / WORD_BITS == i;
    }
  }

  lemma LowestSelects(words: seq<set<nat>>, masked: nat, mask: set<nat>, i: nat, b: nat)
    requires i < |words| && b in AllBits() - words[i] && (i == masked ==> b in mask)
    requires forall c | c in AllBits() - words[i] && (i == masked ==> c in mask) :: b <= c
    requires forall j: nat | j < WORD_BITS * i :: !Selectable(words, masked, mask, j)
    ensures Finds(words, masked, mask, b + i * WORD_BITS)
  {
    var id := b + i * WORD_BITS;
    assert id / WORD_BITS == i && id % WORD_BITS == b;
    WordSelects(words, masked, mask, i);
  }

  lemma NoMoreWords(words: seq<set<nat>>, masked: nat, mask: set<nat>)
    ensures forall j: nat | j >= WORD_BITS * |words| :: !Selectable(words, masked, mask, j)
  {
  }

  lemma TracksWords(words: seq<set<nat>>, inUse: seq<bool>)
    requires Tracks(words, inUse)
    ensures AllWords(words)
  {
  }

  lemma FoundIsInWords(words: seq<set<nat>>, masked: nat, mask: set<nat>, id: nat)
    requires Finds(words, masked, mask, id)
    ensures id / WORD_BITS < |words|
  {
  }

  // No IRQ id is ever masked away.
  lemma NoIrqIsHidden(max: nat, masked: nat, mask: set<nat>)
    requires max > 0 && masked == WordsFor(max) - 1
    ensures forall id: nat | id < max :: !Hidden(masked, mask, id)
  {
    WordsSuffice(max);
  }

  predicate LowestFree(inUse: seq<bool>, f: nat) {
    f < |inUse| && !inUse[f] && forall j | 0 <= j < f :: inUse[j]
  }

  // The id is masked away.
  predicate Hidden(masked: nat, mask: set<nat>, id: nat) {
    id / WORD_BITS == masked && id % WORD_BITS !in mask
  }

  // In every state with a free id something is returned. It is the lowest free id exactly if the mask spares that one,
  // and it lies past the table exactly if the mask spares no free id.
  lemma FindsLowest(words: seq<set<nat>>, masked: nat, mask: set<nat>, inUse: seq<bool>, id: int)
    requires Tracks(words, inUse) && Finds(words, masked, mask, id)
    requires |words| == WordsFor(|inUse|) && exists f :: 0 <= f < |inUse| && !inUse[f]
    ensures id >= 0
    ensures forall f | LowestFree(inUse, f) :: id == f <==> !Hidden(masked, mask, f)
    ensures id < |inUse| <==> exists f: nat :: f < |inUse| && !inUse[f] && !Hidden(masked, mask, f)
    ensures id < |inUse| ==>
      !inUse[id] && !Hidden(masked, mask, id) && forall j: nat | j < id :: inUse[j] || Hidden(masked, mask, j)
  {
    forall j: nat | j < |inUse|
      ensures Selectable(words, masked, mask, j) <==> !inUse[j] && !Hidden(masked, mask, j)
    {
      assert BitSet(words, j) <==> inUse[j];
    }
    SpareIsSelectable(words, masked, mask, inUse);
    hide Selectable, Tracks, Hidden, WordsFor;
  }

  // There are always words behind the table, and only one word is masked.
  lemma SpareIsSelectable(words: seq<set<nat>>, masked: nat, mask: set<nat>, inUse: seq<bool>)
    requires Tracks(words, inUse) && |inUse| > 0 && |words| == WordsFor(|inUse|)
    ensures exists j: nat :: Selectable(words, masked, mask, j)
  {
    WordsSuffice(|inUse|);
    var w := if masked == |words| - 1 then |words| - 2 else |words| - 1;
    var j := WORD_BITS * w;
    assert j / WORD_BITS == w && j % WORD_BITS == 0;
    assert !BitSet(words, j);
    assert Selectable(words, masked, mask, j);
  }

  // fill_bit_in_bitfield and unfill_bit_in_bitfield
  method MarkBit(words: array<set<nat>>, id: nat, on: bool, ghost inUse: seq<bool>)
    requires Tracks(words[..], inUse) && id < |inUse|
    modifies words
    ensures Tracks(words[..], inUse[id := on])
  {
    var w, b := id / WORD_BITS, id % WORD_BITS;
    ghost var before := words[..];
    words[w] := if on then words[w] + {b} else words[w] - {b};
    BitMarked(before, words[..], inUse, id, on);
  }

  lemma BitMarked(before: seq<set<nat>>, after: seq<set<nat>>, inUse: seq<bool>, id: nat, on: bool)
    requires Tracks(before, inUse) && id < |inUse|
    requires var w, b := id / WORD_BITS, id % WORD_BITS;
      after == before[w := if on then before[w] + {b} else before[w] - {b}]
    ensures Tracks(after, inUse[id := on])
  {
    var w, b := id / WORD_BITS, id % WORD_BITS;
    assert IsBit(b);
    forall j: nat | j < WORD_BITS * |after|
      ensures BitSet(after, j) <==> j < |inUse| && inUse[id := on][j]
    {
      assert BitSet(before, j) <==> j < |inUse| && inUse[j];
      assert j / WORD_BITS == w && j % WORD_BITS == b ==> j == id;
    }
  }

  function InUseIrqs(irqs: seq<IrqEntry>): seq<bool> {
    seq(|irqs|, i requires 0 <= i < |irqs| => irqs[i].inUse)
  }

  function InUseNtfns(ntfns: seq<NtfnEntry>): seq<bool> {
    seq(|ntfns|, i requires 0 <= i < |ntfns| => ntfns[i].inUse)
  }

  function CountTrue(s: seq<bool>): nat {
    if s == [] then 0 else CountTrue(s[..|s| - 1]) + (if s[|s| - 1] then 1 else 0)
  }

  lemma {:induction false} CountUpdate(s: seq<bool>, i: nat, x: bool)
    requires i < |s|
    ensures CountTrue(s[i := x]) == CountTrue(s) + (if x then 1 else 0) - (if s[i] then 1 else 0)
    decreases |s|
  {
    var n := |s| - 1;
    if i < n {
      assert s[i := x][..n] == s[..n][i := x];
      CountUpdate(s[..n], i, x);
    } else {
      assert s[i := x][..n] == s[..n];
    }
  }

  // Fewer ids in use than there are means that one is free.
  lemma {:induction false} SomeIsFree(s: seq<bool>)
    requires CountTrue(s) < |s|
    ensures exists f :: 0 <= f < |s| && !s[f]
    decreases |s|
  {
    var n := |s| - 1;
    if s[n] {
      SomeIsFree(s[..n]);
      var f :| 0 <= f < n && !s[..n][f];
      assert !s[f];
    }
  }

  lemma {:induction false} CountLess(s: seq<bool>, used: nat)
    requires used <= |s| && forall i | 0 <= i < |s| :: s[i] ==> i < used
    ensures CountTrue(s) <= used
    decreases |s|
  {
    if s != [] {
      CountLess(s[..|s| - 1], if used < |s| then used else |s| - 1);
    }
  }

  lemma {:induction false} NoneIsUsed(s: seq<bool>)
    requires forall i | 0 <= i < |s| :: !s[i]
    ensures CountTrue(s) == 0
    decreases |s|
  {
    if s != [] {
      NoneIsUsed(s[..|s| - 1]);
    }
  }

  lemma EmptyTables(irqs: seq<IrqEntry>, ntfns: seq<NtfnEntry>)
    requires forall i | 0 <= i < |irqs| :: irqs[i] == NO_IRQ
    requires forall n | 0 <= n < |ntfns| :: ntfns[n] == NoNtfn(UNPAIRED)
    ensures Indexed(irqs, ntfns)
    ensures forall i | 0 <= i < |irqs| :: !InUseIrqs(irqs)[i]
    ensures forall n | 0 <= n < |ntfns| :: !InUseNtfns(ntfns)[n]
  {
  }

  lemma NoBits(words: seq<set<nat>>, inUse: seq<bool>)
    requires |inUse| > 0 && |words| == WordsFor(|inUse|)
    requires (forall w | 0 <= w < |words| :: words[w] == {}) && forall i | 0 <= i < |inUse| :: !inUse[i]
    ensures Tracks(words, inUse) && CountTrue(inUse) == 0
  {
    WordsSuffice(|inUse|);
    NoneIsUsed(inUse);
  }

  // irq_cookie_t
  class IrqCookie {
    const irqs: array<IrqEntry>
    const ntfns: array<NtfnEntry>
    const irqWords: array<set<nat>>
    const ntfnWords: array<set<nat>>
    var numIrqs: nat
    var numNtfns: nat

    ghost predicate Valid()
      reads this, irqs, ntfns, irqWords, ntfnWords
    {
      && irqWords != ntfnWords && irqs.Length > 0 && ntfns.Length > 0
      && irqWords.Length == WordsFor(irqs.Length) && ntfnWords.Length == WordsFor(ntfns.Length)
      && Indexed(irqs[..], ntfns[..])
      && Tracks(irqWords[..], InUseIrqs(irqs[..])) && Tracks(ntfnWords[..], InUseNtfns(ntfns[..]))
      && numIrqs == CountTrue(InUseIrqs(irqs[..])) && numNtfns == CountTrue(InUseNtfns(ntfns[..]))
    }

    // new_irq_ops_common
    constructor (maxIrqs: nat, maxNtfns: nat)
      requires maxIrqs > 0 && maxNtfns > 0
      ensures Valid() && irqs.Length == maxIrqs && ntfns.Length == maxNtfns && numIrqs == 0 && numNtfns == 0
      ensures forall i | 0 <= i < maxIrqs :: irqs[i] == NO_IRQ
      ensures forall n | 0 <= n < maxNtfns :: ntfns[n] == NoNtfn(UNPAIRED)
      ensures fresh(irqs) && fresh(ntfns) && fresh(irqWords) && fresh(ntfnWords)
    {
      irqs := new IrqEntry[maxIrqs](i => NO_IRQ);
      ntfns := new NtfnEntry[maxNtfns](i => NoNtfn(UNPAIRED));
      irqWords := new set<nat>[WordsFor(maxIrqs)](i => {});
      ntfnWords := new set<nat>[WordsFor(maxNtfns)](i => {});
      numIrqs, numNtfns := 0, 0;
      new;
      EmptyTables(irqs[..], ntfns[..]);
      NoBits(irqWords[..], InUseIrqs(irqs[..]));
      NoBits(ntfnWords[..], InUseNtfns(ntfns[..]));
      hide Tracks, Indexed, CountTrue, WordsFor, InUseIrqs, InUseNtfns, NoNtfn;
    }

    // Some id is free while fewer than all are in use.
    lemma SomeLeft(used: nat)
      requires Valid() && used < ntfns.Length && forall j | 0 <= j < ntfns.Length :: ntfns[j].inUse <==> j < used
      ensures numNtfns < ntfns.Length
    {
      NtfnsInUseIs(ntfns[..]);
      CountLess(InUseNtfns(ntfns[..]), used);
    }

    // irq_register_common. copied: the kernel gave out the handler capability.
    method Register(hasCallback: bool, copied: bool) returns (r: Result)
      requires Valid()
      modifies this`numIrqs, irqs, irqWords
      ensures Valid()
      ensures old(numIrqs) >= irqs.Length ==> r == Err(EMFILE)
      ensures old(numIrqs) < irqs.Length && !hasCallback ==> r == Err(EINVAL)
      ensures old(numIrqs) < irqs.Length && hasCallback && !copied ==> r == Err(EFAULT)
      ensures old(numIrqs) < irqs.Length && hasCallback && copied ==> r.Ok?
      ensures r.Err? ==> irqs[..] == old(irqs[..])
      ensures r.Ok? ==>
        && r.value < irqs.Length && !old(irqs[r.value].inUse) && (forall j | 0 <= j < r.value :: old(irqs[j].inUse))
        && irqs[..] == old(irqs[..])[r.value := NO_IRQ.(inUse := true)]
    {
      hide Tracks, Indexed, CountTrue, WordsFor, LastMask, InUseIrqs, InUseNtfns;
      if numIrqs >= irqs.Length {
        return Err(EMFILE);
      }
      if !hasCallback {
        return Err(EINVAL);
      }
      WordsSuffice(irqs.Length);
      ghost var before, inUse := irqs[..], InUseIrqs(irqs[..]);
      InUseIs(before);
      SomeIsFree(inUse);
      TracksWords(irqWords[..], inUse);
      var mask := LastMask(irqWords.Length, irqs.Length);
      var id := FindFree(irqWords, irqWords.Length - 1, mask);
      FindsLowest(irqWords[..], irqWords.Length - 1, mask, inUse, id);
      NoIrqIsHidden(irqs.Length, irqWords.Length - 1, mask);
      if !copied {
        return Err(EFAULT);
      }
      StartUsingIrq(before, ntfns[..], id);
      CountUpdate(inUse, id, true);
      MarkBit(irqWords, id, true, inUse);
      irqs[id] := irqs[id].(inUse := true);
      numIrqs := numIrqs + 1;
      InUseUpdate(before, id, irqs[id]);
      assert irqs[..] == before[id := irqs[id]];
      r := Ok(id);
    }

    // The part of an unregister or unset that clears the notification's side
    method Unpair(irqId: nat)
      requires Valid() && irqId < irqs.Length && irqs[irqId].ntfn != UNPAIRED
      requires 0 <= irqs[irqId].ntfn < ntfns.Length && 0 <= irqs[irqId].badge < |ntfns[irqs[irqId].ntfn].irqs|
      requires ntfns[irqs[irqId].ntfn].bound > 0
      modifies ntfns
      ensures ntfns[..] == old(ntfns[..])[irqs[irqId].ntfn :=
        WithoutIrq(old(ntfns[irqs[irqId].ntfn]), irqs[irqId].badge)]
    {
      var n, b := irqs[irqId].ntfn, irqs[irqId].badge;
      var e := ntfns[n];
      ntfns[n] := e.(status := e.status - {b}, irqs := e.irqs[b := UNPAIRED], bound := e.bound - 1);
    }

    // sel4platsupport_irq_unregister. cleared: the kernel cleared the handler.
    method Unregister(irqId: int, cleared: bool) returns (error: bool)
      requires Valid()
      modifies this`numIrqs, irqs, ntfns, irqWords
      ensures Valid()
      ensures error <==>
        (!(0 <= irqId < irqs.Length) || !old(irqs[irqId].inUse) || (old(irqs[irqId].ntfn) != UNPAIRED && !cleared))
      ensures error ==> irqs[..] == old(irqs[..]) && ntfns[..] == old(ntfns[..])
      ensures !error ==> irqs[..] == old(irqs[..])[irqId := NO_IRQ]
      ensures !error && old(irqs[irqId].ntfn) == UNPAIRED ==> ntfns[..] == old(ntfns[..])
      ensures !error && old(irqs[irqId].ntfn) != UNPAIRED ==>
        var n, b := old(irqs[irqId].ntfn), old(irqs[irqId].badge);
        && 0 <= n < ntfns.Length && 0 <= b < |old(ntfns[n]).irqs| && old(ntfns[n]).bound > 0
        && ntfns[..] == old(ntfns[..])[n := WithoutIrq(old(ntfns[n]), b)]
    {
      hide Tracks, Indexed, CountTrue, WordsFor, InUseIrqs, InUseNtfns, WithoutIrq;
      if !(0 <= irqId < irqs.Length) {
        return true;
      }
      if !irqs[irqId].inUse {
        return true;
      }
      ghost var before, ntfnsBefore, inUse := irqs[..], ntfns[..], InUseIrqs(irqs[..]);
      InUseIs(before);
      if irqs[irqId].ntfn > UNPAIRED {
        if !cleared {
          return true;
        }
        UnbindKeepsIndex(before, ntfnsBefore, irqId, NO_IRQ);
        WithoutKeepsUse(ntfnsBefore, irqs[irqId].ntfn, irqs[irqId].badge);
        Unpair(irqId);
      } else {
        StopUsingIrq(before, ntfnsBefore, irqId);
      }
      CountUpdate(inUse, irqId, false);
      InUseUpdate(before, irqId, NO_IRQ);
      irqs[irqId] := NO_IRQ;
      assert irqs[..] == before[irqId := NO_IRQ];
      numIrqs := numIrqs - 1;
      MarkBit(irqWords, irqId, false, inUse);
      error := false;
    }

    // sel4platsupport_irq_unset_ntfn
    method UnsetNtfn(irqId: int, cleared: bool) returns (error: bool)
      requires Valid()
      modifies irqs, ntfns
      ensures Valid()
      ensures error <==>
        (!(0 <= irqId < irqs.Length) || !old(irqs[irqId].inUse) || old(irqs[irqId].ntfn) == UNPAIRED || !cleared)
      ensures error ==> irqs[..] == old(irqs[..]) && ntfns[..] == old(ntfns[..])
      ensures !error ==>
        var n, b := old(irqs[irqId].ntfn), old(irqs[irqId].badge);
        && 0 <= n < ntfns.Length && 0 <= b < |old(ntfns[n]).irqs| && old(ntfns[n]).bound > 0
        && irqs[..] == old(irqs[..])[irqId := old(irqs[irqId]).(ntfn := UNPAIRED, badge := UNPAIRED)]
        && ntfns[..] == old(ntfns[..])[n := WithoutIrq(old(ntfns[n]), b)]
    {
      hide Tracks, Indexed, CountTrue, WordsFor, InUseIrqs, InUseNtfns, WithoutIrq;
      if !(0 <= irqId < irqs.Length) {
        return true;
      }
      if !irqs[irqId].inUse {
        return true;
      }
      if irqs[irqId].ntfn == UNPAIRED || !cleared {
        return true;
      }
      ghost var before, ntfnsBefore := irqs[..], ntfns[..];
      var e := irqs[irqId].(ntfn := UNPAIRED, badge := UNPAIRED);
      UnbindKeepsIndex(before, ntfnsBefore, irqId, e);
      WithoutKeepsUse(ntfnsBefore, irqs[irqId].ntfn, irqs[irqId].badge);
      Unpair(irqId);
      SameUse(before, irqId, e);
      irqs[irqId] := e;
      assert irqs[..] == before[irqId := e];
      error := false;
    }

    predicate CanPair(ntfnId: int, irqId: int)
      reads irqs, ntfns
    {
      && 0 <= ntfnId < ntfns.Length && ntfns[ntfnId].inUse
      && 0 <= irqId < irqs.Length && irqs[irqId].inUse && irqs[irqId].ntfn == UNPAIRED
    }

    // sel4platsupport_irq_set_ntfn and irq_set_ntfn_common. failure: what the kernel or the slot allocator refuse.
    method SetNtfn(ntfnId: int, irqId: int, failure: Option<Error>) returns (r: Result)
      requires Valid()
      modifies irqs, ntfns
      ensures Valid()
      ensures !old(CanPair(ntfnId, irqId)) ==> r == Err(EINVAL)
      ensures old(CanPair(ntfnId, irqId)) ==>
        if old(ntfns[ntfnId]).usable == old(ntfns[ntfnId]).status then r == Err(ENOSPC)
        else if failure.Some? then r == Err(failure.value)
        else r.Ok?
      ensures r.Err? ==> irqs[..] == old(irqs[..]) && ntfns[..] == old(ntfns[..])
      ensures r.Ok? ==>
        && 0 <= ntfnId < ntfns.Length && 0 <= irqId < irqs.Length
        && r.value in old(ntfns[ntfnId]).usable - old(ntfns[ntfnId]).status
        && (forall c | c in old(ntfns[ntfnId]).usable - old(ntfns[ntfnId]).status :: r.value <= c)
        && r.value < |old(ntfns[ntfnId]).irqs|
        && irqs[..] == old(irqs[..])[irqId := Paired(old(irqs[irqId]), ntfnId, r.value)]
        && ntfns[..] == old(ntfns[..])[ntfnId := WithIrq(old(ntfns[ntfnId]), irqId, r.value)]
    {
      hide Tracks, Indexed, CountTrue, WordsFor, InUseIrqs, InUseNtfns;
      if !(0 <= ntfnId < ntfns.Length) {
        return Err(EINVAL);
      }
      if !ntfns[ntfnId].inUse {
        return Err(EINVAL);
      }
      if !(0 <= irqId < irqs.Length) {
        return Err(EINVAL);
      }
      if !irqs[irqId].inUse {
        return Err(EINVAL);
      }
      ghost var before, ntfnsBefore := irqs[..], ntfns[..];
      EntriesAre(before, ntfnsBefore, irqId, ntfnId);
      if irqs[irqId].ntfn > UNPAIRED {
        return Err(EINVAL);
      }
      var e := ntfns[ntfnId];
      if e.bound >= BADGE_BITS {
        FullNtfn(e);
        return Err(ENOSPC);
      }
      var free := e.usable - e.status;
      if free == {} {
        assert forall c | c in e.usable :: c in free || c in e.status;
        return Err(ENOSPC);
      }
      var b := Lowest(free);
      if failure.Some? {
        return Err(failure.value);
      }
      BindKeepsIndex(before, ntfnsBefore, irqId, ntfnId, b);
      SameUse(before, irqId, Paired(before[irqId], ntfnId, b));
      SameNtfnUse(ntfnsBefore, ntfnId, WithIrq(e, irqId, b));
      ntfns[ntfnId] := e.(bound := e.bound + 1, status := e.status + {b}, irqs := e.irqs[b := irqId]);
      irqs[irqId] := irqs[irqId].(ntfn := ntfnId, badge := b);
      assert irqs[..] == before[irqId := irqs[irqId]] && ntfns[..] == ntfnsBefore[ntfnId := ntfns[ntfnId]];
      r := Ok(b);
    }

    // The loop of sel4platsupport_irq_return_ntfn
    method DetachAll(ntfnId: nat)
      requires Valid() && ntfnId < ntfns.Length
      modifies irqs
      ensures irqs[..] == Detached(old(irqs[..]), ntfnId)
    {
      hide Tracks, CountTrue, WordsFor, InUseIrqs, InUseNtfns, IrqIndexed, NtfnIndexed;
      var e := ntfns[ntfnId];
      ghost var before, ntfnsBefore := irqs[..], ntfns[..];
      StatusIs(before, ntfnsBefore, ntfnId);
      var bits := e.status;
      while bits != {}
        invariant bits <= e.status && e == ntfns[ntfnId] && ntfns[..] == ntfnsBefore
        invariant forall i | 0 <= i < irqs.Length ::
          irqs[i] == if before[i].ntfn == ntfnId && before[i].badge !in bits
                     then before[i].(ntfn := UNPAIRED, badge := UNPAIRED) else before[i]
        decreases bits
      {
        var index := Lowest(bits);
        var i := e.irqs[index];
        irqs[i] := irqs[i].(ntfn := UNPAIRED, badge := UNPAIRED);
        bits := bits - {index};
      }
    }

    // sel4platsupport_irq_return_ntfn
    method ReturnNtfn(ntfnId: int) returns (error: bool)
      requires Valid()
      modifies this`numNtfns, irqs, ntfns, ntfnWords
      ensures Valid()
      ensures error <==> (!(0 <= ntfnId < ntfns.Length) || !old(ntfns[ntfnId].inUse))
      ensures error ==> irqs[..] == old(irqs[..]) && ntfns[..] == old(ntfns[..])
      ensures !error ==>
        irqs[..] == Detached(old(irqs[..]), ntfnId) && ntfns[..] == old(ntfns[..])[ntfnId := NoNtfn(UNPAIRED)]
    {
      hide Tracks, Indexed, CountTrue, WordsFor, InUseIrqs, InUseNtfns, NoNtfn, Detached;
      if !(0 <= ntfnId < ntfns.Length) {
        return true;
      }
      if !ntfns[ntfnId].inUse {
        return true;
      }
      ghost var before, ntfnsBefore, inUse := irqs[..], ntfns[..], InUseNtfns(ntfns[..]);
      NtfnsInUseIs(ntfnsBefore);
      DetachKeepsIndex(before, ntfnsBefore, ntfnId);
      DetachAll(ntfnId);
      NtfnUseUpdate(ntfnsBefore, ntfnId, NoNtfn(UNPAIRED));
      NoNtfnIs();
      CountUpdate(inUse, ntfnId, false);
      ntfns[ntfnId] := NoNtfn(UNPAIRED);
      assert ntfns[..] == ntfnsBefore[ntfnId := NoNtfn(UNPAIRED)];
      numNtfns := numNtfns - 1;
      MarkBit(ntfnWords, ntfnId, false, inUse);
      error := false;
    }

    // sel4platsupport_irq_provide_ntfn. The word that find_free_ntfn_id masks is the last one of the IRQ ids, so the id
    // that comes back need not be free to use: overrun says that the source writes past the end of ntfn_table. The
    // model leaves that write out.
    method ProvideNtfn(usable: set<nat>) returns (r: Result, overrun: bool)
      requires Valid() && (forall b | b in usable :: b < BADGE_BITS)
      modifies this`numNtfns, ntfns, ntfnWords
      ensures !overrun ==> Valid()
      ensures usable == {} ==> r == Err(EINVAL)
      ensures usable != {} ==> if old(numNtfns) >= ntfns.Length then r == Err(EMFILE) else r.Ok?
      ensures r.Err? ==> ntfns[..] == old(ntfns[..]) && !overrun
      ensures r.Ok? ==> (overrun <==> r.value >= ntfns.Length)
      ensures r.Ok? ==>
        (overrun <==>
         forall f: nat | f < ntfns.Length && !old(ntfns[f].inUse) :: HiddenNtfn(irqs.Length, ntfns.Length, f))
      ensures r.Ok? ==>
        forall f: nat | LowestFree(InUseNtfns(old(ntfns[..])), f) ::
          r.value == f <==> !HiddenNtfn(irqs.Length, ntfns.Length, f)
      ensures r.Ok? && !overrun ==>
        && r.value < ntfns.Length && !old(ntfns[r.value].inUse)
        && ntfns[..] == old(ntfns[..])[r.value := NoNtfn(0).(inUse := true, usable := usable)]
      ensures overrun ==> ntfns[..] == old(ntfns[..]) && numNtfns == old(numNtfns) + 1
    {
      hide Tracks, Indexed, CountTrue, WordsFor, LastMask, InUseIrqs, InUseNtfns, Finds, Hidden;
      overrun := false;
      if usable == {} {
        return Err(EINVAL), false;
      }
      if numNtfns >= ntfns.Length {
        return Err(EMFILE), false;
      }
      WordsSuffice(irqs.Length);
      ghost var before, inUse := ntfns[..], InUseNtfns(ntfns[..]);
      NtfnsInUseIs(before);
      SomeIsFree(inUse);
      TracksWords(ntfnWords[..], inUse);
      var mask := LastMask(ntfnWords.Length, ntfns.Length);
      var id := FindFree(ntfnWords, irqWords.Length - 1, mask);
      FindsLowest(ntfnWords[..], irqWords.Length - 1, mask, inUse, id);
      HiddenIs(irqs.Length, ntfns.Length);
      numNtfns := numNtfns + 1;
      r := Ok(id);
      if id >= ntfns.Length {
        FoundIsInWords(ntfnWords[..], irqWords.Length - 1, mask, id);
        ntfnWords[id / WORD_BITS] := ntfnWords[id / WORD_BITS] + {id % WORD_BITS};
        return r, true;
      }
      var e := NoNtfn(0).(inUse := true, usable := usable);
      FreshNtfn(irqs[..], before, id, e);
      CountUpdate(inUse, id, true);
      NtfnUseUpdate(before, id, e);
      MarkBit(ntfnWords, id, true, inUse);
      ntfns[id] := e;
      assert ntfns[..] == before[id := e];
    }
  }

  // The IRQ entries after notification n was returned: every IRQ paired with it is unpaired.
  function Detached(irqs: seq<IrqEntry>, n: int): seq<IrqEntry> {
    seq(|irqs|, i requires 0 <= i < |irqs| =>
      if irqs[i].ntfn == n then irqs[i].(ntfn := UNPAIRED, badge := UNPAIRED) else irqs[i])
  }

  lemma DetachKeepsIndex(irqs: seq<IrqEntry>, ntfns: seq<NtfnEntry>, n: nat)
    requires Indexed(irqs, ntfns) && n < |ntfns|
    ensures Indexed(Detached(irqs, n), ntfns[n := NoNtfn(UNPAIRED)])
    ensures InUseIrqs(Detached(irqs, n)) == InUseIrqs(irqs)
  {
    var irqs', ntfns' := Detached(irqs, n), ntfns[n := NoNtfn(UNPAIRED)];
    forall j | 0 <= j < |irqs'|
      ensures IrqIndexed(irqs', ntfns', j)
    {
      assert IrqIndexed(irqs, ntfns, j);
    }
    forall m | 0 <= m < |ntfns'|
      ensures NtfnIndexed(irqs', ntfns', m)
    {
      assert NtfnIndexed(irqs, ntfns, m);
    }
  }

  // The ids of notifications that find_free_ntfn_id masks away: the word is chosen by the number of IRQ ids.
  predicate HiddenNtfn(maxIrqs: nat, maxNtfns: nat, id: nat)
    requires maxIrqs > 0
  {
    WordsFor(maxIrqs) >= 1 && Hidden(WordsFor(maxIrqs) - 1, LastMask(WordsFor(maxNtfns), maxNtfns), id)
  }

  lemma HiddenIs(maxIrqs: nat, maxNtfns: nat)
    requires maxIrqs > 0
    ensures WordsFor(maxIrqs) >= 1
    ensures forall id: nat :: HiddenNtfn(maxIrqs, maxNtfns, id) <==>
      Hidden(WordsFor(maxIrqs) - 1, LastMask(WordsFor(maxNtfns), maxNtfns), id)
  {
  }

  // No notification id is ever masked away, exactly if at most four of them reach the masked word.
  lemma NoNtfnIsHidden(maxIrqs: nat, maxNtfns: nat)
    requires maxIrqs > 0 && maxNtfns > 0
    ensures (forall id: nat | id < maxNtfns :: !HiddenNtfn(maxIrqs, maxNtfns, id)) <==>
      maxNtfns <= WORD_BITS * (WordsFor(maxIrqs) - 1) + 4
  {
    WordsSuffice(maxIrqs);
    var first := WORD_BITS * (WordsFor(maxIrqs) - 1);
    var past := maxNtfns - first;
    if past > 4 {
      var b := if past > 7 then 7 else past - 1;
      LeftOver(maxNtfns, first, b);
      assert HiddenNtfn(maxIrqs, maxNtfns, first + b);
    } else {
      forall id: nat | id < maxNtfns
        ensures !HiddenNtfn(maxIrqs, maxNtfns, id)
      {
        if id >= first {
          LeftOver(maxNtfns, first, id - first);
        }
      }
    }
  }

  // The low bits of the masked word survive the byte-swapped mask only if few ids reach it.
  lemma LeftOver(max: nat, first: nat, b: nat)
    requires first % WORD_BITS == 0 && b < 8 && first + b < max
    ensures (first + b) / WORD_BITS == first / WORD_BITS && (first + b) % WORD_BITS == b
    ensures b in LastMask(WordsFor(max), max) <==> max % WORD_BITS != 0 && max % WORD_BITS + b < 8
  {
    assert IsBit(b);
    LeftoverBits(max);
    var left := WordsFor(max) * 8 - max;
    assert b / 8 == 0 && b % 8 == b;
    assert b in LastMask(WordsFor(max), max) <==> 56 + b < left;
  }

  lemma LeftoverBits(max: nat)
    ensures WordsFor(max) * 8 - max == if max % WORD_BITS == 0 then 0 else WORD_BITS - max % WORD_BITS
  {
    assert (max + WORD_BITS - 1) / WORD_BITS * WORD_BITS == if max % WORD_BITS == 0 then max
      else max - max % WORD_BITS + WORD_BITS;
  }

  // With 1 IRQ id and 456, 464, ... or 512 notification ids, no id from 448 on is ever found.
  lemma LastIdsAreHidden(max: nat, id: nat)
    requires max % 8 == 0 && 448 < max <= 512 && 448 <= id < max
    ensures HiddenNtfn(1, max, id)
  {
    assert WordsFor(1) == 8 && WordsFor(max) == 64;
    var b := id % WORD_BITS;
    assert id / WORD_BITS == 7 && b == id - 448;
    assert (7 - b / 8) * 8 + b % 8 >= 512 - max;
  }

  // Such an interface hands out the ids 0 to 447, and then overruns its table.
  method OverrunHappens(max: nat) returns (cookie: IrqCookie, r: Result, overrun: bool)
    requires max % 8 == 0 && 448 < max <= 512
    ensures overrun && r.Ok? && r.value >= cookie.ntfns.Length == max
    ensures forall j | 0 <= j < max :: cookie.ntfns[j].inUse <==> j < 448
  {
    hide IrqCookie.Valid, HiddenNtfn, Tracks, CountTrue, Indexed;
    cookie := new IrqCookie(1, max);
    var i := 0;
    while i < 448
      invariant i <= 448 && cookie.Valid() && cookie.irqs.Length == 1 && cookie.ntfns.Length == max
      invariant fresh(cookie) && fresh(cookie.ntfns) && fresh(cookie.ntfnWords)
      invariant forall j | 0 <= j < max :: cookie.ntfns[j].inUse <==> j < i
    {
      cookie.SomeLeft(i);
      NoneHiddenYet(max, i);
      NtfnsInUseIs(cookie.ntfns[..]);
      assert LowestFree(InUseNtfns(cookie.ntfns[..]), i);
      r, overrun := cookie.ProvideNtfn({0});
      i := i + 1;
    }
    cookie.SomeLeft(448);
    forall f: nat | f < max && !cookie.ntfns[f].inUse
      ensures HiddenNtfn(1, max, f)
    {
      LastIdsAreHidden(max, f);
    }
    r, overrun := cookie.ProvideNtfn({0});
  }

  lemma NoneHiddenYet(max: nat, id: nat)
    requires id < 448
    ensures !HiddenNtfn(1, max, id)
  {
    assert WordsFor(1) == 8;
  }

  // With 1 IRQ id and 456 notification ids of which 448 are in use, the id that comes back is 456.
  lemma OverrunByOne(words: seq<set<nat>>, inUse: seq<bool>, id: int)
    requires |inUse| == 456 && |words| == WordsFor(456) && Tracks(words, inUse)
    requires forall j | 0 <= j < 456 :: inUse[j] <==> j < 448
    requires Finds(words, WordsFor(1) - 1, LastMask(WordsFor(456), 456), id)
    ensures id == 456
  {
    var mask := LastMask(64, 456);
    assert WordsFor(1) == 8 && WordsFor(456) == 64;
    forall j: nat | j < 456
      ensures !Selectable(words, 7, mask, j)
    {
      assert BitSet(words, j) <==> inUse[j];
      if j >= 448 {
        LastIdsAreHidden(456, j);
      }
    }
    assert !BitSet(words, 456) && 456 / WORD_BITS == 7 && 456 % WORD_BITS == 8;
    assert IsBit(8) && 8 in mask;
    assert Selectable(words, 7, mask, 456);
  }

  lemma InUseIs(irqs: seq<IrqEntry>)
    ensures |InUseIrqs(irqs)| == |irqs| && forall i | 0 <= i < |irqs| :: InUseIrqs(irqs)[i] == irqs[i].inUse
  {
  }

  lemma NtfnsInUseIs(ntfns: seq<NtfnEntry>)
    ensures |InUseNtfns(ntfns)| == |ntfns| && forall i | 0 <= i < |ntfns| :: InUseNtfns(ntfns)[i] == ntfns[i].inUse
  {
  }

  lemma InUseUpdate(irqs: seq<IrqEntry>, i: nat, e: IrqEntry)
    requires i < |irqs|
    ensures InUseIrqs(irqs[i := e]) == InUseIrqs(irqs)[i := e.inUse]
  {
  }

  lemma NtfnUseUpdate(ntfns: seq<NtfnEntry>, n: nat, e: NtfnEntry)
    requires n < |ntfns|
    ensures InUseNtfns(ntfns[n := e]) == InUseNtfns(ntfns)[n := e.inUse]
  {
  }

  lemma SameUse(irqs: seq<IrqEntry>, i: nat, e: IrqEntry)
    requires i < |irqs| && e.inUse == irqs[i].inUse
    ensures InUseIrqs(irqs[i := e]) == InUseIrqs(irqs)
  {
  }

  lemma SameNtfnUse(ntfns: seq<NtfnEntry>, n: nat, e: NtfnEntry)
    requires n < |ntfns| && e.inUse == ntfns[n].inUse
    ensures InUseNtfns(ntfns[n := e]) == InUseNtfns(ntfns)
  {
  }

  lemma WithoutKeepsUse(ntfns: seq<NtfnEntry>, n: nat, b: nat)
    requires n < |ntfns| && b < |ntfns[n].irqs| && ntfns[n].bound > 0
    ensures InUseNtfns(ntfns[n := WithoutIrq(ntfns[n], b)]) == InUseNtfns(ntfns)
  {
  }

  lemma NoNtfnIs()
    ensures !NoNtfn(UNPAIRED).inUse
  {
  }

  lemma StatusIs(irqs: seq<IrqEntry>, ntfns: seq<NtfnEntry>, n: nat)
    requires Indexed(irqs, ntfns) && n < |ntfns|
    ensures IsWord(ntfns[n].status)
    ensures forall b | b in ntfns[n].status ::
      && b < |ntfns[n].irqs| && 0 <= ntfns[n].irqs[b] < |irqs|
      && irqs[ntfns[n].irqs[b]].ntfn == n && irqs[ntfns[n].irqs[b]].badge == b
    ensures forall i | 0 <= i < |irqs| && irqs[i].ntfn == n ::
      irqs[i].badge in ntfns[n].status && ntfns[n].irqs[irqs[i].badge] == i
  {
    assert NtfnIndexed(irqs, ntfns, n);
    forall i | 0 <= i < |irqs| && irqs[i].ntfn == n
      ensures irqs[i].badge in ntfns[n].status && ntfns[n].irqs[irqs[i].badge] == i
    {
      assert IrqIndexed(irqs, ntfns, i);
    }
  }

  lemma EntriesAre(irqs: seq<IrqEntry>, ntfns: seq<NtfnEntry>, i: nat, n: nat)
    requires Indexed(irqs, ntfns) && i < |irqs| && n < |ntfns|
    ensures irqs[i].ntfn >= UNPAIRED && |ntfns[n].irqs| == BADGE_BITS
    ensures ntfns[n].status <= ntfns[n].usable && ntfns[n].bound == |ntfns[n].status| && IsWord(ntfns[n].usable)
  {
    assert IrqIndexed(irqs, ntfns, i) && NtfnIndexed(irqs, ntfns, n);
  }

  // A notification with as many IRQs as a badge has bits has no usable bit left.
  lemma FullNtfn(e: NtfnEntry)
    requires e.status <= e.usable && IsWord(e.usable) && e.bound == |e.status| && e.bound >= BADGE_BITS
    ensures e.usable == e.status
  {
    BitsBelow(e.usable, BADGE_BITS);
    SubsetIsAll(e.status, e.usable);
  }

  lemma {:induction false} BitsBelow(w: set<nat>, n: nat)
    requires forall b | b in w :: b < n
    ensures |w| <= n
  {
    if n > 0 {
      BitsBelow(w - {n - 1}, n - 1);
      if n - 1 in w {
        assert w == (w - {n - 1}) + {n - 1};
      } else {
        assert w == w - {n - 1};
      }
    } else {
      assert w == {};
    }
  }

  lemma SubsetIsAll(a: set<nat>, b: set<nat>)
    requires a <= b && |b| <= |a|
    ensures a == b
  {
    assert b == a + (b - a);
    assert |b - a| == 0;
  }

  lemma StopUsingIrq(irqs: seq<IrqEntry>, ntfns: seq<NtfnEntry>, i: nat)
    requires Indexed(irqs, ntfns) && i < |irqs| && irqs[i].ntfn <= UNPAIRED
    ensures irqs[i].ntfn == UNPAIRED && Indexed(irqs[i := NO_IRQ], ntfns)
  {
    assert IrqIndexed(irqs, ntfns, i);
    var irqs' := irqs[i := NO_IRQ];
    forall j | 0 <= j < |irqs'|
      ensures IrqIndexed(irqs', ntfns, j)
    {
      assert IrqIndexed(irqs, ntfns, j);
    }
    forall m | 0 <= m < |ntfns|
      ensures NtfnIndexed(irqs', ntfns, m)
    {
      assert NtfnIndexed(irqs, ntfns, m);
    }
  }

  lemma FreshNtfn(irqs: seq<IrqEntry>, ntfns: seq<NtfnEntry>, n: nat, e: NtfnEntry)
    requires Indexed(irqs, ntfns) && n < |ntfns| && !ntfns[n].inUse
    requires e.status == {} && e.bound == 0 && |e.irqs| == BADGE_BITS && forall b | b in e.usable :: b < BADGE_BITS
    ensures Indexed(irqs, ntfns[n := e])
  {
    assert NtfnIndexed(irqs, ntfns, n);
    var ntfns' := ntfns[n := e];
    forall j | 0 <= j < |irqs|
      ensures IrqIndexed(irqs, ntfns', j)
    {
      assert IrqIndexed(irqs, ntfns, j);
    }
    forall m | 0 <= m < |ntfns'|
      ensures NtfnIndexed(irqs, ntfns', m)
    {
      assert NtfnIndexed(irqs, ntfns, m);
    }
  }

  lemma StartUsingIrq(irqs: seq<IrqEntry>, ntfns: seq<NtfnEntry>, i: nat)
    requires Indexed(irqs, ntfns) && i < |irqs| && !irqs[i].inUse
    ensures irqs[i] == NO_IRQ && Indexed(irqs[i := irqs[i].(inUse := true)], ntfns)
  {
    assert IrqIndexed(irqs, ntfns, i);
    var irqs' := irqs[i := irqs[i].(inUse := true)];
    forall j | 0 <= j < |irqs'|
      ensures IrqIndexed(irqs', ntfns, j)
    {
      assert IrqIndexed(irqs, ntfns, j);
    }
    forall m | 0 <= m < |ntfns|
      ensures NtfnIndexed(irqs', ntfns, m)
    {
      assert NtfnIndexed(irqs, ntfns, m);
    }
  }
}
