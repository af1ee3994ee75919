// The slab allocator (libsel4utils/src/slab.c): all objects of given numbers are created up front from one untyped.
module Slab {
  import opened Alignment
  import opened BuddyForest
  import opened Environment
  import Twinkle

  // object_desc_t; size: vka_get_object_size, which is 0 or -1 where there is no such size.
  datatype Desc = Desc(size: int, kind: nat)

  // An object created in the untyped
  datatype Object = Object(kind: nat, start: nat, bits: nat) {
    function End(): nat {
      start + Pow2(bits)
    }
  }

  function DescsOf(sizes: seq<int>): seq<Desc> {
    seq(|sizes|, i requires 0 <= i < |sizes| => Desc(sizes[i], i))
  }

  function Sum(descs: seq<Desc>, f: Desc -> nat): nat {
    if descs == [] then 0 else Sum(descs[..|descs| - 1], f) + f(descs[|descs| - 1])
  }

  // The objects of a kind that are asked for
  function Wanted(d: Desc, freq: seq<nat>): nat {
    if d.kind < |freq| && d.size > 0 then freq[d.kind] else 0
  }

  // The bytes that the objects of one kind take
  function BytesOf(freq: seq<nat>): Desc -> nat {
    (d: Desc) => if d.size > 0 then Pow2(d.size) * Wanted(d, freq) else 0
  }

  function NumberOf(freq: seq<nat>, kind: nat): Desc -> nat {
    (d: Desc) => if d.kind == kind then Wanted(d, freq) else 0
  }

  function TotalBytes(descs: seq<Desc>, freq: seq<nat>): nat {
    Sum(descs, BytesOf(freq))
  }

  // Every kind that is asked for has a size.
  predicate Sized(freq: seq<nat>, sizes: seq<int>) {
    |freq| == |sizes| && forall i | 0 <= i < |freq| && freq[i] > 0 :: sizes[i] > 0
  }

  // calculate_total_size: 0 if some kind that is asked for has no size
  method CalculateTotalSize(freq: seq<nat>, sizes: seq<int>) returns (total: nat)
    requires |freq| == |sizes| && forall i | 0 <= i < |sizes| :: sizes[i] >= -1
    ensures Sized(freq, sizes) ==> total == TotalBytes(DescsOf(sizes), freq)
    ensures !Sized(freq, sizes) ==> total == 0
  {
    hide Pow2;
    total := 0;
    var i := 0;
    while i < |freq|
      invariant i <= |freq|
      invariant forall j | 0 <= j < i && freq[j] > 0 :: sizes[j] > 0
      invariant total == TotalBytes(DescsOf(sizes)[..i], freq)
    {
      assert DescsOf(sizes)[..i + 1][..i] == DescsOf(sizes)[..i];
      if freq[i] > 0 {
        if sizes[i] == 0 || sizes[i] == -1 {
          return 0;
        }
        total := total + Pow2(sizes[i]) * freq[i];
      }
      NothingWanted(Desc(sizes[i], i), freq);
      i := i + 1;
    }
    assert DescsOf(sizes)[..i] == DescsOf(sizes);
  }

  lemma NothingWanted(d: Desc, freq: seq<nat>)
    requires d.kind < |freq| && (freq[d.kind] > 0 ==> d.size > 0)
    ensures BytesOf(freq)(d) == if freq[d.kind] > 0 then Pow2(d.size) * freq[d.kind] else 0
    ensures forall kind :: NumberOf(freq, kind)(d) == if kind == d.kind then freq[d.kind] else 0
  {
  }

  // compare_object_descs orders by biggest first.
  predicate BiggestFirst(descs: seq<Desc>) {
    forall i, j | 0 <= i < j < |descs| :: descs[i].size >= descs[j].size
  }

  lemma {:induction false} SumJoin(a: seq<Desc>, b: seq<Desc>, f: Desc -> nat)
    ensures Sum(a + b, f) == Sum(a, f) + Sum(b, f)
    decreases |b|
  {
    if b == [] {
      assert a + b == a;
    } else {
      SumJoin(a, b[..|b| - 1], f);
      assert (a + b)[..|a + b| - 1] == a + b[..|b| - 1];
    }
  }

  // Sorting does not change a sum.
  lemma {:induction false} SumOfPermutation(a: seq<Desc>, b: seq<Desc>, f: Desc -> nat)
    requires multiset(a) == multiset(b)
    ensures Sum(a, f) == Sum(b, f)
    decreases |a|
  {
    if a == [] {
      assert |multiset(b)| == 0;
    } else {
      var d := a[|a| - 1];
      assert a == a[..|a| - 1] + [d];
      assert d in multiset(b);
      var k :| 0 <= k < |b| && b[k] == d;
      var rest := b[..k] + b[k + 1..];
      SameWithoutOne(a, b, k);
      SumOfPermutation(a[..|a| - 1], rest, f);
      assert b == b[..k] + [d] + b[k + 1..];
      SumJoin(b[..k] + [d], b[k + 1..], f);
      SumJoin(b[..k], [d], f);
      SumJoin(b[..k], b[k + 1..], f);
      assert [d][..0] == [];
    }
  }

  lemma SameWithoutOne(a: seq<Desc>, b: seq<Desc>, k: nat)
    requires multiset(a) == multiset(b) && a != [] && k < |b| && b[k] == a[|a| - 1]
    ensures multiset(b[..k] + b[k + 1..]) == multiset(a[..|a| - 1])
  {
    var d := b[k];
    assert a == a[..|a| - 1] + [d];
    assert b == b[..k] + [d] + b[k + 1..];
    assert multiset(b) == multiset(b[..k]) + multiset{d} + multiset(b[k + 1..]);
    assert multiset(a) == multiset(a[..|a| - 1]) + multiset{d};
    assert multiset(b[..k] + b[k + 1..]) == multiset(b) - multiset{d};
    assert multiset(a[..|a| - 1]) == multiset(a) - multiset{d};
  }

  // Before sorting every kind occurs once.
  lemma {:induction false} NumbersBefore(freq: seq<nat>, sizes: seq<int>, kind: nat, i: nat)
    requires Sized(freq, sizes) && kind < |freq| && i <= |sizes|
    ensures Sum(DescsOf(sizes)[..i], NumberOf(freq, kind)) == if kind < i then freq[kind] else 0
    decreases i
  {
    if i > 0 {
      NumbersBefore(freq, sizes, kind, i - 1);
      assert DescsOf(sizes)[..i][..i - 1] == DescsOf(sizes)[..i - 1];
    }
  }

  // --- what was created

  // The objects follow one another without a gap, up to offset.
  predicate Packed(objects: seq<Object>, offset: nat) {
    if objects == [] then offset == 0
    else
      var last := objects[|objects| - 1];
      last.End() == offset && AlignedTo(last.start, last.bits) && Packed(objects[..|objects| - 1], last.start)
  }

  // Every object has the size of its kind.
  predicate OfTheirSizes(objects: seq<Object>, sizes: seq<int>) {
    forall i | 0 <= i < |objects| :: objects[i].kind < |sizes| && objects[i].bits == sizes[objects[i].kind]
  }

  function CountKind(objects: seq<Object>, kind: nat): nat {
    if objects == [] then 0
    else CountKind(objects[..|objects| - 1], kind) + (if objects[|objects| - 1].kind == kind then 1 else 0)
  }

  // Packed objects are aligned, below offset, and do not overlap.
  lemma {:induction false} PackedObjects(objects: seq<Object>, offset: nat, i: nat, j: nat)
    requires Packed(objects, offset) && i < j < |objects|
    ensures objects[i].End() <= objects[j].start && objects[j].End() <= offset
    ensures AlignedTo(objects[i].start, objects[i].bits)
    decreases |objects|
  {
    hide Pow2, AlignedTo;
    var n := |objects| - 1;
    var rest := objects[..n];
    if j < n {
      PackedObjects(rest, objects[n].start, i, j);
    } else {
      PackedBelow(rest, objects[n].start, i);
    }
    EndIsAbove(objects[n]);
  }

  lemma EndIsAbove(o: Object)
    ensures o.start < o.End()
  {
  }

  lemma {:induction false} PackedBelow(objects: seq<Object>, offset: nat, i: nat)
    requires Packed(objects, offset) && i < |objects|
    ensures objects[i].End() <= offset && AlignedTo(objects[i].start, objects[i].bits)
    decreases |objects|
  {
    hide Pow2, AlignedTo;
    var n := |objects| - 1;
    if i < n {
      PackedBelow(objects[..n], objects[n].start, i);
      EndIsAbove(objects[n]);
    }
  }

  lemma PackedGrows(objects: seq<Object>, offset: nat, o: Object)
    requires Packed(objects, offset) && o.start == offset && AlignedTo(offset, o.bits)
    ensures Packed(objects + [o], o.End())
    ensures forall kind ::
      CountKind(objects + [o], kind) == CountKind(objects, kind) + (if o.kind == kind then 1 else 0)
  {
    assert (objects + [o])[..|objects|] == objects;
  }

  // The offset is a multiple of the size that comes next, so nothing is lost to alignment.
  lemma NoPadding(offset: nat, bits: nat)
    requires AlignedTo(offset, bits)
    ensures Twinkle.RoundUp(offset, bits) == offset
    ensures AlignedTo(offset + Pow2(bits), bits)
  {
    Pow2IsAligned(bits);
    AlignedSum(offset, Pow2(bits), bits);
  }

  // Why no slab was made: memory, a slot or the untyped was refused, or the kernel had no room left in the untyped.
  datatype Failure = NoFailure | Refused | DoesNotFit

  // alloc_object_slab: the kernel carves an object out of the untyped at the next aligned offset, if it fits.
  // The requests are for the array of the slab and for a slot for each object.
  method AllocObjectSlab(before: seq<Object>, from: nat, n: nat, size: int, kind: nat, capacity: nat,
                         answers: Answers, asked: nat)
    returns (objects: seq<Object>, offset: nat, failure: Failure, asked': nat)
    requires Packed(before, from) && (n > 0 ==> size > 0 && AlignedTo(from, size))
    requires n > 0 ==> from + Pow2(size) * n <= capacity
    ensures asked <= asked' && (failure.Refused? <==> Denied(answers, asked, asked')) && !failure.DoesNotFit?
    ensures failure.NoFailure? ==>
      && Packed(objects, offset) && (n > 0 ==> offset == from + Pow2(size) * n && AlignedTo(offset, size))
      && (n == 0 ==> offset == from) && before <= objects
      && (forall i | |before| <= i < |objects| :: objects[i].kind == kind && objects[i].bits == size)
      && (forall k :: CountKind(objects, k) == CountKind(before, k) + (if k == kind then n else 0))
  {
    hide Pow2, AlignedTo, Twinkle.RoundUp, Packed, CountKind, Denied;
    objects, offset, failure, asked' := before, from, NoFailure, asked;
    DeniedOnce(answers, asked);
    if n > 0 {
      asked' := asked + 1;
      if !answers(asked) {
        failure := Refused;
        return;
      }
    }
    var i := 0;
    while i < n
      invariant i <= n && failure.NoFailure? && Packed(objects, offset)
      invariant asked <= asked' && !Denied(answers, asked, asked')
      invariant before <= objects
      invariant forall j | |before| <= j < |objects| :: objects[j].kind == kind && objects[j].bits == size
      invariant if n > 0 then offset == from + Pow2(size) * i && AlignedTo(offset, size) else offset == from
      invariant forall k :: CountKind(objects, k) == CountKind(before, k) + (if k == kind then i else 0)
    {
      NoPadding(offset, size);
      OneMore(Pow2(size), i, n);
      var start := Twinkle.RoundUp(offset, size);
      DeniedOnce(answers, asked');
      DeniedIn(answers, asked, asked', asked' + 1);
      var granted := answers(asked');
      asked' := asked' + 1;
      failure := if !granted then Refused else if start + Pow2(size) > capacity then DoesNotFit else NoFailure;
      if !failure.NoFailure? {
        return;
      }
      var o := Object(kind, start, size);
      PackedGrows(objects, offset, o);
      objects, offset := objects + [o], start + Pow2(size);
      i := i + 1;
    }
  }

  lemma OneMore(p: nat, i: nat, n: nat)
    requires i < n
    ensures p * i + p == p * (i + 1) && p * (i + 1) <= p * n
  {
    Twinkle.Ordered(p, i + 1, n);
  }

  // slab_init. sorted is what qsort makes of the descriptors. The sizes are added up first, before the source's request
  // for memory of its own, so that total is there in every case.
  method SlabInit(freq: seq<nat>, sizes: seq<int>, sorted: seq<Desc>, answers: Answers, asked: nat)
    returns (objects: seq<Object>, total: nat, totalBits: nat, failure: Failure, asked': nat)
    requires |freq| == |sizes| && forall i | 0 <= i < |sizes| :: sizes[i] >= -1
    requires multiset(sorted) == multiset(DescsOf(sizes)) && BiggestFirst(sorted)
    ensures asked <= asked' && (failure.Refused? <==> Denied(answers, asked, asked')) && !failure.DoesNotFit?
    ensures total == if Sized(freq, sizes) then TotalBytes(DescsOf(sizes), freq) else 0
    ensures total > 0 ==> totalBits > 0 && Pow2(totalBits - 1) <= total < Pow2(totalBits)
    ensures total == 0 ==> objects == []
    ensures total > 0 && failure.NoFailure? ==>
      && Packed(objects, total) && OfTheirSizes(objects, sizes)
      && (forall kind | 0 <= kind < |freq| :: CountKind(objects, kind) == freq[kind])
  {
    hide Pow2, AlignedTo, Packed, CountKind, Sum, BytesOf, NumberOf, Wanted, DescsOf, Log2, BiggestFirst, Denied;
    objects, totalBits, failure, asked' := [], 0, NoFailure, asked + 1;
    DeniedOnce(answers, asked);
    DeniedOnce(answers, asked + 1);
    DeniedIn(answers, asked, asked + 1, asked + 2);
    total := CalculateTotalSize(freq, sizes);
    if total > 0 {
      totalBits := Log2(total) + 1;
      Log2Bounds(total);
    }
    if !answers(asked) {
      failure := Refused;
      return;
    }
    if total == 0 {
      return;
    }
    asked' := asked + 2;
    if !answers(asked + 1) {
      failure := Refused;
      return;
    }
    SumOfPermutation(sorted, DescsOf(sizes), BytesOf(freq));
    var i, offset := 0, 0;
    NothingYet(sorted, freq);
    while i < |sorted| && sorted[i].size != 0
      invariant i <= |sorted| && failure.NoFailure? && Packed(objects, offset)
      invariant asked <= asked' && !Denied(answers, asked, asked') && OfTheirSizes(objects, sizes)
      invariant offset == Sum(sorted[..i], BytesOf(freq))
      invariant i < |sorted| && sorted[i].size > 0 ==> AlignedTo(offset, sorted[i].size)
      invariant forall kind :: CountKind(objects, kind) == Sum(sorted[..i], NumberOf(freq, kind))
    {
      var d := sorted[i];
      KnownKind(freq, sizes, sorted, i);
      NothingWanted(d, freq);
      SumStep(sorted, i, freq, total);
      ghost var before, count := offset, asked';
      objects, offset, failure, asked' :=
        AllocObjectSlab(objects, offset, freq[d.kind], d.size, d.kind, Pow2(totalBits), answers, asked');
      DeniedIn(answers, asked, count, asked');
      if !failure.NoFailure? {
        return;
      }
      NextIsAligned(sorted, i, before, freq[d.kind], offset);
      i := i + 1;
    }
    RestIsEmpty(freq, sizes, sorted, i);
    forall kind | 0 <= kind < |freq|
      ensures CountKind(objects, kind) == freq[kind]
    {
      SumOfPermutation(sorted, DescsOf(sizes), NumberOf(freq, kind));
      NumbersBefore(freq, sizes, kind, |sizes|);
      AllDescs(sizes);
    }
  }

  lemma AllDescs(sizes: seq<int>)
    ensures |DescsOf(sizes)| == |sizes| && DescsOf(sizes)[..|sizes|] == DescsOf(sizes)
  {
  }

  lemma NothingYet(sorted: seq<Desc>, freq: seq<nat>)
    ensures forall f :: Sum(sorted[..0], f) == 0
    ensures Packed([], 0) && forall kind :: CountKind([], kind) == 0
    ensures forall bits :: AlignedTo(0, bits)
  {
  }

  lemma KnownKind(freq: seq<nat>, sizes: seq<int>, sorted: seq<Desc>, i: nat)
    requires Sized(freq, sizes) && multiset(sorted) == multiset(DescsOf(sizes)) && i < |sorted|
    ensures sorted[i].kind < |freq| && sorted[i].size == sizes[sorted[i].kind]
    ensures freq[sorted[i].kind] > 0 ==> sorted[i].size > 0
  {
    assert sorted[i] in multiset(sorted);
    assert sorted[i] in DescsOf(sizes);
  }

  lemma SumStep(sorted: seq<Desc>, i: nat, freq: seq<nat>, total: nat)
    requires i < |sorted| && total == Sum(sorted, BytesOf(freq))
    ensures Sum(sorted[..i], BytesOf(freq)) + BytesOf(freq)(sorted[i]) == Sum(sorted[..i + 1], BytesOf(freq)) <= total
    ensures forall kind ::
      Sum(sorted[..i + 1], NumberOf(freq, kind)) ==
      Sum(sorted[..i], NumberOf(freq, kind)) + NumberOf(freq, kind)(sorted[i])
  {
    assert sorted[..i + 1][..i] == sorted[..i];
    assert sorted == sorted[..i + 1] + sorted[i + 1..];
    SumJoin(sorted[..i + 1], sorted[i + 1..], BytesOf(freq));
  }

  lemma NextIsAligned(sorted: seq<Desc>, i: nat, before: nat, n: nat, offset: nat)
    requires i < |sorted| && BiggestFirst(sorted) && (sorted[i].size > 0 ==> AlignedTo(before, sorted[i].size))
    requires if n > 0 then sorted[i].size > 0 && AlignedTo(offset, sorted[i].size) else offset == before
    ensures i + 1 < |sorted| && sorted[i + 1].size > 0 ==> AlignedTo(offset, sorted[i + 1].size)
  {
    hide AlignedTo;
    if i + 1 < |sorted| && sorted[i + 1].size > 0 {
      AlignedToLess(offset, sorted[i].size, sorted[i + 1].size);
    }
  }

  // Behind the first descriptor without a size nothing is asked for.
  lemma RestIsEmpty(freq: seq<nat>, sizes: seq<int>, sorted: seq<Desc>, i: nat)
    requires Sized(freq, sizes) && multiset(sorted) == multiset(DescsOf(sizes)) && BiggestFirst(sorted)
    requires i <= |sorted| && (i < |sorted| ==> sorted[i].size == 0)
    ensures Sum(sorted[..i], BytesOf(freq)) == Sum(sorted, BytesOf(freq))
    ensures forall kind :: Sum(sorted[..i], NumberOf(freq, kind)) == Sum(sorted, NumberOf(freq, kind))
  {
    hide *;
    RestHasNoSize(sorted, i);
    NoSizeNoObjects(freq, 0);
    TailIsEmpty(sorted, i, BytesOf(freq));
    forall kind
      ensures Sum(sorted[..i], NumberOf(freq, kind)) == Sum(sorted, NumberOf(freq, kind))
    {
      NoSizeNoObjects(freq, kind);
      TailIsEmpty(sorted, i, NumberOf(freq, kind));
    }
  }

  lemma RestHasNoSize(sorted: seq<Desc>, i: nat)
    requires BiggestFirst(sorted) && i <= |sorted| && (i < |sorted| ==> sorted[i].size == 0)
    ensures forall j | i <= j < |sorted| :: sorted[j].size <= 0
  {
  }

  lemma NoSizeNoObjects(freq: seq<nat>, kind: nat)
    ensures forall d: Desc | d.size <= 0 :: BytesOf(freq)(d) == 0 && NumberOf(freq, kind)(d) == 0
  {
  }

  lemma TailIsEmpty(sorted: seq<Desc>, i: nat, f: Desc -> nat)
    requires i <= |sorted| && forall j | i <= j < |sorted| :: f(sorted[j]) == 0
    ensures Sum(sorted[..i], f) == Sum(sorted, f)
  {
    hide Sum;
    assert sorted == sorted[..i] + sorted[i..];
    SumJoin(sorted[..i], sorted[i..], f);
    ZeroSum(sorted[i..], f);
  }

  lemma {:induction false} ZeroSum(descs: seq<Desc>, f: Desc -> nat)
    requires forall i | 0 <= i < |descs| :: f(descs[i]) == 0
    ensures Sum(descs, f) == 0
    decreases |descs|
  {
    if descs != [] {
      ZeroSum(descs[..|descs| - 1], f);
    }
  }
}
