// The bump allocator for untypeds (libsel4allocman/src/utspace/twinkle.c).
module Twinkle {
  import opened Alignment
  import opened Arithmetic
  import opened BuddyForest
  import opened Options

  // _round_up
  function RoundUp(v: nat, bits: nat): nat {
    if v % Pow2(bits) != 0 then v - v % Pow2(bits) + Pow2(bits) else v
  }

  // Rounding up gives the smallest aligned offset that is not below the old one.
  lemma RoundUpIsLeast(v: nat, bits: nat, w: nat)
    ensures v <= RoundUp(v, bits) && AlignedTo(RoundUp(v, bits), bits)
    ensures v <= w && AlignedTo(w, bits) ==> RoundUp(v, bits) <= w
    ensures RoundUp(v, bits) < v + Pow2(bits)
  {
    RoundUpOf(v, Pow2(bits), w);
  }

  lemma RoundUpOf(v: nat, p: nat, w: nat)
    requires 0 < p
    ensures var r := if v % p != 0 then v - v % p + p else v;
      && v <= r < v + p && r % p == 0 && (v <= w && w % p == 0 ==> r <= w)
  {
    var k := v / p;
    assert v == p * k + v % p;
    assert p * (k + 1) == p * k + p;
    DivUnique(p * k, p, k, 0);
    DivUnique(p * (k + 1), p, k + 1, 0);
    if v <= w && w % p == 0 {
      var m := w / p;
      assert w == p * m;
      if m <= k {
        Ordered(p, m, k);
      } else {
        Ordered(p, k + 1, m);
      }
    }
  }

  lemma Ordered(p: nat, a: nat, b: nat)
    requires a <= b
    ensures p * a <= p * b
  {
  }

  // struct utspace_twinkle_ut: what was handed out of the untyped lies below offset.
  datatype Untyped = Untyped(offset: nat, bits: nat)

  // The request fits into the untyped.
  predicate Fits(u: Untyped, bits: nat) {
    RoundUp(u.offset, bits) + Pow2(bits) <= Pow2(u.bits)
  }

  // What is lost to alignment
  function Waste(u: Untyped, bits: nat): int {
    RoundUp(u.offset, bits) - u.offset
  }

  // The untypeds from first on that have the size of the first one
  predicate SameRun(uts: seq<Untyped>, first: nat, k: nat) {
    first <= k < |uts| && forall j | first <= j <= k :: uts[j].bits == uts[first].bits
  }

  // The request can be served from some untyped.
  predicate SomeFits(uts: seq<Untyped>, bits: nat) {
    exists k :: 0 <= k < |uts| && Fits(uts[k], bits)
  }

  // Untyped i is the one to use: first is the first one that fits, and in its run no other one wastes less than i.
  ghost predicate BestFit(uts: seq<Untyped>, first: nat, i: nat, bits: nat) {
    && SameRun(uts, first, i) && Fits(uts[i], bits)
    && (forall k | 0 <= k < first :: !Fits(uts[k], bits))
    && (forall k: nat | SameRun(uts, first, k) && Fits(uts[k], bits) :: Waste(uts[i], bits) <= Waste(uts[k], bits))
  }

  // Where an object of the size goes in an untyped
  predicate PlacedAt(u: Untyped, start: nat, bits: nat) {
    && start == RoundUp(u.offset, bits) && AlignedTo(start, bits)
    && u.offset <= start && start + Pow2(bits) <= Pow2(u.bits)
  }

  // utspace_twinkle_t
  class Allocator {
    var uts: seq<Untyped>

    constructor ()
      ensures uts == []
    {
      uts := [];
    }

    // _utspace_twinkle_add_uts: kernel untypeds only
    method AddUntypeds(bits: seq<nat>, kernel: bool, memory: bool) returns (error: bool)
      modifies this
      ensures error <==> !kernel || !memory
      ensures error ==> uts == old(uts)
      ensures !error ==>
        && |uts| == |old(uts)| + |bits| && uts[..|old(uts)|] == old(uts)
        && forall i | 0 <= i < |bits| :: uts[|old(uts)| + i] == Untyped(0, bits[i])
    {
      if !kernel || !memory {
        return true;
      }
      uts := uts + seq(|bits|, i requires 0 <= i < |bits| => Untyped(0, bits[i]));
      error := false;
    }

    // _utspace_twinkle_alloc: the request gets [start, start + 2^bits) of untyped i. error is what *error is set to;
    // it is left as it was when an address is asked for.
    method Alloc(bits: nat, sizeMatches: bool, anywhere: bool, retype: bool)
      returns (error: Option<int>, i: nat, start: nat, ghost first: nat)
      modifies this
      ensures if !anywhere then error == None else error == Some(0) || error == Some(1)
      ensures error == Some(0) <==> anywhere && sizeMatches && bits != 0 && retype && SomeFits(old(uts), bits)
      ensures error != Some(0) ==> uts == old(uts)
      ensures error == Some(0) ==>
        && BestFit(old(uts), first, i, bits) && i < |old(uts)| && PlacedAt(old(uts)[i], start, bits)
        && uts == old(uts)[i := Untyped(start + Pow2(bits), old(uts)[i].bits)]
    {
      hide Pow2, RoundUp, AlignedTo;
      error, i, start, first := None, 0, 0, 0;
      if !anywhere {
        return;
      }
      error := Some(1);
      if !sizeMatches || bits == 0 {
        return;
      }
      while i < |uts| && !Fits(uts[i], bits)
        invariant i <= |uts|
        invariant forall k | 0 <= k < i :: !Fits(uts[k], bits)
      {
        i := i + 1;
      }
      if i == |uts| {
        return;
      }
      first := i;
      var j := i;
      while j < |uts| && uts[i].bits == uts[j].bits
        invariant first <= i < |uts| && first <= j <= |uts| && Fits(uts[i], bits)
        invariant forall k | first <= k < j || k == i :: uts[k].bits == uts[first].bits
        invariant forall k | first <= k < j && Fits(uts[k], bits) :: Waste(uts[i], bits) <= Waste(uts[k], bits)
        invariant i < j || i == first
      {
        if Fits(uts[j], bits) && Waste(uts[j], bits) < Waste(uts[i], bits) {
          i := j;
        }
        j := j + 1;
      }
      if !retype {
        return;
      }
      RoundUpIsLeast(uts[i].offset, bits, 0);
      start := RoundUp(uts[i].offset, bits);
      uts := uts[i := Untyped(start + Pow2(bits), uts[i].bits)];
      error := Some(0);
    }
  }
}
