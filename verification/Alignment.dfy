// Cutting a range of addresses into size-aligned pieces (get_next_alignment_bits, libsel4allocman/src/bootstrap.c).
module Alignment {
  import opened Arithmetic
  import opened BuddyForest

  predicate AlignedTo(a: nat, bits: nat) {
    a % Pow2(bits) == 0
  }

  // The number of trailing zero bits.
  function Ctz(n: nat): nat
    requires 0 < n
  {
    if n % 2 == 1 then 0 else 1 + Ctz(n / 2)
  }

  // The position of the highest bit.
  function Log2(n: nat): nat
    requires 0 < n
  {
    if n == 1 then 0 else 1 + Log2(n / 2)
  }

  lemma {:induction false} Log2Bounds(n: nat)
    requires 0 < n
    ensures Pow2(Log2(n)) <= n < Pow2(Log2(n) + 1)
  {
    if n != 1 {
      Log2Bounds(n / 2);
    }
  }

  lemma Doubled(n: nat, p: nat)
    requires 0 < p
    ensures n % (2 * p) == 0 <==> n % 2 == 0 && (n / 2) % p == 0
  {
    if n % (2 * p) == 0 {
      var k := n / (2 * p);
      assert n == (2 * p) * k;
      assert n == 2 * (p * k);
      DivUnique(n, 2, p * k, 0);
      DivUnique(p * k, p, k, 0);
    }
    if n % 2 == 0 && (n / 2) % p == 0 {
      var k := (n / 2) / p;
      assert n == 2 * (p * k);
      assert n == (2 * p) * k;
      DivUnique(n, 2 * p, k, 0);
    }
  }

  // A number is a multiple of exactly the powers of two up to its trailing zeros.
  lemma {:induction false} CtzDecides(n: nat, b: nat)
    requires 0 < n
    ensures AlignedTo(n, b) <==> b <= Ctz(n)
    decreases n
  {
    if b > 0 {
      Doubled(n, Pow2(b - 1));
      if n % 2 == 0 {
        CtzDecides(n / 2, b - 1);
      }
    }
  }

  lemma {:induction false} AlignedToLess(a: nat, b: nat, c: nat)
    requires AlignedTo(a, b) && c <= b
    ensures AlignedTo(a, c)
    decreases b
  {
    if c < b {
      var k := a / Pow2(b);
      assert a == (2 * Pow2(b - 1)) * k;
      assert a == Pow2(b - 1) * (2 * k);
      DivUnique(a, Pow2(b - 1), 2 * k, 0);
      AlignedToLess(a, b - 1, c);
    }
  }

  lemma AlignedSum(a: nat, d: nat, b: nat)
    requires AlignedTo(a, b)
    ensures AlignedTo(a + d, b) <==> AlignedTo(d, b)
  {
    var p := Pow2(b);
    var k := a / p;
    assert a == p * k;
    var m, r := d / p, d % p;
    assert a + d == p * (k + m) + r;
    DivUnique(a + d, p, k + m, r);
  }

  lemma Pow2IsAligned(b: nat)
    ensures AlignedTo(Pow2(b), b)
  {
  }

  // A nonzero aligned number is at least the alignment.
  lemma AlignedIsBig(d: nat, b: nat)
    requires 0 < d && AlignedTo(d, b)
    ensures Pow2(b) <= d
  {
    hide Pow2;
    if d < Pow2(b) {
      DivUnique(d, Pow2(b), 0, d);
    }
  }

  function Min(a: nat, b: nat): nat {
    if a < b then a else b
  }

  // How many bits of alignment the piece at base may use.
  function AlignmentOf(base: nat, max: nat): nat {
    if base == 0 then max else Min(Ctz(base), max)
  }

  // get_next_alignment_bits
  function NextAlignmentBits(base: nat, goal: nat, max: nat): nat
    requires base < goal
  {
    Log2(Min(goal - base, Pow2(AlignmentOf(base, max))))
  }

  lemma AlignmentDecides(base: nat, max: nat, b: nat)
    ensures b <= AlignmentOf(base, max) <==> b <= max && AlignedTo(base, b)
  {
    if base != 0 {
      CtzDecides(base, b);
    }
  }

  lemma {:induction false} Log2OfPow2(b: nat)
    ensures Log2(Pow2(b)) == b
  {
    if b > 0 {
      Log2OfPow2(b - 1);
      assert Pow2(b) / 2 == Pow2(b - 1);
    }
  }

  // The next piece is aligned, does not pass the goal, and is the biggest one of this kind.
  lemma NextPieceIsBiggest(base: nat, goal: nat, max: nat, b: nat)
    requires base < goal
    ensures b <= NextAlignmentBits(base, goal, max) <==> b <= max && AlignedTo(base, b) && base + Pow2(b) <= goal
  {
    hide Pow2, AlignedTo, Ctz, Log2;
    var a := AlignmentOf(base, max);
    var size := Min(goal - base, Pow2(a));
    var next := NextAlignmentBits(base, goal, max);
    Log2Bounds(size);
    AlignmentDecides(base, max, b);
    Pow2Order(b, a);
    Pow2Order(b, next);
    Pow2Order(next + 1, b);
  }

  lemma NextPiece(base: nat, goal: nat, max: nat)
    requires base < goal
    ensures var b := NextAlignmentBits(base, goal, max);
      b <= max && AlignedTo(base, b) && base < base + Pow2(b) <= goal
  {
    NextPieceIsBiggest(base, goal, max, NextAlignmentBits(base, goal, max));
  }

  // --- the pieces that lead from base to goal

  function Pieces(base: nat, goal: nat, max: nat): (sizes: seq<nat>)
    requires base <= goal
    decreases goal - base
  {
    if base == goal then []
    else
      NextPiece(base, goal, max);
      var b := NextAlignmentBits(base, goal, max);
      [b] + Pieces(base + Pow2(b), goal, max)
  }

  function Total(sizes: seq<nat>): nat {
    if sizes == [] then 0 else Pow2(sizes[0]) + Total(sizes[1..])
  }

  lemma {:induction false} PiecesReachGoal(base: nat, goal: nat, max: nat)
    requires base <= goal
    ensures base + Total(Pieces(base, goal, max)) == goal
    decreases goal - base
  {
    if base < goal {
      NextPiece(base, goal, max);
      PiecesReachGoal(base + Pow2(NextAlignmentBits(base, goal, max)), goal, max);
    }
  }

  predicate Increasing(s: seq<nat>) {
    forall i, j | 0 <= i < j < |s| :: s[i] < s[j]
  }

  predicate Decreasing(s: seq<nat>) {
    forall i, j | 0 <= i < j < |s| :: s[i] > s[j]
  }

  // Once the goal is nearer than the alignment, each piece is smaller than the one before.
  lemma {:induction false} PiecesDecrease(base: nat, goal: nat, max: nat, b: nat)
    requires base <= goal && AlignedTo(base, b) && goal - base < Pow2(b) && b <= max
    ensures Decreasing(Pieces(base, goal, max))
    ensures forall i | 0 <= i < |Pieces(base, goal, max)| :: Pieces(base, goal, max)[i] < b
    decreases goal - base
  {
    hide Pow2, AlignedTo, NextAlignmentBits;
    if base < goal {
      var next := NextAlignmentBits(base, goal, max);
      NextPiece(base, goal, max);
      Pow2Order(b, next);
      NextPieceIsBiggest(base, goal, max, next + 1);
      AlignedToLess(base, b, next + 1);
      Pow2Even(next + 1);
      AlignedToLess(base, b, next);
      Pow2IsAligned(next);
      AlignedSum(base, Pow2(next), next);
      PiecesDecrease(base + Pow2(next), goal, max, next);
    }
  }

  // The sizes of the pieces grow and then shrink; top is where they start to shrink.
  lemma {:induction false} PiecesRiseAndFall(base: nat, goal: nat, max: nat) returns (top: nat)
    requires base <= goal <= base + Pow2(max)
    ensures top <= |Pieces(base, goal, max)|
    ensures Increasing(Pieces(base, goal, max)[..top]) && Decreasing(Pieces(base, goal, max)[top..])
    decreases goal - base
  {
    if base == goal {
      return 0;
    }
    top := RiseAndFall(base, goal, max);
  }

  lemma {:induction false} RiseAndFall(base: nat, goal: nat, max: nat) returns (top: nat)
    requires base < goal <= base + Pow2(max)
    ensures top <= |Pieces(base, goal, max)|
    ensures Increasing(Pieces(base, goal, max)[..top]) && Decreasing(Pieces(base, goal, max)[top..])
    ensures forall i | 0 <= i < top :: AlignmentOf(base, max) <= Pieces(base, goal, max)[i]
    decreases goal - base
  {
    hide Pow2, AlignedTo, AlignmentOf, NextAlignmentBits, Increasing, Decreasing;
    var a := AlignmentOf(base, max);
    AlignmentDecides(base, max, a);
    Pow2Order(a, max);
    if goal - base < Pow2(a) {
      PiecesDecrease(base, goal, max, a);
      NothingRises(Pieces(base, goal, max));
      return 0;
    }
    NextPieceIsBiggest(base, goal, max, a);
    NextPiece(base, goal, max);
    var next := NextAlignmentBits(base, goal, max);
    AlignmentDecides(base, max, next);
    assert next == a;
    var base' := base + Pow2(a);
    if base' == goal {
      top := 1;
      OnlyOne(a);
      assert Pieces(base, goal, max) == [a];
    } else {
      PastPiece(base, max);
      var rest := RiseAndFall(base', goal, max);
      top := rest + 1;
      Prepended(a, Pieces(base', goal, max), rest);
      assert Pieces(base, goal, max) == [a] + Pieces(base', goal, max);
    }
  }

  lemma NothingRises(sizes: seq<nat>)
    ensures Increasing(sizes[..0]) && sizes[0..] == sizes
  {
  }

  lemma OnlyOne(a: nat)
    ensures Increasing([a][..1]) && Decreasing([a][1..])
  {
  }

  lemma Prepended(a: nat, sizes: seq<nat>, top: nat)
    requires top <= |sizes| && Increasing(sizes[..top]) && Decreasing(sizes[top..])
    requires forall i | 0 <= i < top :: a < sizes[i]
    ensures Increasing(([a] + sizes)[..top + 1]) && Decreasing(([a] + sizes)[top + 1..])
    ensures forall i | 0 <= i < top + 1 :: a <= ([a] + sizes)[i]
  {
    assert ([a] + sizes)[..top + 1] == [a] + sizes[..top];
    assert ([a] + sizes)[top + 1..] == sizes[top..];
  }

  // What follows a piece of the full alignment is better aligned.
  lemma PastPiece(base: nat, max: nat)
    ensures var a := AlignmentOf(base, max); a < max ==> a < AlignmentOf(base + Pow2(a), max)
  {
    hide Pow2, AlignedTo, AlignmentOf;
    var a := AlignmentOf(base, max);
    if a < max {
      AlignmentDecides(base, max, a);
      AlignmentDecides(base, max, a + 1);
      AlignmentDecides(base + Pow2(a), max, a + 1);
      OddMultiple(base, a);
    }
  }

  lemma OddMultiple(n: nat, b: nat)
    requires AlignedTo(n, b) && !AlignedTo(n, b + 1)
    ensures AlignedTo(n + Pow2(b), b + 1)
  {
    Pow2Even(b + 1);
    OddPlusOne(n, Pow2(b));
  }

  lemma OddPlusOne(n: nat, p: nat)
    requires 0 < p && n % p == 0 && n % (2 * p) != 0
    ensures (n + p) % (2 * p) == 0
  {
    var k := n / p;
    var m := k / 2;
    MultipleOf(n, p);
    Regroup(2, p, m);
    assert p * (2 * m + 1) == p * (2 * m) + p;
    assert p * (2 * m + 2) == p * (2 * m) + p + p;
    Regroup(2, p, m + 1);
    if k % 2 == 0 {
      DivUnique(n, 2 * p, m, 0);
    } else {
      DivUnique(n + p, 2 * p, m + 1, 0);
    }
  }

  // No size is used more than twice.
  lemma NoSizeThrice(base: nat, goal: nat, max: nat, i: nat, j: nat, k: nat)
    requires base <= goal <= base + Pow2(max) && i < j < k < |Pieces(base, goal, max)|
    ensures !(Pieces(base, goal, max)[i] == Pieces(base, goal, max)[j] == Pieces(base, goal, max)[k])
  {
    hide Pieces, Pow2;
    var sizes := Pieces(base, goal, max);
    var top := PiecesRiseAndFall(base, goal, max);
    if j < top {
      assert sizes[..top][i] == sizes[i] && sizes[..top][j] == sizes[j];
    } else {
      assert sizes[top..][j - top] == sizes[j] && sizes[top..][k - top] == sizes[k];
    }
  }
}
