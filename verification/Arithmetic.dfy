// Facts about products, quotients and remainders that the solver does not find by itself.
module Arithmetic {
  lemma MulAtLeast(s: int, x: int)
    requires 0 < s && 1 <= x
    ensures s <= s * x
  {
  }

  lemma MulMonotone(s: int, x: int, y: int)
    requires 0 < s && x <= y
    ensures s * x <= s * y
  {
  }

  // Quotient and remainder are unique.
  lemma DivUnique(n: int, s: int, q: int, r: int)
    requires 0 < s && 0 <= r < s && n == s * q + r
    ensures n / s == q && n % s == r
  {
    var q', r' := n / s, n % s;
    assert n == s * q' + r';
    if q < q' {
      assert s * (q' - q) == s * q' - s * q;
      MulAtLeast(s, q' - q);
    } else if q' < q {
      assert s * (q - q') == s * q - s * q';
      MulAtLeast(s, q - q');
    }
  }

  lemma DivRange(p: int, q: int, s: int)
    requires 0 < s
    ensures p / s == q / s <==> p - p % s <= q < p - p % s + s
  {
    var k := p / s;
    assert p - p % s == s * k;
    if s * k <= q < s * k + s {
      DivUnique(q, s, k, q - s * k);
    }
  }

  lemma DivLess(r: int, f: int, s: int)
    requires 0 < s && 0 <= r < s * f
    ensures 0 <= r / s < f
  {
    var k := r / s;
    if f <= k {
      MulMonotone(s, f, k);
      assert false;
    }
  }

  lemma MultipleOf(n: int, t: int)
    requires 0 < t && n % t == 0
    ensures n == t * (n / t)
  {
  }

  lemma MulCommute(f: int, s: int)
    ensures f * s == s * f
  {
  }

  lemma Regroup(f: int, s: int, k: int)
    ensures f * s * k == s * (f * k)
  {
    assert f * s * k == s * f * k;
  }

  lemma RemainderOf(n: int, s: int)
    requires 0 < s
    ensures n - n % s == s * (n / s)
  {
  }

  ghost predicate MultipleOfSize(n: nat, size: nat)
    requires 0 < size
  {
    n % size == 0
  }

  lemma MultipleAt(q: nat, size: nat)
    requires 0 < size
    ensures MultipleOfSize(size * q, size)
  {
    DivUnique(size * q, size, q, 0);
  }

  lemma NextMultiple(n: nat, size: nat)
    requires 0 < size && MultipleOfSize(n, size)
    ensures MultipleOfSize(n + size, size)
  {
    var q := n / size;
    assert n + size == size * (q + 1);
    DivUnique(size * (q + 1), size, q + 1, 0);
  }

  lemma MultipleBelow(c: nat, n: nat, size: nat)
    requires 0 < size && MultipleOfSize(c, size) && MultipleOfSize(n, size) && c < n + size
    ensures c <= n
  {
    var q, k := c / size, n / size;
    MultipleOf(c, size);
    MultipleOf(n, size);
    assert size * (k + 1) == size * k + size;
    if k < q {
      MulMonotone(size, k + 1, q);
      assert false;
    }
    MulMonotone(size, q, k);
  }
}
