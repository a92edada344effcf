/** Facts about rounding to multiples, shared by the timing wheel and the ring structures. */
module Arithmetic {

  /** Rounds x down to a multiple of m. Times and ticks are never negative here, so Go's `%`
      and Dafny's agree. */
  function Truncate(x: int, m: int): (r: int)
    requires m > 0
    ensures r <= x < r + m
    ensures r % m == 0
  {
    TruncateIsMultiple(x, m);
    x - x % m
  }

  lemma MulMonotone(a: int, b: int, m: int)
    requires a <= b && m >= 0
    ensures a * m <= b * m
  {
    assert (b - a) * m >= 0;
  }

  lemma SmallMultipleIsZero(k: int, m: int)
    requires m > 0 && -m < k * m < m
    ensures k == 0
  {
    if k >= 1 {
      MulMonotone(1, k, m);
      assert false;
    } else if k <= -1 {
      MulMonotone(k, -1, m);
      assert false;
    }
  }

  lemma DivModUnique(x: int, m: int, q: int, r: int)
    requires 0 <= r < m
    requires x == q * m + r
    ensures x / m == q && x % m == r
  {
    var q', r' := x / m, x % m;
    assert x == q' * m + r';
    assert (q' - q) * m == q' * m - q * m;
    SmallMultipleIsZero(q' - q, m);
  }

  lemma TruncateIsMultiple(x: int, m: int)
    requires m > 0
    ensures (x - x % m) % m == 0
  {
    assert x - x % m == (x / m) * m + 0;
    DivModUnique(x - x % m, m, x / m, 0);
  }

  lemma MultipleForm(x: int, m: int)
    requires m > 0 && x % m == 0
    ensures x == (x / m) * m
  {
  }

  lemma ProductIsMultiple(q: int, m: int)
    requires m > 0
    ensures (q * m) % m == 0 && (q * m) / m == q
  {
    DivModUnique(q * m, m, q, 0);
  }

  /** Distinct multiples of m are at least m apart. */
  lemma MultiplesApart(x: int, y: int, m: int)
    requires m > 0 && x % m == 0 && y % m == 0 && x < y
    ensures x + m <= y
  {
    MultipleForm(x, m);
    MultipleForm(y, m);
    var a, b := x / m, y / m;
    if b <= a {
      MulMonotone(b, a, m);
      assert false;
    }
    MulMonotone(a + 1, b, m);
  }

  lemma MultipleOfProduct(x: int, a: int, b: int)
    requires a > 0 && b > 0
    requires a * b > 0
    requires x % (a * b) == 0
    ensures x % a == 0
  {
    MultipleForm(x, a * b);
    var q := x / (a * b);
    assert x == (q * b) * a + 0 by {
      assert q * (a * b) == (q * b) * a;
    }
    DivModUnique(x, a, q * b, 0);
  }

  /** Truncating to a, then to a multiple of a, is truncating to that multiple at once. */
  lemma TruncateTwice(x: int, a: int, b: int)
    requires a > 0 && b > 0 && a * b > 0
    ensures Truncate(Truncate(x, a), a * b) == Truncate(x, a * b)
  {
    var m := a * b;
    var big := Truncate(x, m);
    MultipleOfProduct(big, a, b);
    var small := Truncate(x, a);
    if small < big {
      MultiplesApart(small, big, a);
    }
    TruncateUnique(small, m, big);
  }

  lemma TruncateUnique(x: int, m: int, r: int)
    requires m > 0
    requires r % m == 0 && r <= x < r + m
    ensures Truncate(x, m) == r
  {
    var t := Truncate(x, m);
    if t < r {
      MultiplesApart(t, r, m);
    } else if r < t {
      MultiplesApart(r, t, m);
    }
  }

  /** Inside one window of n consecutive multiples of m, the slot (x / m) % n names x. */
  lemma SlotNamesMultiple(x: int, y: int, base: int, m: int, n: int)
    requires m > 0 && n > 0
    requires x % m == 0 && y % m == 0 && base % m == 0
    requires base <= x <= base + m * n - m
    requires base <= y <= base + m * n - m
    requires (x / m) % n == (y / m) % n
    ensures x == y
  {
    MultipleForm(x, m);
    MultipleForm(y, m);
    MultipleForm(base, m);
    var a, b, c := x / m, y / m, base / m;
    QuotientWindow(a, c, m, n);
    QuotientWindow(b, c, m, n);
    CongruentInWindow(a, b, c, n);
  }

  lemma QuotientWindow(a: int, c: int, m: int, n: int)
    requires m > 0 && n > 0
    requires c * m <= a * m <= c * m + m * n - m
    ensures c <= a < c + n
  {
    if a < c {
      MulMonotone(a + 1, c, m);
      assert false;
    }
    if a >= c + n {
      MulMonotone(c + n, a, m);
      assert false;
    }
  }

  lemma CongruentInWindow(a: int, b: int, c: int, n: int)
    requires n > 0
    requires c <= a < c + n && c <= b < c + n
    requires a % n == b % n
    ensures a == b
  {
    var qa, qb := a / n, b / n;
    assert (qa - qb) * n == qa * n - qb * n;
    assert a == qa * n + a % n && b == qb * n + b % n;
    SmallMultipleIsZero(qa - qb, n);
  }

  /** An index into a ring of `size` slots, for one that has gone round at most once. */
  function Wrap(i: nat, size: nat): nat {
    if i < size then i else i - size
  }

  /** It is Go's remainder. */
  lemma WrapIsMod(i: nat, size: nat)
    requires size > 0 && i < 2 * size
    ensures i % size == Wrap(i, size)
  {
    if i >= size {
      assert i == 1 * size + (i - size);
    }
  }
}
