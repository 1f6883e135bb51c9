/** Powers of two and the rounding `(value + a - 1) & ~(a - 1)` the source uses for alignment. */
module Align {
  predicate IsPowerOfTwo(n: int) {
    n == 1 || (n > 1 && n % 2 == 0 && IsPowerOfTwo(n / 2))
  }

  /** `d` divides `n` and is odd and above 1. */
  ghost predicate OddDivisor(n: int, d: int) { d > 1 && d % 2 == 1 && IsMultiple(n, d) }

  /** The accepted numbers are the positive ones without an odd divisor but 1: those with a single bit set. */
  lemma {:induction false} PowersHaveNoOddDivisor(n: int)
    ensures IsPowerOfTwo(n) <==> n > 0 && forall d :: !OddDivisor(n, d)
    decreases n
  {
    if n == 1 {
      forall d | d > 1
        ensures !IsMultiple(1, d)
      {
        SmallMultiple(1, d);
      }
    } else if n > 1 && n % 2 == 1 {
      assert n == 1 * n;
      assert OddDivisor(n, n);
    } else if n > 1 {
      PowersHaveNoOddDivisor(n / 2);
      forall d
        ensures OddDivisor(n, d) <==> OddDivisor(n / 2, d)
      {
        HalfKeepsOddDivisors(n, d);
      }
    }
  }

  lemma SmallMultiple(n: int, d: int)
    requires 0 < n < d
    ensures !IsMultiple(n, d)
  {
    forall q
      ensures n != q * d
    {
      assert q >= 1 ==> (q - 1) * d >= 0;
      assert q <= 0 ==> (-q) * d >= 0;
    }
  }

  lemma HalfKeepsOddDivisors(n: int, d: int)
    requires n > 1 && n % 2 == 0
    ensures OddDivisor(n, d) <==> OddDivisor(n / 2, d)
  {
    if OddDivisor(n, d) {
      var q :| n == q * d;
      EvenFactor(q, d);
      assert n / 2 == q / 2 * d;
    }
    if OddDivisor(n / 2, d) {
      var q :| n / 2 == q * d;
      assert n == (2 * q) * d;
    }
  }

  lemma EvenFactor(q: int, d: int)
    requires d % 2 == 1 && (q * d) % 2 == 0
    ensures q % 2 == 0 && q * d == 2 * (q / 2 * d)
  {
    var k := d / 2;
    assert d == 2 * k + 1;
    assert q * d == 2 * (q * k) + q;
    assert q == 2 * (q / 2);
    assert (2 * (q / 2)) * d == 2 * (q / 2 * d);
  }

  ghost predicate IsMultiple(x: int, a: int) { exists q :: x == q * a }

  ghost predicate LeastMultiple(value: int, a: int, r: int) {
    value <= r < value + a && IsMultiple(r, a)
  }

  method RoundUp(value: int, a: int) returns (r: int)
    requires a > 0
    ensures LeastMultiple(value, a, r)
  {
    var x := value + a - 1;
    assert x == x / a * a + x % a;
    r := x / a * a;
  }

  lemma {:induction false} PowersDivide(n: int, m: int)
    requires IsPowerOfTwo(n) && IsPowerOfTwo(m) && n >= m
    ensures IsMultiple(n, m)
  {
    if m == 1 {
      assert n == n * 1;
    } else {
      PowersDivide(n / 2, m / 2);
      var q :| n / 2 == q * (m / 2);
      assert m == 2 * (m / 2) && n == 2 * (n / 2);
      assert n == q * m by { assert q * (2 * (m / 2)) == 2 * (q * (m / 2)); }
    }
  }

  lemma MultipleOfMultiple(x: int, a: int, b: int)
    requires IsMultiple(x, a) && IsMultiple(a, b)
    ensures IsMultiple(x, b)
  {
    var q :| x == q * a;
    var k :| a == k * b;
    assert x == (q * k) * b;
  }
}
