/**
 * Prime numbers as the hash table uses them: the primality test and the
 * search for the next prime that chooses the bucket count of a rehash.
 */
module Primes {

  /** `d` is a positive divisor of `n`. */
  predicate Divides(d: int, n: int) {
    d > 0 && n % d == 0
  }

  /** `n` is prime: at least 2 and without a divisor strictly between 1 and n. */
  ghost predicate Prime(n: int) {
    n >= 2 && forall d :: 2 <= d < n ==> !Divides(d, n)
  }

  /** `p` is the smallest prime at or above `n`. */
  ghost predicate IsNextPrime(n: int, p: int) {
    p >= n && Prime(p) && forall q :: n <= q < p ==> !Prime(q)
  }

  /** Division with a quotient and a remainder in range is Dafny's division. */
  lemma DivModUnique(n: int, d: int, q: int, r: int)
    requires d > 0 && 0 <= r < d && n == d * q + r
    ensures n / d == q && n % d == r
  {
    var q', r' := n / d, n % d;
    assert n == d * q' + r';
    var x := q - q';
    assert d * x == r' - r;
    if x >= 1 {
      AtLeastOneFactor(d, x);
    } else if x <= -1 {
      AtLeastOneFactor(d, -x);
    }
  }

  lemma AtLeastOneFactor(d: int, x: int)
    requires d > 0 && x >= 1
    ensures d * x >= d
  {
    assert d * x == d * (x - 1) + d;
  }

  /** Multiplying by a positive number preserves order, both ways. */
  lemma MulMonotone(a: int, b: int, c: int)
    requires a > 0
    ensures b <= c <==> a * b <= a * c
  {
    if b < c {
      AtLeastOneFactor(a, c - b);
      assert a * c - a * b == a * (c - b);
    } else if b > c {
      AtLeastOneFactor(a, b - c);
      assert a * b - a * c == a * (b - c);
    }
  }

  lemma DividesMultiple(d: int, k: int)
    requires d > 0
    ensures Divides(d, d * k)
  {
    DivModUnique(d * k, d, k, 0);
  }

  /** A divisor of `b` divides every multiple of `b`. */
  lemma DividesProduct(d: int, a: int, b: int)
    requires Divides(d, b)
    ensures Divides(d, a * b)
  {
    var q := b / d;
    assert b == d * q;
    assert a * b == d * (a * q);
    DividesMultiple(d, a * q);
  }

  /** Divisibility is transitive. */
  lemma DividesTransitive(e: int, d: int, n: int)
    requires Divides(e, d) && Divides(d, n)
    ensures Divides(e, n)
  {
    var q := n / d;
    assert n == d * q;
    DividesProduct(e, q, d);
    assert q * d == n;
  }

  /** An odd number has no even divisor. */
  lemma OddHasNoEvenDivisor(n: int, d: int)
    requires n % 2 == 1 && d > 0 && d % 2 == 0
    ensures !Divides(d, n)
  {
    if Divides(d, n) {
      assert Divides(2, d) by { DivModUnique(d, 2, d / 2, 0); }
      DividesTransitive(2, d, n);
      assert false;
    }
  }

  /**
   * A number of at least 2 with no divisor below `i` (other than itself),
   * where `i * i` exceeds it, is prime: a divisor at or above `i` would
   * pair with a cofactor below `i`.
   */
  lemma {:induction false} NoDivisorBelowRoot(n: int, i: int)
    requires n >= 2 && i >= 2 && i * i > n
    requires forall d :: 2 <= d < i && d < n ==> !Divides(d, n)
    ensures Prime(n)
  {
    forall d | 2 <= d < n
      ensures !Divides(d, n)
    {
      if Divides(d, n) && d >= i {
        var e := n / d;
        assert n == d * e;
        MulMonotone(d, e, 1);
        MulMonotone(d, i, e);
        MulMonotone(i, i, d);
        assert d * i == i * d;
        assert 2 <= e < i;
        assert e * d == n;
        DividesMultiple(e, d);
        assert false;
      }
    }
  }

  /**
   * The primality test: false at or below 1 and for even numbers above 2,
   * otherwise trial division by the odd numbers `i` with `i * i <= value`.
   */
  method IsPrime(value: int) returns (b: bool)
    ensures b <==> Prime(value)
  {
    if value <= 1 || (value > 2 && value % 2 == 0) {
      if value > 2 {
        assert Divides(2, value);
      }
      return false;
    }
    var i := 3;
    while i * i <= value
      invariant i >= 3 && i % 2 == 1
      invariant forall d :: 2 <= d < i && d < value ==> !Divides(d, value)
    {
      if value % i == 0 {
        assert i < value by { assert i * i >= 3 * i; }
        assert Divides(i, value);
        return false;
      }
      OddHasNoEvenDivisor(value, i + 1);
      i := i + 2;
    }
    NoDivisorBelowRoot(value, i);
    return true;
  }

  function Factorial(n: nat): (f: nat)
    ensures f >= 1
  {
    if n == 0 then 1 else n * Factorial(n - 1)
  }

  lemma {:induction false} FactorialDivisible(n: nat, d: int)
    requires 1 <= d <= n
    ensures Divides(d, Factorial(n))
  {
    if d == n {
      DividesMultiple(d, Factorial(n - 1));
    } else {
      FactorialDivisible(n - 1, d);
      DividesProduct(d, n, Factorial(n - 1));
    }
  }

  /** The least divisor of `n` at or above `k`, when none lies in [2, k). */
  function LeastDivisorFrom(n: int, k: int): (d: int)
    requires 2 <= k <= n
    requires forall e :: 2 <= e < k ==> !Divides(e, n)
    ensures k <= d <= n && Divides(d, n)
    ensures forall e :: 2 <= e < d ==> !Divides(e, n)
    decreases n - k
  {
    if n % k == 0 then k else LeastDivisorFrom(n, k + 1)
  }

  /** The least divisor above 1 of a number of at least 2 is prime. */
  lemma LeastDivisorIsPrime(n: int)
    requires n >= 2
    ensures Prime(LeastDivisorFrom(n, 2))
  {
    var p := LeastDivisorFrom(n, 2);
    forall e | 2 <= e < p
      ensures !Divides(e, p)
    {
      if Divides(e, p) {
        DividesTransitive(e, p, n);
      }
    }
  }

  /** There is a prime at or above every integer (Euclid). */
  lemma PrimeAtLeast(n: int) returns (p: int)
    ensures p >= n && Prime(p)
  {
    var m: nat := if n < 2 then 2 else n;
    var big := Factorial(m) + 1;
    p := LeastDivisorFrom(big, 2);
    LeastDivisorIsPrime(big);
    if p <= m {
      FactorialDivisible(m, p);
      var q := Factorial(m) / p;
      assert Factorial(m) == p * q;
      DivModUnique(big, p, q, 1);
      assert false;
    }
  }

  /** The smallest prime at or above `value`, found by counting upwards. */
  method GetNextPrime(value: int) returns (p: int)
    ensures IsNextPrime(value, p)
  {
    ghost var bound := PrimeAtLeast(value);
    p := value;
    var found := IsPrime(p);
    while !found
      invariant value <= p <= bound
      invariant found <==> Prime(p)
      invariant forall q :: value <= q < p ==> !Prime(q)
      decreases bound - p
    {
      p := p + 1;
      found := IsPrime(p);
    }
  }
}
