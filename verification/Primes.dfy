/** Prime tables: a sieve, two trial divisions and a hybrid, over unbounded integers. */
module Primes {
  ghost predicate IsPrimeNumber(n: int) {
    n >= 2 && forall d | 2 <= d < n :: n % d != 0
  }

  /** The prime numbers below ten. */
  lemma FirstPrimes(n: int)
    requires n < 10
    ensures IsPrimeNumber(n) <==> n == 2 || n == 3 || n == 5 || n == 7
  {
    assert 4 % 2 == 0 && 6 % 2 == 0 && 8 % 2 == 0 && 9 % 3 == 0;
  }

  /** No number from 2 up to, and not including, limit properly divides n. */
  ghost predicate Undivided(n: int, limit: int) {
    forall d | 2 <= d < limit && d < n :: n % d != 0
  }

  lemma NonNegative(a: int, b: int)
    requires a >= 0 && b >= 0
    ensures a * b >= 0
  {
  }

  lemma Spread(d: int, a: int, b: int)
    requires d > 0
    ensures a < b ==> d * a + d <= d * b
  {
    if a < b {
      NonNegative(d, b - a - 1);
      assert d * (b - a - 1) == d * b - d * a - d;
    }
  }

  lemma QuotientIs(n: int, d: int, q: int, r: int)
    requires 0 <= r < d && n == d * q + r
    ensures n / d == q && n % d == r
  {
    Spread(d, q, n / d);
    Spread(d, n / d, q);
  }

  lemma MultipleHasNoRemainder(d: int, q: int)
    requires d > 0
    ensures (d * q) % d == 0
  {
    QuotientIs(d * q, d, q, 0);
  }

  lemma DivisorAndQuotient(n: int, d: int)
    requires n >= 2 && 2 <= d < n && n % d == 0
    ensures 2 <= n / d < n && n % (n / d) == 0 && n == d * (n / d)
  {
    var e := n / d;
    assert n == d * e;
    Spread(d, e, 1);
    assert e >= 2;
    Spread(e, 1, d);
    QuotientIs(n, e, d, 0);
  }

  lemma Transitive(a: int, b: int, c: int)
    requires b > 0 && c > 0 && a % b == 0 && b % c == 0
    ensures a % c == 0
  {
    var q, r := a / b, b / c;
    assert a == b * q && b == c * r;
    assert (c * r) * q == c * (r * q);
    MultipleHasNoRemainder(c, r * q);
  }

  lemma SmallOfTwo(d: int, e: int, i: int)
    requires i >= 0
    ensures d >= i && e >= i ==> d * e >= i * i
  {
    if d >= i && e >= i {
      assert d * e - i * i == d * (e - i) + (d - i) * i;
    }
  }

  /** Dividing by all numbers whose square is at most n suffices: of a divisor and its quotient one is
      small. */
  lemma SquareRootSuffices(n: int, i: int)
    requires n >= 2 && i >= 2 && i * i > n && Undivided(n, i)
    ensures IsPrimeNumber(n)
  {
    forall d | 2 <= d < n ensures n % d != 0 {
      if n % d == 0 {
        DivisorAndQuotient(n, d);
        SmallOfTwo(d, n / d, i);
      }
    }
  }

  // ----- Euclid -----

  function Factorial(n: nat): (f: int)
    ensures f >= 1
  {
    if n == 0 then 1 else n * Factorial(n - 1)
  }

  lemma {:induction false} DividesFactorial(n: nat, d: int)
    requires 1 <= d <= n
    ensures Factorial(n) % d == 0
  {
    var f := Factorial(n - 1);
    if d == n {
      MultipleHasNoRemainder(n, f);
    } else {
      DividesFactorial(n - 1, d);
      assert f == d * (f / d);
      assert n * (d * (f / d)) == d * (n * (f / d));
      MultipleHasNoRemainder(d, n * (f / d));
    }
  }

  /** Every number above 1 has a prime divisor. */
  lemma {:induction false} PrimeDivisor(n: int) returns (p: int)
    requires n >= 2
    ensures IsPrimeNumber(p) && p <= n && n % p == 0
    decreases n
  {
    if IsPrimeNumber(n) {
      p := n;
    } else {
      var d :| 2 <= d < n && n % d == 0;
      p := PrimeDivisor(d);
      Transitive(n, d, p);
    }
  }

  lemma OneMoreThanFactorial(n: nat, p: int)
    requires 2 <= p <= n
    ensures (Factorial(n) + 1) % p == 1
  {
    DividesFactorial(n, p);
    QuotientIs(Factorial(n) + 1, p, Factorial(n) / p, 1);
  }

  /** There is a prime above every number. */
  lemma Euclid(n: nat) returns (p: int)
    ensures IsPrimeNumber(p) && p > n
  {
    p := PrimeDivisor(Factorial(n) + 1);
    if p <= n {
      OneMoreThanFactorial(n, p);
    }
  }

  /** The smallest prime above p. */
  ghost predicate IsNextPrime(n: int, p: int) {
    n > p && IsPrimeNumber(n) && forall m | p < m < n :: !IsPrimeNumber(m)
  }

  /** There is one next prime, which is behind every prime up to p. */
  lemma OneNextPrime(n: int, m: int, p: int)
    requires IsNextPrime(n, p) && IsPrimeNumber(m)
    ensures p < n && (p < m ==> n <= m) && (IsNextPrime(m, p) ==> n == m)
  {
    hide IsPrimeNumber;
  }

  lemma FirstNextPrimes()
    ensures IsNextPrime(2, 0) && IsNextPrime(3, 2) && IsNextPrime(5, 3) && IsNextPrime(7, 5)
  {
    FirstPrimes(2);
    FirstPrimes(3);
    FirstPrimes(5);
    FirstPrimes(7);
    forall m: int | m < 10 ensures IsPrimeNumber(m) <==> m == 2 || m == 3 || m == 5 || m == 7 {
      FirstPrimes(m);
    }
    hide IsPrimeNumber;
  }

  // ----- on the fly -----

  method IsPrimeOnTheFly(n: int) returns (prime: bool)
    ensures prime <==> IsPrimeNumber(n)
  {
    if n <= 1 {
      return false;
    }
    var i := 2;
    while i * i <= n
      invariant i >= 2 && Undivided(n, i)
      decreases n - i
    {
      assert i < i * i;
      if n % i == 0 {
        return false;
      }
      i := i + 1;
    }
    SquareRootSuffices(n, i);
    return true;
  }

  /** The search ends: there is always a next prime. Below zero nothing is searched. */
  method GetNextPrimeOnTheFly(p: int) returns (next: int)
    ensures p >= 0 ==> IsNextPrime(next, p)
    ensures p < 0 ==> next == -1
  {
    ghost var beyond := p;
    if p >= 0 {
      beyond := Euclid(p);
    }
    var n := p + 1;
    while n > 0
      invariant p >= 0 ==> p < n <= beyond && IsPrimeNumber(beyond) && forall m | p < m < n :: !IsPrimeNumber(m)
      invariant p < 0 ==> n == p + 1
      decreases beyond - n
    {
      var prime := IsPrimeOnTheFly(n);
      if prime {
        return n;
      }
      n := n + 1;
    }
    return -1;
  }

  // ----- trial division by odd numbers -----

  lemma OddSuffices(n: int, i: int)
    requires n % 2 == 1 && Undivided(n, i) && i % 2 == 1 && n % i != 0 && i >= 3
    ensures Undivided(n, i + 2)
  {
    if i + 1 < n && n % (i + 1) == 0 {
      assert (i + 1) % 2 == 0;
      Transitive(n, i + 1, 2);
    }
  }

  /** The cut-off by quotient is the cut-off by square. */
  lemma QuotientBelow(n: int, i: int)
    requires n >= 0 && i > 0
    ensures i > n / i <==> i * i > n
  {
    Spread(i, n / i, i);
    Spread(i, i, n / i);
  }

  method IsPrimeByOddNumbers(n: int) returns (prime: bool)
    ensures prime <==> IsPrimeNumber(n)
  {
    if n <= 1 {
      return false;
    }
    if n % 2 == 0 {
      return n == 2;
    }
    var i := 3;
    while true
      invariant i >= 3 && i % 2 == 1 && Undivided(n, i)
      decreases n - i
    {
      QuotientBelow(n, i);
      if i > n / i {
        break;
      }
      assert i < i * i <= n;
      if n % i == 0 {
        return false;
      }
      OddSuffices(n, i);
      i := i + 2;
    }
    SquareRootSuffices(n, i);
    return true;
  }

  // ----- the sieve -----

  /** A composite number need not be sieved with: its multiples are multiples of its divisors. */
  lemma CompositeSkipped(i: int, k: int)
    requires i >= 2 && !Undivided(i, i)
    ensures Undivided(k, i) == Undivided(k, i + 1)
  {
    var e :| 2 <= e < i && i % e == 0;
    if i < k && k % i == 0 {
      Transitive(k, i, e);
    }
  }

  lemma BetweenMultiples(i: int, q: int)
    requires i > 0
    ensures forall k | i * q < k < i * q + i :: k % i != 0
  {
    forall k | i * q < k < i * q + i ensures k % i != 0 {
      QuotientIs(k, i, q, k - i * q);
    }
  }

  lemma OneMoreDivisor(k: int, i: int)
    requires i >= 2
    ensures Undivided(k, i + 1) == (Undivided(k, i) && !(i < k && k % i == 0))
  {
  }

  class PreCalculatedPrimeTable {
    const isPrimeSize: int
    const isPrime: array<bool>

    /** The table holds every number's primality. */
    ghost predicate Valid()
      reads this, isPrime
    {
      isPrime.Length == isPrimeSize >= 2 && forall k | 0 <= k < isPrimeSize :: isPrime[k] == IsPrimeNumber(k)
    }

    constructor (max: int)
      requires max >= 1
      ensures Valid() && isPrimeSize == max + 1 && fresh(isPrime)
    {
      isPrimeSize := max + 1;
      isPrime := new bool[max + 1];
      new;
      CalculatePrimesUpTo(max);
    }

    method CalculatePrimesUpTo(max: int)
      requires isPrime.Length == isPrimeSize == max + 1 >= 2
      modifies isPrime
      ensures Valid()
    {
      forall k | 0 <= k <= max {
        isPrime[k] := true;
      }
      isPrime[0], isPrime[1] := false, false;
      var i := 2;
      while i <= max
        invariant 2 <= i <= max + 1
        invariant forall k | 0 <= k <= max :: isPrime[k] == (k >= 2 && Undivided(k, i))
      {
        if isPrime[i] {
          MarkMultiples(max, i);
        } else {
          forall k ensures Undivided(k, i) == Undivided(k, i + 1) {
            CompositeSkipped(i, k);
          }
        }
        i := i + 1;
      }
    }

    /** Marks all multiples of i except i itself. */
    method MarkMultiples(max: int, i: int)
      requires isPrime.Length == max + 1 && 2 <= i <= max
      requires forall k | 0 <= k <= max :: isPrime[k] == (k >= 2 && Undivided(k, i))
      modifies isPrime
      ensures forall k | 0 <= k <= max :: isPrime[k] == (k >= 2 && Undivided(k, i + 1))
    {
      hide Undivided;
      var j := 2 * i;
      ghost var q := 2;
      while j <= max
        invariant q >= 2 && j == i * q
        invariant forall k | 0 <= k <= max :: isPrime[k] == (k >= 2 && Undivided(k, i) && !(i < k < j && k % i == 0))
      {
        MultipleHasNoRemainder(i, q);
        BetweenMultiples(i, q);
        isPrime[j] := false;
        j := j + i;
        q := q + 1;
      }
      forall k | 0 <= k <= max ensures Undivided(k, i + 1) == (Undivided(k, i) && !(i < k && k % i == 0)) {
        OneMoreDivisor(k, i);
      }
    }

    predicate IsPrime(n: int)
      requires Valid()
      reads this, isPrime
    {
      0 <= n < isPrimeSize && isPrime[n]
    }

    /** The next prime, or -1 when the table does not reach it. */
    method GetNextPrime(p: int) returns (next: int)
      requires Valid() && p >= -1
      ensures if next == -1 then forall m | p < m < isPrimeSize :: !IsPrimeNumber(m)
              else IsNextPrime(next, p) && next < isPrimeSize
    {
      var n := p + 1;
      while n < isPrimeSize
        invariant p < n && forall m | p < m < n :: !IsPrimeNumber(m)
      {
        if isPrime[n] {
          return n;
        }
        n := n + 1;
      }
      return -1;
    }
  }

  // ----- the hybrid -----

  lemma TwoIsFirst()
    ensures IsNextPrime(2, -1)
  {
  }

  class HybridPrimeTable {
    const precalc: PreCalculatedPrimeTable?
    const maxPrecalculated: int

    ghost predicate Valid()
      reads this, precalc, if precalc == null then {} else {precalc.isPrime}
    {
      precalc != null ==> precalc.Valid() && precalc.isPrimeSize == maxPrecalculated + 1
    }

    constructor (forceOnTheFly: bool, maxPrecalculated: int)
      requires !forceOnTheFly ==> maxPrecalculated >= 1
      ensures Valid() && (precalc == null <==> forceOnTheFly)
    {
      this.maxPrecalculated := maxPrecalculated;
      if forceOnTheFly {
        precalc := null;
      } else {
        precalc := new PreCalculatedPrimeTable(maxPrecalculated);
      }
    }

    method IsPrime(n: int) returns (prime: bool)
      requires Valid()
      ensures prime <==> IsPrimeNumber(n)
    {
      if precalc != null && n < maxPrecalculated {
        return precalc.IsPrime(n);
      } else {
        prime := IsPrimeOnTheFly(n);
      }
    }

    /** The smallest prime above p, whether the table reaches it or not. From a negative number on only
        a table is searched. */
    method GetNextPrime(p: int) returns (next: int)
      requires Valid() && (precalc != null ==> p >= -1)
      ensures p >= 0 ==> IsNextPrime(next, p)
      ensures p < 0 ==> next == if precalc != null && maxPrecalculated >= 2 then 2 else -1
    {
      TwoIsFirst();
      next := -1;
      if precalc != null && p < maxPrecalculated {
        next := precalc.GetNextPrime(p);
      }
      if next == -1 {
        next := GetNextPrimeOnTheFly(p);
      }
    }
  }
}
