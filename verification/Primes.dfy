/** The sample prime tables: trial division, a sieve, and the hybrid of the two.  Integers are unbounded. */
module Primes {
  import opened Arithmetic

  predicate Divides(d: nat, n: nat)
    requires d > 0
  {
    n % d == 0
  }

  ghost predicate Prime(n: int) { n >= 2 && forall d | 2 <= d < n :: !Divides(d, n) }

  /** The least prime above p. */
  ghost predicate IsNextPrime(p: int, q: int) { p < q && Prime(q) && forall n | p < n < q :: !Prime(n) }

  // ---------------------------------------------------------------- divisibility

  lemma MultipleDivides(d: nat, k: nat)
    requires d > 0
    ensures Divides(d, d * k)
  {
    assert (d * k) / d == k && (d * k) % d == 0 by { DivModUnique(d * k, d, k, 0); }
  }

  lemma SquareMonotone(a: nat, b: nat)
    ensures a <= b ==> a * a <= b * b
  {
    MulMonotone(a, a, b);
    MulMonotone(b, a, b);
    assert a * b == b * a;
  }

  lemma Quotient(d: nat, n: nat)
    requires d > 0 && Divides(d, n)
    ensures n == d * (n / d)
  {
  }

  lemma DividesTransitive(a: nat, b: nat, c: nat)
    requires a > 0 && b > 0 && Divides(a, b) && Divides(b, c)
    ensures Divides(a, c)
  {
    Quotient(a, b);
    Quotient(b, c);
    assert c == a * ((b / a) * (c / b));
    MultipleDivides(a, (b / a) * (c / b));
  }

  lemma ConsecutiveCoprime(d: nat, n: nat)
    requires d > 0 && Divides(d, n) && Divides(d, n + 1)
    ensures d == 1
  {
    Quotient(d, n);
    if d > 1 { DivModUnique(n + 1, d, n / d, 1); }
  }

  /** A number with a divisor has one no larger than its square root. */
  lemma SmallDivisor(n: nat, d: nat) returns (e: nat)
    requires 2 <= d < n && Divides(d, n)
    ensures 2 <= e <= d && e * e <= n && Divides(e, n)
  {
    if d * d <= n {
      e := d;
    } else {
      Quotient(d, n);
      e := n / d;
      assert d * e == e * d == n;
      MultipleDivides(e, d);
      MulMonotone(d, e, 1);
      MulMonotone(d, d, e);
      MulMonotone(e, e, d);
    }
  }

  // ---------------------------------------------------------------- there is always a next prime

  function Factorial(n: nat): nat { if n == 0 then 1 else n * Factorial(n - 1) }

  lemma {:induction false} FactorialDivisible(d: nat, n: nat)
    requires 1 <= d <= n
    ensures Divides(d, Factorial(n)) && Factorial(n) >= 1
    decreases n
  {
    if n == 1 {
      assert Factorial(0) == 1;
      MultipleDivides(1, Factorial(1));
    } else if d == n {
      FactorialDivisible(1, n - 1);
      MultipleDivides(n, Factorial(n - 1));
    } else {
      FactorialDivisible(d, n - 1);
      Quotient(d, Factorial(n - 1));
      assert Factorial(n) == d * (n * (Factorial(n - 1) / d));
      MultipleDivides(d, n * (Factorial(n - 1) / d));
    }
  }

  lemma {:induction false} PrimeDivisor(n: nat) returns (p: nat)
    requires n >= 2
    ensures Prime(p) && Divides(p, n) && p <= n
    decreases n
  {
    if Prime(n) {
      p := n;
      MultipleDivides(n, 1);
    } else {
      var d :| 2 <= d < n && Divides(d, n);
      p := PrimeDivisor(d);
      DividesTransitive(p, d, n);
    }
  }

  /** A prime divisor of p! + 1 lies above p. */
  lemma PrimeAbove(p: nat) returns (q: nat)
    ensures q > p && Prime(q)
  {
    if p == 0 {
      q := 2;
    } else {
      FactorialDivisible(1, p);
      q := PrimeDivisor(Factorial(p) + 1);
      if q <= p {
        FactorialDivisible(q, p);
        ConsecutiveCoprime(q, Factorial(p));
      }
    }
  }

  // ---------------------------------------------------------------- the tables

  class OnTheFlyPrimeTable {
    constructor () {}

    method IsPrime(n: int) returns (prime: bool)
      ensures prime <==> Prime(n)
    {
      if n <= 1 {
        return false;
      }
      var i := 2;
      while i * i <= n
        invariant 2 <= i <= n
        invariant forall d | 2 <= d < i :: !Divides(d, n)
        decreases n - i
      {
        MulMonotone(i, 2, i);
        if n % i == 0 {
          assert Divides(i, n);
          return false;
        }
        i := i + 1;
      }
      forall d | 2 <= d < n ensures !Divides(d, n) {
        if Divides(d, n) {
          var e := SmallDivisor(n, d);
          SquareMonotone(i, e);
        }
      }
      return true;
    }

    /** For p >= 0 the search ends, because there is a prime above p; below that the loop never starts. */
    method GetNextPrime(p: int) returns (q: int)
      ensures if p >= 0 then IsNextPrime(p, q) else q == -1
    {
      if p < 0 {
        // the loop test n > 0 fails at once
        return -1;
      }
      ghost var bound := PrimeAbove(p);
      var n := p + 1;
      while n > 0
        invariant p < n <= bound
        invariant forall m | p < m < n :: !Prime(m)
        decreases bound - n
      {
        var prime := IsPrime(n);
        if prime {
          return n;
        }
        n := n + 1;
      }
    }
  }

  class PreCalculatedPrimeTable {
    const isPrime: array<bool>

    ghost predicate Valid()
      reads this, isPrime
    {
      isPrime.Length >= 2 && forall n | 0 <= n < isPrime.Length :: isPrime[n] <==> Prime(n)
    }

    /** The sieve needs room for the entries 0 and 1. */
    constructor (max: int)
      requires max >= 1
      ensures Valid() && fresh(isPrime) && isPrime.Length == max + 1
    {
      isPrime := new bool[max + 1];
      new;
      CalculatePrimesUpTo(max);
    }

    /** Entry k survives the factors below bound. */
    ghost predicate Survives(k: int, bound: int) { k >= 2 && forall d | 2 <= d < bound && d < k :: !Divides(d, k) }

    method CalculatePrimesUpTo(max: int)
      requires max >= 1 && isPrime.Length == max + 1
      modifies isPrime
      ensures Valid()
    {
      forall n | 0 <= n < isPrime.Length {
        isPrime[n] := true;
      }
      isPrime[0], isPrime[1] := false, false;
      for i := 2 to max + 1
        invariant forall k | 0 <= k <= max :: isPrime[k] <==> Survives(k, i)
      {
        if !isPrime[i] {
          CompositeMarksNothingNew(i, max);
        } else {
          MarkMultiples(i, max);
        }
      }
      assert forall k | 0 <= k <= max :: Survives(k, max + 1) <==> Prime(k);
    }

    /** The multiples of a number that is already marked are marked too. */
    lemma CompositeMarksNothingNew(i: int, max: int)
      requires i >= 2 && !Survives(i, i)
      ensures forall k | 0 <= k <= max :: Survives(k, i) <==> Survives(k, i + 1)
    {
      var e :| 2 <= e < i && Divides(e, i);
      forall k | i < k <= max && Divides(i, k) ensures !Survives(k, i) {
        DividesTransitive(e, i, k);
      }
    }

    method MarkMultiples(i: int, max: int)
      requires 2 <= i <= max && isPrime.Length == max + 1
      requires forall k | 0 <= k <= max :: isPrime[k] <==> Survives(k, i)
      modifies isPrime
      ensures forall k | 0 <= k <= max :: isPrime[k] <==> Survives(k, i + 1)
    {
      var j := 2 * i;
      ghost var t := 2;
      while j <= max
        invariant t >= 2 && j == i * t
        invariant forall k | 0 <= k <= max :: isPrime[k] <==> Survives(k, i) && !(i < k < j && Divides(i, k))
        decreases max - j
      {
        MultipleDivides(i, t);
        isPrime[j] := false;
        NoMultipleBetween(i, t);
        j := j + i;
        t := t + 1;
        assert j == i * t;
      }
    }

    lemma NoMultipleBetween(i: nat, t: nat)
      requires i > 0
      ensures forall k | i * t < k < i * t + i :: !Divides(i, k)
    {
      forall k | i * t < k < i * t + i ensures !Divides(i, k) {
        DivModUnique(k, i, t, k - i * t);
      }
    }

    method IsPrime(n: int) returns (prime: bool)
      requires Valid()
      ensures prime <==> n < isPrime.Length && Prime(n)
    {
      prime := 0 <= n < isPrime.Length && isPrime[n];
    }

    /** The table is indexed from p + 1 without a check, so p must not be below -1. */
    method GetNextPrime(p: int) returns (q: int)
      requires Valid() && p >= -1
      ensures if exists n :: p < n < isPrime.Length && Prime(n) then IsNextPrime(p, q) && q < isPrime.Length else q == -1
    {
      var n := p + 1;
      while n < isPrime.Length
        invariant p < n
        invariant forall m | p < m < n :: !Prime(m)
      {
        if isPrime[n] {
          return n;
        }
        n := n + 1;
      }
      return -1;
    }
  }

  /** Uses the sieve where it reaches and trial division beyond it, or trial division alone. */
  class HybridPrimeTable {
    const onTheFly: OnTheFlyPrimeTable
    const precalc: PreCalculatedPrimeTable?
    const maxPrecalculated: int

    ghost predicate Valid()
      reads this, precalc, if precalc == null then {} else {precalc.isPrime}
    {
      precalc != null ==> precalc.Valid() && precalc.isPrime.Length == maxPrecalculated + 1
    }

    constructor (forceOnTheFly: bool, max: int)
      requires !forceOnTheFly ==> max >= 1
      ensures Valid() && maxPrecalculated == max && (precalc == null <==> forceOnTheFly)
    {
      onTheFly := new OnTheFlyPrimeTable();
      if forceOnTheFly {
        precalc := null;
      } else {
        precalc := new PreCalculatedPrimeTable(max);
      }
      maxPrecalculated := max;
    }

    /** The same answer whichever table gives it. */
    method IsPrime(n: int) returns (prime: bool)
      requires Valid()
      ensures prime <==> Prime(n)
    {
      if precalc != null && n < maxPrecalculated {
        prime := precalc.IsPrime(n);
      } else {
        prime := onTheFly.IsPrime(n);
      }
    }

    /**
     From p >= 0 on the tables agree; at p == -1 the sieve, where it holds a prime, finds 2 and trial division gives up.  Only with a
     sieve must the caller keep p from below -1, where the source would read in front of its array.
     */
    method GetNextPrime(p: int) returns (q: int)
      requires Valid() && (precalc != null ==> p >= -1)
      ensures p >= 0 ==> IsNextPrime(p, q)
      ensures p == -1 ==> q == if precalc != null && maxPrecalculated >= 2 then 2 else -1
      ensures p < -1 ==> q == -1
    {
      var nextPrime := -1;
      assert Prime(2);
      if precalc != null && p < maxPrecalculated {
        nextPrime := precalc.GetNextPrime(p);
      }
      if nextPrime != -1 {
        return nextPrime;
      }
      q := onTheFly.GetNextPrime(p);
    }
  }

  // ---------------------------------------------------------------- the first sample's primality test

  /** Trial division by odd numbers up to the square root. */
  method IsPrimeByOddDivision(n: int) returns (prime: bool)
    ensures prime <==> Prime(n)
  {
    if n <= 1 {
      return false;
    }
    if n % 2 == 0 {
      assert Divides(2, n);
      return n == 2;
    }
    var i := 3;
    while true
      invariant 3 <= i <= n + 2 && i % 2 == 1
      invariant forall d | 2 <= d < i && d < n :: !Divides(d, n)
      decreases n + 2 - i
    {
      if i > n / i {
        break;
      }
      QuotientReaches(n, i);
      if n % i == 0 {
        assert Divides(i, n);
        return false;
      }
      EvenDoesNotDivideOdd(i + 1, n);
      i := i + 2;
    }
    QuotientReaches(n, i);
    forall d | 2 <= d < n ensures !Divides(d, n) {
      if Divides(d, n) {
        var e := SmallDivisor(n, d);
        SquareMonotone(i, e);
      }
    }
    return true;
  }

  lemma QuotientReaches(n: nat, i: nat)
    requires i >= 3
    ensures i <= n / i <==> i * i <= n
    ensures i <= n / i ==> i < n
  {
    var q, rest := n / i, n % i;
    assert n == i * q + rest && rest < i;
    if i <= q {
      MulMonotone(i, i, q);
      MulMonotone(i, 3, i);
    } else {
      MulMonotone(i, q, i - 1);
    }
  }

  lemma EvenDoesNotDivideOdd(d: nat, n: nat)
    requires d > 0 && d % 2 == 0 && n % 2 == 1
    ensures !Divides(d, n)
  {
    if Divides(d, n) {
      assert Divides(2, d);
      DividesTransitive(2, d, n);
    }
  }
}
