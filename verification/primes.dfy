/**
 The reference prime factorization every factorizer in the library is checked
 against: split off the least divisor above 1 (which is always prime) and
 recurse on the cofactor. The lemmas show that it multiplies back to `n`, holds
 only primes, is ascending, and is the only list of primes with that product,
 up to order.
 */
module Primes {
  import opened Arith

  /** No number in `[2, bound)` divides `n`. */
  predicate NoDivisorBelow(n: int, bound: int) {
    forall d :: 2 <= d < bound ==> !Divides(d, n)
  }

  /** The least divisor of `n` that is at least `d`; `n` itself when nothing smaller divides it. */
  function LeastDivisorFrom(n: int, d: int): (r: int)
    requires 2 <= d <= n
    ensures d <= r <= n && Divides(r, n)
    ensures forall k :: d <= k < r ==> !Divides(k, n)
    decreases n - d
  {
    DividesSelf(n);
    if n % d == 0 then d else LeastDivisorFrom(n, d + 1)
  }

  /** The least divisor of `n` above 1. */
  function SmallestFactor(n: int): (p: int)
    requires n >= 2
    ensures 2 <= p <= n && Divides(p, n) && NoDivisorBelow(n, p)
  {
    LeastDivisorFrom(n, 2)
  }

  /** The prime factors of `n`, with repeats, smallest first. */
  function Factorization(n: int): seq<int>
    requires n >= 1
    decreases n
  {
    if n == 1 then []
    else
      var p := SmallestFactor(n);
      DivisorAtMost(p, n);
      QuotientSmaller(n, p);
      [p] + Factorization(n / p)
  }

  lemma QuotientSmaller(n: int, p: int)
    requires Divides(p, n) && p >= 2 && n >= 1
    ensures 1 <= n / p < n
  {
    DivisorAtMost(p, n);
    DividesQuotient(p, n);
    MulMonotone(p, n / p, 2, n / p);
  }

  /** The least divisor above 1 of a number is prime. */
  lemma SmallestFactorIsPrime(n: int)
    requires n >= 2
    ensures Prime(SmallestFactor(n))
  {
    var p := SmallestFactor(n);
    forall d | 2 <= d < p
      ensures !Divides(d, p)
    {
      if Divides(d, p) {
        DividesTransitive(d, p, n);
      }
    }
  }

  /** A divisor `p` of `n` with nothing in `[2, p)` dividing `n` is its least factor. */
  lemma SmallestFactorIs(n: int, p: int)
    requires n >= 2 && p >= 2 && Divides(p, n) && NoDivisorBelow(n, p)
    ensures SmallestFactor(n) == p && Prime(p)
    ensures Factorization(n) == [p] + Factorization(n / p)
  {
    var q := SmallestFactor(n);
    assert !(q < p);
    assert !(p < q);
    SmallestFactorIsPrime(n);
  }

  /** Dividing by a factor keeps the quotient free of the divisors the number was free of. */
  lemma NoDivisorBelowQuotient(n: int, p: int, bound: int)
    requires Divides(p, n) && NoDivisorBelow(n, bound)
    ensures NoDivisorBelow(n / p, bound)
  {
    DividesQuotient(p, n);
    assert n == (n / p) * p;
    forall d | 2 <= d < bound
      ensures !Divides(d, n / p)
    {
      if Divides(d, n / p) {
        DividesMultiple(d, n / p, p);
      }
    }
  }

  /**
   Trial division may stop at the square root: a number above 1 with no divisor
   below `bound`, where `bound * bound > n`, is prime.
   */
  lemma NoSmallDivisorPrime(n: int, bound: int)
    requires n >= 2 && bound >= 2 && bound * bound > n && NoDivisorBelow(n, bound)
    ensures Prime(n)
  {
    forall d | 2 <= d < n
      ensures !Divides(d, n)
    {
      if Divides(d, n) {
        var e := n / d;
        DividesQuotient(d, n);
        DividesProduct(e, d);
        assert n == e * d;
        QuotientSmaller(n, d);
        assert e >= 2;
        assert d >= bound && e >= bound;
        SquareAtLeast(d, e, bound);
      }
    }
  }

  /** The reference factorization multiplies back to `n`, holds only primes that divide `n`, and ascends. */
  lemma {:induction false} FactorizationCorrect(n: int)
    requires n >= 1
    ensures Product(Factorization(n)) == n
    ensures forall i :: 0 <= i < |Factorization(n)| ==> Prime(Factorization(n)[i])
    ensures forall i :: 0 <= i < |Factorization(n)| ==> Divides(Factorization(n)[i], n)
    ensures Sorted(Factorization(n))
    decreases n
  {
    if n > 1 {
      var p := SmallestFactor(n);
      var m := n / p;
      QuotientSmaller(n, p);
      FactorizationCorrect(m);
      SmallestFactorIsPrime(n);
      var rest := Factorization(m);
      assert Factorization(n) == [p] + rest;
      ProductCons(p, rest);
      DividesQuotient(p, n);
      DividesProduct(m, p);
      assert n == m * p;
      forall i | 0 <= i < |rest|
        ensures Divides(rest[i], n) && p <= rest[i]
      {
        DividesTransitive(rest[i], m, n);
      }
    } else {
      DividesSelf(1);
    }
  }

  lemma FactorizationOfPrime(p: int)
    requires Prime(p)
    ensures Factorization(p) == [p]
  {
    DividesSelf(p);
    SmallestFactorIs(p, p);
    DividesProduct(p, 1);
  }

  /** The primes dividing `n` are exactly the entries of its factorization. */
  lemma PrimeDivisorInFactorization(n: int, p: int)
    requires n >= 1
    ensures (Prime(p) && Divides(p, n)) <==> p in Factorization(n)
  {
    FactorizationCorrect(n);
    if Prime(p) && Divides(p, n) {
      PrimeDividesProductOfPrimes(p, Factorization(n));
    }
  }

  lemma ProductOfPrimesAtLeastTwo(s: seq<int>)
    requires s != [] && forall i :: 0 <= i < |s| ==> Prime(s[i])
    ensures Product(s) >= 2
  {
    var init := s[..|s| - 1];
    ProductPositive(init);
    MulAtLeast(s[|s| - 1], Product(init));
  }

  /**
   Fundamental theorem of arithmetic: any list of primes whose product is `n`
   is a rearrangement of the reference factorization.
   */
  lemma {:induction false} FactorizationUnique(n: int, s: seq<int>)
    requires n >= 1
    requires forall i :: 0 <= i < |s| ==> Prime(s[i])
    requires Product(s) == n
    ensures multiset(s) == multiset(Factorization(n))
    decreases n
  {
    if s == [] {
      return;
    }
    ProductOfPrimesAtLeastTwo(s);
    var p := SmallestFactor(n);
    SmallestFactorIsPrime(n);
    PrimeDividesProductOfPrimes(p, s);
    var i :| 0 <= i < |s| && s[i] == p;
    var rest := RemovePrime(s, i);
    DividesProduct(p, Product(rest));
    QuotientSmaller(n, p);
    FactorizationUnique(n / p, rest);
    assert Factorization(n) == [p] + Factorization(n / p);
  }

  /** Taking one prime out of a list of primes leaves a list of primes with the product divided by it. */
  lemma RemovePrime(s: seq<int>, i: int) returns (rest: seq<int>)
    requires 0 <= i < |s| && forall j :: 0 <= j < |s| ==> Prime(s[j])
    ensures rest == s[..i] + s[i + 1..]
    ensures forall j :: 0 <= j < |rest| ==> Prime(rest[j])
    ensures Product(s) == s[i] * Product(rest)
    ensures multiset(s) == multiset(rest) + multiset{s[i]}
  {
    rest := s[..i] + s[i + 1..];
    RemoveAt(s, i);
    forall j | 0 <= j < |rest|
      ensures Prime(rest[j])
    {
      if j < i {
        assert rest[j] == s[j];
      } else {
        assert rest[j] == s[j + 1];
      }
    }
    assert s == s[..i] + [s[i]] + s[i + 1..];
  }

  /** An ascending list of primes with product `n` is the reference factorization itself. */
  lemma SortedFactorizationUnique(n: int, s: seq<int>)
    requires n >= 1
    requires forall i :: 0 <= i < |s| ==> Prime(s[i])
    requires Product(s) == n && Sorted(s)
    ensures s == Factorization(n)
  {
    FactorizationUnique(n, s);
    FactorizationCorrect(n);
    SortedPermutationEqual(s, Factorization(n));
  }

  /** The number of prime factors counted with multiplicity, Omega(n). */
  function PrimeCount(n: int): nat
    requires n >= 1
  {
    |Factorization(n)|
  }

  /** Omega is completely additive: Omega(a * b) == Omega(a) + Omega(b). */
  lemma PrimeCountAdditive(a: int, b: int)
    requires a >= 1 && b >= 1
    ensures a * b >= 1 && PrimeCount(a * b) == PrimeCount(a) + PrimeCount(b)
  {
    MulAtLeast(a, b);
    FactorizationCorrect(a);
    FactorizationCorrect(b);
    var s := Factorization(a) + Factorization(b);
    ProductAppend(Factorization(a), Factorization(b));
    forall i | 0 <= i < |s|
      ensures Prime(s[i])
    {
      if i >= |Factorization(a)| {
        assert s[i] == Factorization(b)[i - |Factorization(a)|];
      }
    }
    FactorizationUnique(a * b, s);
    assert |multiset(s)| == |multiset(Factorization(a * b))|;
  }
}
