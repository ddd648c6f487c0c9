/**
 The arithmetic functions the library computes from the pair factorization:
 Euler's totient, the number of divisors, the sum of the `w`-th powers of the
 divisors, the square-free test, the number of distinct primes and the
 Liouville function. Each is a fold over the pairs `(p, k)`; the lemmas tie
 each fold to a definition that does not mention the pairs.
 */
module Multiplicative {
  import opened Arith
  import opened Primes
  import opened RunLength
  import opened TrialDivision
  import opened Validation
  import opened Divisors

  /** The primes of the pairs, in order. */
  function PrimesOf(fs: seq<PrimePower>): (r: seq<int>)
    ensures |r| == |fs| && forall i :: 0 <= i < |fs| ==> r[i] == fs[i].prime
  {
    seq(|fs|, i requires 0 <= i < |fs| => fs[i].prime)
  }

  /** Each prime of the pairs less one, in order. */
  function PrimesLessOne(fs: seq<PrimePower>): (r: seq<int>)
    ensures |r| == |fs| && forall i :: 0 <= i < |fs| ==> r[i] == fs[i].prime - 1
  {
    seq(|fs|, i requires 0 <= i < |fs| => fs[i].prime - 1)
  }

  // ---------------------------------------------------------------------------
  // Euler's totient

  /** `prod p^(k - 1) * (p - 1)` over the pairs. */
  function TotientOf(fs: seq<PrimePower>): int
    requires forall i :: 0 <= i < |fs| ==> fs[i].exponent >= 1
  {
    if fs == [] then 1
    else
      var p, k := fs[|fs| - 1].prime, fs[|fs| - 1].exponent;
      TotientOf(fs[..|fs| - 1]) * (Pow(p, k - 1) * (p - 1))
  }

  /** Euler's totient; below 2 the pair factorizer's validation failure is passed on. */
  function Phi(n: int): (r: Result<int>)
    ensures r.Err? <==> n < 2
    ensures r.Err? ==> r.error == BelowMinimum(n, 2)
  {
    match PairFactorization(n)
    case Err(e) => Err(e)
    case Ok(fs) => Ok(TotientOf(fs))
  }

  /** One pair's totient factor: `p^(k - 1) * (p - 1) * p == p^k * (p - 1)`, and `1 <= p^(k - 1) * (p - 1) < p^k`. */
  lemma TotientFactor(p: int, k: nat)
    requires p >= 2 && k >= 1
    ensures (Pow(p, k - 1) * (p - 1)) * p == Pow(p, k) * (p - 1)
    ensures 1 <= Pow(p, k - 1) * (p - 1) < Pow(p, k)
  {
    var q := Pow(p, k - 1);
    PowPositive(p, k - 1);
    MulAtLeast(q, p - 1);
    assert Pow(p, k) == p * q;
    assert q * (p - 1) < q * p;
  }

  /**
   Euler's product formula, cleared of fractions: the totient times the product
   of the distinct primes is `n` times the product of the primes less one.
   */
  lemma {:induction false} TotientProductFormula(fs: seq<PrimePower>)
    requires IsCanonical(fs)
    ensures TotientOf(fs) * Product(PrimesOf(fs)) == Value(fs) * Product(PrimesLessOne(fs))
  {
    if fs != [] {
      var init, p, k := fs[..|fs| - 1], fs[|fs| - 1].prime, fs[|fs| - 1].exponent;
      TotientProductFormula(init);
      PrimesSnoc(fs);
      TotientFactor(p, k);
      TotientStep(TotientOf(init), Pow(p, k - 1) * (p - 1), Product(PrimesOf(init)), p,
                  Value(init), Pow(p, k), Product(PrimesLessOne(init)));
    }
  }

  lemma PrimesSnoc(fs: seq<PrimePower>)
    requires fs != []
    ensures Product(PrimesOf(fs)) == Product(PrimesOf(fs[..|fs| - 1])) * fs[|fs| - 1].prime
    ensures Product(PrimesLessOne(fs)) == Product(PrimesLessOne(fs[..|fs| - 1])) * (fs[|fs| - 1].prime - 1)
  {
    var init, p := fs[..|fs| - 1], fs[|fs| - 1].prime;
    assert PrimesOf(fs) == PrimesOf(init) + [p];
    assert PrimesLessOne(fs) == PrimesLessOne(init) + [p - 1];
    ProductAppend(PrimesOf(init), [p]);
    ProductAppend(PrimesLessOne(init), [p - 1]);
  }

  /**
   One step of the product formula, over plain numbers: if the formula holds for
   the earlier pairs (`phi * primes == value * lessOne`) and for the new pair
   `(p, k)` (`factor * p == power * (p - 1)`, with `factor == p^(k-1) * (p - 1)` and
   `power == p^k`), it holds for all of them.
   */
  lemma TotientStep(phi: int, factor: int, primes: int, p: int, value: int, power: int, lessOne: int)
    requires phi * primes == value * lessOne && factor * p == power * (p - 1)
    ensures (phi * factor) * (primes * p) == (value * power) * (lessOne * (p - 1))
  {
    MulRearrange(phi, factor, primes, p);
    MulRearrange(value, power, lessOne, p - 1);
  }

  /** The totient of a number above 1 lies in `[1, n - 1]`. */
  lemma {:induction false} TotientBounds(fs: seq<PrimePower>)
    requires IsCanonical(fs)
    ensures 1 <= TotientOf(fs) <= Value(fs)
    ensures fs != [] ==> TotientOf(fs) < Value(fs)
  {
    if fs != [] {
      var init, p, k := fs[..|fs| - 1], fs[|fs| - 1].prime, fs[|fs| - 1].exponent;
      TotientBounds(init);
      TotientFactor(p, k);
      StrictProduct(TotientOf(init), Value(init), Pow(p, k - 1) * (p - 1), Pow(p, k));
    }
  }

  lemma StrictProduct(a: int, b: int, c: int, d: int)
    requires 1 <= a <= b && 1 <= c < d
    ensures 1 <= a * c < b * d
  {
    MulMonotone(b, d, a, c);
    MulAtLeast(a, c);
    assert b * d - b * c == b * (d - c);
  }

  /** `phi(n)` satisfies Euler's product formula and `1 <= phi(n) < n`. */
  lemma PhiCorrect(n: int)
    requires n >= 2
    ensures Phi(n).Ok?
    ensures Phi(n).value * Product(PrimesOf(CanonicalForm(n))) == n * Product(PrimesLessOne(CanonicalForm(n)))
    ensures 1 <= Phi(n).value < n
  {
    CanonicalFormCorrect(n);
    TotientProductFormula(CanonicalForm(n));
    TotientBounds(CanonicalForm(n));
  }

  /** `phi(p^k) == p^k - p^(k - 1)`; in particular `phi(p) == p - 1`. */
  lemma PhiOfPrimePower(p: int, k: nat)
    requires Prime(p) && k >= 1
    ensures Pow(p, k) >= 2 && Phi(Pow(p, k)) == Ok(Pow(p, k) - Pow(p, k - 1))
  {
    var fs := [PrimePower(p, k)];
    assert IsCanonical(fs);
    assert Value(fs) == Value([]) * Pow(p, k);
    PowStrictlyIncreasing(p, 0, k);
    CanonicalUnique(fs);
    assert TotientOf(fs) == TotientOf([]) * (Pow(p, k - 1) * (p - 1));
  }

  // ---------------------------------------------------------------------------
  // Number of divisors

  /** `prod (k + 1)` over the pairs of `n`; below 2 the validation failure is passed on. */
  function NumberOfFactors(n: int): (r: Result<int>)
    ensures r.Err? <==> n < 2
    ensures r.Err? ==> r.error == BelowMinimum(n, 2)
  {
    match PairFactorization(n)
    case Err(e) => Err(e)
    case Ok(fs) => Ok(DivisorCount(fs))
  }

  /** The count is the number of positive divisors, and the length of the enumeration `FactorsOf`. */
  lemma NumberOfFactorsCorrect(n: int)
    requires n >= 2
    ensures NumberOfFactors(n) == Ok(|DivisorList(n)|)
    ensures NumberOfFactors(n) == Ok(|FactorsOf(n, false).value|)
  {
    FactorsOfCorrect(n, false);
  }

  // ---------------------------------------------------------------------------
  // Number of distinct primes

  /** The number of pairs of `n`; below 2 the validation failure is passed on. */
  function UniquePrimes(n: int): (r: Result<int>)
    ensures r.Err? <==> n < 2
    ensures r.Err? ==> r.error == BelowMinimum(n, 2)
  {
    match PairFactorization(n)
    case Err(e) => Err(e)
    case Ok(fs) => Ok(|fs|)
  }

  /** The primes dividing `n`. */
  ghost function PrimeDivisors(n: int): set<int> {
    set p | 2 <= p <= n && Prime(p) && Divides(p, n)
  }

  /** A duplicate-free list has as many entries as its set of entries. */
  lemma {:induction false} DistinctCardinality(s: seq<int>)
    requires Distinct(s)
    ensures |set x | x in s| == |s|
  {
    if s != [] {
      var init, last := s[..|s| - 1], s[|s| - 1];
      DistinctCardinality(init);
      assert (set x | x in s) == (set x | x in init) + {last};
      assert last !in init;
    }
  }

  /** The primes of the canonical pairs of `n` are exactly the primes dividing `n`. */
  lemma PrimesOfPairs(n: int)
    requires n >= 2
    ensures (set x | x in PrimesOf(CanonicalForm(n))) == PrimeDivisors(n)
    ensures Distinct(PrimesOf(CanonicalForm(n)))
  {
    var fs := CanonicalForm(n);
    CanonicalFormCorrect(n);
    forall x
      ensures x in PrimesOf(fs) <==> x in PrimeDivisors(n)
    {
      InExpand(fs, x);
      PrimeDivisorInFactorization(n, x);
      if Prime(x) && Divides(x, n) {
        DivisorAtMost(x, n);
      }
    }
  }

  /** The count of pairs is the number of distinct primes dividing `n`. */
  lemma UniquePrimesCorrect(n: int)
    requires n >= 2
    ensures UniquePrimes(n) == Ok(|PrimeDivisors(n)|)
  {
    PrimesOfPairs(n);
    DistinctCardinality(PrimesOf(CanonicalForm(n)));
  }

  // ---------------------------------------------------------------------------
  // Liouville's function

  /** The total multiplicity: the sum of the `k` over the pairs. */
  function ExponentSum(fs: seq<PrimePower>): nat {
    if fs == [] then 0 else ExponentSum(fs[..|fs| - 1]) + fs[|fs| - 1].exponent
  }

  /** `1` when the total multiplicity of `n` is even, `-1` when odd; below 2 the validation failure is passed on. */
  function Liouville(n: int): (r: Result<int>)
    ensures r.Err? <==> n < 2
    ensures r.Err? ==> r.error == BelowMinimum(n, 2)
    ensures r.Ok? ==> r.value == 1 || r.value == -1
  {
    match PairFactorization(n)
    case Err(e) => Err(e)
    case Ok(fs) => Ok(if ExponentSum(fs) % 2 == 0 then 1 else -1)
  }

  /** The total multiplicity of the pairs is the number of primes they expand to. */
  lemma {:induction false} ExponentSumIsLength(fs: seq<PrimePower>)
    ensures ExponentSum(fs) == |Expand(fs)|
  {
    if fs != [] {
      ExponentSumIsLength(fs[..|fs| - 1]);
    }
  }

  lemma {:induction false} PowOfMinusOne(m: nat)
    ensures Pow(-1, m) == if m % 2 == 0 then 1 else -1
  {
    if m > 0 {
      PowOfMinusOne(m - 1);
    }
  }

  /** `lambda(n) == (-1)^Omega(n)`, with `Omega` counting prime factors with multiplicity. */
  lemma LiouvilleCorrect(n: int)
    requires n >= 2
    ensures Liouville(n) == Ok(Pow(-1, PrimeCount(n)))
  {
    CanonicalFormCorrect(n);
    ExponentSumIsLength(CanonicalForm(n));
    PowOfMinusOne(PrimeCount(n));
  }

  /** Liouville's function is completely multiplicative. */
  lemma LiouvilleMultiplicative(a: int, b: int)
    requires a >= 2 && b >= 2
    ensures a * b >= 2
    ensures Liouville(a * b).value == Liouville(a).value * Liouville(b).value
  {
    var c := a * b;
    SignOfProduct(a, b, c);
    LiouvilleCorrect(a);
    LiouvilleCorrect(b);
    LiouvilleCorrect(c);
  }

  lemma SignOfProduct(a: int, b: int, c: int)
    requires a >= 2 && b >= 2 && c == a * b
    ensures c >= 2 && Pow(-1, PrimeCount(c)) == Pow(-1, PrimeCount(a)) * Pow(-1, PrimeCount(b))
  {
    MulAtLeast(a, b);
    PrimeCountAdditive(a, b);
    PowAdd(-1, PrimeCount(a), PrimeCount(b));
  }

  // ---------------------------------------------------------------------------
  // Sum of the powers of the divisors

  /** The library's closed form for one pair, `(p^(w * (k + 1)) - 1) / (p^w - 1)`. */
  function ClosedForm(p: int, k: nat, w: nat): int
    requires p >= 2 && w >= 1
  {
    GeometricTerm(p, k, w);
    (Pow(p, w * (k + 1)) - 1) / (Pow(p, w) - 1)
  }

  /** The closed forms of the pairs, multiplied. */
  function DivisorPowerSum(fs: seq<PrimePower>, w: nat): int
    requires IsCanonical(fs) && w >= 1
  {
    if fs == [] then 1
    else
      CanonicalPrefix(fs);
      DivisorPowerSum(fs[..|fs| - 1], w) * ClosedForm(fs[|fs| - 1].prime, fs[|fs| - 1].exponent, w)
  }

  /**
   The library's divisor power sum: `num` is checked against 1, then `power`
   against 1, then the pair factorizer checks `num` against 2; the closed forms
   of the pairs are multiplied.
   */
  function SumOfDivisors2(n: int, power: int): (r: Result<int>)
    ensures r.Err? <==> n < 2 || power < 1
    ensures n < 1 ==> r == Err(BelowMinimum(n, 1))
    ensures n >= 1 && power < 1 ==> r == Err(BelowMinimum(power, 1))
    ensures n == 1 && power >= 1 ==> r == Err(BelowMinimum(1, 2))
  {
    match Validate(n, 1)
    case Fail(e) => Err(e)
    case Pass =>
      match Validate(power, 1)
      case Fail(e) => Err(e)
      case Pass =>
        match PairFactorization(n)
        case Err(e) => Err(e)
        case Ok(fs) => Ok(DivisorPowerSum(fs, power))
  }

  /** The product of the closed forms is the power sum of the fold of the power lists. */
  lemma {:induction false} DivisorPowerSumIsFold(fs: seq<PrimePower>, w: nat)
    requires IsCanonical(fs) && w >= 1
    ensures DivisorPowerSum(fs, w) == PowerSum(Combine(fs), w)
  {
    if fs != [] {
      var init, p, k := fs[..|fs| - 1], fs[|fs| - 1].prime, fs[|fs| - 1].exponent;
      CanonicalPrefix(fs);
      DivisorPowerSumIsFold(init, w);
      ClosedFormIsPowerSum(p, k, w);
      PowerSumMultComb(Combine(init), Powers(p, k), w);
    } else {
      PowOfOne(w);
      assert PowerSum([1], w) == PowerSum([], w) + Pow(1, w);
    }
  }

  /** The closed form for one pair is the sum of `d^w` over `d = p^0, ..., p^k`. */
  lemma ClosedFormIsPowerSum(p: int, k: nat, w: nat)
    requires p >= 2 && w >= 1
    ensures ClosedForm(p, k, w) == PowerSum(Powers(p, k), w)
  {
    GeometricTerm(p, k, w);
  }

  /** For `n >= 1` the closed forms of the pairs of `n` multiply to the sum of `d^w` over the divisors `d` of `n`. */
  lemma PairsPowerSum(n: int, w: nat)
    requires n >= 1 && w >= 1
    ensures IsCanonical(CanonicalForm(n))
    ensures DivisorPowerSum(CanonicalForm(n), w) == PowerSum(Combine(CanonicalForm(n)), w)
    ensures DivisorPowerSum(CanonicalForm(n), w) == PowerSum(DivisorList(n), w)
  {
    var fs := CanonicalForm(n);
    CanonicalFormCorrect(n);
    DivisorPowerSumIsFold(fs, w);
    DivisorEnumeration(fs);
    DivisorListCorrect(n);
    EnumerationsPermute(Combine(fs), DivisorList(n), n);
    PowerSumPermutation(Combine(fs), DivisorList(n), w);
  }

  lemma SumOfDivisors2Value(n: int, power: int)
    requires n >= 2 && power >= 1
    ensures IsCanonical(CanonicalForm(n))
    ensures SumOfDivisors2(n, power) == Ok(DivisorPowerSum(CanonicalForm(n), power))
  {
    CanonicalFormCorrect(n);
  }

  /**
   Above 1, the result is the sum of `d^power` over the positive divisors `d`
   of `n`, which is also the power sum of the enumeration `FactorsOf`.
   */
  lemma SumOfDivisors2Correct(n: int, power: int)
    requires n >= 2 && power >= 1
    ensures SumOfDivisors2(n, power) == Ok(PowerSum(DivisorList(n), power))
    ensures SumOfDivisors2(n, power) == Ok(PowerSum(FactorsOf(n, false).value, power))
  {
    SumOfDivisors2Value(n, power);
    PairsPowerSum(n, power);
    FactorsOfCorrect(n, false);
  }

  /** The only divisor of 1 is 1, so its divisor power sum is 1. */
  lemma PowerSumOfOne(w: nat)
    ensures DivisorList(1) == [1] && PowerSum(DivisorList(1), w) == 1
  {
    DividesSelf(1);
    assert DivisorList(1) == DivisorsUpTo(1, 0) + [1];
    PowOfOne(w);
    assert PowerSum([1], w) == PowerSum([], w) + Pow(1, w);
  }

  /**
   As written, `num = 1` passes the function's own check against 1 and is then
   rejected by the pair factorizer, although its divisor power sum is 1.
   */
  lemma SumOfDivisors2RejectsOne(power: int)
    requires power >= 1
    ensures SumOfDivisors2(1, power) == Err(BelowMinimum(1, 2))
    ensures PowerSum(DivisorList(1), power) == 1
  {
    PowerSumOfOne(power);
  }

  /**
   The divisor power sum with 1 accepted as its own check promises: the pairs
   of 1 are the empty list, whose product of closed forms is 1.
   */
  function SumOfDivisors(n: int, power: int): (r: Result<int>)
    ensures r.Err? <==> n < 1 || power < 1
    ensures n < 1 ==> r == Err(BelowMinimum(n, 1))
    ensures n >= 1 && power < 1 ==> r == Err(BelowMinimum(power, 1))
  {
    match Validate(n, 1)
    case Fail(e) => Err(e)
    case Pass =>
      match Validate(power, 1)
      case Fail(e) => Err(e)
      case Pass =>
        CanonicalFormCorrect(n);
        Ok(DivisorPowerSum(CanonicalForm(n), power))
  }

  /** For every `n >= 1`, including 1, the result is the sum of `d^power` over the divisors `d` of `n`; above 1 it agrees with `SumOfDivisors2`. */
  lemma SumOfDivisorsCorrect(n: int, power: int)
    requires n >= 1 && power >= 1
    ensures SumOfDivisors(n, power) == Ok(PowerSum(DivisorList(n), power))
    ensures n >= 2 ==> SumOfDivisors(n, power) == SumOfDivisors2(n, power)
  {
    PairsPowerSum(n, power);
  }

  // ---------------------------------------------------------------------------
  // Square-freeness

  function Square(d: int): int {
    d * d
  }

  /** No square above 1 divides `n`. */
  ghost predicate SquareFree(n: int) {
    forall d :: d >= 2 ==> !Divides(Square(d), n)
  }

  /** Every pair has multiplicity at most 1. */
  function NoRepeatedPrime(fs: seq<PrimePower>): bool {
    fs == [] || (NoRepeatedPrime(fs[..|fs| - 1]) && fs[|fs| - 1].exponent <= 1)
  }

  /**
   The library's square-free test: `num` is checked against 1; 1 is square-free;
   above 1 the test fails when some pair has multiplicity above 1.
   */
  function IsSquareFree(n: int): (r: Result<bool>)
    ensures r.Err? <==> n < 1
    ensures r.Err? ==> r.error == BelowMinimum(n, 1)
  {
    match Validate(n, 1)
    case Fail(e) => Err(e)
    case Pass =>
      if n > 1 then
        match PairFactorization(n)
        case Err(e) => Err(e)
        case Ok(fs) => Ok(NoRepeatedPrime(fs))
      else Ok(true)
  }

  lemma {:induction false} NoRepeatedPrimeMeans(fs: seq<PrimePower>)
    ensures NoRepeatedPrime(fs) <==> forall i :: 0 <= i < |fs| ==> fs[i].exponent <= 1
  {
    if fs != [] {
      NoRepeatedPrimeMeans(fs[..|fs| - 1]);
    }
  }

  /** Each pair's prime power divides the number the pairs stand for. */
  lemma {:induction false} PairPowerDividesValue(fs: seq<PrimePower>, i: int)
    requires IsCanonical(fs) && 0 <= i < |fs|
    ensures Divides(Pow(fs[i].prime, fs[i].exponent), Value(fs))
  {
    var init, last := fs[..|fs| - 1], fs[|fs| - 1];
    var q := Pow(last.prime, last.exponent);
    PowPositive(last.prime, last.exponent);
    if i == |fs| - 1 {
      DividesProduct(q, Value(init));
    } else {
      CanonicalPrefix(fs);
      PairPowerDividesValue(init, i);
      assert init[i] == fs[i];
      DividesMultiple(Pow(fs[i].prime, fs[i].exponent), Value(init), q);
    }
  }

  /** A pair with multiplicity at least 2 puts the square of its prime into the number. */
  lemma RepeatedPrimeDivides(fs: seq<PrimePower>, i: int)
    requires IsCanonical(fs) && 0 <= i < |fs| && fs[i].exponent >= 2
    ensures Divides(Square(fs[i].prime), Value(fs))
  {
    var p, k := fs[i].prime, fs[i].exponent;
    PairPowerDividesValue(fs, i);
    PowDividesPow(p, 2, k);
    PowTwo(p);
    DividesTransitive(Square(p), Pow(p, k), Value(fs));
  }

  lemma PowTwo(p: int)
    ensures Pow(p, 2) == Square(p)
  {
    assert Pow(p, 1) == p;
  }

  lemma {:induction false} RepeatCount(p: int, k: nat, q: int)
    ensures multiset(Repeat(p, k))[q] == if p == q then k else 0
  {
    if k > 0 {
      RepeatCount(p, k - 1, q);
      RepeatSnoc(p, k - 1);
    }
  }

  /** A prime occurring twice in the written-out canonical pairs has a pair with multiplicity at least 2. */
  lemma {:induction false} RepeatedInExpand(fs: seq<PrimePower>, q: int)
    requires IsCanonical(fs) && multiset(Expand(fs))[q] >= 2
    ensures exists i :: 0 <= i < |fs| && fs[i].exponent >= 2
  {
    var init, p, k := fs[..|fs| - 1], fs[|fs| - 1].prime, fs[|fs| - 1].exponent;
    assert Expand(fs) == Expand(init) + Repeat(p, k);
    RepeatCount(p, k, q);
    CanonicalPrefix(fs);
    if k >= 2 {
      assert fs[|fs| - 1].exponent >= 2;
    } else if p == q {
      assert q in Expand(init);
      InExpand(init, q);
    } else {
      RepeatedInExpand(init, q);
      var i :| 0 <= i < |init| && init[i].exponent >= 2;
      assert fs[i] == init[i];
    }
  }

  /** A square above 1 dividing `n` forces a repeated prime in the factorization of `n`. */
  lemma SquareDividesRepeated(n: int, d: int)
    requires n >= 2 && d >= 2 && Divides(Square(d), n)
    ensures exists i :: 0 <= i < |CanonicalForm(n)| && CanonicalForm(n)[i].exponent >= 2
  {
    var q := SmallestFactor(d);
    SmallestFactorIsPrime(d);
    DividesBoth(q, d, q, d);
    DividesTransitive(q * q, d * d, n);
    var r := n / (q * q);
    DividesQuotient(q * q, n);
    DivisorAtMost(q * q, n);
    FactorizationCorrect(r);
    var s := [q, q] + Factorization(r);
    ProductCons(q, [q] + Factorization(r));
    ProductCons(q, Factorization(r));
    assert [q] + ([q] + Factorization(r)) == s;
    MulAssoc(q, q, r);
    forall i | 0 <= i < |s|
      ensures Prime(s[i])
    {
      if i >= 2 {
        assert s[i] == Factorization(r)[i - 2];
      }
    }
    FactorizationUnique(n, s);
    CanonicalFormCorrect(n);
    assert multiset(s)[q] >= 2;
    RepeatedInExpand(CanonicalForm(n), q);
  }

  /** 1 is square-free. */
  lemma OneSquareFree()
    ensures SquareFree(1)
  {
    forall d | d >= 2
      ensures !Divides(Square(d), 1)
    {
      MulAtLeast(d, d);
      if Divides(Square(d), 1) {
        DivisorAtMost(Square(d), 1);
      }
    }
  }

  /** The test answers true exactly when no square above 1 divides `n`. */
  lemma IsSquareFreeCorrect(n: int)
    requires n >= 1
    ensures IsSquareFree(n) == Ok(SquareFree(n))
  {
    if n == 1 {
      OneSquareFree();
    } else {
      var fs := CanonicalForm(n);
      CanonicalFormCorrect(n);
      NoRepeatedPrimeMeans(fs);
      if NoRepeatedPrime(fs) {
        forall d | d >= 2
          ensures !Divides(Square(d), n)
        {
          if Divides(Square(d), n) {
            SquareDividesRepeated(n, d);
          }
        }
      } else {
        var i :| 0 <= i < |fs| && fs[i].exponent >= 2;
        RepeatedPrimeDivides(fs, i);
      }
    }
  }

  // ---------------------------------------------------------------------------
  // Worked values

  lemma PairsOfTen()
    ensures PairFactorization(10) == Ok([PrimePower(2, 1), PrimePower(5, 1)])
  {
    var fs := [PrimePower(2, 1), PrimePower(5, 1)];
    assert Prime(5) by {
      assert !Divides(2, 5) && !Divides(3, 5) && !Divides(4, 5);
    }
    assert IsCanonical(fs);
    assert Value(fs[..1]) == 2;
    CanonicalUnique(fs);
  }

  /** The folds over a list of two pairs. */
  lemma TwoPairs(a: PrimePower, b: PrimePower, w: nat)
    requires Prime(a.prime) && Prime(b.prime) && a.prime < b.prime && a.exponent >= 1 && b.exponent >= 1 && w >= 1
    ensures IsCanonical([a, b])
    ensures TotientOf([a, b]) == (Pow(a.prime, a.exponent - 1) * (a.prime - 1)) * (Pow(b.prime, b.exponent - 1) * (b.prime - 1))
    ensures DivisorCount([a, b]) == (a.exponent + 1) * (b.exponent + 1)
    ensures DivisorPowerSum([a, b], w) == ClosedForm(a.prime, a.exponent, w) * ClosedForm(b.prime, b.exponent, w)
  {
    var fs := [a, b];
    assert fs[..1] == [a] && fs[1] == b;
    assert [a][..0] == [] && [a][0] == a;
    assert DivisorCount([a]) == DivisorCount([]) * (a.exponent + 1);
    assert DivisorCount(fs) == DivisorCount([a]) * (b.exponent + 1);
    TwoPairsTotient(a, b);
    TwoPairsPowerSum(a, b, w);
  }

  lemma TwoPairsTotient(a: PrimePower, b: PrimePower)
    requires a.exponent >= 1 && b.exponent >= 1
    ensures TotientOf([a, b]) == (Pow(a.prime, a.exponent - 1) * (a.prime - 1)) * (Pow(b.prime, b.exponent - 1) * (b.prime - 1))
  {
    var fs := [a, b];
    assert fs[..1] == [a] && fs[1] == b;
    assert [a][..0] == [] && [a][0] == a;
    var ta, tb := Pow(a.prime, a.exponent - 1) * (a.prime - 1), Pow(b.prime, b.exponent - 1) * (b.prime - 1);
    assert TotientOf([a]) == TotientOf([]) * ta;
    assert TotientOf(fs) == TotientOf([a]) * tb;
  }

  lemma TwoPairsPowerSum(a: PrimePower, b: PrimePower, w: nat)
    requires IsCanonical([a, b]) && w >= 1
    ensures a.prime >= 2 && b.prime >= 2
    ensures DivisorPowerSum([a, b], w) == ClosedForm(a.prime, a.exponent, w) * ClosedForm(b.prime, b.exponent, w)
  {
    var fs := [a, b];
    assert fs[0] == a && fs[1] == b;
    assert fs[..1] == [a];
    assert [a][..0] == [] && [a][0] == a;
    var ca, cb := ClosedForm(a.prime, a.exponent, w), ClosedForm(b.prime, b.exponent, w);
    assert DivisorPowerSum([a], w) == DivisorPowerSum([], w) * ca;
    assert DivisorPowerSum(fs, w) == DivisorPowerSum([a], w) * cb;
  }

  /** `phi(10) == 4` and `10` has 4 divisors. */
  lemma PhiAndCountOfTen()
    ensures Phi(10) == Ok(4) && NumberOfFactors(10) == Ok(4)
  {
    PairsOfTen();
    TwoPairs(PrimePower(2, 1), PrimePower(5, 1), 1);
  }

  /** `1 + 2 + 5 + 10 == 18` and `1 + 4 + 25 + 100 == 130`. */
  lemma DivisorSumsOfTen()
    ensures SumOfDivisors2(10, 1) == Ok(18) && SumOfDivisors2(10, 2) == Ok(130)
  {
    PairsOfTen();
    TwoPairs(PrimePower(2, 1), PrimePower(5, 1), 1);
    TwoPairs(PrimePower(2, 1), PrimePower(5, 1), 2);
    ClosedFormsOfTen();
  }

  lemma ClosedFormsOfTen()
    ensures ClosedForm(2, 1, 1) == 3 && ClosedForm(5, 1, 1) == 6
    ensures ClosedForm(2, 1, 2) == 5 && ClosedForm(5, 1, 2) == 26
  {
    assert Pow(2, 2) == 4 && Pow(5, 2) == 25;
    assert Pow(2, 4) == 16;
    assert Pow(5, 4) == 625;
  }

  lemma PairsOfThirtySix()
    ensures PairFactorization(36) == Ok([PrimePower(2, 2), PrimePower(3, 2)])
  {
    var fs := [PrimePower(2, 2), PrimePower(3, 2)];
    assert Prime(3) by {
      assert !Divides(2, 3);
    }
    assert IsCanonical(fs);
    assert Value(fs[..1]) == 4;
    CanonicalUnique(fs);
  }

  /** `36 = 2^2 * 3^2` has two distinct primes and is not square-free. */
  lemma ThirtySix()
    ensures UniquePrimes(36) == Ok(2) && IsSquareFree(36) == Ok(false)
  {
    PairsOfThirtySix();
    assert [PrimePower(2, 2), PrimePower(3, 2)][..1] == [PrimePower(2, 2)];
  }

  /** `lambda(4) == 1`: two prime factors. */
  lemma LiouvilleOfFour()
    ensures Liouville(4) == Ok(1)
  {
    var fs := [PrimePower(2, 2)];
    assert fs[..0] == [];
    assert Value(fs) == Value([]) * Pow(2, 2);
    CanonicalUnique(fs);
    assert ExponentSum(fs) == ExponentSum([]) + 2;
  }

  /** `lambda(8) == -1`: three prime factors. */
  lemma LiouvilleOfEight()
    ensures Liouville(8) == Ok(-1)
  {
    var fs := [PrimePower(2, 3)];
    assert fs[..0] == [];
    assert Value(fs) == Value([]) * Pow(2, 3);
    CanonicalUnique(fs);
    assert ExponentSum(fs) == ExponentSum([]) + 3;
  }
}
