/**
 The library's trial-division routines: the factorizer that lists primes with
 repeats, the factorizer that returns `(prime, multiplicity)` pairs, and the
 primality test. Each floating-point square-root bound `candidate <= sqrt(m)` of
 the library is modelled by the integer condition `candidate * candidate <= m`.
 */
module TrialDivision {
  import opened Arith
  import opened Primes
  import opened RunLength
  import opened Validation

  /**
   Prime factors with repeats, by trial division: 2 first, then odd candidates,
   with the bound shrinking as the cofactor shrinks; a cofactor left above 1 is
   itself prime.
   */
  method PrimeFactors(n: int) returns (r: Result<seq<int>>)
    ensures r.Err? <==> n < 2
    ensures r.Err? ==> r.error == BelowMinimum(n, 2)
    ensures r.Ok? ==> r.value == Factorization(n)
    ensures r.Ok? ==> Product(r.value) == n && Sorted(r.value)
    ensures r.Ok? ==> forall i :: 0 <= i < |r.value| ==> Prime(r.value[i])
  {
    var v := Validate(n, 2);
    if v.Fail? {
      return Err(v.error);
    }
    var num, factor := n, 2;
    var factors: seq<int> := [];
    ghost var half := 0;
    while factor * factor <= num
      invariant 2 <= factor <= n + 2 && 1 <= num <= n
      invariant factors + Factorization(num) == Factorization(n)
      invariant NoDivisorBelow(num, factor)
      invariant factor == 2 || factor == 2 * half + 1
      decreases num, n + 2 - factor
    {
      SquareBound(factor, num);
      if num % factor == 0 {
        DivideOut(n, num, factor, factors);
        factors := factors + [factor];
        num := num / factor;
      } else if factor == 2 {
        factor, half := 3, 1;
      } else {
        OddSkipsEven(num, factor, half);
        factor, half := factor + 2, half + 1;
      }
    }
    Leftover(n, num, factor, factors);
    if num > 1 {
      factors := factors + [num];
    }
    return Ok(factors);
  }

  /** A candidate whose square is at most `m` lies below `m`. */
  lemma SquareBound(c: int, m: int)
    requires c >= 2 && c * c <= m
    ensures c < m
  {
    MulAtLeast(c, c - 1);
  }

  /** Dividing the cofactor by its least factor moves that factor to the output list. */
  lemma DivideOut(n: int, num: int, factor: int, factors: seq<int>)
    requires n >= 1 && 2 <= factor && 1 <= num
    requires factors + Factorization(num) == Factorization(n)
    requires NoDivisorBelow(num, factor) && Divides(factor, num)
    ensures 1 <= num / factor < num
    ensures (factors + [factor]) + Factorization(num / factor) == Factorization(n)
    ensures NoDivisorBelow(num / factor, factor)
  {
    DivisorAtMost(factor, num);
    SmallestFactorIs(num, factor);
    NoDivisorBelowQuotient(num, factor, factor);
    QuotientSmaller(num, factor);
  }

  /** After the loop the cofactor is 1 or a prime, and appending it completes the factorization. */
  lemma Leftover(n: int, num: int, factor: int, factors: seq<int>)
    requires n >= 1 && 2 <= factor && 1 <= num && factor * factor > num
    requires factors + Factorization(num) == Factorization(n)
    requires NoDivisorBelow(num, factor)
    ensures var result := if num > 1 then factors + [num] else factors;
      && result == Factorization(n) && Product(result) == n && Sorted(result)
      && forall i :: 0 <= i < |result| ==> Prime(result[i])
  {
    if num > 1 {
      NoSmallDivisorPrime(num, factor);
      FactorizationOfPrime(num);
    }
    FactorizationCorrect(n);
  }

  /** With 2 ruled out and odd `f` not dividing `m`, nothing below `f + 2` divides `m`. */
  lemma OddSkipsEven(m: int, f: int, h: int)
    requires f >= 3 && f == 2 * h + 1 && NoDivisorBelow(m, f) && !Divides(f, m)
    ensures NoDivisorBelow(m, f + 2)
  {
    if Divides(f + 1, m) {
      DividesProduct(2, h + 1);
      DividesTransitive(2, f + 1, m);
    }
  }

  /**
   Factorization as ascending `(prime, multiplicity)` pairs. Powers of 2 are
   removed first; then odd candidates are tried while `candidate^2 <= bound`,
   where `bound` starts as the ORIGINAL input (the square root taken before the
   2s are removed) and afterwards is the current cofactor. The run counter is
   reset to 0 after every candidate, so a leftover prime is recorded with
   multiplicity `0 + 1`.
   */
  method PrimeFactors2(n: int) returns (r: Result<seq<PrimePower>>)
    ensures r.Err? <==> n < 2
    ensures r.Err? ==> r.error == BelowMinimum(n, 2)
    ensures r.Ok? ==> r.value == RunLengthEncode(Factorization(n))
    ensures r.Ok? ==> IsCanonical(r.value) && Value(r.value) == n
    ensures r.Ok? ==> Expand(r.value) == Factorization(n)
    ensures r == PairFactorization(n)
  {
    var v := Validate(n, 2);
    if v.Fail? {
      return Err(v.error);
    }
    var num, factor := n, 2;
    var factors: seq<PrimePower> := [];
    var counter := 0;
    num, counter := DivideRun(num, factor, n, factors);
    CandidateSkipped(num, factor);
    CloseRun(factors, factor, 3, counter, Factorization(num), Factorization(n));
    if counter > 0 {
      factors := factors + [PrimePower(factor, counter)];
      counter := 0;
    }
    factor := factor + 1;
    num, factors := OddRuns(num, factor, n, factors);
    assert counter + 1 == 1;
    if num > 1 {
      factors := factors + [PrimePower(num, counter + 1)];
    }
    CanonicalFormCorrect(n);
    return Ok(factors);
  }

  /**
   What the pair factorizer returns, as a value: the failed validation below 2,
   otherwise the canonical pairs of `n`. The operations built on the pair
   factorizer are stated over this function.
   */
  function PairFactorization(n: int): (r: Result<seq<PrimePower>>)
    ensures r.Err? <==> n < 2
    ensures r.Err? ==> r.error == BelowMinimum(n, 2)
    ensures r.Ok? ==> IsCanonical(r.value) && Value(r.value) == n && Expand(r.value) == Factorization(n)
  {
    if n < 2 then Err(BelowMinimum(n, 2))
    else
      CanonicalFormCorrect(n);
      Ok(CanonicalForm(n))
  }

  /**
   The odd-candidate phase of the pair factorizer, starting at candidate 3 with
   the bound equal to the routine's input. On return the cofactor is 1, or a
   prime whose pair `(num, 1)` completes the list.
   */
  method OddRuns(num0: int, factor0: int, n: int, factors0: seq<PrimePower>) returns (num: int, factors: seq<PrimePower>)
    requires factor0 == 3 && 1 <= num0 <= n && NoDivisorBelow(num0, factor0)
    requires Expand(factors0) + Factorization(num0) == Factorization(n)
    requires IsCanonical(factors0) && forall i :: 0 <= i < |factors0| ==> factors0[i].prime < factor0
    ensures num >= 1
    ensures num == 1 ==> factors == RunLengthEncode(Factorization(n))
    ensures num > 1 ==> factors + [PrimePower(num, 1)] == RunLengthEncode(Factorization(n))
  {
    num, factors := num0, factors0;
    var factor, bound, counter := factor0, n, 0;
    ghost var half := 1;
    while factor * factor <= bound
      invariant 3 <= factor && factor == 2 * half + 1
      invariant 1 <= num <= bound
      invariant NoDivisorBelow(num, factor)
      invariant Expand(factors) + Factorization(num) == Factorization(n)
      invariant IsCanonical(factors)
      invariant forall i :: 0 <= i < |factors| ==> factors[i].prime < factor
      decreases bound - factor
    {
      SquareBound(factor, bound);
      num, counter := DivideRun(num, factor, n, factors);
      OddSkipsEven(num, factor, half);
      CloseRun(factors, factor, factor + 2, counter, Factorization(num), Factorization(n));
      if counter > 0 {
        factors := factors + [PrimePower(factor, counter)];
      }
      counter := 0;
      factor, half := factor + 2, half + 1;
      bound := num;
    }
    FinishPairs(n, num, factor, factors);
  }

  /**
   The inner loop of the pair factorizer: divide `f` out of `num` as often as it
   goes, counting the divisions. The count is the length of the run of `f` at the
   front of the cofactor's factorization.
   */
  method DivideRun(num: int, f: int, ghost n: int, ghost fs: seq<PrimePower>) returns (rest: int, count: nat)
    requires n >= 1 && f >= 2 && 1 <= num && NoDivisorBelow(num, f)
    requires Expand(fs) + Factorization(num) == Factorization(n)
    ensures 1 <= rest <= num && !Divides(f, rest) && NoDivisorBelow(rest, f)
    ensures Expand(fs) + Repeat(f, count) + Factorization(rest) == Factorization(n)
    ensures count > 0 ==> Prime(f)
  {
    rest, count := num, 0;
    assert Repeat(f, 0) == [];
    while rest % f == 0
      invariant 1 <= rest <= num && NoDivisorBelow(rest, f)
      invariant Expand(fs) + Repeat(f, count) + Factorization(rest) == Factorization(n)
      invariant count > 0 ==> Prime(f)
      decreases rest
    {
      ExtendRun(n, rest, f, fs, count);
      rest, count := rest / f, count + 1;
    }
  }

  /** Dividing out the candidate once more lengthens the current run by one. */
  lemma ExtendRun(n: int, num: int, f: int, fs: seq<PrimePower>, counter: nat)
    requires n >= 1 && f >= 2 && 1 <= num
    requires Expand(fs) + Repeat(f, counter) + Factorization(num) == Factorization(n)
    requires NoDivisorBelow(num, f) && Divides(f, num)
    ensures 1 <= num / f < num && Prime(f)
    ensures NoDivisorBelow(num / f, f)
    ensures Expand(fs) + Repeat(f, counter + 1) + Factorization(num / f) == Factorization(n)
  {
    DivisorAtMost(f, num);
    SmallestFactorIs(num, f);
    NoDivisorBelowQuotient(num, f, f);
    QuotientSmaller(num, f);
    RepeatSnoc(f, counter);
  }

  /** A candidate that does not divide `m` can be stepped over. */
  lemma CandidateSkipped(m: int, f: int)
    requires NoDivisorBelow(m, f) && !Divides(f, m)
    ensures NoDivisorBelow(m, f + 1)
  {
  }

  /**
   Closing a run: the pair `(f, counter)` joins the list when `counter > 0`, and
   the list stays canonical with every prime below the next candidate.
   */
  lemma CloseRun(fs: seq<PrimePower>, f: int, next: int, counter: nat, tail: seq<int>, whole: seq<int>)
    requires f < next && (counter > 0 ==> Prime(f))
    requires Expand(fs) + Repeat(f, counter) + tail == whole
    requires IsCanonical(fs) && forall i :: 0 <= i < |fs| ==> fs[i].prime < f
    ensures counter == 0 ==> Expand(fs) + tail == whole
    ensures counter > 0 ==> Expand(fs + [PrimePower(f, counter)]) + tail == whole
    ensures counter > 0 ==> IsCanonical(fs + [PrimePower(f, counter)])
    ensures counter > 0 ==> forall i :: 0 <= i < |fs| + 1 ==> (fs + [PrimePower(f, counter)])[i].prime < next
  {
    if counter > 0 {
      var g := PrimePower(f, counter);
      AppendLargerPrime(fs, g);
    } else {
      assert Expand(fs) + Repeat(f, counter) == Expand(fs);
    }
  }

  /** Appending a pair whose prime exceeds every prime so far keeps a pair list canonical. */
  lemma AppendLargerPrime(fs: seq<PrimePower>, g: PrimePower)
    requires IsCanonical(fs) && Prime(g.prime) && g.exponent >= 1
    requires forall i :: 0 <= i < |fs| ==> fs[i].prime < g.prime
    ensures IsCanonical(fs + [g])
    ensures Expand(fs + [g]) == Expand(fs) + Repeat(g.prime, g.exponent)
  {
    ExpandSnoc(fs, g);
    AppendPrimePowers(fs, g);
    AppendAscending(fs, g);
  }

  lemma AppendPrimePowers(fs: seq<PrimePower>, g: PrimePower)
    requires forall i :: 0 <= i < |fs| ==> Prime(fs[i].prime) && fs[i].exponent >= 1
    requires Prime(g.prime) && g.exponent >= 1
    ensures forall i :: 0 <= i < |fs + [g]| ==> Prime((fs + [g])[i].prime) && (fs + [g])[i].exponent >= 1
  {
    var t := fs + [g];
    forall i | 0 <= i < |t|
      ensures Prime(t[i].prime) && t[i].exponent >= 1
    {
      if i < |fs| {
        assert t[i] == fs[i];
      }
    }
  }

  lemma AppendAscending(fs: seq<PrimePower>, g: PrimePower)
    requires forall i, j :: 0 <= i < j < |fs| ==> fs[i].prime < fs[j].prime
    requires forall i :: 0 <= i < |fs| ==> fs[i].prime < g.prime
    ensures forall i, j :: 0 <= i < j < |fs + [g]| ==> (fs + [g])[i].prime < (fs + [g])[j].prime
  {
    var t := fs + [g];
    forall i, j | 0 <= i < j < |t|
      ensures t[i].prime < t[j].prime
    {
      assert t[i] == fs[i];
      if j < |fs| {
        assert t[j] == fs[j];
      }
    }
  }

  /** The cofactor left after the loop is 1 or a prime larger than every listed prime. */
  lemma FinishPairs(n: int, num: int, factor: int, fs: seq<PrimePower>)
    requires n >= 1 && 1 <= num && factor >= 2 && factor * factor > num
    requires NoDivisorBelow(num, factor)
    requires Expand(fs) + Factorization(num) == Factorization(n)
    requires IsCanonical(fs) && forall i :: 0 <= i < |fs| ==> fs[i].prime < factor
    ensures num == 1 ==> fs == RunLengthEncode(Factorization(n))
    ensures num > 1 ==> fs + [PrimePower(num, 1)] == RunLengthEncode(Factorization(n))
  {
    if num > 1 {
      NoSmallDivisorPrime(num, factor);
      FactorizationOfPrime(num);
      DividesSelf(num);
      var g := PrimePower(num, 1);
      AppendLargerPrime(fs, g);
      assert Repeat(num, 1) == [num];
      EncodesFactorization(fs + [g], n);
    } else {
      assert Expand(fs) + [] == Expand(fs);
      EncodesFactorization(fs, n);
    }
  }

  /** A canonical pair list that writes out to the factorization of `n` is its encoding. */
  lemma EncodesFactorization(fs: seq<PrimePower>, n: int)
    requires n >= 1 && IsCanonical(fs) && Expand(fs) == Factorization(n)
    ensures fs == RunLengthEncode(Factorization(n))
  {
    RunLengthExpand(fs);
  }

  /** Primality by trial division over `2, 3, 4, ...` while the candidate's square is at most `n`. */
  method IsPrime(n: int) returns (r: Result<bool>)
    ensures r.Err? <==> n < 2
    ensures r.Err? ==> r.error == BelowMinimum(n, 2)
    ensures r.Ok? ==> (r.value <==> Prime(n))
  {
    var v := Validate(n, 2);
    if v.Fail? {
      return Err(v.error);
    }
    var candidate := 2;
    while candidate * candidate <= n
      invariant 2 <= candidate && NoDivisorBelow(n, candidate)
      decreases n - candidate
    {
      SquareBound(candidate, n);
      if n % candidate == 0 {
        assert Divides(candidate, n);
        return Ok(false);
      }
      candidate := candidate + 1;
    }
    NoSmallDivisorPrime(n, candidate);
    return Ok(true);
  }

  /** The worked value `36 = 2 * 2 * 3 * 3`. */
  lemma FactorizationOfThirtySix()
    ensures Factorization(36) == [2, 2, 3, 3]
  {
    assert Prime(3) by {
      assert !Divides(2, 3);
    }
    DividesSelf(3);
    SmallestFactorIs(3, 3);
    SmallestFactorIs(9, 3);
    SmallestFactorIs(18, 2);
    SmallestFactorIs(36, 2);
  }

  /** The worked values: 7 is prime and 6 is not. */
  lemma SevenAndSix()
    ensures Prime(7) && !Prime(6)
  {
    forall d | 2 <= d < 7
      ensures !Divides(d, 7)
    {
      assert d == 2 || d == 3 || d == 4 || d == 5 || d == 6;
    }
    assert Divides(2, 6);
  }
}
