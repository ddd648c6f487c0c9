# math_extended, modelled in Dafny

A model of the number-theory library `math_extended.py`. The library is a flat set
of pure functions on integers:

- a validation gate;
- two trial-division factorizers;
- the arithmetic functions computed from the `(prime, multiplicity)` factorization:
  Euler's phi, the number of divisors, the divisor power sums, the square-free test,
  the number of distinct primes and Liouville's lambda;
- divisor enumeration by Cartesian products of prime-power lists;
- a primality test;
- four decimal-digit routines;
- three figurate numbers;
- the Collatz sequence length.

Each routine's failure is modelled as a value, not an exception. A routine fails when
its argument is below the routine's minimum. The library then raises `ValueError`, whose
message names only the minimum. The model returns `Err(BelowMinimum(value, minimum))`,
which records both the rejected value and the minimum.

The library's default arguments become explicit parameters in the model:

- `power=1` of `sum_of_divisors2` is the `power` parameter of `Multiplicative.SumOfDivisors2`;
- `include_first=True` of `collatz` is the `includeFirst` parameter of `Collatz.CollatzLength`;
- `sort=False` of `factors_of` is the `sort` parameter of `Divisors.FactorsOf`.

The library's floating-point square-root bounds become the integer condition
`d * d <= n` (see "## Left out"). `prime_factors2` keeps its stale loop bound, as the
library does. The bound starts as the input itself and is recomputed from the cofactor
only after each odd candidate. `TrialDivision.OddRuns` models that loop.

Each routine is stated against an independent reference definition:

| Reference definition | Used for |
|---|---|
| `Primes.Factorization`: split off the least divisor above 1, then recurse | factorizers |
| `RunLength.CanonicalForm`: its run-length encoding into `(prime, multiplicity)` pairs | factorizers |
| `Divisors.DivisorList`: the ascending list of all positive divisors | divisor routines |
| `Digits.Digits`: the decimal digits, most significant first | digit routines |
| `Figurate.Polygonal`: the n-th s-gonal number, built one gnomon at a time | figurate numbers |
| `Collatz.IsStoppingTime`: the least number of steps after which the Collatz iteration reaches 1 | Collatz length |

Modules:

| File | Module | Contents |
|---|---|---|
| `validation.dfy` | `Validation` | the gate and the `Result` type |
| `arith.dfy` | `Arith` | divisibility, powers, products, sums, primality, Euclid's lemma |
| `primes.dfy` | `Primes` | the reference factorization and the fundamental theorem of arithmetic |
| `runlength.dfy` | `RunLength` | `(prime, multiplicity)` pairs, run-length encoding, canonical form |
| `trial_division.dfy` | `TrialDivision` | `prime_factors`, `prime_factors2`, `is_prime` as loop methods |
| `divisors.dfy` | `Divisors` | `mult_comb`, `factors_of`, sorting, divisor power sums |
| `multiplicative.dfy` | `Multiplicative` | `phi`, `number_of_factors`, `sum_of_divisors2`, `is_square_free`, `unique_primes`, `liouville` |
| `digits.dfy` | `Digits` | `is_palindrome`, `sum_of_digits`, `non_increasing_number`, `non_decreasing_number` |
| `figurate.dfy` | `Figurate` | `triangle_num`, `pentagonal_num`, `hexagonal_num` |
| `collatz.dfy` | `Collatz` | `collatz` |

The routines with loops in the library are modelled as methods with loop invariants:

- `prime_factors` and `prime_factors2`;
- `is_prime`;
- the digit routines;
- `collatz`.

The routines that only fold over `prime_factors2`'s pairs are modelled as functions:

- `phi`, `number_of_factors` and `sum_of_divisors2`;
- `is_square_free`, `unique_primes` and `liouville`;
- `factors_of`.

These functions go through `TrialDivision.PairFactorization`. That function is proved
equal to what the `prime_factors2` method returns (`TrialDivision.PrimeFactors2`).

## Model

| member | source | states |
|---|---|---|
| Validation.Validate | math_extended.py:6-10 | passes exactly when the value is at least the minimum; otherwise the failure carries the value and the minimum |
| TrialDivision.PrimeFactors | math_extended.py:15-31 | rejects n < 2 with BelowMinimum(n, 2); otherwise the result is the reference factorization of n: ascending, all prime, product exactly n |
| Primes.FactorizationCorrect | math_extended.py:13-14 | the reference factorization multiplies back to n, holds only primes dividing n and is ascending |
| Primes.FactorizationUnique | math_extended.py:13-31 | any list of primes with product n is a permutation of the reference factorization, so the factorizer's answer is the only possible one up to order |
| Primes.SortedFactorizationUnique | math_extended.py:13-31 | an ascending list of primes with product n is the reference factorization itself |
| Primes.NoSmallDivisorPrime | math_extended.py:20-30 | a cofactor above 1 with no divisor below a bound whose square exceeds it is prime, which is why the leftover is appended as a prime |
| TrialDivision.FactorizationOfThirtySix | math_extended.py:14 | the factorization of 36 is [2, 2, 3, 3] |
| TrialDivision.PrimeFactors2 | math_extended.py:37-64 | rejects n < 2; otherwise the pairs are the run-length encoding of the factorization, primes strictly ascending, every multiplicity at least 1, and the product of p^k is n |
| TrialDivision.PairFactorization | math_extended.py:37-64 | the pair list the derived functions use: fails exactly for n < 2 and is otherwise canonical, with value n and expansion equal to the factorization |
| TrialDivision.OddRuns | math_extended.py:51-63 | the odd-candidate loop with its stale square-root bound leaves a list that, with the leftover prime at multiplicity 1, is the encoding of the factorization |
| TrialDivision.DivideRun | math_extended.py:53-55 | dividing out a candidate repeatedly removes exactly a run of that prime from the remaining factorization |
| RunLength.ExpandRunLength | math_extended.py:34-36 | writing the encoded pairs out again gives back the list that was encoded |
| RunLength.RunLengthExpand | math_extended.py:34-36 | encoding the expansion of a canonical pair list gives back the pair list |
| RunLength.CanonicalFormCorrect | math_extended.py:34-36 | the canonical form of n is canonical, expands to the factorization of n and has value n |
| RunLength.CanonicalUnique | math_extended.py:34-36 | a canonical pair list is the canonical form of its own value: pair factorizations are unique |
| RunLength.InExpand | math_extended.py:34-36 | x occurs in the expansion exactly when some pair has prime x and a multiplicity of at least 1 |
| Multiplicative.PairsOfThirtySix | math_extended.py:36 | the pair factorization of 36 is [(2, 2), (3, 2)] |
| TrialDivision.IsPrime | math_extended.py:134-142 | rejects n < 2; otherwise true exactly when n is prime, that is, when no d with 2 <= d, d * d <= n divides n |
| TrialDivision.SevenAndSix | math_extended.py:132-133 | 7 is prime and 6 is not |
| Multiplicative.Phi | math_extended.py:70-75 | fails exactly for n < 2, with BelowMinimum(n, 2) |
| Multiplicative.PhiCorrect | math_extended.py:67-75 | for n >= 2, phi(n) times the product of n's primes equals n times the product of (p - 1), and 1 <= phi(n) < n |
| Multiplicative.PhiOfPrimePower | math_extended.py:70-75 | phi(p^k) = p^k - p^(k-1) |
| Multiplicative.TotientProductFormula | math_extended.py:73-74 | the product of p^(k-1) * (p - 1) is n times the product of (1 - 1/p), stated without fractions |
| Multiplicative.PhiAndCountOfTen | math_extended.py:67-85 | phi(10) = 4 and number_of_factors(10) = 4 |
| Multiplicative.NumberOfFactors | math_extended.py:80-85 | fails exactly for n < 2, with BelowMinimum(n, 2) |
| Multiplicative.NumberOfFactorsCorrect | math_extended.py:80-85 | the product of (k + 1) is the number of positive divisors of n, and the length of factors_of(n) |
| Multiplicative.SumOfDivisors2 | math_extended.py:91-99 | checks n >= 1, then power >= 1, then n >= 2 in the factorizer, failing with the first violated minimum |
| Multiplicative.SumOfDivisors2Correct | math_extended.py:88-99 | for n >= 2 and power >= 1 the product of geometric terms is the sum of d^power over all divisors d of n, in either divisor order |
| Divisors.GeometricTerm | math_extended.py:98 | p^power - 1 divides p^(power (k+1)) - 1 exactly, and the quotient is the sum of the powers of 1, p, ..., p^k |
| Multiplicative.DivisorSumsOfTen | math_extended.py:89-90 | sum_of_divisors2(10) = 18 and sum_of_divisors2(10, 2) = 130 |
| Multiplicative.SumOfDivisors2RejectsOne | math_extended.py:91-99 | for every valid power, sum_of_divisors2(1, power) fails with BelowMinimum(1, 2), while the divisor power sum of 1 is 1 |
| Multiplicative.SumOfDivisors | math_extended.py:91-99 | the corrected routine: fails exactly for n < 1 or power < 1 |
| Multiplicative.SumOfDivisorsCorrect | math_extended.py:88-99 | the corrected routine is the divisor power sum for every n >= 1, and agrees with sum_of_divisors2 wherever n >= 2 |
| Multiplicative.IsSquareFree | math_extended.py:105-113 | fails exactly for n < 1 |
| Multiplicative.IsSquareFreeCorrect | math_extended.py:102-113 | for n >= 1, true exactly when no square d^2 with d >= 2 divides n; in particular 1 is square-free |
| Multiplicative.UniquePrimes | math_extended.py:147-148 | fails exactly for n < 2 |
| Multiplicative.UniquePrimesCorrect | math_extended.py:145-148 | the number of pairs is the number of distinct primes dividing n |
| Multiplicative.ThirtySix | math_extended.py:102-148 | unique_primes(36) = 2 and is_square_free(36) is false |
| Multiplicative.Liouville | math_extended.py:155-160 | fails exactly for n < 2; otherwise the value is 1 or -1 |
| Multiplicative.LiouvilleCorrect | math_extended.py:151-160 | the value is (-1) raised to the number of prime factors counted with multiplicity |
| Multiplicative.LiouvilleMultiplicative | math_extended.py:155-160 | lambda(a b) = lambda(a) lambda(b) |
| Primes.PrimeCountAdditive | math_extended.py:155-160 | the number of prime factors with multiplicity is additive over products |
| Multiplicative.LiouvilleOfFour | math_extended.py:153 | liouville(4) = 1 |
| Multiplicative.LiouvilleOfEight | math_extended.py:154 | liouville(8) = -1 |
| Divisors.MultCombLength | math_extended.py:256-261 | mult_comb of lists of lengths a and b has length a b |
| Divisors.MultCombOnlyProducts | math_extended.py:256-261 | every entry of mult_comb is a product of an entry of each list |
| Divisors.MultCombHasProduct | math_extended.py:256-261 | every product of an entry of each list is in mult_comb |
| Divisors.MultCombDistinct | math_extended.py:256-261 | when all products are distinct, mult_comb has no repeats |
| Divisors.ReduceIsCombine | math_extended.py:253-262 | folding mult_comb over the prime-power lists from the first list is the divisor combination of the pairs |
| Divisors.DivisorEnumeration | math_extended.py:250-262 | the combination of a canonical pair list holds each divisor of its value exactly once and nothing else |
| Divisors.CombineLength | math_extended.py:250-262 | the number of combined divisors is the product of (k + 1) |
| Divisors.FactorsOfCorrect | math_extended.py:250-265 | rejects n < 2; otherwise lists every positive divisor of n once; sorted, it is the ascending divisor list; its length is the number of divisors |
| Divisors.SortCorrect | math_extended.py:263-264 | sorting gives an ascending permutation of its input |
| Divisors.EnumerationsPermute | math_extended.py:250-265 | any two duplicate-free lists of the divisors of n are permutations of each other |
| Divisors.PowerSumMultComb | math_extended.py:256-261 | the power sum of mult_comb is the product of the two lists' power sums |
| Divisors.FactorsOfTwentyFour | math_extended.py:248 | factors_of(24) = [1, 3, 2, 6, 4, 12, 8, 24] |
| Divisors.SortedFactorsOfTwentyFour | math_extended.py:249 | factors_of(24, True) = [1, 2, 3, 4, 6, 8, 12, 24] |
| Digits.IsPalindrome | math_extended.py:119-128 | rejects n < 0; otherwise true exactly when the decimal digits read the same both ways, equivalently when the digit-reversed number is n |
| Digits.FromDigitsOfDigits | math_extended.py:119-128 | reading a number's digits back gives the number |
| Digits.DigitsOfFromDigits | math_extended.py:119-128 | a digit list without a leading 0 is the digit list of the number it spells |
| Digits.PalindromeExamples | math_extended.py:117-118 | 0 and 2442 are palindromes and 2443 is not |
| Digits.DigitSumExample | math_extended.py:164 | the digits of 12445 add up to 16 |
| Digits.SumOfDigits | math_extended.py:165-171 | rejects n < 0; otherwise the sum of the decimal digits |
| Digits.DigitSumModNine | math_extended.py:165-171 | the digit sum leaves the same remainder modulo 9 as the number |
| Digits.NonIncreasingNumber | math_extended.py:198-210 | rejects n < 10; otherwise true exactly when the digits, read left to right, never go up |
| Digits.NonDecreasingNumber | math_extended.py:216-228 | rejects n < 10; otherwise true exactly when the digits, read left to right, never go down |
| Digits.MonotoneBoth | math_extended.py:198-228 | a number passes both monotone tests exactly when all its digits are equal |
| Digits.MonotoneExamples | math_extended.py:195-228 | 222111 is non-increasing, 111112 is non-decreasing, 2222212 is neither |
| Figurate.Triangle | math_extended.py:176-178 | rejects n < 1; otherwise n (n + 1) // 2 is exactly the n-th triangular number 1 + 2 + ... + n |
| Figurate.Pentagonal | math_extended.py:183-185 | rejects n < 1; otherwise n (3n - 1) // 2 is exactly the n-th pentagonal number |
| Figurate.Hexagonal | math_extended.py:190-192 | rejects n < 1; otherwise n (2n - 1) is the n-th hexagonal number |
| Figurate.PolygonalClosedForm | math_extended.py:176-192 | twice the n-th s-gonal number is (s - 2) n^2 - (s - 4) n |
| Figurate.HexagonalIsTriangle | math_extended.py:190-192 | the n-th hexagonal number is the (2n - 1)-th triangular number |
| Figurate.PentagonalIsThirdOfTriangle | math_extended.py:183-185 | three times the n-th pentagonal number is the (3n - 1)-th triangular number |
| Figurate.PentagonalIsTrianglePlusSquare | math_extended.py:183-185 | the n-th pentagonal number is the (n - 1)-th triangular number plus n^2 |
| Figurate.FigurateExamples | math_extended.py:174-192 | triangle_num(7) = 28, pentagonal_num(6) = 51, hexagonal_num(4) = 28 |
| Collatz.CollatzLength | math_extended.py:235-243 | rejects n < 1; otherwise the count is the stopping time of n, plus 1 when the first value is included |
| Collatz.StoppingTimeStep | math_extended.py:238-240 | from a value above 1, the stopping time is one more than that of its successor |
| Collatz.PowerOfTwoStoppingTime | math_extended.py:235-243 | 2^e reaches 1 after exactly e steps, so its sequence has e + 1 values |
| Collatz.StoppingTimeOfTwelve | math_extended.py:233-234 | 12 reaches 1 after exactly 9 steps: collatz(12) = 10 and collatz(12, False) = 9 |

## Left out

- The `isinstance` check in `validation` is not modelled, because every argument is a Dafny `int`.
- The floating-point `math.sqrt` bounds in `prime_factors`, `prime_factors2` and `is_prime` are modelled as the integer condition `d * d <= n`. Floating-point behaviour is not modelled, and two divergences follow:
  - For `n >= 2^1024`, `math.sqrt(n)` raises `OverflowError` (math_extended.py:18, 40, 137). So `prime_factors` and `is_prime` raise, and so do all the routines built on `prime_factors2`: `phi`, `number_of_factors`, `sum_of_divisors2`, `is_square_free`, `unique_primes`, `liouville` and `factors_of`. The model returns `Ok` for these inputs.
  - Above about `2^53`, `n` is rounded when converted to a float. Above about `2^106`, the spacing of floats near `sqrt(n)` is wider than 1. The float bound can then differ from `floor(sqrt(n))` by many candidates, not just one. The model does not reproduce that rounding.
- The no-ops are left out: the unused `reduce` import in `sum_of_divisors2` and the discarded `int(num)` in `is_palindrome`.
- `functools.reduce` and `sorted` in `factors_of` are not modelled as library calls:
  - `reduce` becomes `Divisors.ReduceComb`, a left fold without an initial value;
  - `sorted` becomes an insertion sort, `Divisors.SortAscending`, specified by its sortedness and permutation property.
- Collatz.CollatzLength: whether the loop ends for every input is the open Collatz conjecture. The method therefore requires that the iteration from `n` reaches 1, and proves only what the count is when it does.
  - Its two contracts, together with `Collatz.StoppingTimeUnique`, give `collatz(n, False) = collatz(n, True) - 1`. That relation is not stated as a separate lemma, because a lemma cannot call a method.
- Multiplicative.Phi: the contract does not state phi's "count of the numbers up to n coprime to n" characterisation. The model proves the product formula and its bounds instead.
- `project_euler.py` is not part of this model. It is a set of puzzle scripts with file I/O, floating point and printing, and it calls functions the library does not define.
- For n = 1, the definitions of phi and the divisor sum give `phi(1) = 1` (math_extended.py:67-68) and a divisor sum of 1 (math_extended.py:88). The code instead raises for 1, because each of these routines calls `prime_factors2`, which validates `n >= 2` (math_extended.py:38). The model follows the code:
  - `phi`, `number_of_factors`, `unique_primes`, `liouville` and `factors_of` fail for 1 with `BelowMinimum(1, 2)`;
  - `sum_of_divisors2` fails for 1 too, which is the finding below.
- The comment above `is_square_free` states its return value the wrong way round. The model follows the code and the example `is_square_free(36) = false`.

## Findings

| source | as written | input that shows it | evidently intended | confidence | as-written member | corrected member |
|---|---|---|---|---|---|---|
| math_extended.py:91-99 | `sum_of_divisors2` validates `num >= 1` (line 93) but then calls `prime_factors2`, which demands `num >= 2` (line 38), so the 1 it just admitted is rejected | `sum_of_divisors2(1)` fails with "greater than or equal to 2", although 1's only divisor is 1 | `sum_of_divisors2(1, power) = 1` for every power >= 1, the empty product over no prime pairs | not executed | Multiplicative.SumOfDivisors2RejectsOne | Multiplicative.SumOfDivisorsCorrect |
