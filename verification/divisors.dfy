/**
 Divisor enumeration. The library lists the divisors of `n` by turning each
 pair `(p, k)` of the pair factorization into the list `[p^0, ..., p^k]` and
 folding the lists together with `MultComb`, which multiplies every entry of
 the first list with every entry of the second. The lemmas show that the
 result holds every positive divisor of `n` exactly once and nothing else,
 that its length is the product of the `k + 1`, and that the sum of the
 `w`-th powers of its entries is the product of the per-prime power sums.
 */
module Divisors {
  import opened Arith
  import opened Primes
  import opened RunLength
  import opened TrialDivision
  import opened Validation

  /** `[p^0, p^1, ..., p^k]`. */
  function Powers(p: int, k: nat): (r: seq<int>)
    ensures |r| == k + 1 && forall j :: 0 <= j <= k ==> r[j] == Pow(p, j)
  {
    seq(k + 1, j requires 0 <= j < k + 1 => Pow(p, j))
  }

  /** Each entry of `b` multiplied by `x`, in order. */
  function Scale(x: int, b: seq<int>): (r: seq<int>)
    ensures |r| == |b| && forall j :: 0 <= j < |b| ==> r[j] == x * b[j]
  {
    seq(|b|, j requires 0 <= j < |b| => x * b[j])
  }

  /** Every product `i * j` with `i` from `a` (outer loop) and `j` from `b` (inner loop). */
  function MultComb(a: seq<int>, b: seq<int>): seq<int> {
    if a == [] then [] else MultComb(a[..|a| - 1], b) + Scale(a[|a| - 1], b)
  }

  /** The list of prime powers `[p^0, ..., p^k]` of every pair `(p, k)`. */
  function PowerLists(fs: seq<PrimePower>): (r: seq<seq<int>>)
    ensures |r| == |fs| && forall i :: 0 <= i < |fs| ==> r[i] == Powers(fs[i].prime, fs[i].exponent)
  {
    seq(|fs|, i requires 0 <= i < |fs| => Powers(fs[i].prime, fs[i].exponent))
  }

  /** Left fold of `MultComb` over a non-empty list of lists, without an initial value. */
  function ReduceComb(lists: seq<seq<int>>): seq<int>
    requires lists != []
  {
    if |lists| == 1 then lists[0]
    else MultComb(ReduceComb(lists[..|lists| - 1]), lists[|lists| - 1])
  }

  /** The same fold over the pairs, started from `[1]`. */
  function Combine(fs: seq<PrimePower>): seq<int> {
    if fs == [] then [1]
    else MultComb(Combine(fs[..|fs| - 1]), Powers(fs[|fs| - 1].prime, fs[|fs| - 1].exponent))
  }

  /** The divisors of `n` that lie in `[1, k]`, ascending. */
  function DivisorsUpTo(n: int, k: nat): seq<int> {
    if k == 0 then [] else DivisorsUpTo(n, k - 1) + (if Divides(k, n) then [k] else [])
  }

  /** All positive divisors of `n`, ascending: the reference list of divisors. */
  function DivisorList(n: int): seq<int>
    requires n >= 1
  {
    DivisorsUpTo(n, n)
  }

  /** Entries strictly increase from left to right. */
  predicate Increasing(s: seq<int>) {
    forall i, j :: 0 <= i < j < |s| ==> s[i] < s[j]
  }

  /** No entry of `s` occurs in `t`. */
  predicate Disjoint(s: seq<int>, t: seq<int>) {
    forall i, j :: 0 <= i < |s| && 0 <= j < |t| ==> s[i] != t[j]
  }

  /** Products of an entry of `a` and an entry of `b` determine both positions. */
  predicate UniqueProducts(a: seq<int>, b: seq<int>) {
    forall i1, j1, i2, j2 ::
      0 <= i1 < |a| && 0 <= j1 < |b| && 0 <= i2 < |a| && 0 <= j2 < |b| && a[i1] * b[j1] == a[i2] * b[j2]
      ==> i1 == i2 && j1 == j2
  }

  /** The sum of the `w`-th powers of the entries. */
  function PowerSum(s: seq<int>, w: nat): int {
    if s == [] then 0 else PowerSum(s[..|s| - 1], w) + Pow(s[|s| - 1], w)
  }

  // ---------------------------------------------------------------------------
  // The combination step

  lemma MultCombSnoc(a: seq<int>, x: int, b: seq<int>)
    ensures MultComb(a + [x], b) == MultComb(a, b) + Scale(x, b)
  {
    assert (a + [x])[..|a|] == a;
  }

  lemma {:induction false} MultCombLength(a: seq<int>, b: seq<int>)
    ensures |MultComb(a, b)| == |a| * |b|
  {
    if a != [] {
      MultCombLength(a[..|a| - 1], b);
      assert |a| * |b| == (|a| - 1) * |b| + |b|;
    }
  }

  /** `x` is produced by `MultComb` exactly when it is the product of an entry of `a` and one of `b`. */
  lemma InMultComb(a: seq<int>, b: seq<int>, x: int)
    ensures x in MultComb(a, b) <==> exists i, j :: 0 <= i < |a| && 0 <= j < |b| && x == a[i] * b[j]
  {
    if x in MultComb(a, b) {
      MultCombOnlyProducts(a, b, x);
    }
    if exists i, j :: 0 <= i < |a| && 0 <= j < |b| && x == a[i] * b[j] {
      var i, j :| 0 <= i < |a| && 0 <= j < |b| && x == a[i] * b[j];
      MultCombHasProduct(a, b, i, j);
    }
  }

  lemma {:induction false} MultCombOnlyProducts(a: seq<int>, b: seq<int>, x: int)
    requires x in MultComb(a, b)
    ensures exists i, j :: 0 <= i < |a| && 0 <= j < |b| && x == a[i] * b[j]
  {
    var init, last := a[..|a| - 1], a[|a| - 1];
    if x in MultComb(init, b) {
      MultCombOnlyProducts(init, b, x);
      var i, j :| 0 <= i < |init| && 0 <= j < |b| && x == init[i] * b[j];
      assert a[i] == init[i];
    } else {
      assert x in Scale(last, b);
      var j :| 0 <= j < |b| && Scale(last, b)[j] == x;
      assert x == a[|a| - 1] * b[j];
    }
  }

  lemma {:induction false} MultCombHasProduct(a: seq<int>, b: seq<int>, i: int, j: int)
    requires 0 <= i < |a| && 0 <= j < |b|
    ensures a[i] * b[j] in MultComb(a, b)
  {
    var init, last := a[..|a| - 1], a[|a| - 1];
    if i < |a| - 1 {
      MultCombHasProduct(init, b, i, j);
      assert init[i] == a[i];
    } else {
      assert Scale(last, b)[j] == a[i] * b[j];
    }
  }

  /** Two duplicate-free lists with nothing in common concatenate to a duplicate-free list. */
  lemma DistinctAppend(s: seq<int>, t: seq<int>)
    requires Distinct(s) && Distinct(t) && Disjoint(s, t)
    ensures Distinct(s + t)
  {
    var u := s + t;
    forall i, j | 0 <= i < j < |u|
      ensures u[i] != u[j]
    {
      if j < |s| {
        assert u[i] == s[i] && u[j] == s[j];
      } else if i >= |s| {
        assert u[i] == t[i - |s|] && u[j] == t[j - |s|];
      } else {
        assert u[i] == s[i] && u[j] == t[j - |s|];
      }
    }
  }

  lemma UniqueProductsPrefix(a: seq<int>, b: seq<int>)
    requires a != [] && UniqueProducts(a, b)
    ensures UniqueProducts(a[..|a| - 1], b)
  {
    var init := a[..|a| - 1];
    forall i1, j1, i2, j2 |
      0 <= i1 < |init| && 0 <= j1 < |b| && 0 <= i2 < |init| && 0 <= j2 < |b| && a[i1] * b[j1] == a[i2] * b[j2]
      ensures i1 == i2 && j1 == j2
    {
    }
  }

  /** The last row is disjoint from the earlier rows and free of repeats. */
  lemma LastRowFresh(a: seq<int>, b: seq<int>)
    requires a != [] && UniqueProducts(a, b)
    ensures Distinct(Scale(a[|a| - 1], b))
    ensures Disjoint(MultComb(a[..|a| - 1], b), Scale(a[|a| - 1], b))
  {
    var init, last, row := a[..|a| - 1], a[|a| - 1], Scale(a[|a| - 1], b);
    forall j1, j2 | 0 <= j1 < j2 < |b|
      ensures row[j1] != row[j2]
    {
      assert row[j1] == a[|a| - 1] * b[j1] && row[j2] == a[|a| - 1] * b[j2];
    }
    var earlier := MultComb(init, b);
    forall k, j' | 0 <= k < |earlier| && 0 <= j' < |b|
      ensures earlier[k] != row[j']
    {
      var x := earlier[k];
      InMultComb(init, b, x);
      var i, j :| 0 <= i < |init| && 0 <= j < |b| && x == init[i] * b[j];
      assert a[i] == init[i];
      assert row[j'] == a[|a| - 1] * b[j'];
    }
  }

  /** With unique products, `MultComb` produces no value twice. */
  lemma {:induction false} MultCombDistinct(a: seq<int>, b: seq<int>)
    requires UniqueProducts(a, b)
    ensures Distinct(MultComb(a, b))
  {
    if a != [] {
      UniqueProductsPrefix(a, b);
      MultCombDistinct(a[..|a| - 1], b);
      LastRowFresh(a, b);
      DistinctAppend(MultComb(a[..|a| - 1], b), Scale(a[|a| - 1], b));
    }
  }

  // ---------------------------------------------------------------------------
  // Divisors of `m * p^k`

  /** `s` lists every positive divisor of `n` exactly once and nothing else. */
  ghost predicate EnumeratesDivisors(s: seq<int>, n: int) {
    Distinct(s) && forall x :: x in s <==> Divides(x, n)
  }

  lemma CancelRight(a: int, b: int, c: int)
    requires c >= 1 && a * c == b * c
    ensures a == b
  {
    assert (a - b) * c == 0;
  }

  /** Divisors multiply: `d | m` and `e | f` give `d * e | m * f`. */
  lemma DividesBoth(d: int, m: int, e: int, f: int)
    requires Divides(d, m) && Divides(e, f)
    ensures Divides(d * e, m * f)
  {
    var q1, q2 := m / d, f / e;
    DividesQuotient(d, m);
    DividesQuotient(e, f);
    MulRearrange(d, q1, e, q2);
    MulAtLeast(d, e);
    DividesProduct(d * e, q1 * q2);
  }

  /** A divisor of `y * p` that the prime `p` does not divide already divides `y`. */
  lemma CoprimeCancel(x: int, y: int, p: int)
    requires Prime(p) && y >= 1 && Divides(x, y * p) && !Divides(p, x)
    ensures Divides(x, y)
  {
    MulAtLeast(y, p);
    var t := (y * p) / x;
    DividesQuotient(x, y * p);
    DivisorAtMost(x, y * p);
    DividesProduct(p, y);
    assert x * t == p * y;
    Euclid(p, x, t);
    var u := t / p;
    DividesQuotient(p, t);
    assert y * p == (x * u) * p;
    CancelRight(y, x * u, p);
    DividesProduct(x, u);
  }

  /** `p * Pow(p, k - 1)` regrouped against a cofactor. */
  lemma PowStep(m: int, p: int, k: nat)
    requires k >= 1
    ensures m * Pow(p, k) == (m * Pow(p, k - 1)) * p
  {
    MulSwap(m, p, Pow(p, k - 1));
  }

  /**
   Every divisor `x` of `m * p^k`, `p` prime, is `d * p^j` for a divisor `d` of `m`
   and some `j <= k`.
   */
  lemma {:induction false} SplitDivisor(x: int, m: int, p: int, k: nat) returns (d: int, j: nat)
    requires Prime(p) && m >= 1 && Divides(x, m * Pow(p, k))
    ensures j <= k && Divides(d, m) && x == d * Pow(p, j)
    decreases k
  {
    if k == 0 {
      d, j := x, 0;
    } else {
      var rest := m * Pow(p, k - 1);
      PowStep(m, p, k);
      PowPositive(p, k - 1);
      MulAtLeast(m, Pow(p, k - 1));
      if Divides(p, x) {
        var x' := x / p;
        DividesQuotient(p, x);
        DivisorAtMost(p, x);
        assert p * x' == x && p * rest == m * Pow(p, k);
        DividesCancel(p, x', rest);
        var d', j' := SplitDivisor(x', m, p, k - 1);
        MulSwap(p, d', Pow(p, j'));
        d, j := d', j' + 1;
      } else {
        CoprimeCancel(x, rest, p);
        d, j := SplitDivisor(x, m, p, k - 1);
      }
    }
  }

  /** With `j1 < j2`, `d1 * p^j1 == d2 * p^j2` forces `p | d1`. */
  lemma PAdicLess(d1: int, j1: nat, d2: int, j2: nat, p: int)
    requires p >= 2 && j1 < j2 && d1 * Pow(p, j1) == d2 * Pow(p, j2)
    ensures Divides(p, d1)
  {
    var q := Pow(p, j2 - j1 - 1);
    PowAdd(p, j1, j2 - j1);
    PowPositive(p, j1);
    MulSwap(d2, Pow(p, j1), Pow(p, j2 - j1));
    CancelRight(d1, d2 * Pow(p, j2 - j1), Pow(p, j1));
    MulSwap(d2, p, q);
    DividesProduct(p, d2 * q);
  }

  /** Writing a number as `d * p^j` with `p` not dividing `d` is unique. */
  lemma PAdicUnique(d1: int, j1: nat, d2: int, j2: nat, p: int)
    requires p >= 2 && !Divides(p, d1) && !Divides(p, d2)
    requires d1 * Pow(p, j1) == d2 * Pow(p, j2)
    ensures j1 == j2 && d1 == d2
  {
    if j1 < j2 {
      PAdicLess(d1, j1, d2, j2, p);
    } else if j2 < j1 {
      PAdicLess(d2, j2, d1, j1, p);
    } else {
      PowPositive(p, j1);
      CancelRight(d1, d2, Pow(p, j1));
    }
  }

  /** A prime above every prime of a canonical list does not divide the number it stands for. */
  lemma PrimeAboveValue(fs: seq<PrimePower>, p: int)
    requires IsCanonical(fs) && Prime(p)
    requires forall i :: 0 <= i < |fs| ==> fs[i].prime < p
    ensures !Divides(p, Value(fs))
  {
    ValueIsProduct(fs);
    ExpandCanonical(fs);
    InExpand(fs, p);
    if Divides(p, Value(fs)) {
      PrimeDividesProductOfPrimes(p, Expand(fs));
    }
  }

  // ---------------------------------------------------------------------------
  // The enumeration theorem

  /** A prime that does not divide `m` divides none of its divisors. */
  lemma PrimeSkipsDivisor(p: int, d: int, m: int)
    requires Divides(d, m) && !Divides(p, m)
    ensures !Divides(p, d)
  {
    if Divides(p, d) {
      DividesTransitive(p, d, m);
    }
  }

  /** Every product of a divisor of `m` and a listed power of `p` divides `m * p^k`. */
  lemma CombineSound(row: seq<int>, m: int, p: int, k: nat)
    requires p >= 1 && forall i :: 0 <= i < |row| ==> Divides(row[i], m)
    ensures forall x :: x in MultComb(row, Powers(p, k)) ==> Divides(x, m * Pow(p, k))
  {
    var ps := Powers(p, k);
    forall x | x in MultComb(row, ps)
      ensures Divides(x, m * Pow(p, k))
    {
      InMultComb(row, ps, x);
      var i, j :| 0 <= i < |row| && 0 <= j < |ps| && x == row[i] * ps[j];
      PowDividesPow(p, j, k);
      DividesBoth(row[i], m, Pow(p, j), Pow(p, k));
    }
  }

  /** When `row` lists every divisor of `m`, combining it with the powers of `p` reaches every divisor of `m * p^k`. */
  lemma CombineCovers(row: seq<int>, m: int, p: int, k: nat)
    requires Prime(p) && m >= 1 && forall x :: Divides(x, m) ==> x in row
    ensures forall x :: Divides(x, m * Pow(p, k)) ==> x in MultComb(row, Powers(p, k))
  {
    var ps := Powers(p, k);
    forall x | Divides(x, m * Pow(p, k))
      ensures x in MultComb(row, ps)
    {
      var d, j := SplitDivisor(x, m, p, k);
      assert d in row;
      var i :| 0 <= i < |row| && row[i] == d;
      assert ps[j] == Pow(p, j);
      InMultComb(row, ps, x);
    }
  }

  /** For divisors of `m` listed once and a prime `p` not dividing `m`, the products `d * p^j` are all different. */
  lemma CombineUnique(row: seq<int>, m: int, p: int, k: nat)
    requires Prime(p) && !Divides(p, m) && Distinct(row)
    requires forall i :: 0 <= i < |row| ==> Divides(row[i], m)
    ensures UniqueProducts(row, Powers(p, k))
  {
    var ps := Powers(p, k);
    forall i1, j1, i2, j2 |
      0 <= i1 < |row| && 0 <= j1 < |ps| && 0 <= i2 < |row| && 0 <= j2 < |ps| && row[i1] * ps[j1] == row[i2] * ps[j2]
      ensures i1 == i2 && j1 == j2
    {
      PrimeSkipsDivisor(p, row[i1], m);
      PrimeSkipsDivisor(p, row[i2], m);
      PAdicUnique(row[i1], j1, row[i2], j2, p);
    }
  }

  lemma CanonicalPrefix(fs: seq<PrimePower>)
    requires fs != [] && IsCanonical(fs)
    ensures IsCanonical(fs[..|fs| - 1])
    ensures forall i :: 0 <= i < |fs| - 1 ==> fs[i].prime < fs[|fs| - 1].prime
  {
  }

  /** The divisors of 1: the list `[1]`. */
  lemma EnumeratesDivisorsOfOne()
    ensures EnumeratesDivisors([1], 1)
  {
    DividesSelf(1);
    forall x | Divides(x, 1)
      ensures x == 1
    {
      DivisorAtMost(x, 1);
    }
  }

  /**
   The fold over a canonical pair list lists every positive divisor of the
   number the pairs stand for, each exactly once.
   */
  lemma {:induction false} DivisorEnumeration(fs: seq<PrimePower>)
    requires IsCanonical(fs)
    ensures Value(fs) >= 1 && EnumeratesDivisors(Combine(fs), Value(fs))
  {
    if fs == [] {
      EnumeratesDivisorsOfOne();
    } else {
      var init, last := fs[..|fs| - 1], fs[|fs| - 1];
      CanonicalPrefix(fs);
      DivisorEnumeration(init);
      var row, m, p, k := Combine(init), Value(init), last.prime, last.exponent;
      PrimeAboveValue(init, p);
      PowPositive(p, k);
      MulAtLeast(m, Pow(p, k));
      CombineSound(row, m, p, k);
      CombineCovers(row, m, p, k);
      CombineUnique(row, m, p, k);
      MultCombDistinct(row, Powers(p, k));
    }
  }

  // ---------------------------------------------------------------------------
  // The fold without an initial value, and the divisor count

  lemma MultCombUnit(b: seq<int>)
    ensures MultComb([1], b) == b
  {
    assert MultComb([1], b) == [] + Scale(1, b);
  }

  /** Folding the power lists without an initial value gives the same list as folding from `[1]`. */
  lemma {:induction false} ReduceIsCombine(fs: seq<PrimePower>)
    requires fs != []
    ensures ReduceComb(PowerLists(fs)) == Combine(fs)
  {
    var lists, init, last := PowerLists(fs), fs[..|fs| - 1], fs[|fs| - 1];
    if |fs| == 1 {
      MultCombUnit(Powers(last.prime, last.exponent));
    } else {
      assert lists[..|lists| - 1] == PowerLists(init);
      ReduceIsCombine(init);
    }
  }

  /** `prod (k + 1)` over the pairs: how many divisors the pairs allow. */
  function DivisorCount(fs: seq<PrimePower>): nat {
    if fs == [] then 1 else DivisorCount(fs[..|fs| - 1]) * (fs[|fs| - 1].exponent + 1)
  }

  /** The fold has one entry per choice of exponents. */
  lemma {:induction false} CombineLength(fs: seq<PrimePower>)
    ensures |Combine(fs)| == DivisorCount(fs)
  {
    if fs != [] {
      var init, last := fs[..|fs| - 1], fs[|fs| - 1];
      CombineLength(init);
      MultCombLength(Combine(init), Powers(last.prime, last.exponent));
    }
  }

  // ---------------------------------------------------------------------------
  // The reference list of divisors

  /** `DivisorsUpTo(n, k)` holds exactly the divisors of `n` in `[1, k]`, increasing. */
  lemma {:induction false} DivisorsUpToCorrect(n: int, k: nat)
    ensures forall i :: 0 <= i < |DivisorsUpTo(n, k)| ==> 1 <= DivisorsUpTo(n, k)[i] <= k
    ensures forall x :: x in DivisorsUpTo(n, k) <==> 1 <= x <= k && Divides(x, n)
    ensures Increasing(DivisorsUpTo(n, k))
  {
    if k > 0 {
      DivisorsUpToCorrect(n, k - 1);
    }
  }

  /** The reference list holds every positive divisor of `n` once, in increasing order. */
  lemma DivisorListCorrect(n: int)
    requires n >= 1
    ensures EnumeratesDivisors(DivisorList(n), n)
    ensures Increasing(DivisorList(n)) && Sorted(DivisorList(n))
  {
    DivisorsUpToCorrect(n, n);
    forall x | Divides(x, n)
      ensures x <= n
    {
      DivisorAtMost(x, n);
    }
  }

  /** Two lists of the divisors of `n` are rearrangements of each other. */
  lemma EnumerationsPermute(s: seq<int>, t: seq<int>, n: int)
    requires EnumeratesDivisors(s, n) && EnumeratesDivisors(t, n)
    ensures multiset(s) == multiset(t) && |s| == |t|
  {
    DistinctSameElements(s, t);
  }

  // ---------------------------------------------------------------------------
  // Sorting

  /** Insert `x` in front of the first entry it does not exceed. */
  function Insert(x: int, s: seq<int>): seq<int> {
    if s == [] then [x] else if x <= s[0] then [x] + s else [s[0]] + Insert(x, s[1..])
  }

  /** Ascending rearrangement by insertion. */
  function SortAscending(s: seq<int>): seq<int> {
    if s == [] then [] else Insert(s[0], SortAscending(s[1..]))
  }

  lemma {:induction false} InsertPermutes(x: int, s: seq<int>)
    ensures multiset(Insert(x, s)) == multiset(s) + multiset{x}
  {
    if s == [] || x <= s[0] {
      assert Insert(x, s) == [x] + s;
    } else {
      InsertPermutes(x, s[1..]);
      InsertPermutesStep(x, s, Insert(x, s[1..]));
    }
  }

  lemma InsertPermutesStep(x: int, s: seq<int>, rest: seq<int>)
    requires s != [] && multiset(rest) == multiset(s[1..]) + multiset{x}
    ensures multiset([s[0]] + rest) == multiset(s) + multiset{x}
  {
    assert s == [s[0]] + s[1..];
  }

  lemma {:induction false} InsertCorrect(x: int, s: seq<int>)
    requires Sorted(s)
    ensures multiset(Insert(x, s)) == multiset(s) + multiset{x}
    ensures Sorted(Insert(x, s))
  {
    InsertPermutes(x, s);
    if s != [] && x > s[0] {
      var rest := Insert(x, s[1..]);
      InsertCorrect(x, s[1..]);
      InsertAbove(x, s, rest);
    }
  }

  /** Every entry of `rest`, a rearrangement of `s[1..]` with `x` added, is at least `s[0]`. */
  lemma InsertAbove(x: int, s: seq<int>, rest: seq<int>)
    requires s != [] && Sorted(s) && x > s[0] && multiset(rest) == multiset(s[1..]) + multiset{x}
    ensures forall i :: 0 <= i < |rest| ==> s[0] <= rest[i]
  {
    forall i | 0 <= i < |rest|
      ensures s[0] <= rest[i]
    {
      assert rest[i] in multiset(rest);
      if rest[i] != x {
        assert rest[i] in multiset(s[1..]);
        assert rest[i] in s[1..];
      }
    }
  }

  /** Sorting yields an ascending rearrangement. */
  lemma {:induction false} SortCorrect(s: seq<int>)
    ensures multiset(SortAscending(s)) == multiset(s) && Sorted(SortAscending(s))
  {
    if s != [] {
      SortCorrect(s[1..]);
      InsertCorrect(s[0], SortAscending(s[1..]));
      assert s == [s[0]] + s[1..];
    }
  }

  // ---------------------------------------------------------------------------
  // Sums of powers of the divisors

  lemma {:induction false} PowerSumAppend(s: seq<int>, t: seq<int>, w: nat)
    ensures PowerSum(s + t, w) == PowerSum(s, w) + PowerSum(t, w)
  {
    if t == [] {
      assert s + t == s;
    } else {
      PowerSumAppend(s, t[..|t| - 1], w);
      assert (s + t)[..|s + t| - 1] == s + t[..|t| - 1];
    }
  }

  lemma PowerSumCons(x: int, s: seq<int>, w: nat)
    ensures PowerSum([x] + s, w) == Pow(x, w) + PowerSum(s, w)
  {
    PowerSumAppend([x], s, w);
    assert PowerSum([x], w) == PowerSum([], w) + Pow(x, w);
  }

  /** Taking the entry at index `i` out of `t` removes its power from the sum. */
  lemma PowerSumRemoveAt(t: seq<int>, i: int, w: nat)
    requires 0 <= i < |t|
    ensures PowerSum(t, w) == Pow(t[i], w) + PowerSum(t[..i] + t[i + 1..], w)
  {
    SplitAt(t, i);
    PowerSumAppend(t[..i], [t[i]] + t[i + 1..], w);
    PowerSumCons(t[i], t[i + 1..], w);
    PowerSumAppend(t[..i], t[i + 1..], w);
  }

  /** A power sum depends only on the multiset of entries. */
  lemma {:induction false} PowerSumPermutation(s: seq<int>, t: seq<int>, w: nat)
    requires multiset(s) == multiset(t)
    ensures PowerSum(s, w) == PowerSum(t, w)
  {
    if s != [] {
      var i := MatchFirst(s, t);
      PowerSumPermutation(s[1..], t[..i] + t[i + 1..], w);
      PowerSumRemoveAt(s, 0, w);
      PowerSumRemoveAt(t, i, w);
    }
  }

  lemma {:induction false} PowerSumScale(x: int, b: seq<int>, w: nat)
    ensures PowerSum(Scale(x, b), w) == Pow(x, w) * PowerSum(b, w)
  {
    if b != [] {
      var init, last, scaled := b[..|b| - 1], b[|b| - 1], Scale(x, b);
      assert scaled[..|b| - 1] == Scale(x, init);
      assert PowerSum(scaled, w) == PowerSum(Scale(x, init), w) + Pow(x * last, w);
      PowerSumScale(x, init, w);
      PowOfProduct(x, last, w);
      Distribute(Pow(x, w), PowerSum(init, w), Pow(last, w));
    }
  }

  /** The power sum of all products is the product of the power sums. */
  lemma {:induction false} PowerSumMultComb(a: seq<int>, b: seq<int>, w: nat)
    ensures PowerSum(MultComb(a, b), w) == PowerSum(a, w) * PowerSum(b, w)
  {
    if a != [] {
      var init, last := a[..|a| - 1], a[|a| - 1];
      PowerSumMultComb(init, b, w);
      PowerSumAppend(MultComb(init, b), Scale(last, b), w);
      PowerSumScale(last, b, w);
      var rows, row := PowerSum(init, w), PowerSum(b, w);
      assert PowerSum(a, w) == rows + Pow(last, w);
      Distribute(row, rows, Pow(last, w));
    }
  }

  /** `1 + q + ... + q^k`. */
  function GeometricSum(q: int, k: nat): int {
    if k == 0 then 1 else GeometricSum(q, k - 1) + Pow(q, k)
  }

  /** The closed form of the geometric series: `(q - 1) * (1 + q + ... + q^k) == q^(k + 1) - 1`. */
  lemma {:induction false} GeometricClosedForm(q: int, k: nat)
    ensures (q - 1) * GeometricSum(q, k) == Pow(q, k + 1) - 1
  {
    if k > 0 {
      GeometricClosedForm(q, k - 1);
      assert (q - 1) * GeometricSum(q, k) == (q - 1) * GeometricSum(q, k - 1) + (q - 1) * Pow(q, k);
    }
  }

  lemma PowOfOne(w: nat)
    ensures Pow(1, w) == 1
  {
    if w > 0 {
      PowOfOne(w - 1);
    }
  }

  /** The `w`-th powers of `1, p, ..., p^k` sum to the geometric series in `p^w`. */
  lemma {:induction false} PowerSumOfPowers(p: int, k: nat, w: nat)
    ensures PowerSum(Powers(p, k), w) == GeometricSum(Pow(p, w), k)
  {
    if k == 0 {
      assert Powers(p, 0) == [1];
      PowOfOne(w);
      assert PowerSum([1], w) == PowerSum([], w) + Pow(1, w);
    } else {
      assert Powers(p, k)[..k] == Powers(p, k - 1);
      PowerSumOfPowers(p, k - 1, w);
      PowMul(p, k, w);
      PowMul(p, w, k);
      assert k * w == w * k;
    }
  }

  /**
   The library's closed form for one prime, `(p^(w * (k + 1)) - 1) / (p^w - 1)`,
   divides exactly and equals the sum of `d^w` over the divisors `d = p^j`, `j <= k`.
   */
  lemma GeometricTerm(p: int, k: nat, w: nat)
    requires p >= 2 && w >= 1
    ensures Pow(p, w) - 1 >= 1
    ensures Divides(Pow(p, w) - 1, Pow(p, w * (k + 1)) - 1)
    ensures (Pow(p, w * (k + 1)) - 1) / (Pow(p, w) - 1) == PowerSum(Powers(p, k), w)
  {
    var q := Pow(p, w);
    PowStrictlyIncreasing(p, 0, w);
    PowMul(p, w, k + 1);
    GeometricClosedForm(q, k);
    PowerSumOfPowers(p, k, w);
    DividesProduct(q - 1, GeometricSum(q, k));
  }

  // ---------------------------------------------------------------------------
  // The library operation

  /**
   The divisors of `n`: the power lists of the pair factorization folded with
   `MultComb` and no initial value, in product order, or ascending when `sort`
   is set. Below 2 the pair factorizer's validation failure is passed on.
   */
  function FactorsOf(n: int, sort: bool): (r: Result<seq<int>>)
    ensures r.Err? <==> n < 2
  {
    match PairFactorization(n)
    case Err(e) => Err(e)
    case Ok(fs) =>
      var factors := ReduceComb(PowerLists(fs));
      Ok(if sort then SortAscending(factors) else factors)
  }

  /**
   `FactorsOf` lists every positive divisor of `n` exactly once and nothing
   else; sorted, it is the ascending list of divisors; its length is the
   product of the `k + 1` over the pairs and its sum of `w`-th powers is the
   product of the per-prime sums.
   */
  lemma FactorsOfCorrect(n: int, sort: bool)
    ensures FactorsOf(n, sort).Err? ==> FactorsOf(n, sort).error == BelowMinimum(n, 2)
    ensures FactorsOf(n, sort).Ok? ==> EnumeratesDivisors(FactorsOf(n, sort).value, n)
    ensures FactorsOf(n, sort).Ok? && sort ==> FactorsOf(n, sort).value == DivisorList(n)
    ensures FactorsOf(n, sort).Ok? && !sort ==> FactorsOf(n, sort).value == Combine(CanonicalForm(n))
    ensures FactorsOf(n, sort).Ok? ==> |FactorsOf(n, sort).value| == |DivisorList(n)| == DivisorCount(CanonicalForm(n))
  {
    if n >= 2 {
      var fs := CanonicalForm(n);
      var c := Combine(fs);
      CanonicalFormCorrect(n);
      ReduceIsCombine(fs);
      DivisorEnumeration(fs);
      DivisorListCorrect(n);
      EnumerationsPermute(c, DivisorList(n), n);
      CombineLength(fs);
      if sort {
        SortCorrect(c);
        SortedPermutationEqual(SortAscending(c), DivisorList(n));
      }
    }
  }

  /** The divisors of 24 in product order: `[1, 3, 2, 6, 4, 12, 8, 24]`. */
  lemma FactorsOfTwentyFour()
    ensures FactorsOf(24, false) == Ok([1, 3, 2, 6, 4, 12, 8, 24])
  {
    var fs := [PrimePower(2, 3), PrimePower(3, 1)];
    PairsOfTwentyFour();
    FoldOfTwentyFour(fs);
  }

  lemma PairsOfTwentyFour()
    ensures PairFactorization(24) == Ok([PrimePower(2, 3), PrimePower(3, 1)])
  {
    var fs := [PrimePower(2, 3), PrimePower(3, 1)];
    assert Prime(3) by {
      assert !Divides(2, 3);
    }
    assert IsCanonical(fs);
    assert Value(fs[..1]) == 8;
    CanonicalUnique(fs);
  }

  lemma FoldOfTwentyFour(fs: seq<PrimePower>)
    requires fs == [PrimePower(2, 3), PrimePower(3, 1)]
    ensures ReduceComb(PowerLists(fs)) == [1, 3, 2, 6, 4, 12, 8, 24]
  {
    assert Powers(2, 3) == [1, 2, 4, 8];
    assert Powers(3, 1) == [1, 3];
    var lists := PowerLists(fs);
    assert lists == [[1, 2, 4, 8], [1, 3]];
    assert lists[..1] == [[1, 2, 4, 8]];
    var b := [1, 3];
    MultCombUnit(b);
    RowOfTwentyFour([1], 2, [1, 3]);
    RowOfTwentyFour([1, 2], 4, [1, 3, 2, 6]);
    RowOfTwentyFour([1, 2, 4], 8, [1, 3, 2, 6, 4, 12]);
    assert [1, 2, 4] + [8] == [1, 2, 4, 8];
    assert ReduceComb(lists[..1]) == [1, 2, 4, 8];
    assert ReduceComb(lists) == MultComb([1, 2, 4, 8], b);
  }

  lemma RowOfTwentyFour(a: seq<int>, x: int, front: seq<int>)
    requires MultComb(a, [1, 3]) == front
    ensures MultComb(a + [x], [1, 3]) == front + [x, 3 * x]
  {
    MultCombSnoc(a, x, [1, 3]);
    assert Scale(x, [1, 3]) == [x, 3 * x];
  }

  /** Sorted, the divisors of 24 ascend: `[1, 2, 3, 4, 6, 8, 12, 24]`. */
  lemma SortedFactorsOfTwentyFour()
    ensures FactorsOf(24, true) == Ok([1, 2, 3, 4, 6, 8, 12, 24])
  {
    var c, sorted := [1, 3, 2, 6, 4, 12, 8, 24], [1, 2, 3, 4, 6, 8, 12, 24];
    FactorsOfTwentyFour();
    FactorsOfCorrect(24, false);
    SortCorrect(c);
    AscendingTwentyFour(sorted);
    SameEntriesTwentyFour(c, sorted);
    DistinctSameElements(c, sorted);
    SortedPermutationEqual(SortAscending(c), sorted);
  }

  lemma SameEntriesTwentyFour(c: seq<int>, sorted: seq<int>)
    requires c == [1, 3, 2, 6, 4, 12, 8, 24] && sorted == [1, 2, 3, 4, 6, 8, 12, 24]
    ensures forall x :: x in c <==> x in sorted
  {
  }

  lemma AscendingTwentyFour(sorted: seq<int>)
    requires sorted == [1, 2, 3, 4, 6, 8, 12, 24]
    ensures Sorted(sorted) && Distinct(sorted)
  {
    forall i | 0 <= i < |sorted| - 1
      ensures sorted[i] < sorted[i + 1]
    {
      assert i == 0 || i == 1 || i == 2 || i == 3 || i == 4 || i == 5 || i == 6;
    }
    StepsIncrease(sorted);
  }

  /** A list whose neighbours strictly increase is increasing throughout. */
  lemma {:induction false} StepsIncrease(s: seq<int>)
    requires forall i :: 0 <= i < |s| - 1 ==> s[i] < s[i + 1]
    ensures Increasing(s) && Sorted(s) && Distinct(s)
  {
    if |s| > 1 {
      var init := s[..|s| - 1];
      StepsIncrease(init);
      forall i | 0 <= i < |s| - 1
        ensures s[i] < s[|s| - 1]
      {
        assert s[i] < s[|s| - 2] || i == |s| - 2;
      }
    }
  }
}
