/**
 Elementary integer arithmetic shared by the number-theory model: divisibility,
 natural powers, products and sums of sequences, and Euclid's lemma.

 Dafny's `/` and `%` are Euclidean; every operand in this model is positive, where
 they coincide with Python's floor division `//` and `%`.
 */
module Arith {

  /** `d` is a positive divisor of `n`. */
  predicate Divides(d: int, n: int) {
    d >= 1 && n % d == 0
  }

  /** `b` raised to the natural power `e`. */
  function Pow(b: int, e: nat): int {
    if e == 0 then 1 else b * Pow(b, e - 1)
  }

  /** Product of all entries; the empty product is 1. */
  function Product(s: seq<int>): int {
    if s == [] then 1 else Product(s[..|s| - 1]) * s[|s| - 1]
  }

  /** Sum of all entries; the empty sum is 0. */
  function Sum(s: seq<int>): int {
    if s == [] then 0 else Sum(s[..|s| - 1]) + s[|s| - 1]
  }

  /** No entry occurs twice. */
  predicate Distinct(s: seq<int>) {
    forall i, j :: 0 <= i < j < |s| ==> s[i] != s[j]
  }

  /** Entries never decrease from left to right. */
  predicate Sorted(s: seq<int>) {
    forall i, j :: 0 <= i < j < |s| ==> s[i] <= s[j]
  }

  // ---------------------------------------------------------------------------
  // Division with remainder

  lemma MulAtLeast(d: int, x: int)
    requires d >= 1 && x >= 1
    ensures d * x >= d
  {
  }

  /** Quotient and remainder are determined by `n == d * q + r` with `0 <= r < d`. */
  lemma DivModUnique(n: int, d: int, q: int, r: int)
    requires d >= 1 && n == d * q + r && 0 <= r < d
    ensures n / d == q && n % d == r
  {
    var q0, r0 := n / d, n % d;
    assert n == d * q0 + r0;
    assert d * (q - q0) == r0 - r;
    if q - q0 >= 1 {
      MulAtLeast(d, q - q0);
    } else if q0 - q >= 1 {
      MulAtLeast(d, q0 - q);
    }
  }

  lemma DividesProduct(d: int, k: int)
    requires d >= 1
    ensures Divides(d, d * k) && (d * k) / d == k
  {
    DivModUnique(d * k, d, k, 0);
  }

  lemma DividesQuotient(d: int, n: int)
    requires Divides(d, n)
    ensures n == d * (n / d)
  {
  }

  lemma DividesSelf(n: int)
    requires n >= 1
    ensures Divides(n, n) && Divides(1, n)
  {
    DividesProduct(n, 1);
    DividesProduct(1, n);
  }

  lemma DividesTransitive(a: int, b: int, c: int)
    requires Divides(a, b) && Divides(b, c)
    ensures Divides(a, c)
  {
    var x, y := b / a, c / b;
    DividesQuotient(a, b);
    DividesQuotient(b, c);
    assert c == a * (x * y);
    DividesProduct(a, x * y);
  }

  /** A divisor of `n` divides every multiple of `n`. */
  lemma DividesMultiple(d: int, n: int, k: int)
    requires Divides(d, n)
    ensures Divides(d, n * k)
  {
    DividesQuotient(d, n);
    assert n * k == d * ((n / d) * k);
    DividesProduct(d, (n / d) * k);
  }

  /** Divisibility is preserved by linear combinations. */
  lemma DividesLinear(d: int, x: int, y: int, k: int)
    requires Divides(d, x) && Divides(d, y)
    ensures Divides(d, x - k * y) && Divides(d, x + k * y)
  {
    DividesQuotient(d, x);
    DividesQuotient(d, y);
    assert x - k * y == d * (x / d - k * (y / d));
    assert x + k * y == d * (x / d + k * (y / d));
    DividesProduct(d, x / d - k * (y / d));
    DividesProduct(d, x / d + k * (y / d));
  }

  /** A positive divisor of a positive number is no larger than it. */
  lemma DivisorAtMost(d: int, n: int)
    requires Divides(d, n) && n >= 1
    ensures d <= n && n / d >= 1
  {
    DividesQuotient(d, n);
    if n / d >= 1 {
      MulAtLeast(d, n / d);
    }
  }

  /** Dividing out a factor: `d` divides `n` exactly when `k * d` divides `k * n`. */
  lemma DividesCancel(k: int, d: int, n: int)
    requires k >= 1 && d >= 1
    ensures Divides(k * d, k * n) <==> Divides(d, n)
  {
    if Divides(d, n) {
      DividesQuotient(d, n);
      assert k * n == (k * d) * (n / d);
      DividesProduct(k * d, n / d);
    }
    if Divides(k * d, k * n) {
      var q := (k * n) / (k * d);
      DividesQuotient(k * d, k * n);
      assert k * (n - d * q) == 0;
      assert n == d * q;
      DividesProduct(d, q);
    }
  }

  // ---------------------------------------------------------------------------
  // Powers

  lemma PowPositive(b: int, e: nat)
    requires b >= 1
    ensures Pow(b, e) >= 1
  {
    if e > 0 {
      PowPositive(b, e - 1);
      MulAtLeast(b, Pow(b, e - 1));
    }
  }

  lemma PowAdd(b: int, e1: nat, e2: nat)
    ensures Pow(b, e1 + e2) == Pow(b, e1) * Pow(b, e2)
  {
    if e1 > 0 {
      PowAdd(b, e1 - 1, e2);
      assert Pow(b, e1 + e2) == b * Pow(b, e1 - 1 + e2);
    }
  }

  lemma PowMul(b: int, e1: nat, e2: nat)
    ensures Pow(b, e1 * e2) == Pow(Pow(b, e1), e2)
  {
    PowMulAux(b, e1, e2, e1 * e2);
  }

  lemma PowMulAux(b: int, e1: nat, e2: nat, n: nat)
    requires n == e1 * e2
    ensures Pow(b, n) == Pow(Pow(b, e1), e2)
  {
    if e2 > 0 {
      var m := e1 * (e2 - 1);
      assert e1 * e2 == e1 + m;
      PowMulAux(b, e1, e2 - 1, m);
      PowMulStep(b, e1, m, e2);
    }
  }

  lemma PowMulStep(b: int, e1: nat, m: nat, e2: nat)
    requires e2 >= 1
    requires Pow(b, m) == Pow(Pow(b, e1), e2 - 1)
    ensures Pow(b, e1 + m) == Pow(Pow(b, e1), e2)
  {
    PowAdd(b, e1, m);
  }

  /** Multiplication distributes over addition. */
  lemma Distribute(a: int, b: int, c: int)
    ensures a * (b + c) == a * b + a * c
    ensures (b + c) * a == b * a + c * a
  {
  }

  /** Products of non-negative numbers grow with their factors. */
  lemma MulMonotone(a: int, b: int, c: int, d: int)
    requires a >= c >= 0 && b >= d >= 0
    ensures a * b >= c * d
  {
    assert a * b - c * d == a * (b - d) + d * (a - c);
  }

  lemma SquareAtLeast(d: int, e: int, b: int)
    requires d >= b >= 0 && e >= b
    ensures d * e >= b * b
  {
    MulMonotone(d, e, b, b);
  }

  lemma MulRearrange(a: int, b: int, x: int, y: int)
    ensures (a * b) * (x * y) == (a * x) * (b * y)
  {
  }

  /** `(a * b)^e == a^e * b^e`. */
  lemma PowOfProduct(a: int, b: int, e: nat)
    ensures Pow(a * b, e) == Pow(a, e) * Pow(b, e)
  {
    if e > 0 {
      PowOfProduct(a, b, e - 1);
      MulRearrange(a, b, Pow(a, e - 1), Pow(b, e - 1));
    }
  }

  /** Powers of a base of at least 2 strictly increase with the exponent. */
  lemma PowStrictlyIncreasing(b: int, e1: nat, e2: nat)
    requires b >= 2 && e1 < e2
    ensures Pow(b, e1) < Pow(b, e2)
  {
    PowPositive(b, e1);
    if e2 == e1 + 1 {
      assert Pow(b, e2) == b * Pow(b, e1);
      MulAtLeast(Pow(b, e1), b - 1);
    } else {
      PowStrictlyIncreasing(b, e1, e2 - 1);
      PowPositive(b, e2 - 1);
      MulAtLeast(Pow(b, e2 - 1), b);
    }
  }

  lemma PowDividesPow(b: int, e1: nat, e2: nat)
    requires b >= 1 && e1 <= e2
    ensures Divides(Pow(b, e1), Pow(b, e2))
  {
    PowPositive(b, e1);
    PowAdd(b, e1, e2 - e1);
    DividesProduct(Pow(b, e1), Pow(b, e2 - e1));
  }

  // ---------------------------------------------------------------------------
  // Sequences

  lemma ProductAppend(s: seq<int>, t: seq<int>)
    ensures Product(s + t) == Product(s) * Product(t)
  {
    if t == [] {
      assert s + t == s;
    } else {
      var t', x := t[..|t| - 1], t[|t| - 1];
      ProductAppend(s, t');
      assert (s + t)[..|s + t| - 1] == s + t';
      MulAssoc(Product(s), Product(t'), x);
    }
  }

  lemma ProductCons(x: int, s: seq<int>)
    ensures Product([x] + s) == x * Product(s)
  {
    ProductAppend([x], s);
    assert Product([x]) == Product([]) * x;
  }

  lemma SumAppend(s: seq<int>, t: seq<int>)
    ensures Sum(s + t) == Sum(s) + Sum(t)
  {
    if t == [] {
      assert s + t == s;
    } else {
      SumAppend(s, t[..|t| - 1]);
      assert (s + t)[..|s + t| - 1] == s + t[..|t| - 1];
    }
  }

  lemma SumCons(x: int, s: seq<int>)
    ensures Sum([x] + s) == x + Sum(s)
  {
    SumAppend([x], s);
    assert Sum([x]) == Sum([]) + x;
  }

  /** Taking the entry at index `i` out of `t` divides it out of the product and the sum. */
  lemma RemoveAt(t: seq<int>, i: int)
    requires 0 <= i < |t|
    ensures Product(t) == t[i] * Product(t[..i] + t[i + 1..])
    ensures Sum(t) == t[i] + Sum(t[..i] + t[i + 1..])
  {
    SplitAt(t, i);
    ProductRemove(t[..i], t[i], t[i + 1..]);
    SumRemove(t[..i], t[i], t[i + 1..]);
  }

  /** A non-empty sequence is its front followed by its last element. */
  lemma SplitLast<T>(s: seq<T>)
    requires s != []
    ensures s == s[..|s| - 1] + [s[|s| - 1]]
  {
  }

  lemma SplitAt(t: seq<int>, i: int)
    requires 0 <= i < |t|
    ensures t == t[..i] + ([t[i]] + t[i + 1..])
  {
  }

  lemma SumRemove(a: seq<int>, x: int, b: seq<int>)
    ensures Sum(a + ([x] + b)) == x + Sum(a + b)
  {
    SumAppend(a, [x] + b);
    SumCons(x, b);
    SumAppend(a, b);
  }

  lemma ProductRemove(a: seq<int>, x: int, b: seq<int>)
    ensures Product(a + ([x] + b)) == x * Product(a + b)
  {
    ProductAppend(a, [x] + b);
    ProductCons(x, b);
    ProductAppend(a, b);
    MulSwap(Product(a), x, Product(b));
  }

  lemma MulAssoc(a: int, b: int, c: int)
    ensures (a * b) * c == a * (b * c)
  {
  }

  lemma MulSwap(a: int, x: int, b: int)
    ensures a * (x * b) == x * (a * b)
  {
  }

  /** The first entry of `s` sits at some index `i` of its permutation `t`,
      and what remains of both are permutations of each other. */
  lemma MatchFirst(s: seq<int>, t: seq<int>) returns (i: int)
    requires s != [] && multiset(s) == multiset(t)
    ensures 0 <= i < |t| && t[i] == s[0]
    ensures multiset(s[1..]) == multiset(t[..i] + t[i + 1..])
    ensures s[..0] + s[1..] == s[1..]
  {
    var x := s[0];
    assert x in multiset(t);
    i :| 0 <= i < |t| && t[i] == x;
    var rest := t[..i] + t[i + 1..];
    assert s == [x] + s[1..];
    assert t == t[..i] + [x] + t[i + 1..];
    assert multiset(s) == multiset(s[1..]) + multiset{x};
    assert multiset(t) == multiset(rest) + multiset{x};
    MultisetCancel(multiset(s[1..]), multiset(rest), x);
  }

  lemma MultisetCancel(m1: multiset<int>, m2: multiset<int>, x: int)
    requires m1 + multiset{x} == m2 + multiset{x}
    ensures m1 == m2
  {
    forall y
      ensures m1[y] == m2[y]
    {
      assert (m1 + multiset{x})[y] == m1[y] + multiset{x}[y];
      assert (m2 + multiset{x})[y] == m2[y] + multiset{x}[y];
    }
  }

  /** Products and sums depend only on the multiset of entries. */
  lemma {:induction false} PermutationInvariant(s: seq<int>, t: seq<int>)
    requires multiset(s) == multiset(t)
    ensures Product(s) == Product(t) && Sum(s) == Sum(t)
  {
    if s != [] {
      var i := MatchFirst(s, t);
      PermutationInvariant(s[1..], t[..i] + t[i + 1..]);
      RemoveAt(s, 0);
      RemoveAt(t, i);
    }
  }

  /** A duplicate-free sequence holds each of its entries exactly once. */
  lemma DistinctCount(s: seq<int>, x: int)
    requires Distinct(s)
    ensures multiset(s)[x] == if x in s then 1 else 0
  {
    if s != [] {
      assert s == [s[0]] + s[1..];
      assert Distinct(s[1..]);
      DistinctCount(s[1..], x);
    }
  }

  /** Two duplicate-free sequences with the same entries are permutations of each other. */
  lemma DistinctSameElements(s: seq<int>, t: seq<int>)
    requires Distinct(s) && Distinct(t)
    requires forall x :: x in s <==> x in t
    ensures multiset(s) == multiset(t) && |s| == |t|
  {
    forall x
      ensures multiset(s)[x] == multiset(t)[x]
    {
      DistinctCount(s, x);
      DistinctCount(t, x);
    }
    assert multiset(s) == multiset(t);
    assert |multiset(s)| == |s| && |multiset(t)| == |t|;
  }

  /** Two sorted sequences that are permutations of each other are equal. */
  lemma {:induction false} SortedPermutationEqual(s: seq<int>, t: seq<int>)
    requires Sorted(s) && Sorted(t) && multiset(s) == multiset(t)
    ensures s == t
  {
    assert |s| == |multiset(s)| == |t|;
    if s != [] {
      assert s[0] in multiset(t) && t[0] in multiset(s);
      assert s[0] in t && t[0] in s;
      assert s[0] == t[0];
      assert s == [s[0]] + s[1..] && t == [t[0]] + t[1..];
      assert multiset(s) == multiset(s[1..]) + multiset{s[0]};
      assert multiset(t) == multiset(t[1..]) + multiset{s[0]};
      MultisetCancel(multiset(s[1..]), multiset(t[1..]), s[0]);
      SortedPermutationEqual(s[1..], t[1..]);
    }
  }

  // ---------------------------------------------------------------------------
  // Primes and Euclid's lemma

  /** `n` is prime: at least 2 and no divisor strictly between 1 and itself. */
  predicate Prime(n: int) {
    n >= 2 && forall d :: 2 <= d < n ==> !Divides(d, n)
  }

  /**
   Euclid's lemma: a prime dividing a product divides one of the factors.
   Proved by descent on `a`: replace `a` by `a % p`, then by `p % a`, which is
   smaller and still has `p | a * b`.
   */
  lemma {:induction false} Euclid(p: int, a: int, b: int)
    requires Prime(p) && a >= 1 && b >= 1
    requires Divides(p, a * b)
    ensures Divides(p, a) || Divides(p, b)
    decreases a
  {
    var r := ModBounds(a, p);
    if r != 0 {
      DividesProduct(p, b);
      ReduceModulo(p, a, b, p);
      if r == 1 {
        assert r * b == b;
      } else {
        var s := PrimeModSmaller(p, r);
        ReduceModulo(p, p, b, r);
        Euclid(p, s, b);
        DivModUnique(s, p, 0, s);
      }
    }
  }

  lemma ModBounds(a: int, p: int) returns (r: int)
    requires a >= 0 && p >= 1
    ensures r == a % p && 0 <= r < p && r <= a
    ensures r == 0 <==> Divides(p, a)
  {
    r := a % p;
    if a < p {
      DivModUnique(a, p, 0, a);
    }
  }

  /** For `1 < r < p` with `p` prime, `p % r` lies strictly between 0 and `r`. */
  lemma PrimeModSmaller(p: int, r: int) returns (s: int)
    requires Prime(p) && 1 < r < p
    ensures s == p % r && 0 < s < r
  {
    assert !Divides(r, p);
    s := p % r;
  }

  /** If `p` divides both `a * b` and `m * b`, it divides `(a % m) * b`. */
  lemma ReduceModulo(p: int, a: int, b: int, m: int)
    requires p >= 1 && m >= 1
    requires Divides(p, a * b) && Divides(p, m * b)
    ensures Divides(p, (a % m) * b)
  {
    var q, r := a / m, a % m;
    assert a == m * q + r;
    assert r * b == a * b - q * (m * b);
    DividesLinear(p, a * b, m * b, q);
  }

  /** A prime dividing a product of primes is one of them. */
  lemma {:induction false} PrimeDividesProductOfPrimes(p: int, s: seq<int>)
    requires Prime(p)
    requires forall i :: 0 <= i < |s| ==> Prime(s[i])
    requires Divides(p, Product(s))
    ensures p in s
  {
    if s == [] {
      DivisorAtMost(p, 1);
    } else {
      var init, last := s[..|s| - 1], s[|s| - 1];
      ProductPositive(init);
      Euclid(p, Product(init), last);
      if Divides(p, Product(init)) {
        PrimeDividesProductOfPrimes(p, init);
      } else {
        DivisorAtMost(p, last);
      }
    }
  }

  lemma ProductPositive(s: seq<int>)
    requires forall i :: 0 <= i < |s| ==> s[i] >= 1
    ensures Product(s) >= 1
  {
    if s != [] {
      ProductPositive(s[..|s| - 1]);
      MulAtLeast(Product(s[..|s| - 1]), s[|s| - 1]);
    }
  }

  /** A prime dividing a positive power of the prime `q` is `q` itself. */
  lemma PrimeDividesPow(p: int, q: int, k: nat)
    requires Prime(p) && Prime(q) && Divides(p, Pow(q, k))
    ensures p == q && k >= 1
  {
    if k == 0 {
      DivisorAtMost(p, 1);
    } else {
      PowPositive(q, k - 1);
      Euclid(p, q, Pow(q, k - 1));
      if Divides(p, Pow(q, k - 1)) {
        PrimeDividesPow(p, q, k - 1);
      }
      DivisorAtMost(p, q);
    }
  }
}
