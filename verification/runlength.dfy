/**
 The factorization in pair form: ascending `(prime, multiplicity)` pairs.
 `Expand` turns pairs back into the list of primes with repeats, and
 `RunLengthEncode` collapses each run of equal neighbours into one pair. The two
 are inverse to each other on canonical pair lists, and the canonical pair list
 of a number is unique.
 */
module RunLength {
  import opened Arith
  import opened Primes

  /** A prime together with the number of times it occurs. */
  datatype PrimePower = PrimePower(prime: int, exponent: nat)

  /** `k` copies of `x`. */
  function Repeat(x: int, k: nat): (r: seq<int>)
    ensures |r| == k && forall i :: 0 <= i < k ==> r[i] == x
  {
    seq(k, _ => x)
  }

  /** Each pair `(p, k)` written out as `k` copies of `p`, in order. */
  function Expand(fs: seq<PrimePower>): seq<int> {
    if fs == [] then []
    else Expand(fs[..|fs| - 1]) + Repeat(fs[|fs| - 1].prime, fs[|fs| - 1].exponent)
  }

  /** Collapse each run of equal neighbouring entries into one `(value, run length)` pair. */
  function RunLengthEncode(s: seq<int>): seq<PrimePower> {
    if s == [] then [] else Push(RunLengthEncode(s[..|s| - 1]), s[|s| - 1])
  }

  /** One encoding step: extend the last run when `x` repeats its value, otherwise open a new run. */
  function Push(prev: seq<PrimePower>, x: int): seq<PrimePower> {
    if prev != [] && prev[|prev| - 1].prime == x
    then prev[..|prev| - 1] + [PrimePower(x, prev[|prev| - 1].exponent + 1)]
    else prev + [PrimePower(x, 1)]
  }

  /** Primes strictly ascending, every multiplicity at least 1. */
  predicate IsCanonical(fs: seq<PrimePower>) {
    && (forall i :: 0 <= i < |fs| ==> Prime(fs[i].prime) && fs[i].exponent >= 1)
    && (forall i, j :: 0 <= i < j < |fs| ==> fs[i].prime < fs[j].prime)
  }

  /** The number a pair list stands for: the product of `p^k` over its pairs. */
  function Value(fs: seq<PrimePower>): int {
    if fs == [] then 1
    else Value(fs[..|fs| - 1]) * Pow(fs[|fs| - 1].prime, fs[|fs| - 1].exponent)
  }

  /** The canonical `(prime, multiplicity)` factorization of `n`. */
  function CanonicalForm(n: int): seq<PrimePower>
    requires n >= 1
  {
    RunLengthEncode(Factorization(n))
  }

  // ---------------------------------------------------------------------------

  lemma ExpandSnoc(fs: seq<PrimePower>, f: PrimePower)
    ensures Expand(fs + [f]) == Expand(fs) + Repeat(f.prime, f.exponent)
  {
    assert (fs + [f])[..|fs + [f]| - 1] == fs;
  }

  lemma ValueSnoc(fs: seq<PrimePower>, f: PrimePower)
    ensures Value(fs + [f]) == Value(fs) * Pow(f.prime, f.exponent)
  {
    assert (fs + [f])[..|fs + [f]| - 1] == fs;
  }

  lemma RepeatSnoc(x: int, k: nat)
    ensures Repeat(x, k) + [x] == Repeat(x, k + 1)
  {
  }

  /** Encoding a non-empty list ends with a pair for its last entry; every run length is positive. */
  lemma {:induction false} RunLengthShape(s: seq<int>)
    ensures |RunLengthEncode(s)| <= |s|
    ensures s != [] ==> RunLengthEncode(s) != [] && RunLengthEncode(s)[|RunLengthEncode(s)| - 1].prime == s[|s| - 1]
    ensures forall i :: 0 <= i < |RunLengthEncode(s)| ==> RunLengthEncode(s)[i].exponent >= 1
  {
    if s != [] {
      RunLengthShape(s[..|s| - 1]);
      PushShape(RunLengthEncode(s[..|s| - 1]), s[|s| - 1]);
    }
  }

  lemma PushShape(prev: seq<PrimePower>, x: int)
    requires forall i :: 0 <= i < |prev| ==> prev[i].exponent >= 1
    ensures var r := Push(prev, x);
      && r != [] && r[|r| - 1].prime == x && |r| <= |prev| + 1
      && (forall i :: 0 <= i < |r| ==> r[i].exponent >= 1)
      && r[..|r| - 1] == (if prev != [] && prev[|prev| - 1].prime == x then prev[..|prev| - 1] else prev)
  {
  }

  /** Writing out one encoding step appends `x` to the written-out list. */
  lemma ExpandPush(prev: seq<PrimePower>, x: int)
    ensures Expand(Push(prev, x)) == Expand(prev) + [x]
  {
    if prev != [] && prev[|prev| - 1].prime == x {
      var init, last := prev[..|prev| - 1], prev[|prev| - 1];
      SplitLast(prev);
      ExpandSnoc(init, last);
      ExpandSnoc(init, PrimePower(x, last.exponent + 1));
      RepeatSnoc(x, last.exponent);
    } else {
      ExpandSnoc(prev, PrimePower(x, 1));
    }
  }

  /** Writing the pairs back out recovers the encoded list. */
  lemma {:induction false} ExpandRunLength(s: seq<int>)
    ensures Expand(RunLengthEncode(s)) == s
  {
    if s != [] {
      var s', x := s[..|s| - 1], s[|s| - 1];
      SplitLast(s);
      ExpandRunLength(s');
      ExpandPush(RunLengthEncode(s'), x);
    }
  }

  /** Membership in the written-out list: `x` occurs iff some pair has prime `x` and a positive count. */
  lemma {:induction false} InExpand(fs: seq<PrimePower>, x: int)
    ensures x in Expand(fs) <==> exists i :: 0 <= i < |fs| && fs[i].prime == x && fs[i].exponent >= 1
  {
    if fs != [] {
      var init, last := fs[..|fs| - 1], fs[|fs| - 1];
      SplitLast(fs);
      InExpand(init, x);
      ExpandSnoc(init, last);
      if x in Expand(fs) && !(x in Expand(init)) {
        assert x in Repeat(last.prime, last.exponent);
        assert fs[|fs| - 1].prime == x && fs[|fs| - 1].exponent >= 1;
      }
      if exists i :: 0 <= i < |fs| && fs[i].prime == x && fs[i].exponent >= 1 {
        var i :| 0 <= i < |fs| && fs[i].prime == x && fs[i].exponent >= 1;
        if i == |fs| - 1 {
          assert Repeat(x, last.exponent)[0] == x;
        } else {
          assert init[i] == fs[i];
        }
      }
    }
  }

  /** An ascending list of primes encodes to a canonical pair list. */
  lemma {:induction false} RunLengthCanonical(s: seq<int>)
    requires Sorted(s) && forall i :: 0 <= i < |s| ==> Prime(s[i])
    ensures IsCanonical(RunLengthEncode(s))
  {
    if s != [] {
      var s', x := s[..|s| - 1], s[|s| - 1];
      RunLengthCanonical(s');
      RunLengthShape(s');
      PushCanonical(RunLengthEncode(s'), x);
    }
  }

  lemma PushCanonical(prev: seq<PrimePower>, x: int)
    requires IsCanonical(prev) && Prime(x)
    requires prev != [] ==> prev[|prev| - 1].prime <= x
    ensures IsCanonical(Push(prev, x))
  {
    if prev != [] && prev[|prev| - 1].prime == x {
      var init := prev[..|prev| - 1];
      assert IsCanonical(init);
    } else {
      var r := prev + [PrimePower(x, 1)];
      forall i, j | 0 <= i < j < |r|
        ensures r[i].prime < r[j].prime
      {
        if j == |r| - 1 && i < |prev| - 1 {
          assert prev[i].prime < prev[|prev| - 1].prime;
        }
      }
    }
  }

  /** The last written-out entry of a canonical list is its last prime. */
  lemma ExpandLast(fs: seq<PrimePower>)
    requires fs != [] && fs[|fs| - 1].exponent >= 1
    ensures Expand(fs) != [] && Expand(fs)[|Expand(fs)| - 1] == fs[|fs| - 1].prime
  {
    var init, last := fs[..|fs| - 1], fs[|fs| - 1];
    SplitLast(fs);
    ExpandSnoc(init, last);
  }

  /** Appending a fresh run of `p` adds exactly one pair to the encoding. */
  lemma {:induction false} RunLengthAppendRun(t: seq<int>, p: int, k: nat)
    requires k >= 1 && (t == [] || t[|t| - 1] != p)
    ensures RunLengthEncode(t + Repeat(p, k)) == RunLengthEncode(t) + [PrimePower(p, k)]
  {
    if k == 1 {
      RunLengthNewRun(t, p);
    } else {
      RunLengthAppendRun(t, p, k - 1);
      RunLengthGrowRun(t, p, k);
    }
  }

  lemma RunLengthNewRun(t: seq<int>, p: int)
    requires t == [] || t[|t| - 1] != p
    ensures RunLengthEncode(t + Repeat(p, 1)) == RunLengthEncode(t) + [PrimePower(p, 1)]
  {
    RunLengthRunStep(t, p, 1);
    assert t + Repeat(p, 0) == t;
    RunLengthShape(t);
    PushFresh(RunLengthEncode(t), p);
  }

  lemma RunLengthGrowRun(t: seq<int>, p: int, k: nat)
    requires k >= 2
    requires RunLengthEncode(t + Repeat(p, k - 1)) == RunLengthEncode(t) + [PrimePower(p, k - 1)]
    ensures RunLengthEncode(t + Repeat(p, k)) == RunLengthEncode(t) + [PrimePower(p, k)]
  {
    RunLengthRunStep(t, p, k);
    PushExtends(RunLengthEncode(t), p, k - 1);
  }

  lemma RunLengthRunStep(t: seq<int>, p: int, k: nat)
    requires k >= 1
    ensures RunLengthEncode(t + Repeat(p, k)) == Push(RunLengthEncode(t + Repeat(p, k - 1)), p)
  {
    RepeatSnoc(p, k - 1);
    assert t + Repeat(p, k) == (t + Repeat(p, k - 1)) + [p];
    RunLengthSnoc(t + Repeat(p, k - 1), p);
  }

  lemma PushFresh(prev: seq<PrimePower>, x: int)
    requires prev == [] || prev[|prev| - 1].prime != x
    ensures Push(prev, x) == prev + [PrimePower(x, 1)]
  {
  }

  lemma RunLengthSnoc(s: seq<int>, x: int)
    ensures RunLengthEncode(s + [x]) == Push(RunLengthEncode(s), x)
  {
    assert (s + [x])[..|s|] == s;
  }

  lemma PushExtends(prefix: seq<PrimePower>, p: int, k: nat)
    ensures Push(prefix + [PrimePower(p, k)], p) == prefix + [PrimePower(p, k + 1)]
  {
    var prev := prefix + [PrimePower(p, k)];
    assert prev[..|prev| - 1] == prefix;
  }

  /** Encoding the written-out form of a canonical list gives the list back. */
  lemma {:induction false} RunLengthExpand(fs: seq<PrimePower>)
    requires IsCanonical(fs)
    ensures RunLengthEncode(Expand(fs)) == fs
  {
    if fs != [] {
      var init, last := fs[..|fs| - 1], fs[|fs| - 1];
      SplitLast(fs);
      assert IsCanonical(init);
      RunLengthExpand(init);
      ExpandSnoc(init, last);
      if init != [] {
        ExpandLast(init);
      }
      RunLengthAppendRun(Expand(init), last.prime, last.exponent);
    }
  }

  lemma ProductRepeat(x: int, k: nat)
    ensures Product(Repeat(x, k)) == Pow(x, k)
  {
    if k > 0 {
      ProductRepeat(x, k - 1);
      assert Repeat(x, k)[..k - 1] == Repeat(x, k - 1);
    }
  }

  /** A pair list stands for the product of its written-out form. */
  lemma {:induction false} ValueIsProduct(fs: seq<PrimePower>)
    ensures Value(fs) == Product(Expand(fs))
  {
    if fs != [] {
      var init, last := fs[..|fs| - 1], fs[|fs| - 1];
      SplitLast(fs);
      ValueIsProduct(init);
      ExpandSnoc(init, last);
      ProductAppend(Expand(init), Repeat(last.prime, last.exponent));
      ProductRepeat(last.prime, last.exponent);
    }
  }

  /** The written-out form of a canonical list is an ascending list of primes. */
  lemma {:induction false} ExpandCanonical(fs: seq<PrimePower>)
    requires IsCanonical(fs)
    ensures Sorted(Expand(fs)) && forall i :: 0 <= i < |Expand(fs)| ==> Prime(Expand(fs)[i])
  {
    if fs != [] {
      var init, last := fs[..|fs| - 1], fs[|fs| - 1];
      SplitLast(fs);
      assert IsCanonical(init);
      ExpandCanonical(init);
      ExpandSnoc(init, last);
      var a, b := Expand(init), Repeat(last.prime, last.exponent);
      forall i | 0 <= i < |a|
        ensures a[i] < last.prime
      {
        InExpand(init, a[i]);
      }
      assert Expand(fs) == a + b;
    }
  }

  /** The canonical form of `n` is canonical, multiplies back to `n`, and writes out to the factorization. */
  lemma CanonicalFormCorrect(n: int)
    requires n >= 1
    ensures IsCanonical(CanonicalForm(n))
    ensures Expand(CanonicalForm(n)) == Factorization(n)
    ensures Value(CanonicalForm(n)) == n
  {
    FactorizationCorrect(n);
    RunLengthCanonical(Factorization(n));
    ExpandRunLength(Factorization(n));
    ValueIsProduct(CanonicalForm(n));
  }

  /** A canonical pair list is the canonical form of the number it stands for: the pair form is unique. */
  lemma CanonicalUnique(fs: seq<PrimePower>)
    requires IsCanonical(fs)
    ensures Value(fs) >= 1 && fs == CanonicalForm(Value(fs))
  {
    ExpandCanonical(fs);
    ValueIsProduct(fs);
    var s := Expand(fs);
    if s != [] {
      ProductPositive(s);
    }
    SortedFactorizationUnique(Value(fs), s);
    RunLengthExpand(fs);
  }
}
