/**
 The library's decimal-digit routines: the palindrome test, the digit sum and
 the two monotone-digit tests. Each walks the number from its last digit with
 `% 10` and `// 10`; the model states each result over `Digits(n)`, the
 decimal digits of `n` most significant first.
 */
module Digits {
  import opened Arith
  import opened Validation

  /** The decimal digits of `n`, most significant first; 0 has none. */
  function Digits(n: nat): (r: seq<int>)
    ensures forall i :: 0 <= i < |r| ==> 0 <= r[i] <= 9
  {
    if n == 0 then [] else Digits(n / 10) + [n % 10]
  }

  /** The number a list of decimal digits spells, most significant first. */
  function FromDigits(ds: seq<int>): int {
    if ds == [] then 0 else FromDigits(ds[..|ds| - 1]) * 10 + ds[|ds| - 1]
  }

  /** `ds` is a list of decimal digits. */
  predicate AreDigits(ds: seq<int>) {
    forall i :: 0 <= i < |ds| ==> 0 <= ds[i] <= 9
  }

  /** The entries in the opposite order. */
  function Reverse(s: seq<int>): (r: seq<int>)
    ensures |r| == |s| && forall i :: 0 <= i < |s| ==> r[i] == s[|s| - 1 - i]
  {
    seq(|s|, i requires 0 <= i < |s| => s[|s| - 1 - i])
  }

  // ---------------------------------------------------------------------------
  // Digits and their value

  /** Reading the digits back gives the number. */
  lemma {:induction false} FromDigitsOfDigits(n: nat)
    ensures FromDigits(Digits(n)) == n
  {
    if n > 0 {
      FromDigitsOfDigits(n / 10);
      assert Digits(n)[..|Digits(n)| - 1] == Digits(n / 10);
    }
  }

  /** The first digit of a positive number is not 0. */
  lemma {:induction false} LeadingDigit(n: nat)
    requires n > 0
    ensures Digits(n) != [] && Digits(n)[0] != 0
  {
    if n / 10 > 0 {
      LeadingDigit(n / 10);
    }
  }

  /** Digits spell a non-negative number below `10^|ds|`. */
  lemma {:induction false} FromDigitsRange(ds: seq<int>)
    requires AreDigits(ds)
    ensures 0 <= FromDigits(ds) < Pow(10, |ds|)
  {
    if ds != [] {
      FromDigitsRange(ds[..|ds| - 1]);
    }
  }

  /** A digit list with no leading 0 is the digit list of the number it spells. */
  lemma {:induction false} DigitsOfFromDigits(ds: seq<int>)
    requires AreDigits(ds) && (ds == [] || ds[0] != 0)
    ensures FromDigits(ds) >= 0 && Digits(FromDigits(ds)) == ds
  {
    if ds != [] {
      var init, last := ds[..|ds| - 1], ds[|ds| - 1];
      var m := FromDigits(init);
      assert init == [] || init[0] == ds[0];
      DigitsOfFromDigits(init);
      LeadingValue(ds);
      DivideOffLast(m, last);
      DigitsStep(m * 10 + last, init, last);
    }
  }

  lemma DigitsStep(x: nat, init: seq<int>, last: int)
    requires x > 0 && Digits(x / 10) == init && x % 10 == last
    ensures Digits(x) == init + [last]
  {
  }

  /** A digit list starting with a non-zero digit spells a positive number. */
  lemma LeadingValue(ds: seq<int>)
    requires AreDigits(ds) && ds != [] && ds[0] != 0
    ensures FromDigits(ds) > 0
  {
    if |ds| > 1 {
      LeadingValue(ds[..|ds| - 1]);
    }
  }

  lemma DivideOffLast(m: int, d: int)
    requires m >= 0 && 0 <= d <= 9
    ensures (m * 10 + d) / 10 == m && (m * 10 + d) % 10 == d
  {
    DivModUnique(m * 10 + d, 10, m, d);
  }

  /** Two digit lists of the same length spelling the same number are equal. */
  lemma {:induction false} FromDigitsInjective(a: seq<int>, b: seq<int>)
    requires AreDigits(a) && AreDigits(b) && |a| == |b| && FromDigits(a) == FromDigits(b)
    ensures a == b
  {
    if a != [] {
      var ia, ib := a[..|a| - 1], b[..|b| - 1];
      FromDigitsRange(ia);
      FromDigitsRange(ib);
      DivideOffLast(FromDigits(ia), a[|a| - 1]);
      DivideOffLast(FromDigits(ib), b[|b| - 1]);
      FromDigitsInjective(ia, ib);
      SplitLast(a);
      SplitLast(b);
    }
  }

  /** The last digit and the rest, as `% 10` and `// 10` expose them. */
  lemma DigitsSplit(n: nat)
    requires n > 0
    ensures Digits(n) == Digits(n / 10) + [n % 10]
  {
  }

  // ---------------------------------------------------------------------------
  // Palindromes

  /**
   The library's palindrome test: `num` is checked against 0; the digits are
   pushed, last first, onto a reversed number, which is compared with the input.
   */
  method IsPalindrome(num: int) returns (r: Result<bool>)
    ensures r.Err? <==> num < 0
    ensures r.Err? ==> r.error == BelowMinimum(num, 0)
    ensures r.Ok? ==> (r.value <==> Reverse(Digits(num)) == Digits(num))
    ensures r.Ok? ==> (r.value <==> FromDigits(Reverse(Digits(num))) == num)
  {
    var v := Validate(num, 0);
    if v.Fail? {
      return Err(v.error);
    }
    var temp, rest := num, num;
    var reversed := 0;
    ghost var taken: seq<int> := [];
    while rest > 0
      invariant 0 <= rest && Digits(temp) == Digits(rest) + taken
      invariant reversed == FromDigits(Reverse(taken))
      decreases rest
    {
      PushDigit(taken, rest % 10, reversed);
      reversed := reversed * 10 + rest % 10;
      taken := [rest % 10] + taken;
      DigitsSplit(rest);
      rest := rest / 10;
    }
    assert Digits(temp) == taken;
    PalindromeValue(temp);
    return Ok(reversed == temp);
  }

  /** Pushing a digit onto the reversed number appends it to the reversed digits. */
  lemma PushDigit(taken: seq<int>, d: int, reversed: int)
    requires reversed == FromDigits(Reverse(taken))
    ensures reversed * 10 + d == FromDigits(Reverse([d] + taken))
  {
    var r := Reverse([d] + taken);
    assert r[..|r| - 1] == Reverse(taken);
  }

  /** A number equals its digit reversal exactly when its digits read the same both ways. */
  lemma PalindromeValue(n: nat)
    ensures FromDigits(Reverse(Digits(n))) == n <==> Reverse(Digits(n)) == Digits(n)
  {
    var ds := Digits(n);
    FromDigitsOfDigits(n);
    if FromDigits(Reverse(ds)) == n {
      FromDigitsInjective(Reverse(ds), ds);
    }
  }

  // ---------------------------------------------------------------------------
  // Digit sum

  /** The library's digit sum: `num` is checked against 0, then its digits are added up, last first. */
  method SumOfDigits(num: int) returns (r: Result<int>)
    ensures r.Err? <==> num < 0
    ensures r.Err? ==> r.error == BelowMinimum(num, 0)
    ensures r.Ok? ==> r.value == Sum(Digits(num))
  {
    var v := Validate(num, 0);
    if v.Fail? {
      return Err(v.error);
    }
    var rest, total := num, 0;
    while rest > 0
      invariant 0 <= rest && total + Sum(Digits(rest)) == Sum(Digits(num))
      decreases rest
    {
      DigitsSplit(rest);
      SumAppend(Digits(rest / 10), [rest % 10]);
      total := total + rest % 10;
      rest := rest / 10;
    }
    return Ok(total);
  }

  /** Casting out nines: a number and its digit sum leave the same remainder modulo 9. */
  lemma {:induction false} DigitSumModNine(n: nat)
    ensures Sum(Digits(n)) % 9 == n % 9
  {
    if n > 0 {
      var m, d := n / 10, n % 10;
      DigitSumModNine(m);
      SumAppend(Digits(m), [d]);
      NineStep(n, m, d, Sum(Digits(m)));
    }
  }

  lemma NineStep(n: int, m: int, d: int, s: int)
    requires n == 10 * m + d && s % 9 == m % 9
    ensures (s + d) % 9 == n % 9
  {
    var q1, q2 := s / 9, m / 9;
    assert s == 9 * q1 + m % 9 && m == 9 * q2 + m % 9;
    assert n - (s + d) == 9 * (m + q2 - q1);
    DivModUnique(n, 9, (s + d) / 9 + m + q2 - q1, (s + d) % 9);
  }

  // ---------------------------------------------------------------------------
  // Monotone digits

  /** Read left to right, the digits never go up. */
  predicate NonIncreasing(ds: seq<int>) {
    forall i :: 0 <= i < |ds| - 1 ==> ds[i] >= ds[i + 1]
  }

  /** Read left to right, the digits never go down. */
  predicate NonDecreasing(ds: seq<int>) {
    forall i :: 0 <= i < |ds| - 1 ==> ds[i] <= ds[i + 1]
  }

  /**
   The library's non-increasing test: `num` is checked against 10; walking from
   the last digit, each earlier digit must be at least the one after it, and the
   walk stops at the first that is not.
   */
  method NonIncreasingNumber(num: int) returns (r: Result<bool>)
    ensures r.Err? <==> num < 10
    ensures r.Err? ==> r.error == BelowMinimum(num, 10)
    ensures r.Ok? ==> (r.value <==> NonIncreasing(Digits(num)))
  {
    var v := Validate(num, 10);
    if v.Fail? {
      return Err(v.error);
    }
    DigitsSplit(num);
    var curr, rest := num % 10, num / 10;
    ghost var taken: seq<int> := [curr];
    var nonInc := true;
    while rest > 0 && nonInc
      invariant 0 <= rest && Digits(num) == Digits(rest) + taken
      invariant taken != [] && (nonInc ==> curr == taken[0])
      invariant nonInc <==> NonIncreasing(taken)
      decreases rest
    {
      var temp := rest % 10;
      TakeDigit(rest, taken);
      ConsNonIncreasing(temp, taken);
      rest := rest / 10;
      taken := [temp] + taken;
      if curr > temp {
        nonInc := false;
      } else {
        curr := temp;
      }
    }
    if !nonInc {
      SuffixBreaks(Digits(rest), taken, false);
    }
    return Ok(nonInc);
  }

  /**
   The library's non-decreasing test: `num` is checked against 10; walking from
   the last digit, each earlier digit must be at most the one after it, and the
   walk stops at the first that is not.
   */
  method NonDecreasingNumber(num: int) returns (r: Result<bool>)
    ensures r.Err? <==> num < 10
    ensures r.Err? ==> r.error == BelowMinimum(num, 10)
    ensures r.Ok? ==> (r.value <==> NonDecreasing(Digits(num)))
  {
    var v := Validate(num, 10);
    if v.Fail? {
      return Err(v.error);
    }
    DigitsSplit(num);
    var curr, rest := num % 10, num / 10;
    ghost var taken: seq<int> := [curr];
    var nonDec := true;
    while rest > 0 && nonDec
      invariant 0 <= rest && Digits(num) == Digits(rest) + taken
      invariant taken != [] && (nonDec ==> curr == taken[0])
      invariant nonDec <==> NonDecreasing(taken)
      decreases rest
    {
      var temp := rest % 10;
      TakeDigit(rest, taken);
      ConsNonDecreasing(temp, taken);
      rest := rest / 10;
      taken := [temp] + taken;
      if curr < temp {
        nonDec := false;
      } else {
        curr := temp;
      }
    }
    if !nonDec {
      SuffixBreaks(Digits(rest), taken, true);
    }
    return Ok(nonDec);
  }

  /** Moving the last digit of `rest` to the front of `taken` keeps the whole digit list. */
  lemma TakeDigit(rest: nat, taken: seq<int>)
    requires rest > 0
    ensures Digits(rest) + taken == Digits(rest / 10) + ([rest % 10] + taken)
  {
    DigitsSplit(rest);
  }

  /** A digit in front keeps a list non-increasing exactly when it is at least the old first digit. */
  lemma ConsNonIncreasing(x: int, t: seq<int>)
    requires t != []
    ensures NonIncreasing([x] + t) <==> x >= t[0] && NonIncreasing(t)
  {
    var s := [x] + t;
    assert s[0] == x && s[1] == t[0];
    if NonIncreasing(s) {
      forall i | 0 <= i < |t| - 1
        ensures t[i] >= t[i + 1]
      {
        assert s[i + 1] == t[i] && s[i + 2] == t[i + 1];
      }
    }
    if x >= t[0] && NonIncreasing(t) {
      forall i | 0 <= i < |s| - 1
        ensures s[i] >= s[i + 1]
      {
        if i > 0 {
          assert s[i] == t[i - 1] && s[i + 1] == t[i];
        }
      }
    }
  }

  /** A digit in front keeps a list non-decreasing exactly when it is at most the old first digit. */
  lemma ConsNonDecreasing(x: int, t: seq<int>)
    requires t != []
    ensures NonDecreasing([x] + t) <==> x <= t[0] && NonDecreasing(t)
  {
    var s := [x] + t;
    assert s[0] == x && s[1] == t[0];
    if NonDecreasing(s) {
      forall i | 0 <= i < |t| - 1
        ensures t[i] <= t[i + 1]
      {
        assert s[i + 1] == t[i] && s[i + 2] == t[i + 1];
      }
    }
    if x <= t[0] && NonDecreasing(t) {
      forall i | 0 <= i < |s| - 1
        ensures s[i] <= s[i + 1]
      {
        if i > 0 {
          assert s[i] == t[i - 1] && s[i + 1] == t[i];
        }
      }
    }
  }

  /** A break in the monotone order of a suffix is a break in the whole list. */
  lemma SuffixBreaks(front: seq<int>, back: seq<int>, up: bool)
    requires up ==> !NonDecreasing(back)
    requires !up ==> !NonIncreasing(back)
    ensures up ==> !NonDecreasing(front + back)
    ensures !up ==> !NonIncreasing(front + back)
  {
    var whole := front + back;
    if up {
      var i :| 0 <= i < |back| - 1 && back[i] > back[i + 1];
      assert whole[|front| + i] == back[i] && whole[|front| + i + 1] == back[i + 1];
    } else {
      var i :| 0 <= i < |back| - 1 && back[i] < back[i + 1];
      assert whole[|front| + i] == back[i] && whole[|front| + i + 1] == back[i + 1];
    }
  }

  /** A number passes both monotone tests exactly when all its digits are equal. */
  lemma MonotoneBoth(n: nat)
    ensures NonIncreasing(Digits(n)) && NonDecreasing(Digits(n))
        <==> forall i :: 0 <= i < |Digits(n)| ==> Digits(n)[i] == Digits(n)[0]
  {
    var ds := Digits(n);
    if NonIncreasing(ds) && NonDecreasing(ds) {
      ConstantSteps(ds);
    }
  }

  lemma {:induction false} ConstantSteps(ds: seq<int>)
    requires forall i :: 0 <= i < |ds| - 1 ==> ds[i] == ds[i + 1]
    ensures forall i :: 0 <= i < |ds| ==> ds[i] == ds[0]
  {
    if |ds| > 1 {
      ConstantSteps(ds[..|ds| - 1]);
      assert ds[|ds| - 1] == ds[|ds| - 2];
    }
  }

  // ---------------------------------------------------------------------------
  // Worked values

  /** Writing digit `d` after the decimal digits of `n > 0` gives the digits of `10 * n + d`. */
  lemma AppendDigit(n: nat, d: int)
    requires n > 0 && 0 <= d <= 9
    ensures Digits(10 * n + d) == Digits(n) + [d]
  {
    DivideOffLast(n, d);
    DigitsStep(10 * n + d, Digits(n), d);
  }

  /** The digits of 2442, 2443 and 12445. */
  lemma SomeDigits()
    ensures Digits(2442) == [2, 4, 4, 2]
    ensures Digits(2443) == [2, 4, 4, 3]
    ensures Digits(12445) == [1, 2, 4, 4, 5]
  {
    AppendDigit(2, 4);
    AppendDigit(24, 4);
    AppendDigit(244, 2);
    AppendDigit(244, 3);
    AppendDigit(1, 2);
    AppendDigit(12, 4);
    AppendDigit(124, 4);
    AppendDigit(1244, 5);
  }

  /** 0 and 2442 read the same both ways and 2443 does not. */
  lemma PalindromeExamples()
    ensures Reverse(Digits(0)) == Digits(0)
    ensures Reverse(Digits(2442)) == Digits(2442)
    ensures Reverse(Digits(2443)) != Digits(2443)
  {
    SomeDigits();
    var p := [2, 4, 4, 2];
    assert Reverse(p) == [p[3], p[2], p[1], p[0]];
    assert Reverse([2, 4, 4, 3])[0] == 3;
  }

  /** The digits of 12445 add up to 16. */
  lemma DigitSumExample()
    ensures Sum(Digits(12445)) == 16
  {
    SomeDigits();
    DigitListSum();
  }

  lemma DigitListSum()
    ensures Sum([1, 2, 4, 4, 5]) == 16
  {
    var q := [1, 2, 4, 4, 5];
    assert q[..1] == [1] && Sum(q[..1]) == 1;
    assert q[..2][..1] == q[..1] && Sum(q[..2]) == 3;
    assert q[..3][..2] == q[..2] && Sum(q[..3]) == 7;
    assert q[..4][..3] == q[..3] && Sum(q[..4]) == 11;
    assert q[..4] == q[..|q| - 1];
  }

  /** The digits of 222111, 111112 and 2222212. */
  lemma MoreDigits()
    ensures Digits(222111) == [2, 2, 2, 1, 1, 1]
    ensures Digits(111112) == [1, 1, 1, 1, 1, 2]
    ensures Digits(2222212) == [2, 2, 2, 2, 2, 1, 2]
  {
    DigitsOfNonIncreasingExample();
    DigitsOfNonDecreasingExample();
    DigitsOfNeitherExample();
  }

  lemma DigitsOfNonIncreasingExample()
    ensures Digits(222111) == [2, 2, 2, 1, 1, 1]
  {
    AppendDigit(2, 2);
    AppendDigit(22, 2);
    AppendDigit(222, 1);
    AppendDigit(2221, 1);
    AppendDigit(22211, 1);
  }

  lemma DigitsOfNonDecreasingExample()
    ensures Digits(111112) == [1, 1, 1, 1, 1, 2]
  {
    AppendDigit(1, 1);
    AppendDigit(11, 1);
    AppendDigit(111, 1);
    AppendDigit(1111, 1);
    AppendDigit(11111, 2);
  }

  lemma DigitsOfNeitherExample()
    ensures Digits(2222212) == [2, 2, 2, 2, 2, 1, 2]
  {
    AppendDigit(2, 2);
    AppendDigit(22, 2);
    AppendDigit(222, 2);
    AppendDigit(2222, 2);
    AppendDigit(22222, 1);
    AppendDigit(222221, 2);
  }

  /** 222111 is non-increasing, 111112 is non-decreasing, and 2222212 is neither. */
  lemma MonotoneExamples()
    ensures NonIncreasing(Digits(222111))
    ensures NonDecreasing(Digits(111112))
    ensures !NonIncreasing(Digits(2222212)) && !NonDecreasing(Digits(2222212))
  {
    MoreDigits();
    MonotoneListExamples();
  }

  lemma MonotoneListExamples()
    ensures NonIncreasing([2, 2, 2, 1, 1, 1])
    ensures NonDecreasing([1, 1, 1, 1, 1, 2])
    ensures !NonIncreasing([2, 2, 2, 2, 2, 1, 2]) && !NonDecreasing([2, 2, 2, 2, 2, 1, 2])
  {
    var a, b, c := [2, 2, 2, 1, 1, 1], [1, 1, 1, 1, 1, 2], [2, 2, 2, 2, 2, 1, 2];
    forall i | 0 <= i < |a| - 1
      ensures a[i] >= a[i + 1]
    {
      assert i == 0 || i == 1 || i == 2 || i == 3 || i == 4;
    }
    forall i | 0 <= i < |b| - 1
      ensures b[i] <= b[i + 1]
    {
      assert i == 0 || i == 1 || i == 2 || i == 3 || i == 4;
    }
    assert c[4] > c[5] && c[5] < c[6];
  }
}
