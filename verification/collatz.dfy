/**
 The library's Collatz sequence length: from `num`, halve when even and take
 `3 * num + 1` when odd, counting the values visited until 1 is reached. The
 model states the count through the stopping time of `n`, the least number of
 steps after which the iteration sits at 1.
 */
module Collatz {
  import opened Arith
  import opened Validation

  /** One Collatz step. */
  function Step(n: int): int {
    if n % 2 == 0 then n / 2 else 3 * n + 1
  }

  /** The value reached from `n` after `k` steps. */
  function Iterate(n: int, k: nat): int
    decreases k
  {
    if k == 0 then n else Iterate(Step(n), k - 1)
  }

  /** After `k` steps the iteration from `n` first reaches 1. */
  ghost predicate IsStoppingTime(n: int, k: nat) {
    Iterate(n, k) == 1 && forall j :: 0 <= j < k ==> Iterate(n, j) != 1
  }

  /** Taking one more step is one more application of `Step` at the end. */
  lemma {:induction false} IterateSnoc(n: int, k: nat)
    ensures Iterate(n, k + 1) == Step(Iterate(n, k))
    decreases k
  {
    if k > 0 {
      IterateSnoc(Step(n), k - 1);
    }
  }

  /** A step from a number above 1 lands on a positive number. */
  lemma StepPositive(n: int)
    requires n > 1
    ensures Step(n) >= 1
  {
  }

  /** The stopping time, when it exists, is unique. */
  lemma StoppingTimeUnique(n: int, k1: nat, k2: nat)
    requires IsStoppingTime(n, k1) && IsStoppingTime(n, k2)
    ensures k1 == k2
  {
  }

  /** From a number above 1, the stopping time is one more than that of its successor. */
  lemma StoppingTimeStep(n: int, k: nat)
    requires n > 1
    ensures IsStoppingTime(n, k + 1) <==> IsStoppingTime(Step(n), k)
  {
    assert Iterate(n, k + 1) == Iterate(Step(n), k);
    if IsStoppingTime(Step(n), k) {
      forall j | 0 <= j < k + 1
        ensures Iterate(n, j) != 1
      {
        if j > 0 {
          assert Iterate(n, j) == Iterate(Step(n), j - 1);
        }
      }
    }
    if IsStoppingTime(n, k + 1) {
      forall j | 0 <= j < k
        ensures Iterate(Step(n), j) != 1
      {
        assert Iterate(n, j + 1) == Iterate(Step(n), j);
      }
    }
  }

  /**
   The library's sequence length. The loop runs only while the value is above 1,
   so it ends exactly when the iteration from `n` reaches 1; the model asks the
   caller for that, since whether it always does is the open Collatz conjecture.
   The count includes the starting value unless `includeFirst` is false.
   */
  method CollatzLength(n: int, includeFirst: bool) returns (r: Result<int>)
    requires n >= 1 ==> exists k :: Iterate(n, k) == 1
    ensures r.Err? <==> n < 1
    ensures r.Err? ==> r.error == BelowMinimum(n, 1)
    ensures r.Ok? && includeFirst ==> r.value >= 1 && IsStoppingTime(n, r.value - 1)
    ensures r.Ok? && !includeFirst ==> r.value >= 0 && IsStoppingTime(n, r.value)
  {
    var v := Validate(n, 1);
    if v.Fail? {
      return Err(v.error);
    }
    ghost var bound: nat :| Iterate(n, bound) == 1;
    var num, length := n, 1;
    ghost var steps: nat := 0;
    while num > 1
      invariant num >= 1 && num == Iterate(n, steps) && length == steps + 1
      invariant forall j :: 0 <= j < steps ==> Iterate(n, j) != 1
      invariant steps <= bound
      decreases bound - steps
    {
      StepPositive(num);
      IterateSnoc(n, steps);
      num := if num % 2 == 0 then num / 2 else 3 * num + 1;
      length := length + 1;
      steps := steps + 1;
    }
    if !includeFirst {
      length := length - 1;
    }
    return Ok(length);
  }

  /** A power of two halves straight down to 1: the stopping time of `2^e` is `e`. */
  lemma {:induction false} PowerOfTwoStoppingTime(e: nat)
    ensures IsStoppingTime(Pow(2, e), e)
  {
    if e > 0 {
      PowerOfTwoStoppingTime(e - 1);
      PowPositive(2, e - 1);
      Doubling(Pow(2, e - 1), e - 1);
    }
  }

  /** Doubling a positive number adds one step to its stopping time. */
  lemma Doubling(m: int, k: nat)
    requires m >= 1 && IsStoppingTime(m, k)
    ensures IsStoppingTime(2 * m, k + 1)
  {
    assert Step(2 * m) == m;
    StoppingTimeStep(2 * m, k);
  }

  /** The worked value: 12, 6, 3, 10, 5, 16, 8, 4, 2, 1 takes 9 steps, 10 values. */
  lemma StoppingTimeOfTwelve()
    ensures IsStoppingTime(12, 9)
  {
    PowerOfTwoStoppingTime(4);
    assert Pow(2, 4) == 16;
    StoppingTimeStep(5, 4);
    StoppingTimeStep(10, 5);
    StoppingTimeStep(3, 6);
    StoppingTimeStep(6, 7);
    StoppingTimeStep(12, 8);
  }
}
