/**
 The library's figurate numbers: the n-th triangular, pentagonal and hexagonal
 numbers, each computed from its closed form after `n` is checked against 1.
 The model's independent reference is the polygonal number `Polygonal(s, n)`,
 the dots in `n` nested `s`-gons, built by adding one gnomon at a time; the
 lemmas show that each closed form counts exactly those dots.
 */
module Figurate {
  import opened Validation

  /**
   The n-th `s`-gonal number by its geometric construction: the k-th layer adds
   `1 + (s - 2) * (k - 1)` dots.
   */
  function Polygonal(s: int, n: nat): int {
    if n == 0 then 0 else Polygonal(s, n - 1) + 1 + (s - 2) * (n - 1)
  }

  /** Twice the n-th `s`-gonal number is `(s - 2) * n^2 - (s - 4) * n`. */
  lemma {:induction false} PolygonalClosedForm(s: int, n: nat)
    ensures 2 * Polygonal(s, n) == (s - 2) * n * n - (s - 4) * n
  {
    if n > 0 {
      PolygonalClosedForm(s, n - 1);
      GnomonStep(s, n, Polygonal(s, n - 1));
    }
  }

  /** Adding the n-th layer to the closed form for `n - 1` layers gives the closed form for `n`. */
  lemma GnomonStep(s: int, n: int, prev: int)
    requires 2 * prev == (s - 2) * (n - 1) * (n - 1) - (s - 4) * (n - 1)
    ensures 2 * (prev + 1 + (s - 2) * (n - 1)) == (s - 2) * n * n - (s - 4) * n
  {
    var t := s - 2;
    assert (n - 1) * (n - 1) == n * n - 2 * n + 1;
    assert t * (n - 1) * (n - 1) == t * (n * n) - 2 * t * n + t;
    assert 2 * t * (n - 1) == 2 * t * n - 2 * t;
    assert t * n * n == t * (n * n);
  }

  /** Every layer holds at least one dot once `s >= 2`, so the n-th number is at least `n`. */
  lemma {:induction false} PolygonalAtLeast(s: int, n: nat)
    requires s >= 2
    ensures Polygonal(s, n) >= n
  {
    if n > 0 {
      PolygonalAtLeast(s, n - 1);
      assert (s - 2) * (n - 1) >= 0;
    }
  }

  /** An even number halved exactly: `(2 * q) / 2 == q`. */
  lemma HalfOfDouble(x: int, q: int)
    requires x == 2 * q
    ensures x / 2 == q && x % 2 == 0
  {
  }

  /** The n-th triangular number `n * (n + 1) // 2`, for `n >= 1`. */
  function Triangle(n: int): (r: Result<int>)
    ensures r.Err? <==> n < 1
    ensures r.Err? ==> r.error == BelowMinimum(n, 1)
    ensures r.Ok? ==> r.value == Polygonal(3, n) && r.value >= n
  {
    var v := Validate(n, 1);
    if v.Fail? then Err(v.error)
    else
      PolygonalClosedForm(3, n);
      PolygonalAtLeast(3, n);
      assert n * (n + 1) == 1 * n * n - (-1) * n;
      HalfOfDouble(n * (n + 1), Polygonal(3, n));
      Ok(n * (n + 1) / 2)
  }

  /** The n-th pentagonal number `n * (3n - 1) // 2`, for `n >= 1`. */
  function Pentagonal(n: int): (r: Result<int>)
    ensures r.Err? <==> n < 1
    ensures r.Err? ==> r.error == BelowMinimum(n, 1)
    ensures r.Ok? ==> r.value == Polygonal(5, n) && r.value >= n
  {
    var v := Validate(n, 1);
    if v.Fail? then Err(v.error)
    else
      PolygonalClosedForm(5, n);
      PolygonalAtLeast(5, n);
      assert n * (3 * n - 1) == 3 * n * n - 1 * n;
      HalfOfDouble(n * (3 * n - 1), Polygonal(5, n));
      Ok(n * (3 * n - 1) / 2)
  }

  /** The n-th hexagonal number `n * (2n - 1)`, for `n >= 1`. */
  function Hexagonal(n: int): (r: Result<int>)
    ensures r.Err? <==> n < 1
    ensures r.Err? ==> r.error == BelowMinimum(n, 1)
    ensures r.Ok? ==> r.value == Polygonal(6, n) && r.value >= n
  {
    var v := Validate(n, 1);
    if v.Fail? then Err(v.error)
    else
      PolygonalClosedForm(6, n);
      PolygonalAtLeast(6, n);
      assert 2 * (n * (2 * n - 1)) == 4 * n * n - 2 * n;
      Ok(n * (2 * n - 1))
  }

  /** Every hexagonal number is triangular: the n-th hexagonal number is the (2n - 1)-th triangular number. */
  lemma HexagonalIsTriangle(n: int)
    requires n >= 1
    ensures Hexagonal(n).Ok? && Triangle(2 * n - 1).Ok?
    ensures Hexagonal(n).value == Triangle(2 * n - 1).value
  {
    var m := 2 * n - 1;
    PolygonalClosedForm(3, m);
    PolygonalClosedForm(6, n);
    HexagonalArith(n, m, Polygonal(6, n), Polygonal(3, m));
  }

  lemma HexagonalArith(n: int, m: int, h: int, t: int)
    requires m == 2 * n - 1
    requires 2 * h == (6 - 2) * n * n - (6 - 4) * n
    requires 2 * t == (3 - 2) * m * m - (3 - 4) * m
    ensures h == t
  {
    assert m * m == 4 * n * n - 4 * n + 1;
  }

  /** Three times the n-th pentagonal number is the (3n - 1)-th triangular number. */
  lemma PentagonalIsThirdOfTriangle(n: int)
    requires n >= 1
    ensures Pentagonal(n).Ok? && Triangle(3 * n - 1).Ok?
    ensures 3 * Pentagonal(n).value == Triangle(3 * n - 1).value
  {
    var m := 3 * n - 1;
    PolygonalClosedForm(3, m);
    PolygonalClosedForm(5, n);
    PentagonalArith(n, m, Polygonal(5, n), Polygonal(3, m));
  }

  lemma PentagonalArith(n: int, m: int, p: int, t: int)
    requires m == 3 * n - 1
    requires 2 * p == (5 - 2) * n * n - (5 - 4) * n
    requires 2 * t == (3 - 2) * m * m - (3 - 4) * m
    ensures 3 * p == t
  {
    assert m * m == 9 * n * n - 6 * n + 1;
  }

  /** The n-th pentagonal number is the (n - 1)-th triangular number plus `n^2`. */
  lemma PentagonalIsTrianglePlusSquare(n: int)
    requires n >= 2
    ensures Pentagonal(n).Ok? && Triangle(n - 1).Ok?
    ensures Pentagonal(n).value == Triangle(n - 1).value + n * n
  {
    var m := n - 1;
    PolygonalClosedForm(3, m);
    PolygonalClosedForm(5, n);
    PentagonalSquareArith(n, m, Polygonal(5, n), Polygonal(3, m));
  }

  lemma PentagonalSquareArith(n: int, m: int, p: int, t: int)
    requires m == n - 1
    requires 2 * p == (5 - 2) * n * n - (5 - 4) * n
    requires 2 * t == (3 - 2) * m * m - (3 - 4) * m
    ensures p == t + n * n
  {
    assert m * m == n * n - 2 * n + 1;
  }

  /** The worked values: triangle(7) = 28, pentagonal(6) = 51, hexagonal(4) = 28. */
  lemma FigurateExamples()
    ensures Triangle(7) == Ok(28)
    ensures Pentagonal(6) == Ok(51)
    ensures Hexagonal(4) == Ok(28)
  {
  }
}
