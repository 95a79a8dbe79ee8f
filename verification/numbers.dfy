/** The JavaScript number helpers the utilities rely on, over the reals. */
module Numbers {

  /** Absolute value. */
  function Abs(x: real): (r: real)
    ensures r >= 0.0
    ensures r == x || r == -x
  {
    if x < 0.0 then -x else x
  }

  /** True when `x` is a whole number. */
  predicate IsIntegral(x: real) {
    x == x.Floor as real
  }

  /** `Math.round`: the nearest integer, with ties going toward positive
      infinity (`Math.round(-2.5)` is -2, not -3). */
  function Round(x: real): (k: int)
    ensures x - 0.5 < k as real <= x + 0.5
  {
    (x + 0.5).Floor
  }

  /** The window `x - 1/2 < k <= x + 1/2` pins down `Round(x)`: it is an
      independent definition of the rounding. */
  lemma RoundUnique(x: real, k: int)
    requires x - 0.5 < k as real <= x + 0.5
    ensures Round(x) == k
  {
  }

  /** No integer is nearer to `x` than `Round(x)`, and of two equally near
      integers `Round(x)` is the larger. */
  lemma RoundIsNearest(x: real, j: int)
    ensures Abs(Round(x) as real - x) <= Abs(j as real - x)
    ensures Abs(j as real - x) == Abs(Round(x) as real - x) ==> j <= Round(x)
  {
  }

  /** Ties go up: half-integers round toward positive infinity. */
  lemma RoundTiesTowardPositiveInfinity()
    ensures Round(2.5) == 3
    ensures Round(-2.5) == -2
    ensures Round(-0.5) == 0
  {
  }

  /** `|a * c| == |a| * |c|`. */
  lemma AbsMul(a: real, c: real)
    ensures Abs(a * c) == Abs(a) * Abs(c)
  {
    if a < 0.0 && c >= 0.0 {
      assert a * c <= 0.0;
    } else if a >= 0.0 && c < 0.0 {
      assert a * c <= 0.0;
    } else if a < 0.0 && c < 0.0 {
      assert a * c == (-a) * (-c);
    }
  }

  /** Multiplying a strict inequality by a positive factor. */
  lemma ScaleStrict(a: real, b: real, c: real)
    requires a < b && c > 0.0
    ensures a * c < b * c
  {
  }

  /** Multiplying a weak inequality by a non-negative factor. */
  lemma ScaleWeak(a: real, b: real, c: real)
    requires a <= b && c >= 0.0
    ensures a * c <= b * c
  {
  }
}
