/**
  Exact real-number stand-ins for the two Python built-ins the loan engine
  uses: the power operator `x ** k` with a non-negative integer exponent,
  and `round(x, ndigits)`.

  `round` is modelled on exact reals: the result is the multiple of
  10^-ndigits nearest to `x`, and an exact tie goes to the even multiple
  (Python's rule). Binary floating-point representation is not modelled.
 */
module RealArith {

  /** `x ** k` for a natural exponent. */
  function Pow(x: real, k: nat): (p: real)
    ensures x >= 1.0 ==> p >= 1.0
    ensures x > 1.0 && k > 0 ==> p > 1.0
  {
    if k == 0 then 1.0 else x * Pow(x, k - 1)
  }

  function Max(a: real, b: real): (m: real)
    ensures m >= a && m >= b
    ensures m == a || m == b
  {
    if a >= b then a else b
  }

  /** True when `x` is a whole number. */
  predicate IsWhole(x: real) {
    x.Floor as real == x
  }

  /**
    The whole number nearest to `scaled`; a value exactly halfway between
    two whole numbers goes to the even one.
   */
  function HalfEven(scaled: real): (k: int)
    ensures -0.5 <= k as real - scaled <= 0.5
  {
    var low := scaled.Floor;
    var frac := scaled - low as real;
    if frac < 0.5 then low
    else if frac > 0.5 then low + 1
    else if low % 2 == 0 then low else low + 1
  }

  /** The multiple of 1/scale nearest to `x`, ties to the even multiple. */
  function RoundScaled(x: real, scale: real): (y: real)
    requires scale >= 1.0
  {
    HalfEven(x * scale) as real / scale
  }

  lemma RoundScaledNearest(x: real, scale: real)
    requires scale >= 1.0
    ensures RoundScaled(x, scale) * scale == HalfEven(x * scale) as real
    ensures -0.5 <= (RoundScaled(x, scale) - x) * scale <= 0.5
  {
  }

  /** `round(x, ndigits)`: the nearest multiple of 10^-ndigits, ties to the even multiple. */
  function Round(x: real, ndigits: nat): real {
    RoundScaled(x, Pow(10.0, ndigits))
  }

  /** Rounding to 2 places is rounding to whole hundredths. */
  lemma {:induction false} RoundToCents(x: real)
    ensures Round(x, 2) == RoundScaled(x, 100.0)
  {
    assert Pow(10.0, 0) == 1.0;
    assert Pow(10.0, 1) == 10.0;
    assert Pow(10.0, 2) == 100.0;
  }

  /** Rounding to cents moves a value by at most half a cent and gives a whole number of cents. */
  lemma Round2Error(x: real)
    ensures -0.005 <= Round(x, 2) - x <= 0.005
    ensures IsWhole(Round(x, 2) * 100.0)
  {
    RoundToCents(x);
    RoundScaledNearest(x, 100.0);
    var k := HalfEven(x * 100.0);
    assert Round(x, 2) * 100.0 == k as real;
  }

  /** A value of at most half a cent rounds to zero cents (the tie goes to the even 0). */
  lemma Round2Tiny(x: real)
    requires 0.0 <= x <= 0.005
    ensures Round(x, 2) == 0.0
  {
    RoundToCents(x);
    var scaled := x * 100.0;
    assert 0.0 <= scaled <= 0.5;
    assert scaled.Floor == 0;
    assert HalfEven(scaled) == 0;
  }

  /** A value above half a cent rounds to at least one cent. */
  lemma Round2AboveHalfCent(x: real)
    requires x > 0.005
    ensures Round(x, 2) >= 0.01
  {
    RoundToCents(x);
    var scaled := x * 100.0;
    assert scaled > 0.5;
    assert HalfEven(scaled) >= 1;
  }

  /** Rounding a non-negative value to cents never gives a negative amount. */
  lemma Round2NonNegative(x: real)
    requires x >= 0.0
    ensures Round(x, 2) >= 0.0
  {
    RoundToCents(x);
    var scaled := x * 100.0;
    assert scaled >= 0.0;
    assert scaled.Floor >= 0;
    assert HalfEven(scaled) >= 0;
  }

  /** Rounding to the nearest whole number never reverses an order. */
  lemma HalfEvenMonotone(x: real, y: real)
    requires x <= y
    ensures HalfEven(x) <= HalfEven(y)
  {
  }

  /** Rounding to cents never reverses an order. */
  lemma Round2Monotone(x: real, y: real)
    requires x <= y
    ensures Round(x, 2) <= Round(y, 2)
  {
    RoundToCents(x);
    RoundToCents(y);
    HalfEvenMonotone(x * 100.0, y * 100.0);
  }
}
