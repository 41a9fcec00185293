/** The evaluator's accumulator as an exact fraction. In the source the
    accumulator is a Python int until the first true division and a float
    afterwards; here it is a numerator over a positive denominator, and its
    meaning is the exact `real` it denotes. */
module Rational {

  type Positive = d: int | d > 0 witness 1

  datatype Rat = Rat(num: int, den: Positive)

  /** The exact value the fraction denotes. */
  function Value(r: Rat): real {
    r.num as real / r.den as real
  }

  function FromInt(n: int): (r: Rat)
    ensures Value(r) == n as real
  {
    Rat(n, 1)
  }

  /** `result - number` */
  function Minus(r: Rat, n: int): (q: Rat)
    ensures Value(q) == Value(r) - n as real
  {
    var q := Rat(r.num - n * r.den, r.den);
    assert (r.num - n * r.den) as real == r.num as real - n as real * r.den as real;
    q
  }

  /** `result * number` */
  function Times(r: Rat, n: int): (q: Rat)
    ensures Value(q) == Value(r) * n as real
  {
    var q := Rat(r.num * n, r.den);
    assert (r.num * n) as real == r.num as real * n as real;
    q
  }

  /** `result / number`, true division; the caller has excluded a zero
      divisor. A negative divisor moves its sign into the numerator. */
  function Over(r: Rat, n: int): (q: Rat)
    requires n != 0
    ensures Value(q) == Value(r) / n as real
  {
    if n > 0 then
      var q := Rat(r.num, r.den * n);
      assert (r.den * n) as real == r.den as real * n as real;
      q
    else
      var q := Rat(-r.num, r.den * -n);
      assert (r.den * -n) as real == r.den as real * -(n as real);
      q
  }

  /** `result > 0` */
  predicate IsPositive(r: Rat)
    ensures IsPositive(r) <==> Value(r) > 0.0
  {
    r.num > 0
  }

  /** `round(result) == result`: the value has no fractional part. */
  predicate IsIntegral(r: Rat)
    ensures IsIntegral(r) <==> Value(r) == Value(r).Floor as real
  {
    IntegralValue(r);
    r.num % r.den == 0
  }

  /** `int(result)` on an integral value. */
  function ToInt(r: Rat): (n: int)
    requires IsIntegral(r)
    ensures n as real == Value(r)
  {
    var k := r.num / r.den;
    assert r.num == k * r.den;
    assert r.num as real == k as real * r.den as real;
    k
  }

  lemma IntegralValue(r: Rat)
    ensures r.num % r.den == 0 <==> Value(r) == Value(r).Floor as real
  {
    var v := Value(r);
    var d := r.den as real;
    assert v * d == r.num as real;
    if r.num % r.den == 0 {
      var k := r.num / r.den;
      assert r.num == k * r.den;
      assert r.num as real == k as real * d;
      assert v == k as real;
    } else {
      var f := v.Floor;
      if v == f as real {
        assert r.num as real == f as real * d;
        assert r.num == f * r.den;
        MultipleMod(f, r.den);
        assert false;
      }
    }
  }

  lemma MultipleMod(f: int, d: Positive)
    ensures (f * d) % d == 0
  {
    var n := f * d;
    var q, m := n / d, n % d;
    assert n == q * d + m && 0 <= m < d;
    assert (f - q) * d == m;
    var e := f - q;
    if e > 0 {
      assert e * d == (e - 1) * d + d;
      NonNegativeProduct(e - 1, d);
    } else if e < 0 {
      assert e * d == -((-e - 1) * d) - d;
      NonNegativeProduct(-e - 1, d);
    }
  }

  lemma NonNegativeProduct(a: nat, b: nat)
    ensures a * b >= 0
  {
  }
}
