/** Exact values: powers with negative exponents, and the rounding interval of a double. */
module Rounding {
  import opened Arith
  import opened Decimals
  import opened Ieee

  /** b^e for any integer e. */
  ghost function RPow(b: nat, e: int): real
    requires b >= 1
  {
    if e >= 0 then RealPow(b, e) else 1.0 / RealPow(b, -e)
  }

  ghost function RealPow(b: nat, e: nat): (r: real)
    requires b >= 1
    ensures r > 0.0
  {
    PowPositive(b, e);
    Pow(b, e) as real
  }

  lemma RPowPositive(b: nat, e: int)
    requires b >= 1
    ensures RPow(b, e) > 0.0
  {
    if e < 0 { Inverse(RealPow(b, -e)); }
  }

  lemma Inverse(x: real)
    requires x > 0.0
    ensures x * (1.0 / x) == 1.0 && 1.0 / x > 0.0
  {
  }

  lemma IntProduct(x: int, y: int)
    ensures (x * y) as real == x as real * y as real
  {
  }

  lemma RealAssoc(x: real, y: real, z: real)
    ensures (x * y) * z == x * (y * z) && x * y == y * x
  {
  }

  lemma RealPowAdd(b: nat, m: nat, n: nat)
    requires b >= 1
    ensures RealPow(b, m + n) == RealPow(b, m) * RealPow(b, n)
  {
    PowAdd(b, m, n);
    IntProduct(Pow(b, m), Pow(b, n));
  }

  /** Adding n to the exponent multiplies by b^n. */
  lemma RPowAdd(b: nat, e: int, n: nat)
    requires b >= 1
    ensures RPow(b, e + n) == RPow(b, e) * RealPow(b, n)
  {
    hide RealPow;
    if e >= 0 {
      RealPowAdd(b, e, n);
    } else if e + n >= 0 {
      RealPowAdd(b, e + n, -e);
      var x, y, z := RealPow(b, e + n), RealPow(b, -e), RealPow(b, n);
      Inverse(y);
      CancelInverse(x, y, z, 1.0 / y);
    } else {
      RealPowAdd(b, -e - n, n);
      var x, y, z := RealPow(b, -e - n), RealPow(b, -e), RealPow(b, n);
      Inverse(x);
      Inverse(y);
      CancelTwo(x, y, z, 1.0 / x, 1.0 / y);
    }
  }

  lemma CancelInverse(x: real, y: real, z: real, w: real)
    requires z == x * y && y * w == 1.0
    ensures x == w * z
  {
    RealAssoc(x, y, w);
    assert z * w == x * (y * w);
  }

  lemma CancelTwo(x: real, y: real, z: real, v: real, w: real)
    requires y == x * z && x * v == 1.0 && y * w == 1.0
    ensures v == w * z
  {
    assert v == v * (y * w);
    assert v * (y * w) == (v * x) * (z * w) by { RealAssoc(x, z, w); RealAssoc(v, x, z * w); }
  }

  lemma RPowMul(b: nat, m: int, n: int)
    requires b >= 1
    ensures RPow(b, m + n) == RPow(b, m) * RPow(b, n)
  {
    hide RealPow;
    if n >= 0 {
      RPowAdd(b, m, n);
    } else {
      RPowAdd(b, m + n, -n);
      Inverse(RealPow(b, -n));
      var x, y, z := RPow(b, m + n), RealPow(b, -n), 1.0 / RealPow(b, -n);
      RealAssoc(x, y, z);
    }
  }

  lemma RealPowIs(b: nat, e: nat)
    requires b >= 1
    ensures RPow(b, e) == Pow(b, e) as real
  {
  }

  lemma TenOnce()
    ensures RealPow(10, 1) == 10.0
  {
    PowStep(10, 0);
  }

  lemma RealSum(x: real, y: real, z: real)
    ensures (x + y) * z == x * z + y * z
  {
  }

  /** Dividing both sides of a comparison by a positive factor. */
  lemma CompareScaled(x: real, y: real, z: real)
    requires z > 0.0
    ensures x < y <==> x * z < y * z
    ensures x <= y <==> x * z <= y * z
    ensures x == y <==> x * z == y * z
  {
    if x < y { ScaleUp(x, y, z); }
    if y < x { ScaleUp(y, x, z); }
  }

  lemma ScaleUp(x: real, y: real, z: real)
    requires z > 0.0 && x < y
    ensures x * z < y * z
  {
  }

  // ---- doubles ----

  ghost function Value(v: Double): real { v.f as real * RPow(2, v.e) }

  ghost function Lower(v: Double): real { LowerQuarters(v) as real * RPow(2, v.e - 2) }

  ghost function Upper(v: Double): real { UpperQuarters(v) as real * RPow(2, v.e - 2) }

  ghost predicate Inside(lo: real, x: real, hi: real, closed: bool)
  {
    if closed then lo <= x <= hi else lo < x < hi
  }

  /** x rounds to v: it is inside the rounding interval, which has its ends if and only if the significand is even. */
  ghost predicate RoundsTo(x: real, v: Double)
  {
    Inside(Lower(v), x, Upper(v), v.f % 2 == 0)
  }

  ghost function DecimalValue(b: int, exponent: int): real { b as real * RPow(10, exponent) }

  /** Moving part of a decimal exponent into the number. */
  lemma LowerExponent(m: int, e: int, q: int)
    requires q <= e
    ensures DecimalValue(m, e) == DecimalValue(m * Pow(10, e - q), q)
  {
    hide Pow, RPow;
    RPowAdd(10, q, e - q);
    IntProduct(m, Pow(10, e - q));
    RealAssoc(m as real, Pow(10, e - q) as real, RPow(10, q));
    RealAssoc(Pow(10, e - q) as real, RPow(10, q), 1.0);
  }

  ghost function Far(x: real, y: real): real { if x < y then y - x else x - y }

  /** The digits of v as a decimal number: in its rounding interval, shortest, and closest. */
  ghost predicate ShortestFor(v: Double, digits: seq<int>, exponent: int)
  {
    && |digits| >= 1 && IsDecimal(digits) && digits[0] >= 1 && digits[|digits| - 1] >= 1
    && RoundsTo(DecimalValue(Decimal(digits), exponent), v)
    && (forall d: int, k: int :: d >= 1 && RoundsTo(DecimalValue(d, k), v) ==> d >= Pow(10, |digits| - 1))
    && (forall x: int :: RoundsTo(DecimalValue(x, exponent), v) ==>
          Far(DecimalValue(Decimal(digits), exponent), Value(v)) <= Far(DecimalValue(x, exponent), Value(v)))
  }

  /** c * 2^te is within half a last place of 10^mk. */
  ghost predicate CachedPower(c: int, te: int, mk: int)
  {
    var t := RPow(10, mk) * RPow(2, -te);
    c as real - 0.5 <= t <= c as real + 0.5
  }

  lemma PowerOf(c: int, te: int, mk: int) returns (t: real)
    requires CachedPower(c, te, mk)
    ensures t == RPow(10, mk) * RPow(2, -te) && c as real - 0.5 <= t <= c as real + 0.5
  {
    t := RPow(10, mk) * RPow(2, -te);
  }
}
