/** What reading a decimal number means, and which digits can matter: double-conversion/strtod.cc. */
module DecimalReading {
  import opened Arith
  import opened Decimals
  import opened Ieee
  import opened Rounding

  // ---- the order of doubles ----

  /** Zero or a positive finite double. */
  ghost predicate Finite(v: Double)
  {
    && 0 <= v.f < 2 * HIDDEN_BIT && DENORMAL_EXPONENT <= v.e <= 971
    && (v.f < HIDDEN_BIT ==> v.e == DENORMAL_EXPONENT)
  }

  datatype Read = Number(v: Double) | Infinity

  const MAX_DOUBLE: Double := Double(0x1F_FFFF_FFFF_FFFF, 971)

  function NextDouble(v: Double): Read
  {
    if v.f + 1 < 2 * HIDDEN_BIT then Number(Double(v.f + 1, v.e))
    else if v.e < 971 then Number(Double(HIDDEN_BIT, v.e + 1))
    else Infinity
  }

  /**
   * x is read as r by rounding to nearest, ties to even; what is beyond the largest double by half a place is infinite.
   */
  ghost predicate ReadsAs(x: real, r: Read)
  {
    match r
    case Number(v) => Finite(v) && RoundsTo(x, v)
    case Infinity => x >= Upper(MAX_DOUBLE)
  }

  ghost predicate Before(v: Double, w: Double)
  {
    v.e < w.e || (v.e == w.e && v.f < w.f)
  }

  lemma QuartersOrder(q: int, r: int, e: int)
    ensures q < r <==> q as real * RPow(2, e) < r as real * RPow(2, e)
    ensures q == r <==> q as real * RPow(2, e) == r as real * RPow(2, e)
  {
    hide RPow;
    RPowPositive(2, e);
    CompareScaled(q as real, r as real, RPow(2, e));
  }

  /** Quarters of a larger exponent, in quarters of a smaller one. */
  lemma QuartersRescaled(q: int, e: int, n: nat)
    ensures q as real * RPow(2, e + n) == (q * Pow(2, n)) as real * RPow(2, e)
  {
    hide RPow, Pow;
    RPowAdd(2, e, n);
    IntProduct(q, Pow(2, n));
    RealAssoc(q as real, Pow(2, n) as real, RPow(2, e));
    RealAssoc(Pow(2, n) as real, RPow(2, e), 1.0);
  }

  /** The rounding intervals of doubles follow one another; where two of them meet, exactly one is closed. */
  lemma IntervalsFollow(v: Double, w: Double)
    requires Finite(v) && Finite(w) && Before(v, w)
    ensures Upper(v) <= Lower(w) && (Upper(v) == Lower(w) ==> v.f % 2 != w.f % 2)
  {
    hide RPow, Pow;
    var n := w.e - v.e;
    if n == 0 {
      QuartersOrder(UpperQuarters(v), LowerQuarters(w), v.e - 2);
    } else {
      PowStep(2, n - 1);
      PowPositive(2, n - 1);
      var t := Pow(2, n - 1);
      QuartersRescaled(LowerQuarters(w), v.e - 2, n);
      TwiceAsFar(LowerQuarters(w), t);
      var far := LowerQuarters(w) * Pow(2, n);
      QuartersOrder(UpperQuarters(v), far, v.e - 2);
    }
  }

  lemma TwiceAsFar(lower: int, t: int)
    requires lower >= 4 * HIDDEN_BIT - 1 && t >= 1
    ensures lower * (2 * t) >= 8 * HIDDEN_BIT - 2
    ensures lower * (2 * t) == 8 * HIDDEN_BIT - 2 ==> lower == 4 * HIDDEN_BIT - 1
  {
    MulMono(lower, 2, 2 * t);
  }

  /** A double's interval ends where that of the next one begins. */
  lemma NextMeets(v: Double)
    requires Finite(v)
    ensures match NextDouble(v)
      case Number(w) => Finite(w) && Lower(w) == Upper(v) && w.f % 2 != v.f % 2
      case Infinity => v == MAX_DOUBLE
  {
    hide RPow;
    if v.f + 1 == 2 * HIDDEN_BIT && v.e < 971 {
      PowStep(2, 0);
      QuartersRescaled(4 * HIDDEN_BIT - 1, v.e - 2, 1);
    }
  }

  lemma IntervalNotEmpty(v: Double)
    requires v.f >= 0
    ensures Lower(v) < Upper(v)
  {
    hide RPow;
    QuartersOrder(LowerQuarters(v), UpperQuarters(v), v.e - 2);
  }

  /** No number is read as two different doubles. */
  lemma ReadingUnique(x: real, r: Read, s: Read)
    requires ReadsAs(x, r) && ReadsAs(x, s)
    ensures r == s
  {
    match (r, s)
    case (Number(v), Number(w)) =>
      if Before(v, w) { IntervalsFollow(v, w); } else if Before(w, v) { IntervalsFollow(w, v); }
    case (Number(v), Infinity) => BelowInfinity(x, v);
    case (Infinity, Number(v)) => BelowInfinity(x, v);
    case (Infinity, Infinity) =>
  }

  lemma BelowInfinity(x: real, v: Double)
    requires Finite(v) && RoundsTo(x, v)
    ensures x < Upper(MAX_DOUBLE)
  {
    if v != MAX_DOUBLE {
      IntervalsFollow(v, MAX_DOUBLE);
      IntervalNotEmpty(MAX_DOUBLE);
    }
  }

  // ---- what the intervals mean ----

  lemma ValueQuarters(v: Double, e: int, n: nat)
    requires v.e == e + n
    ensures Value(v) == (4 * v.f * Pow(2, n)) as real * RPow(2, e - 2)
    ensures Lower(v) == (LowerQuarters(v) * Pow(2, n)) as real * RPow(2, e - 2)
    ensures Upper(v) == (UpperQuarters(v) * Pow(2, n)) as real * RPow(2, e - 2)
  {
    hide RPow, Pow;
    PowStep(2, 0);
    PowStep(2, 1);
    QuartersRescaled(v.f, v.e - 2, 2);
    QuartersRescaled(4 * v.f, e - 2, n);
    QuartersRescaled(LowerQuarters(v), e - 2, n);
    QuartersRescaled(UpperQuarters(v), e - 2, n);
  }

  lemma TwiceAtMost(a: int, b: int, c: int, q: real)
    requires a + b <= 2 * c && q > 0.0
    ensures a as real * q + b as real * q <= 2.0 * (c as real * q)
  {
    CompareScaled((a + b) as real, (2 * c) as real, q);
    RealSum(a as real, b as real, q);
    RealAssoc(2.0, c as real, q);
  }

  /** The boundary above is not beyond the middle between v and any larger double. */
  lemma MiddleAbove(v: Double, w: Double)
    requires Finite(v) && Finite(w) && Before(v, w)
    ensures 2.0 * Upper(v) <= Value(v) + Value(w)
  {
    hide RPow, Pow, Value, Lower, Upper;
    var n := w.e - v.e;
    PowStep(2, 0);
    ValueQuarters(v, v.e, 0);
    ValueQuarters(w, v.e, n);
    RPowPositive(2, v.e - 2);
    if n > 0 {
      PowStep(2, n - 1);
      PowPositive(2, n - 1);
      MulMono(4 * w.f, 2, Pow(2, n));
    }
    var q, far := RPow(2, v.e - 2), 4 * w.f * Pow(2, n);
    TwiceAtMost(-(4 * v.f), -far, -UpperQuarters(v), q);
  }

  /** The boundary below is not beyond the middle between v and any smaller double. */
  lemma MiddleBelow(v: Double, w: Double)
    requires Finite(v) && Finite(w) && Before(w, v)
    ensures 2.0 * Lower(v) >= Value(v) + Value(w)
  {
    hide RPow, Pow, Value, Lower, Upper;
    var n := v.e - w.e;
    PowStep(2, 0);
    ValueQuarters(w, w.e, 0);
    ValueQuarters(v, w.e, n);
    RPowPositive(2, w.e - 2);
    LowerQuartersMiddle(v, w, n, Pow(2, n));
    TwiceAtMost(4 * w.f, 4 * v.f * Pow(2, n), LowerQuarters(v) * Pow(2, n), RPow(2, w.e - 2));
  }

  lemma LowerQuartersMiddle(v: Double, w: Double, n: nat, P: int)
    requires Finite(v) && Finite(w) && Before(w, v) && n == v.e - w.e && P == Pow(2, n)
    ensures 4 * w.f + 4 * v.f * P <= 2 * (LowerQuarters(v) * P)
  {
    hide Pow;
    PowStep(2, 0);
    if n > 0 {
      PowStep(2, n - 1);
      PowPositive(2, n - 1);
      MulMono(2 * LowerQuarters(v) - 4 * v.f, 2, P);
      Dist(2 * LowerQuarters(v), 4 * v.f, P);
      MulAssoc(2, LowerQuarters(v), P);
    }
  }

  /** What a number is read as is no farther from it than any double, and if another one is as near, it is even. */
  lemma ReadIsNearest(x: real, v: Double, w: Double)
    requires ReadsAs(x, Number(v)) && Finite(w) && w != v
    ensures Far(x, Value(v)) <= Far(x, Value(w))
    ensures Far(x, Value(v)) == Far(x, Value(w)) ==> v.f % 2 == 0
  {
    hide Value, Lower, Upper;
    if Before(v, w) {
      MiddleAbove(v, w);
      ValueOrder(v, w);
    } else {
      MiddleBelow(v, w);
      ValueOrder(w, v);
    }
  }

  lemma ValueOrder(v: Double, w: Double)
    requires Finite(v) && Finite(w) && Before(v, w)
    ensures Value(v) < Value(w)
  {
    hide RPow, Lower, Upper, Value;
    MiddleAbove(v, w);
    ValueBelowUpper(v);
  }

  lemma ValueBelowUpper(v: Double)
    ensures Value(v) < Upper(v)
  {
    hide RPow, Pow;
    PowStep(2, 0);
    ValueQuarters(v, v.e, 0);
    QuartersOrder(4 * v.f, UpperQuarters(v), v.e - 2);
  }

  // ---- comparing with the boundary ----

  /** A power with a positive or negative exponent, as a fraction of two integers. */
  lemma Fraction(b: nat, e: int) returns (num: int, den: int)
    requires b >= 1
    ensures num >= 1 && den >= 1 && RPow(b, e) * den as real == num as real
    ensures if e >= 0 then num == Pow(b, e) && den == 1 else num == 1 && den == Pow(b, -e)
  {
    if e >= 0 {
      PowPositive(b, e);
      num, den := Pow(b, e), 1;
    } else {
      PowPositive(b, -e);
      num, den := 1, Pow(b, -e);
      Inverse(RealPow(b, -e));
    }
  }

  lemma CrossMultiplied(x: int, f: int, a: int, b: int, c: int, d: int, s: real, t: real)
    requires a >= 1 && b >= 1 && c >= 1 && d >= 1 && s * b as real == a as real && t * d as real == c as real
    ensures (x * a) * d < (f * b) * c <==> x as real * s < f as real * t
    ensures (x * a) * d == (f * b) * c <==> x as real * s == f as real * t
  {
    var z := b as real * d as real;
    IntProduct(x, a);
    IntProduct(x * a, d);
    IntProduct(f, b);
    IntProduct(f * b, c);
    assert z > 0.0 by { IntProduct(b, d); MulMono(b, 1, d); }
    CrossReal(x as real, a as real, b as real, d as real, s);
    CrossReal(f as real, c as real, d as real, b as real, t);
    assert ((f * b) * c) as real == (f as real * c as real) * b as real by {
      RealAssoc(f as real, b as real, c as real);
      RealAssoc(f as real, c as real, b as real);
      RealAssoc(b as real, c as real, 1.0);
    }
    RealAssoc(b as real, d as real, 1.0);
    CompareScaled(x as real * s, f as real * t, z);
  }

  lemma CrossReal(x: real, a: real, b: real, d: real, s: real)
    requires s * b == a
    ensures (x * a) * d == (x * s) * (b * d)
  {
    RealAssoc(x, s, b);
    RealAssoc(x * s, b, d);
  }

  ghost function BinaryValue(f: int, e: int): real { f as real * RPow(2, e) }

  lemma CrossValues(n: int, f: int, a: int, b: int, c: int, d: int, exponent: int, e: int)
    requires a >= 1 && b >= 1 && c >= 1 && d >= 1
    requires RPow(10, exponent) * b as real == a as real && RPow(2, e) * d as real == c as real
    ensures (n * a) * d < (f * b) * c <==> DecimalValue(n, exponent) < BinaryValue(f, e)
    ensures (n * a) * d == (f * b) * c <==> DecimalValue(n, exponent) == BinaryValue(f, e)
  {
    hide RPow;
    CrossMultiplied(n, f, a, b, c, d, RPow(10, exponent), RPow(2, e));
  }

  /** What the guess promises: it is right, or it is the double just below. */
  ghost predicate GoodGuess(x: real, guess: Read, isCorrect: bool)
  {
    if isCorrect || guess.Infinity? then ReadsAs(x, guess)
      else Finite(guess.v) && (ReadsAs(x, guess) || ReadsAs(x, NextDouble(guess.v)))
  }

  /** The boundary decides between a double and the next one. */
  lemma AtBoundary(x: real, v: Double)
    requires Finite(v) && (ReadsAs(x, Number(v)) || ReadsAs(x, NextDouble(v)))
    ensures x < Upper(v) || (x == Upper(v) && v.f % 2 == 0) ==> ReadsAs(x, Number(v))
    ensures x > Upper(v) || (x == Upper(v) && v.f % 2 != 0) ==> ReadsAs(x, NextDouble(v))
  {
    NextMeets(v);
    IntervalNotEmpty(v);
    match NextDouble(v)
    case Number(w) => IntervalNotEmpty(w);
    case Infinity =>
  }

  lemma HalfIsTwoQuarters(v: Double)
    ensures BinaryValue(2 * v.f + 1, v.e - 1) == Upper(v)
  {
    hide RPow;
    PowStep(2, 0);
    QuartersRescaled(2 * v.f + 1, v.e - 2, 1);
  }

  // ---- printing and reading ----

  /** Reading the shortest digits of a double gives the double back. */
  lemma RoundTrip(v: Double, digits: seq<int>, exponent: int, r: Read)
    requires v.Valid() && ShortestFor(v, digits, exponent) && ReadsAs(DecimalValue(Decimal(digits), exponent), r)
    ensures r == Number(v)
  {
    hide RoundsTo, Decimal, DecimalValue;
    ReadingUnique(DecimalValue(Decimal(digits), exponent), r, Number(v));
  }

  // ---- leaving digits away ----

  const MAX_SIGNIFICANT_DIGITS: nat := 780

  lemma FivesAndTwos(n: nat)
    ensures Pow(10, n) == Pow(2, n) * Pow(5, n)
  {
    PowMulBase(2, 5, n);
  }

  lemma {:induction false} FivesBelowTwos(n: nat)
    ensures Pow(5, 3 * n) <= Pow(2, 7 * n)
  {
    if n > 0 {
      FivesBelowTwos(n - 1);
      PowAdd(5, 3 * n - 3, 3);
      PowAdd(2, 7 * n - 7, 7);
      SmallPowers();
      var x, y := Pow(5, 3 * n - 3), Pow(2, 7 * n - 7);
      PowPositive(5, 3 * n - 3);
      hide Pow;
      MulMono(125, x, y);
      MulMono(y, 125, 128);
    }
  }

  lemma SmallPowers()
    ensures Pow(5, 3) == 125 && Pow(2, 7) == 128
  {
  }

  /** 10^779 exceeds the significand times five to any power a double needs. */
  lemma ManyDigits(n: nat)
    requires n <= 1076
    ensures Pow(2, 55) * Pow(5, n) < Pow(10, 779)
  {
    hide Pow;
    PowMono(5, n, 1076);
    PowAdd(5, 779, 297);
    FivesBelowTwos(99);
    FivesAndTwos(779);
    PowAdd(2, 55, 724);
    PowStrictMono(2, 693, 724);
    PowPositive(5, 779);
    PowPositive(2, 55);
    var a, b, c, d, e := Pow(2, 55), Pow(5, n), Pow(5, 779), Pow(5, 297), Pow(2, 724);
    MulMono(a, b, c * d);
    MulStrictMono(c, d, e);
    MulStrictMono(a, c * d, c * e);
    MulAssoc(a, c, e);
    MulAssoc(a, e, c);
  }

  lemma LargeBound()
    ensures Pow(2, 55) * Pow(2, 969) < Pow(10, 779)
  {
    hide Pow;
    PowAdd(2, 55, 969);
    PowMono(2, 1024, 2337);
    PowPow(2, 3, 779);
    EightTen(779);
  }

  lemma {:induction false} EightTen(n: nat)
    requires n >= 1
    ensures Pow(Pow(2, 3), n) < Pow(10, n)
  {
    assert Pow(2, 3) == 8;
    if n > 1 {
      EightTen(n - 1);
      PowPositive(10, n - 1);
    }
  }

  lemma StrictDecimalOrder(m: int, n: int, e: int)
    ensures m < n <==> DecimalValue(m, e) < DecimalValue(n, e)
  {
    hide RPow;
    RPowPositive(10, e);
    CompareScaled(m as real, n as real, RPow(10, e));
  }

  /** n * 10^q does not lie strictly between two consecutive multiples of 10^q. */
  lemma NotBetween(n: int, p: int, q: int)
    ensures !(DecimalValue(p, q) < DecimalValue(n, q) < DecimalValue(p + 1, q))
  {
    hide DecimalValue;
    StrictDecimalOrder(p, n, q);
    StrictDecimalOrder(n, p + 1, q);
  }

  /** 2^e over a power of ten, for a negative exponent. */
  lemma BinaryAsDecimal(m: int, n: int)
    requires n >= 0
    ensures BinaryValue(m, -n) == DecimalValue(m * Pow(5, n), -n)
  {
    FivesAndTwos(n);
    PowPositive(2, n);
    PowPositive(5, n);
    PowPositive(10, n);
    hide Pow;
    var t, f := Pow(2, n) as real, Pow(5, n) as real;
    assert RealPow(10, n) == Pow(10, n) as real && RealPow(2, n) == t;
    IntProduct(Pow(2, n), Pow(5, n));
    IntProduct(m, Pow(5, n));
    if n == 0 { PowStep(5, 0); PowStep(2, 0); PowStep(10, 0); }
    HalvesAsTenths(m as real, t, f, t * f);
  }

  lemma HalvesAsTenths(m: real, t: real, f: real, tf: real)
    requires t > 0.0 && f > 0.0 && tf == t * f
    ensures tf > 0.0 && m * (1.0 / t) == (m * f) * (1.0 / tf)
  {
    ScaleUp(0.0, t, f);
    Inverse(t);
    Inverse(tf);
    var v, w := 1.0 / t, 1.0 / tf;
    assert v == f * w by {
      RealAssoc(t, f, w);
      assert t * (f * w) == 1.0;
      Cancel(t, v, f * w);
    }
    RealAssoc(m, f, w);
  }

  lemma Cancel(t: real, x: real, y: real)
    requires t > 0.0 && t * x == t * y
    ensures x == y
  {
    CompareScaled(x, y, t);
  }

  lemma IntegerValue(m: int, e: nat)
    ensures BinaryValue(m, e) == DecimalValue(m * Pow(2, e), 0)
  {
    PowPositive(2, e);
    PowStep(10, 0);
    IntProduct(m, Pow(2, e));
  }

  /**
   * No boundary of a double lies strictly between two consecutive numbers of 779 digits: it is a multiple of their last
   * place, or smaller than both.
   */
  lemma NoBoundaryBetween(m: int, e: int, p: int, q: int)
    requires m < Pow(2, 55) && -1076 <= e <= 969 && p >= Pow(10, 778)
    ensures BinaryValue(m, e) <= DecimalValue(p, q) || BinaryValue(m, e) >= DecimalValue(p + 1, q)
  {
    hide Pow, RPow, DecimalValue, BinaryValue;
    if e < 0 {
      var n, t := -e, m * Pow(5, -e);
      BinaryAsDecimal(m, n);
      if q <= e {
        LowerExponent(t, e, q);
        NotBetween(t * Pow(10, e - q), p, q);
      } else {
        ManyDigits(n);
        PowPositive(5, n);
        MulMono(Pow(5, n), m, Pow(2, 55));
        TopDigits(p, q, e);
        DecimalOrder(t, p * Pow(10, q - e), e);
        LowerExponent(p, q, e);
      }
    } else {
      var t := m * Pow(2, e);
      IntegerValue(m, e);
      if q <= 0 {
        LowerExponent(t, 0, q);
        NotBetween(t * Pow(10, -q), p, q);
      } else {
        LargeBound();
        PowPositive(2, e);
        PowPositive(2, 55);
        PowMono(2, e, 969);
        MulMono(Pow(2, e), m, Pow(2, 55));
        MulMono(Pow(2, 55), Pow(2, e), Pow(2, 969));
        TopDigits(p, q, 0);
        DecimalOrder(t, p * Pow(10, q), 0);
        LowerExponent(p, q, 0);
      }
    }
  }

  lemma TopDigits(p: int, q: int, e: int)
    requires p >= Pow(10, 778) && q > e
    ensures p * Pow(10, q - e) >= Pow(10, 779)
  {
    hide Pow;
    PowStep(10, 0);
    PowStep(10, 778);
    PowMono(10, 1, q - e);
    PowPositive(10, 778);
    MulMono(Pow(10, q - e), Pow(10, 778), p);
    MulMono(Pow(10, 778), 10, Pow(10, q - e));
  }

  lemma DecimalOrder(m: int, n: int, e: int)
    requires m <= n
    ensures DecimalValue(m, e) <= DecimalValue(n, e)
  {
    hide RPow;
    RPowPositive(10, e);
    CompareScaled(m as real, n as real, RPow(10, e));
  }

  /** x and y round to the same double. */
  ghost predicate SameReading(x: real, y: real)
  {
    forall r: Read :: ReadsAs(x, r) <==> ReadsAs(y, r)
  }

  /** Two numbers strictly between the same two numbers of 779 digits are read alike. */
  lemma ReadAlike(x: real, y: real, p: int, q: int, r: Read)
    requires p >= Pow(10, 778)
    requires DecimalValue(p, q) < x < DecimalValue(p + 1, q) && DecimalValue(p, q) < y < DecimalValue(p + 1, q)
    ensures ReadsAs(x, r) <==> ReadsAs(y, r)
  {
    hide RPow, DecimalValue, Pow;
    TwoTo55();
    match r
    case Number(v) =>
      if Finite(v) {
        NoBoundaryBetween(LowerQuarters(v), v.e - 2, p, q);
        NoBoundaryBetween(UpperQuarters(v), v.e - 2, p, q);
        assert BinaryValue(LowerQuarters(v), v.e - 2) == Lower(v) && BinaryValue(UpperQuarters(v), v.e - 2) == Upper(v);
      }
    case Infinity =>
      NoBoundaryBetween(UpperQuarters(MAX_DOUBLE), MAX_DOUBLE.e - 2, p, q);
      assert BinaryValue(UpperQuarters(MAX_DOUBLE), MAX_DOUBLE.e - 2) == Upper(MAX_DOUBLE);
  }

  lemma TwoTo55()
    ensures Pow(2, 55) == 8 * HIDDEN_BIT
  {
    hide Pow;
    TwoTo52();
    PowStep(2, 52);
    PowStep(2, 53);
    PowStep(2, 54);
  }

  /** A number between p * 10^n and (p + 1) * 10^n, in tens of the exponent. */
  lemma InnerValue(m: int, p: int, n: nat, e: int)
    requires p * Pow(10, n) < m < (p + 1) * Pow(10, n)
    ensures DecimalValue(p, e + n) < DecimalValue(m, e) < DecimalValue(p + 1, e + n)
  {
    hide RPow, Pow;
    LowerExponent(p, e + n, e);
    LowerExponent(p + 1, e + n, e);
    RPowPositive(10, e);
    CompareScaled((p * Pow(10, n)) as real, m as real, RPow(10, e));
    CompareScaled(m as real, ((p + 1) * Pow(10, n)) as real, RPow(10, e));
  }

  lemma {:induction false} DecimalSplit(s: seq<int>, k: nat)
    requires IsDecimal(s) && k <= |s|
    ensures 0 <= Decimal(s[k..]) < Pow(10, |s| - k)
    ensures Decimal(s) == Decimal(s[..k]) * Pow(10, |s| - k) + Decimal(s[k..])
    decreases |s|
  {
    hide Decimal, Pow;
    if k == |s| {
      PowStep(10, 0);
      DecimalEmpty();
      assert s[..k] == s && s[k..] == [];
    } else {
      var n := |s| - 1;
      var t := s[..n];
      DecimalSplit(t, k);
      assert t[..k] == s[..k] && s[k..] == t[k..] + [s[n]] && s == t + [s[n]];
      DecimalPush(t[k..], s[n]);
      DecimalPush(t, s[n]);
      PowStep(10, n - k);
      TenMore(Decimal(s[..k]), Pow(10, n - k), Decimal(t[k..]), Decimal(t), s[n]);
    }
  }

  lemma TenMore(high: int, p: int, low: int, whole: int, d: int)
    requires whole == high * p + low
    ensures 10 * whole + d == high * (10 * p) + (10 * low + d)
  {
    MulAssoc(high, 10, p);
    MulAssoc(10, high, p);
  }

  /** The last digit of a number that does not end in zero keeps any tail of it positive. */
  lemma TailPositive(s: seq<int>, k: nat)
    requires IsDecimal(s) && k < |s| && s[|s| - 1] >= 1
    ensures Decimal(s[k..]) >= 1
  {
    var n := |s| - 1;
    assert s[k..] == s[k..n] + [s[n]];
    DecimalPush(s[k..n], s[n]);
    DecimalSplit(s[k..n], 0);
    assert s[k..n][0..] == s[k..n];
  }

  lemma {:induction false} LeadingZeros(s: seq<int>, k: nat)
    requires k <= |s| && forall i :: 0 <= i < k ==> s[i] == 0
    ensures Decimal(s) == Decimal(s[k..])
    decreases |s|
  {
    if k == |s| {
      if k > 0 {
        LeadingZeros(s[..k - 1], k - 1);
        DecimalEmpty();
        assert s[k..] == [] == s[..k - 1][k - 1..];
      } else {
        assert s[k..] == s;
      }
    } else {
      var n := |s| - 1;
      LeadingZeros(s[..n], k);
      assert s[k..] == s[..n][k..] + [s[n]];
      DecimalPush(s[..n][k..], s[n]);
    }
  }

  lemma {:induction false} TrailingZeros(s: seq<int>, k: nat)
    requires k <= |s| && forall i :: k <= i < |s| ==> s[i] == 0
    ensures Decimal(s) == Decimal(s[..k]) * Pow(10, |s| - k)
    decreases |s|
  {
    if k == |s| {
      assert s[..k] == s;
      PowStep(10, 0);
    } else {
      var n := |s| - 1;
      TrailingZeros(s[..n], k);
      assert s[..n][..k] == s[..k];
      PowStep(10, n - k);
      MulAssoc(Decimal(s[..k]), 10, Pow(10, n - k));
      MulAssoc(10, Decimal(s[..k]), Pow(10, n - k));
    }
  }

  method TrimLeadingZeros(buffer: seq<int>) returns (trimmed: seq<int>)
    ensures Decimal(trimmed) == Decimal(buffer) && (trimmed == [] || trimmed[0] != 0)
    ensures exists k :: 0 <= k <= |buffer| && trimmed == buffer[k..]
  {
    var i := 0;
    while i < |buffer| && buffer[i] == 0
      invariant i <= |buffer| && forall j :: 0 <= j < i ==> buffer[j] == 0
    {
      i := i + 1;
    }
    LeadingZeros(buffer, i);
    trimmed := buffer[i..];
  }

  method TrimTrailingZeros(buffer: seq<int>) returns (trimmed: seq<int>)
    ensures |trimmed| <= |buffer| && trimmed == buffer[..|trimmed|] && (trimmed == [] || trimmed[|trimmed| - 1] != 0)
    ensures Decimal(buffer) == Decimal(trimmed) * Pow(10, |buffer| - |trimmed|)
  {
    var i := |buffer|;
    while i > 0 && buffer[i - 1] == 0
      invariant 0 <= i <= |buffer| && forall j :: i <= j < |buffer| ==> buffer[j] == 0
    {
      i := i - 1;
    }
    TrailingZeros(buffer, i);
    trimmed := buffer[..i];
  }

  /** Replaces everything after 779 digits by a single one. */
  method CutToMaxSignificantDigits(buffer: seq<int>, exponent: int)
    returns (significant: seq<int>, significantExponent: int)
    requires IsDecimal(buffer) && |buffer| > MAX_SIGNIFICANT_DIGITS && buffer[0] != 0 && buffer[|buffer| - 1] != 0
    ensures |significant| == MAX_SIGNIFICANT_DIGITS && IsDecimal(significant) && significant[0] != 0
    ensures significant[779] != 0
    ensures SameReading(DecimalValue(Decimal(significant), significantExponent),
                        DecimalValue(Decimal(buffer), exponent))
  {
    hide Pow, RPow, Decimal, DecimalValue, ReadsAs;
    var n := MAX_SIGNIFICANT_DIGITS - 1;
    significant := buffer[..n] + [1];
    significantExponent := exponent + (|buffer| - MAX_SIGNIFICANT_DIGITS);
    ghost var p, rest := Decimal(buffer[..n]), |buffer| - n;
    DecimalBounds(buffer[..n]);
    DecimalSplit(buffer, n);
    TailPositive(buffer, n);
    Dist(p, 1, Pow(10, rest));
    InnerValue(Decimal(buffer), p, rest, exponent);
    DecimalPush(buffer[..n], 1);
    PowStep(10, 0);
    InnerValue(Decimal(significant), p, 1, significantExponent);
    forall r: Read
      ensures ReadsAs(DecimalValue(Decimal(significant), significantExponent), r)
        <==> ReadsAs(DecimalValue(Decimal(buffer), exponent), r)
    {
      ReadAlike(DecimalValue(Decimal(significant), significantExponent), DecimalValue(Decimal(buffer), exponent),
                p, exponent + rest, r);
    }
  }

  /** Drops zeros at both ends and digits that cannot matter: the number is read the same. */
  method TrimAndCut(buffer: seq<int>, exponent: int) returns (trimmed: seq<int>, updatedExponent: int)
    requires IsDecimal(buffer)
    ensures |trimmed| <= MAX_SIGNIFICANT_DIGITS && IsDecimal(trimmed)
    ensures trimmed != [] ==> trimmed[0] != 0 && trimmed[|trimmed| - 1] != 0
    ensures SameReading(DecimalValue(Decimal(trimmed), updatedExponent), DecimalValue(Decimal(buffer), exponent))
  {
    hide Pow, RPow, Decimal, DecimalValue, ReadsAs;
    var left := TrimLeadingZeros(buffer);
    var right := TrimTrailingZeros(left);
    var e := exponent + (|left| - |right|);
    LowerExponent(Decimal(right), e, exponent);
    if |right| > MAX_SIGNIFICANT_DIGITS {
      trimmed, updatedExponent := CutToMaxSignificantDigits(right, e);
    } else {
      trimmed, updatedExponent := right, e;
    }
  }

  // ---- numbers that are too large or too small ----

  lemma {:induction false} PowerBelow(n: nat)
    requires n >= 1
    ensures Pow(2, 93 * n) < Pow(10, 28 * n)
  {
    Below93();
    if n > 1 {
      PowerBelow(n - 1);
      PowAdd(2, 93 * n - 93, 93);
      PowAdd(10, 28 * n - 28, 28);
      var a, b, c, d := Pow(2, 93 * n - 93), Pow(2, 93), Pow(10, 28 * n - 28), Pow(10, 28);
      PowPositive(2, 93);
      PowPositive(10, 28 * n - 28);
      hide Pow;
      MulStrictMono(b, a, c);
      MulStrictMono(c, b, d);
    }
  }

  lemma Below93()
    ensures Pow(2, 93) < Pow(10, 28)
  {
    PowAdd(2, 31, 31);
    PowAdd(2, 62, 31);
    PowAdd(10, 7, 7);
    PowAdd(10, 14, 14);
    PowerOf31();
    PowStep(10, 0); PowStep(10, 1); PowStep(10, 2); PowStep(10, 3); PowStep(10, 4); PowStep(10, 5); PowStep(10, 6);
  }

  lemma PowerOf31()
    ensures Pow(2, 31) == 0x8000_0000
  {
    PowAdd(2, 15, 16);
    PowAdd(2, 8, 8);
    PowAdd(2, 8, 7);
  }

  lemma TenTo16()
    ensures Pow(10, 16) == 10000000000000000 && Pow(10, 1) == 10 && Pow(2, 1) == 2
  {
    PowAdd(10, 8, 8);
    PowStep(2, 0);
    PowStep(10, 0); PowStep(10, 1); PowStep(10, 2); PowStep(10, 3);
    PowStep(10, 4); PowStep(10, 5); PowStep(10, 6); PowStep(10, 7);
  }

  lemma RangeLimits()
    ensures Pow(2, 1024) < Pow(10, 309) && Pow(2, 1075) < Pow(10, 324)
  {
    hide Pow;
    PowerBelow(11);
    TwoTo52();
    TenTo16();
    PowAdd(2, 1023, 1);
    PowAdd(2, 1023, 52);
    PowAdd(10, 308, 1);
    PowAdd(10, 308, 16);
    PowPositive(10, 308);
    var a, b := Pow(2, 1023), Pow(10, 308);
    MulMono(HIDDEN_BIT, a, b);
    MulMono(b, HIDDEN_BIT, 10000000000000000);
  }

  /** Beyond 10^309 there is only infinity. */
  lemma TooLarge(m: int, exponent: int, k: nat)
    requires m >= Pow(10, k) && exponent + k >= 309
    ensures ReadsAs(DecimalValue(m, exponent), Infinity)
  {
    hide Pow, RPow, DecimalValue, BinaryValue;
    RangeLimits();
    LargestUpper();
    DecimalOrder(Pow(10, k), m, exponent);
    PowerShift(k, exponent, 309);
    BelowPower(8 * HIDDEN_BIT - 2, 969);
  }

  lemma LargestUpper()
    ensures Upper(MAX_DOUBLE) == BinaryValue(8 * HIDDEN_BIT - 2, 969)
  {
  }

  /** 10^k * 10^e is at least 10^n. */
  lemma PowerShift(k: nat, e: int, n: nat)
    requires e + k >= n
    ensures DecimalValue(Pow(10, k), e) >= DecimalValue(Pow(10, n), 0)
  {
    hide Pow, RPow;
    IntProduct(1, Pow(10, k));
    RPowAdd(10, e, k);
    RPowAdd(10, n, e + k - n);
    RPowPositive(10, n);
    PowPositive(10, e + k - n);
    assert RPow(10, e + k) >= RPow(10, n) by {
      CompareScaled(1.0, Pow(10, e + k - n) as real, RPow(10, n));
    }
    RealAssoc(Pow(10, k) as real, RPow(10, e), 1.0);
    ZeroPower();
    assert RPow(10, n) == Pow(10, n) as real by { RPowAdd(10, 0, n); }
  }

  lemma ZeroPower()
    ensures RPow(10, 0) == 1.0 && RPow(2, 0) == 1.0
  {
    PowStep(10, 0);
    PowStep(2, 0);
  }

  lemma BelowPower(q: int, e: nat)
    requires q < 8 * HIDDEN_BIT && e == 969 && Pow(2, 1024) < Pow(10, 309)
    ensures BinaryValue(q, e) < DecimalValue(Pow(10, 309), 0)
  {
    hide Pow, RPow;
    IntegerValue(q, e);
    TwoTo55();
    PowAdd(2, 55, 969);
    PowPositive(2, 969);
    MulMono(Pow(2, e), q, Pow(2, 55));
    ZeroPower();
    assert DecimalValue(q * Pow(2, e), 0) == (q * Pow(2, e)) as real;
  }

  const ZERO: Read := Number(Double(0, DENORMAL_EXPONENT))

  lemma ZeroInterval(x: real)
    requires 0.0 <= x <= RPow(2, -1075)
    ensures ReadsAs(x, ZERO)
  {
    hide RPow;
    RPowPositive(2, -1076);
    RPowAdd(2, -1076, 1);
    assert RealPow(2, 1) == 2.0 by { PowStep(2, 0); }
    var p := RPow(2, -1076);
    assert Lower(Double(0, DENORMAL_EXPONENT)) == -2.0 * p;
    assert Upper(Double(0, DENORMAL_EXPONENT)) == 2.0 * p;
  }

  /** m * 10^e, for m with at most k digits. */
  lemma BelowTenPower(m: int, e: int, k: nat)
    requires 0 <= m < Pow(10, k)
    ensures 0.0 <= DecimalValue(m, e) < RPow(10, e + k)
  {
    hide Pow, DecimalValue;
    StrictDecimalOrder(m, Pow(10, k), e);
    TenPowerValue(e, k);
    NotNegative(m, e);
  }

  lemma TenPowerValue(e: int, k: nat)
    ensures DecimalValue(Pow(10, k), e) == RPow(10, e + k)
  {
    hide Pow, RPow;
    RPowAdd(10, e, k);
    RealAssoc(Pow(10, k) as real, RPow(10, e), 1.0);
  }

  lemma NotNegative(m: int, e: int)
    requires 0 <= m
    ensures 0.0 <= DecimalValue(m, e)
  {
    hide RPow;
    RPowPositive(10, e);
    CompareScaled(0.0, m as real, RPow(10, e));
  }

  /** Up to 10^-324 there is only zero. */
  lemma TooSmall(m: int, exponent: int, k: nat)
    requires 0 <= m < Pow(10, k) && exponent + k <= -324
    ensures ReadsAs(DecimalValue(m, exponent), ZERO)
  {
    hide Pow, RPow, DecimalValue, ReadsAs;
    RangeLimits();
    BelowTenPower(m, exponent, k);
    SmallPower(exponent + k);
    ZeroInterval(DecimalValue(m, exponent));
  }

  lemma SmallPower(e: int)
    requires e <= -324 && Pow(2, 1075) < Pow(10, 324)
    ensures RPow(10, e) < RPow(2, -1075)
  {
    hide Pow;
    PowMono(10, 324, -e);
    PowPositive(2, 1075);
    InverseOrder(Pow(2, 1075) as real, Pow(10, -e) as real);
  }

  lemma InverseOrder(x: real, y: real)
    requires 0.0 < x < y
    ensures 1.0 / y < 1.0 / x
  {
    Inverse(x);
    Inverse(y);
    var v, w := 1.0 / x, 1.0 / y;
    CompareScaled(x, y, v);
    CompareScaled(w * y, v * y, 1.0);
    CompareScaled(w, v, y);
    RealAssoc(y, v, 1.0);
    RealAssoc(w, y, 1.0);
  }

  lemma ZeroAnywhere(exponent: int)
    ensures ReadsAs(DecimalValue(0, exponent), ZERO)
  {
    hide RPow;
    RPowPositive(2, -1075);
    ZeroInterval(0.0);
  }
}
