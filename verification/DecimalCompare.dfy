/** Comparing a decimal with a binary number exactly: double-conversion/strtod.cc, CompareBufferWithDiyFp. */
module DecimalComparison {
  import opened Arith
  import opened Bignums
  import opened DecimalReading
  import opened Decimals
  import opened Digits
  import opened DiyFps
  import opened Ieee
  import opened Rounding

  // ---- the capacity of 128 bigits is enough ----

  /** Powers of ten in powers of the base. */
  lemma DigitsFit(n: nat)
    requires n <= 840
    ensures Pow(10, n) <= Pow(BASE, 100)
  {
    hide Pow;
    BaseIsPower();
    ThreeDigits(280);
    PowPow(2, BIGIT_SIZE, 100);
    PowMono(10, n, 840);
  }

  /** Seven bits hold three factors of five. */
  lemma FivesFit(n: nat)
    requires n <= 1104
    ensures W64 * Pow(5, n) <= Pow(BASE, 100)
  {
    hide Pow;
    PowStep(5, 0); PowStep(5, 1); PowStep(5, 2);
    BaseIsPower();
    TwoTo64();
    PowSeven();
    PowPow(5, 3, 368);
    PowPow(2, 7, 368);
    PowPow(2, BIGIT_SIZE, 100);
    PowBaseMono(125, 128, 368);
    PowMono(5, n, 1104);
    PowAdd(2, 64, 2576);
    MulMono(W64, Pow(5, n), Pow(2, 2576));
    PowMono(2, 2640, 2800);
  }

  lemma PowSeven()
    ensures Pow(2, 7) == 128
  {
  }

  /** After a multiplication by a power of ten there is room for a shift. */
  lemma RoomAfter(x: Bignum, M: int, power: nat)
    requires x.Valid() && x.Mantissa() == M * Pow(5, power) * Pow(2, power % BIGIT_SIZE)
    requires 0 <= M * Pow(5, power) < Pow(BASE, 101)
    ensures x.used < CAPACITY
  {
    hide Pow;
    BaseIsPower();
    PowMono(2, power % BIGIT_SIZE, BIGIT_SIZE);
    PowPositive(2, power % BIGIT_SIZE);
    PowStep(BASE, 101);
    MulMono(M * Pow(5, power), Pow(2, power % BIGIT_SIZE), BASE);
    MulStrictMono(BASE, M * Pow(5, power), Pow(BASE, 101));
    FitsBelow(x, 102);
  }

  /** The digits, times a power of ten if the exponent is positive. */
  method DecimalSide(left: Bignum, buffer: seq<int>, exponent: int)
    requires left.bigits.Length == CAPACITY && IsDecimal(buffer) && |buffer| <= MAX_SIGNIFICANT_DIGITS
    requires |buffer| + exponent <= 310
    modifies left, left.bigits
    ensures left.Valid() && left.used < CAPACITY
    ensures left.Value() == Decimal(buffer) * Factor(10, exponent)
  {
    hide Pow, Decimal, IsDecimal, Val;
    PowStep(10, 0);
    DecimalBelow(buffer);
    DigitsFit(|buffer|);
    PowMono(BASE, 100, left.bigits.Length - 2);
    left.AssignDecimalString(buffer);
    MantissaBelow(left);
    ghost var M := left.Mantissa();
    if exponent >= 0 {
      FivesBelow(M, left.Value(), exponent);
      PowAdd(10, |buffer|, exponent);
      PowPositive(10, exponent);
      MulStrictMono(Pow(10, exponent), left.Value(), Pow(10, |buffer|));
      DigitsFit(|buffer| + exponent);
      PowMono(BASE, 100, 101);
      PowMono(BASE, 101, left.bigits.Length - 1);
      NotBelowZero(M, Pow(5, exponent));
      left.MultiplyByPowerOfTen(exponent);
      RoomAfter(left, M, exponent);
    } else {
      PowMono(BASE, 100, 101);
      FitsBelow(left, 101);
    }
  }

  lemma NotBelowZero(x: int, y: int)
    requires x >= 0 && y >= 0
    ensures x * y >= 0
  {
    MulMono(y, 0, x);
  }

  /** The binary significand, times a power of ten if the exponent is negative. */
  method BinarySide(right: Bignum, f: uint64, exponent: int)
    requires right.bigits.Length == CAPACITY && exponent >= -1104
    modifies right, right.bigits
    ensures right.Valid() && right.used < CAPACITY
    ensures right.Value() == f * Factor(10, -exponent)
  {
    hide Pow, Val;
    PowMono(BASE, 100, 101);
    PowMono(BASE, 101, right.bigits.Length - 1);
    right.AssignUInt64(f);
    if exponent < 0 {
      FivesFit(-exponent);
      PowPositive(5, -exponent);
      MulStrictMono(Pow(5, -exponent), f, W64);
      NotBelowZero(f, Pow(5, -exponent));
      right.MultiplyByPowerOfTen(-exponent);
      RoomAfter(right, f, -exponent);
    } else {
      WordIsShort(right);
    }
  }

  /** A power of two goes to the side where its exponent is positive. */
  method ShiftSide(left: Bignum, right: Bignum, e: int)
    requires left.Valid() && right.Valid() && left.used < CAPACITY && right.used < CAPACITY
    requires left != right && left.bigits != right.bigits
    modifies left, left.bigits, right, right.bigits
    ensures left.Valid() && right.Valid()
    ensures left.Value() == old(left.Value()) * Factor(2, -e) && right.Value() == old(right.Value()) * Factor(2, e)
  {
    hide Pow, Val, IsDigits, Bignum.Value;
    PowStep(2, 0);
    if e > 0 {
      right.ShiftLeft(e);
    } else {
      left.ShiftLeft(-e);
    }
  }

  /** A power with a positive exponent, and one otherwise. */
  ghost function Factor(b: nat, e: int): nat { if e > 0 then Pow(b, e) else 1 }

  lemma SidesCompare(n: int, f: int, exponent: int, e: int, left: int, right: int)
    requires left == n * Factor(10, exponent) * Factor(2, -e) && right == f * Factor(10, -exponent) * Factor(2, e)
    ensures left < right <==> DecimalValue(n, exponent) < BinaryValue(f, e)
    ensures left == right <==> DecimalValue(n, exponent) == BinaryValue(f, e)
  {
    hide Pow, RPow, DecimalValue, BinaryValue;
    var a, b := Fraction(10, exponent);
    var c, d := Fraction(2, e);
    PowStep(10, 0);
    PowStep(2, 0);
    CrossValues(n, f, a, b, c, d, exponent, e);
  }

  /** Compares the decimal number with f * 2^e exactly, over a common denominator. */
  method CompareBufferWithDiyFp(buffer: seq<int>, exponent: int, f: uint64, e: int) returns (r: int)
    requires IsDecimal(buffer) && |buffer| <= MAX_SIGNIFICANT_DIGITS && -324 < |buffer| + exponent <= 310
    ensures r < 0 <==> DecimalValue(Decimal(buffer), exponent) < BinaryValue(f, e)
    ensures r == 0 <==> DecimalValue(Decimal(buffer), exponent) == BinaryValue(f, e)
  {
    hide RPow, Pow, DecimalValue, BinaryValue, Decimal, IsDecimal, Val, IsDigits, Bignum.Value, Factor;
    var left := new Bignum();
    var right := new Bignum();
    DecimalSide(left, buffer, exponent);
    BinarySide(right, f, exponent);
    ShiftSide(left, right, e);
    SidesCompare(Decimal(buffer), f, exponent, e, left.Value(), right.Value());
    r := Compare(left, right);
  }
}
