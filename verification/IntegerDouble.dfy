/** Converting a large integer to the nearest double: vm/large_integer.cc, LargeInteger::AsDouble. */
module IntegerDouble {
  import opened Arith
  import opened DecimalReading
  import opened Digits
  import opened DiyFps
  import opened DiyFpStrtods
  import opened Ieee
  import opened LargeIntegers
  import opened Rounding

  const SIGNIFICAND_SIZE: nat := 53
  const MAX_EXPONENT: int := 972

  /** The position of the highest bit that is set. */
  method HighestBit(x: nat) returns (h: nat)
    requires x >= 1
    ensures Pow(2, h) <= x < Pow(2, h + 1)
  {
    h := 0;
    PowStep(2, 0);
    while x >= Pow(2, h + 1)
      invariant Pow(2, h) <= x
      decreases x - Pow(2, h)
    {
      PowStep(2, h);
      PowPositive(2, h);
      h := h + 1;
    }
  }

  /** The leading bits of A are T, with P in the last place; more says whether there is anything below. */
  ghost predicate Leading(A: int, T: int, P: int, more: bool)
  {
    T * P <= A < (T + 1) * P && P >= 1 && (more <==> T * P < A)
  }

  /** A against m halves of P, which is 2^te. */
  lemma HalfUnits(A: int, m: int, te: nat)
    ensures m * Pow(2, te) < 2 * A <==> BinaryValue(m, te - 1) < A as real
    ensures m * Pow(2, te) == 2 * A <==> BinaryValue(m, te - 1) == A as real
    ensures m * Pow(2, te) > 2 * A <==> BinaryValue(m, te - 1) > A as real
  {
    hide Pow, RPow, RealPow;
    RPowMul(2, te - 1, 1);
    RealPowIs(2, te);
    RealPowIs(2, 1);
    PowStep(2, 0);
    IntProduct(m, Pow(2, te));
    var u := RPow(2, te - 1);
    RealAssoc(m as real, u, 2.0);
    assert (m * Pow(2, te)) as real == 2.0 * (m as real * u);
  }

  /** Halfway between two doubles, the even one is right. */
  lemma TieRead(x: real, q: int, k: int)
    requires Placed(q, k) && x == BinaryValue(4 * q + 2, k - 2)
    ensures ReadsAs(x, FromDiyFp(if q % 2 == 0 then q else q + 1, k))
  {
    hide BinaryValue, Lower, Upper;
    if k >= 972 {
      QuartersOrder(4 * q - 1, 4 * q + 2, k - 2);
      Above(4 * q - 1, k - 2, x);
      AboveAll(q, k, x);
    } else {
      PlacedFinite(q, k);
      OnBoundary(x, Double(q, k));
      AtBoundary(x, Double(q, k));
    }
  }

  lemma Above(m: int, e: int, x: real)
    requires m as real * RPow(2, e) < (m + 3) as real * RPow(2, e) && x == BinaryValue(m + 3, e)
    ensures x > BinaryValue(m, e)
  {
  }

  /** Rounding on the leading 54 bits and on whether anything is below them is rounding to nearest, ties to even. */
  lemma RoundedFromLeading(A: int, T: int, te: nat, more: bool)
    requires Leading(A, T, Pow(2, te), more) && 2 * HIDDEN_BIT <= T < 4 * HIDDEN_BIT
    ensures var q := T / 2;
      ReadsAs(A as real, FromDiyFp(if T % 2 == 1 && (q % 2 == 1 || more) then q + 1 else q, te + 1))
  {
    hide Pow, BinaryValue, ReadsAs, FromDiyFp;
    var q, P := T / 2, Pow(2, te);
    HalfUnits(A, 4 * q - 1, te);
    HalfUnits(A, 4 * q + 2, te);
    HalfUnits(A, 4 * q + 5, te);
    Quarters(q, T, P);
    if T % 2 == 0 {
      RoundedDown(A as real, q, te + 1);
    } else if more {
      RoundedUp(A as real, q, te + 1);
    } else {
      TieRead(A as real, q, te + 1);
    }
  }

  lemma Quarters(q: int, T: int, P: int)
    requires P >= 1 && q == T / 2
    ensures (4 * q - 1) * P == 4 * (q * P) - P && (4 * q + 2) * P == 4 * (q * P) + 2 * P
    ensures (4 * q + 5) * P == 4 * (q * P) + 5 * P
    ensures T * P == 2 * (q * P) + (if T % 2 == 1 then P else 0) && (T + 1) * P == T * P + P
  {
    Dist(4 * q, -1, P);
    Dist(4 * q, 2, P);
    Dist(4 * q, 5, P);
    MulAssoc(4, q, P);
    MulAssoc(2, q, P);
    Dist(2 * q, 1, P);
    Dist(T, 1, P);
  }

  /** Beyond the largest double by its exponent alone. */
  lemma TooManyBits(A: int, e: nat)
    requires A >= Pow(2, e) && e >= 1024
    ensures ReadsAs(A as real, Infinity)
  {
    hide Pow, BinaryValue;
    PowMono(2, 1024, e);
    PowAdd(2, 52, 972);
    PowStep(2, 970);
    PowStep(2, 971);
    TwoTo52();
    HalfUnits(A, 8 * HIDDEN_BIT - 2, 970);
    LargestUpper();
    PowPositive(2, 970);
    MulMono(Pow(2, 970), 8 * HIDDEN_BIT - 2, 8 * HIDDEN_BIT);
    MulAssoc(HIDDEN_BIT, 4, Pow(2, 970));
    MulAssoc(2, 4 * HIDDEN_BIT, Pow(2, 970));
  }

  // ---- the leading bits ----

  lemma WholeDigit(A: int, T: int, x: seq<int>, i: nat, B: nat)
    requires 1 <= i <= |x| && A == T * Pow(B, i) + Val(x[..i], B)
    ensures A == (T * B + x[i - 1]) * Pow(B, i - 1) + Val(x[..i - 1], B)
  {
    hide Pow, Val;
    ValStep(x, i - 1, B);
    PowStep(B, i - 1);
    MulAssoc(T, B, Pow(B, i - 1));
    Dist(T * B, x[i - 1], Pow(B, i - 1));
  }

  /** Some of the bits of the next digit. */
  lemma PartOfDigit(A: int, T: int, d: int, R: int, low: int, N: int, D: int)
    requires N >= 1 && D >= 1 && R >= 1 && 0 <= d < N * D && 0 <= low < R && A == (T * (N * D) + d) * R + low
    ensures 0 <= d / D < N && Leading(A, T * N + d / D, D * R, d % D != 0 || low != 0)
  {
    DivModBounds(d, D);
    var h, l := d / D, d % D;
    assert h < N by { if h >= N { MulMono(D, N, h); } }
    assert T * (N * D) + d == (T * N + h) * D + l by { MulAssoc(T, N, D); Dist(T * N, h, D); }
    assert A == (T * N + h) * (D * R) + (l * R + low) by { Dist((T * N + h) * D, l, R); MulAssoc(T * N + h, D, R); }
    assert 0 <= l * R + low < D * R && (l * R + low == 0 <==> l == 0 && low == 0) by {
      MulMono(R, 0, l);
      MulMono(R, l + 1, D);
      Dist(l, 1, R);
      if l > 0 { MulMono(R, 1, l); }
    }
    Dist(T * N + h, 1, D * R);
    MulMono(R, 1, D);
  }

  /** One more digit, in bits. */
  lemma BitsOfDigit(T: int, have: nat, x: int, n: nat)
    requires have >= 1 && Pow(2, have - 1) <= T < Pow(2, have) && 0 <= x < Pow(2, n)
    ensures Pow(2, have + n - 1) <= T * Pow(2, n) + x < Pow(2, have + n)
  {
    hide Pow;
    PowAdd(2, have - 1, n);
    PowAdd(2, have, n);
    MulMono(Pow(2, n), Pow(2, have - 1), T);
    MulMono(Pow(2, n), T + 1, Pow(2, have));
    Dist(T, 1, Pow(2, n));
  }

  /** With enough bits in all, there is another digit as long as bits are missing. */
  lemma DigitLeft(A: int, T: int, x: seq<int>, i: nat, have: nat, B: nat)
    requires i <= |x| && A == T * Pow(B, i) + Val(x[..i], B) && T < Pow(2, have) && have <= 53 && A >= Pow(2, 53)
    ensures i >= 1
  {
    if i == 0 {
      PowStep(B, 0);
      PowMono(2, have, 53);
    }
  }

  lemma DigitPowers(B: nat, bits: nat, i: nat)
    requires B == Pow(2, bits) && B >= 2
    ensures bits * i >= 0 && Pow(B, i) == Pow(2, bits * i) >= 1
  {
    MulMono(i, 0, bits);
    PowPow(2, bits, i);
    PowPositive(B, i);
  }

  // ---- packing ----

  /** What the bits of a positive double or infinity stand for. */
  function FromBits(b: int): Read
    requires 0 <= b
  {
    var e, f := b / HIDDEN_BIT, b % HIDDEN_BIT;
    if e >= 0x7FF then Infinity
    else if e == 0 then Number(Double(f, DENORMAL_EXPONENT))
    else Number(Double(f + HIDDEN_BIT, e - 1075))
  }

  /** A significand of 54 bits spills into the exponent, which is what it should do, up to infinity. */
  lemma Packed(q: int, k: int)
    requires HIDDEN_BIT <= q <= 2 * HIDDEN_BIT && 0 <= k < MAX_EXPONENT
    ensures FromBits((k + 1075 - 1) * HIDDEN_BIT + q) == FromDiyFp(q, k)
  {
    var b := (k + 1074) * HIDDEN_BIT + q;
    if q == 2 * HIDDEN_BIT {
      DivModUnique(b, HIDDEN_BIT, k + 1076, 0);
    } else {
      DivModUnique(b, HIDDEN_BIT, k + 1075, q - HIDDEN_BIT);
    }
  }

  /** Whether any of the digits below index i is not zero. */
  method AnyLower(integer: LargeInteger, i: nat, ghost B: nat) returns (any: bool)
    requires B >= 1 && integer.Shaped(B) && i <= integer.size
    ensures any <==> Val(integer.digits[..i], B) != 0
  {
    ghost var x := integer.digits[..i];
    for j := 0 to i
      invariant forall k :: 0 <= k < j ==> x[k] == 0
    {
      if integer.digits[j] != 0 {
        if Val(x, B) == 0 { ValZeroConv(x, B); }
        return true;
      }
    }
    ValZero(x, B);
    any := false;
  }

  // ---- the conversion ----

  /** The leading digits, as long as whole ones are needed. */
  method LeadingDigits(integer: LargeInteger, bits: nat, ghost B: nat) returns (T: uint64, i: nat, needed: nat)
    requires 1 <= bits <= 32 && B == Pow(2, bits) && B >= 2 && integer.Valid(B) && integer.Abs(B) >= Pow(2, 53)
    ensures i < integer.size && needed < bits
    ensures integer.Abs(B) == T * Pow(B, i) + Val(integer.digits[..i], B)
    ensures needed <= 53 && Pow(2, 53 - needed) <= T < Pow(2, 54 - needed)
  {
    hide Pow, Val;
    AbsRange(integer, B);
    PowPositive(2, 53);
    ghost var A, x := integer.Abs(B), integer.digits[..integer.size];
    i := integer.size - 1;
    T := FirstDigit(integer, bits, B);
    var h := HighestBit(T);
    TopBitBelow(T, h, bits);
    ValStep(x, i, B);
    assert x[..i + 1] == x;
    needed := SIGNIFICAND_SIZE + 1 - (h + 1);
    while needed >= bits
      invariant i < integer.size && needed <= 53 && A == T * Pow(B, i) + Val(x[..i], B)
      invariant Pow(2, 53 - needed) <= T < Pow(2, 54 - needed)
    {
      DigitLeft(A, T, x, i, 54 - needed, B);
      WholeDigit(A, T, x, i, B);
      BitsOfDigit(T, 54 - needed, x[i - 1], bits);
      PowMono(2, 54 - needed + bits, 54);
      TwoTo54();
      T := T * Pow(2, bits) + integer.digits[i - 1];
      i := i - 1;
      needed := needed - bits;
    }
    assert x[..i] == integer.digits[..i];
  }

  method FirstDigit(integer: LargeInteger, bits: nat, ghost B: nat) returns (d: uint64)
    requires bits <= 32 && B == Pow(2, bits) && integer.Valid(B) && integer.size > 0
    ensures d == integer.digits[integer.size - 1] && 0 < d < B <= 0x1_0000_0000
  {
    hide Pow, Val;
    PowMono(2, bits, 32);
    TwoTo32();
    assert integer.digits[..integer.size][integer.size - 1] == integer.digits[integer.size - 1];
    d := integer.digits[integer.size - 1];
  }

  lemma TwoTo32()
    ensures Pow(2, 32) == 0x1_0000_0000
  {
    PowAdd(2, 16, 16);
    PowAdd(2, 8, 8);
  }

  lemma TopBitBelow(x: int, h: nat, bits: nat)
    requires Pow(2, h) <= x < Pow(2, bits) && bits <= 32
    ensures h < bits
  {
    hide Pow;
    if h >= bits { PowMono(2, bits, h); }
  }

  lemma TwoTo54()
    ensures Pow(2, 53) == 2 * HIDDEN_BIT && Pow(2, 54) == 4 * HIDDEN_BIT && Pow(2, 54) < W64
  {
    TwoTo52();
    PowStep(2, 52);
    PowStep(2, 53);
  }

  /** The leading 54 bits, where they start, and the digits that were not looked at. */
  method LeadingBits(integer: LargeInteger, bits: nat, ghost B: nat) returns (T: uint64, te: nat, i: nat, zero: bool)
    requires 1 <= bits <= 32 && B == Pow(2, bits) && B >= 2 && integer.Valid(B) && integer.Abs(B) >= Pow(2, 53)
    ensures i <= integer.size && 2 * HIDDEN_BIT <= T < 4 * HIDDEN_BIT
    ensures Leading(integer.Abs(B), T, Pow(2, te), !zero || Val(integer.digits[..i], B) != 0)
  {
    hide Pow, Val, Leading;
    var needed;
    T, i, needed := LeadingDigits(integer, bits, B);
    ghost var A, x := integer.Abs(B), integer.digits[..i];
    TwoTo54();
    DigitPowers(B, bits, i);
    te := bits * i;
    zero := true;
    ValBound(x, B);
    if needed > 0 {
      assert x[..i] == x;
      DigitLeft(A, T, x, i, 54 - needed, B);
      var digit, discarded := integer.digits[i - 1], bits - needed;
      PowPositive(2, discarded);
      assert digit == x[i - 1];
      ghost var next := T * Pow(2, needed) + digit / Pow(2, discarded);
      NextPart(A, T, next, x, i, needed, discarded, bits, B);
      T := T * Pow(2, needed) + digit / Pow(2, discarded);
      zero := digit % Pow(2, discarded) == 0;
      te := te - needed;
      i := i - 1;
      assert x[..i] == integer.digits[..i];
    } else {
      WholeLeading(A, T, Pow(B, i), Val(x, B));
    }
  }

  lemma WholeLeading(A: int, T: int, P: int, low: int)
    requires A == T * P + low && 0 <= low < P
    ensures Leading(A, T, P, low != 0)
  {
    Dist(T, 1, P);
  }

  lemma NextPart(A: int, T: int, next: int, x: seq<int>, i: nat, needed: nat, discarded: nat, bits: nat, B: nat)
    requires 1 <= i == |x| && IsDigits(x, B) && B >= 2 && A == T * Pow(B, i) + Val(x, B) && needed <= 53
    requires bits == needed + discarded && B == Pow(2, bits) && Pow(2, discarded) >= 1
    requires Pow(2, 53 - needed) <= T < Pow(2, 54 - needed)
    requires next == T * Pow(2, needed) + x[i - 1] / Pow(2, discarded)
    ensures bits * i >= needed && 2 * HIDDEN_BIT <= next < 4 * HIDDEN_BIT
    ensures Leading(A, next, Pow(2, bits * i - needed), x[i - 1] % Pow(2, discarded) != 0 || Val(x[..i - 1], B) != 0)
  {
    hide Pow, Val, Leading;
    PowAdd(2, needed, discarded);
    PowPositive(2, needed);
    assert x[..i] == x;
    WholeDigit(A, T, x, i, B);
    DigitPowers(B, bits, i - 1);
    ValBound(x[..i - 1], B);
    PartOfDigit(A, T, x[i - 1], Pow(B, i - 1), Val(x[..i - 1], B), Pow(2, needed), Pow(2, discarded));
    Dist(i, -1, bits);
    assert bits * i == bits * (i - 1) + bits;
    PowAdd(2, discarded, bits * (i - 1));
    BitsOfDigit(T, 54 - needed, x[i - 1] / Pow(2, discarded), needed);
    TwoTo54();
  }

  /** The double nearest to the integer, ties to even; infinity if that is too large. */
  method AsDouble(integer: LargeInteger, bits: nat) returns (negative: bool, r: Read)
    requires 1 <= bits <= 32 && integer.Valid(Pow(2, bits)) && integer.Abs(Pow(2, bits)) >= Pow(2, 53)
    ensures negative == integer.negative && ReadsAs(integer.Abs(Pow(2, bits)) as real, r)
  {
    hide Pow, Val, Leading, ReadsAs, FromDiyFp, FromBits;
    negative := integer.negative;
    ghost var B := Pow(2, bits);
    AtLeastTwo(bits);
    AbsRange(integer, B);
    PowPositive(2, 53);
    if (integer.size - 1) * bits > MAX_EXPONENT + SIGNIFICAND_SIZE {
      DigitPowers(B, bits, integer.size - 1);
      TooManyBits(integer.Abs(B), bits * (integer.size - 1));
      return negative, Infinity;
    }
    var twiceSignificand: uint64, te, i, zero := LeadingBits(integer, bits, B);
    var significand, exponent := twiceSignificand / 2, te + 1;
    ghost var more := !zero || Val(integer.digits[..i], B) != 0;
    RoundedFromLeading(integer.Abs(B), twiceSignificand, te, more);
    if exponent >= MAX_EXPONENT {
      LeadingLarge(integer.Abs(B), twiceSignificand, te, more);
      return negative, Infinity;
    }
    if twiceSignificand % 2 == 1 {
      var roundUp := false;
      if significand % 2 != 0 || !zero {
        roundUp := true;
      } else {
        roundUp := AnyLower(integer, i, B);
      }
      if roundUp {
        significand := significand + 1;
      }
    }
    Packed(significand, exponent);
    r := FromBits((exponent + 1075 - 1) * HIDDEN_BIT + significand);
  }

  lemma AtLeastTwo(bits: nat)
    requires bits >= 1
    ensures Pow(2, bits) >= 2
  {
    PowStep(2, 0);
    PowMono(2, 1, bits);
  }

  lemma LeadingLarge(A: int, T: int, te: nat, more: bool)
    requires Leading(A, T, Pow(2, te), more) && T >= 2 * HIDDEN_BIT && te + 1 >= MAX_EXPONENT
    ensures ReadsAs(A as real, Infinity)
  {
    hide Pow, ReadsAs;
    TwoTo54();
    PowAdd(2, 53, te);
    MulMono(Pow(2, te), Pow(2, 53), T);
    TooManyBits(A, 53 + te);
  }

  /** An integer that is a double is converted to itself. */
  lemma ExactIntegers(v: Double, A: int, r: Read)
    requires v.Valid() && A as real == Value(v) && ReadsAs(A as real, r)
    ensures r == Number(v)
  {
    hide ReadsAs;
    ValueInside(v);
    ReadingUnique(A as real, r, Number(v));
  }

  lemma ValueInside(v: Double)
    requires v.Valid()
    ensures ReadsAs(Value(v), Number(v))
  {
    hide RPow;
    PowStep(2, 0);
    PowStep(2, 1);
    QuartersRescaled(v.f, v.e - 2, 2);
    QuartersOrder(LowerQuarters(v), 4 * v.f, v.e - 2);
    QuartersOrder(4 * v.f, UpperQuarters(v), v.e - 2);
  }
}
