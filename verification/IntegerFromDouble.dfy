/** Word-sized and large integers, and truncating a double: vm/large_integer.cc, Expand, Reduce and FromDouble. */
module IntegerFromDouble {
  import opened Arith
  import opened DecimalReading
  import opened Digits
  import opened DiyFps
  import opened Ieee
  import opened IntegerDouble
  import opened LargeIntegers
  import opened Rounding

  const W63: int := 0x8000_0000_0000_0000

  /** Integers that fit into 64 bits are small or medium ones, all others are large. */
  datatype Integer = Fixed(value: int) | Large(large: LargeInteger)

  /** The digit sizes of the two architectures, and how many digits make 64 bits. */
  predicate Word(bits: nat, mint: nat) { (bits == 16 && mint == 4) || (bits == 32 && mint == 2) }

  predicate FitsWord(v: int) { -W63 <= v < W63 }

  ghost function ValueOf(r: Integer, B: nat): int
    reads if r.Large? then {r.large, r.large.digits} else {}
    requires r.Large? ==> r.large.Valid(B)
  {
    if r.Fixed? then r.value else r.large.Value(B)
  }

  /** Every value has one form. */
  ghost predicate Reduced(r: Integer, B: nat)
    reads if r.Large? then {r.large, r.large.digits} else {}
  {
    (r.Large? ==> r.large.Valid(B)) && (r.Fixed? <==> FitsWord(ValueOf(r, B)))
  }

  lemma WordIsDigits(bits: nat, mint: nat, B: nat)
    requires Word(bits, mint) && B == Pow(2, bits)
    ensures Pow(B, mint) == W64 && B >= 2 && Pow(B, mint - 1) <= HIDDEN_BIT
  {
    hide Pow;
    TwoTo64();
    TwoTo52();
    PowPow(2, bits, mint);
    PowPow(2, bits, mint - 1);
    PowMono(2, bits * (mint - 1), 52);
    PowStep(2, 0);
    PowMono(2, 1, bits);
  }

  method Reduce(large: LargeInteger, bits: nat, mint: nat, B: nat) returns (r: Integer)
    requires Word(bits, mint) && B == Pow(2, bits) && large.Valid(B)
    ensures Reduced(r, B) && ValueOf(r, B) == large.Value(B) && (r.Large? ==> r.large == large)
  {
    hide Pow, Val;
    WordIsDigits(bits, mint, B);
    AbsRange(large, B);
    if large.size > mint {
      PowMono(B, mint, large.size - 1);
      return Large(large);
    }
    ghost var x := large.digits[..large.size];
    var absoluteValue: uint64 := 0;
    assert x[large.size..] == [];
    ValEmpty(0, B);
    for i := large.size downto 0
      invariant absoluteValue == Val(x[i..], B)
    {
      assert x[i..][1..] == x[i + 1..];
      ValFirst(x[i..], B);
      ValBound(x[i..], B);
      PowMono(B, large.size - i, mint);
      absoluteValue := absoluteValue * B + large.digits[i];
    }
    assert x[0..] == x;
    if large.negative {
      if absoluteValue > W63 { return Large(large); }
      r := Fixed(-(absoluteValue as int));
    } else {
      if absoluteValue > W63 - 1 { return Large(large); }
      r := Fixed(absoluteValue);
    }
  }

  method Expand(integer: Integer, bits: nat, mint: nat, B: nat) returns (r: LargeInteger)
    requires Word(bits, mint) && B == Pow(2, bits) && Reduced(integer, B)
    ensures r.Valid(B) && r.Value(B) == ValueOf(integer, B)
  {
    hide Pow, Val;
    if integer.Large? { return integer.large; }
    WordIsDigits(bits, mint, B);
    var value := integer.value;
    r := new LargeInteger(mint);
    r.negative := value < 0;
    var absoluteValue: uint64 := if value < 0 then -value else value;
    ghost var A := absoluteValue;
    var d, i := r.digits, 0;
    assert d[..0] == [];
    ValEmpty(0, B);
    PowStep(B, 0);
    while absoluteValue != 0
      invariant r.digits == d && r.negative == (value < 0) && 0 <= i <= mint && IsDigits(d[..i], B)
      invariant A == Val(d[..i], B) + absoluteValue * Pow(B, i)
      invariant i > 0 && absoluteValue == 0 ==> d[i - 1] != 0
      decreases absoluteValue
    {
      ghost var low, a := d[..i], absoluteValue;
      ValBound(low, B);
      RoomForDigit(A, Val(low, B), a, i, mint, B);
      d[i] := absoluteValue % B;
      absoluteValue := absoluteValue / B;
      assert d[..i + 1] == low + [a % B];
      ValPush(low, a % B, B);
      PowStep(B, i);
      DigitSplit(a, Pow(B, i), B);
      i := i + 1;
    }
    r.size := i;
    if i == 0 { PowStep(B, 0); }
  }

  lemma RoomForDigit(A: int, low: int, a: int, i: nat, mint: nat, B: nat)
    requires A == low + a * Pow(B, i) && low >= 0 && a >= 1 && A < Pow(B, mint) && B >= 1
    ensures i < mint
  {
    if i >= mint {
      PowMono(B, mint, i);
      MulMono(Pow(B, i), 1, a);
    }
  }

  /** Splitting the lowest digit off what is left. */
  lemma DigitSplit(a: int, P: int, B: nat)
    requires a >= 1 && B >= 2
    ensures a * P == (a % B) * P + (a / B) * (B * P)
    ensures 0 <= a / B < a && (a / B == 0 ==> a % B != 0)
  {
    DivModBounds(a, B);
    MulAssoc(a / B, B, P);
    Dist((a / B) * B, a % B, P);
    if a / B >= a { MulMono(a / B, 2, B); }
  }

  // ---- shifted words ----

  /** What the lowest digits of a number amount to. */
  ghost function LowPart(a: int, digits: nat, B: nat): int
    requires B >= 1
  {
    PowPositive(B, digits);
    a % Pow(B, digits)
  }

  /** The next digit of a number, and the number up to it. */
  lemma NextDigit(a: int, j: nat, B: nat)
    requires a >= 0 && B >= 2
    ensures Pow(B, j) >= 1 && 0 <= (a / Pow(B, j)) % B < B
    ensures LowPart(a, j + 1, B) == (a / Pow(B, j)) % B * Pow(B, j) + LowPart(a, j, B)
  {
    hide Pow;
    PowPositive(B, j);
    PowStep(B, j);
    DigitOf(a, Pow(B, j), Pow(B, j + 1), B);
  }

  lemma DigitOf(a: int, P: int, Q: int, B: int)
    requires a >= 0 && P >= 1 && B >= 2 && Q == B * P
    ensures Q >= 1 && 0 <= (a / P) % B < B && a % Q == (a / P) % B * P + a % P
  {
    MulAtLeast(B, P);
    DivDiv(a, P, B);
  }

  lemma AllDigits(a: int, n: nat, B: nat)
    requires B >= 1 && 0 <= a < Pow(B, n)
    ensures LowPart(a, n, B) == a
  {
    DivModUnique(a, Pow(B, n), 0, a);
  }

  lemma TopNotZero(x: seq<int>, B: nat)
    requires B >= 1 && IsDigits(x, B) && |x| > 0 && Val(x, B) >= Pow(B, |x| - 1)
    ensures x[|x| - 1] != 0
  {
    ValBound(x[..|x| - 1], B);
  }

  /** One digit of a shifted number: the part that stays, over what the digit below pushed up. */
  lemma ShiftedDigit(low: seq<int>, carry: int, x: int, X: int, P: int, R: int, S: int, T: int, B: nat)
    requires S >= 1 && T >= 1 && S * T == B && 0 <= x < B && 0 <= carry < S && P * R == Pow(B, |low|)
    requires IsDigits(low, B) && Val(low + [carry], B) == S * (X * R)
    ensures 0 <= x / T < S && 0 <= (x * S) % B + carry < B
    ensures IsDigits(low + [(x * S) % B + carry], B)
    ensures Val(low + [(x * S) % B + carry] + [x / T], B) == S * ((x * P + X) * R)
  {
    hide Pow, Val;
    ShiftDigit(x, S, T, B);
    var Q, t := Pow(B, |low|), (x * S) % B + carry;
    ValPush(low, carry, B);
    ValPush(low, t, B);
    ValPush(low + [t], x / T, B);
    PowStep(B, |low|);
    ShiftedUpAlgebra(Val(low, B), carry, (x * S) % B, x / T, Q, S, X * R, x, B);
    Dist(x * P, X, R);
    MulAssoc(x, P, R);
  }

  /** The digits of a number a, from index from on, above zeros. */
  method WriteAligned(d: array<int>, a: uint64, from: nat, n: nat, B: nat)
    requires B >= 2 && from + n <= d.Length
    requires forall i :: 0 <= i < from ==> d[i] == 0
    modifies d
    ensures IsDigits(d[..from + n], B) && Val(d[..from + n], B) == LowPart(a, n, B) * Pow(B, from)
  {
    hide Pow, Val;
    ValZero(d[..from], B);
    PowStep(B, 0);
    for j := 0 to n
      invariant IsDigits(d[..from + j], B) && Val(d[..from + j], B) == LowPart(a, j, B) * Pow(B, from)
    {
      ghost var low := d[..from + j];
      NextDigit(a, j, B);
      var x := (a / Pow(B, j)) % B;
      d[from + j] := x;
      assert d[..from + j + 1] == low + [x];
      ValPush(low, x, B);
      PowAdd(B, j, from);
      MulAssoc(x, Pow(B, j), Pow(B, from));
      Dist(x * Pow(B, j), LowPart(a, j, B), Pow(B, from));
    }
  }

  /** The same with every digit shifted up by S = 2^up, 0 < up < bits, and the carry out of the top one. */
  method WriteShifted(d: array<int>, a: uint64, from: nat, n: nat, S: nat, T: nat, B: nat) returns (carry: int)
    requires B >= 2 && from + n <= d.Length && S >= 1 && T >= 1 && S * T == B
    requires forall i :: 0 <= i < from ==> d[i] == 0
    modifies d
    ensures IsDigits(d[..from + n], B) && 0 <= carry < S
    ensures Val(d[..from + n] + [carry], B) == S * (LowPart(a, n, B) * Pow(B, from))
  {
    hide Pow, Val;
    ValZero(d[..from], B);
    ValPush(d[..from], 0, B);
    PowStep(B, 0);
    carry := 0;
    assert S * (LowPart(a, 0, B) * Pow(B, from)) == 0;
    for j := 0 to n
      invariant IsDigits(d[..from + j], B) && 0 <= carry < S
      invariant Val(d[..from + j] + [carry], B) == S * (LowPart(a, j, B) * Pow(B, from))
    {
      ghost var low := d[..from + j];
      NextDigit(a, j, B);
      var x := (a / Pow(B, j)) % B;
      PowAdd(B, j, from);
      ShiftedDigit(low, carry, x, LowPart(a, j, B), Pow(B, j), Pow(B, from), S, T, B);
      d[from + j] := (x * S) % B + carry;
      carry := x / T;
      assert d[..from + j + 1] == low + [d[from + j]];
    }
  }

  lemma ShiftParts(shift: nat, bits: nat, B: nat)
    requires bits >= 1 && B == Pow(2, bits)
    ensures shift / bits >= 0 && Pow(2, shift % bits) * Pow(B, shift / bits) == Pow(2, shift)
    ensures Pow(2, shift % bits) * Pow(2, bits - shift % bits) == B
  {
    hide Pow;
    DivModBounds(shift, bits);
    PowPow(2, bits, shift / bits);
    PowAdd(2, shift % bits, bits * (shift / bits));
    PowAdd(2, shift % bits, bits - shift % bits);
  }

  lemma ShiftedMagnitude(a: int, S: int, R: int, P: int, n: nat, from: nat, B: nat)
    requires B >= 2 && R == Pow(B, from) && P == S * R && S >= 1 && n >= 1 && a >= Pow(B, n - 1)
    ensures S * (a * R) == a * P && a * P >= Pow(B, from + n - 1)
  {
    hide Pow;
    MulAssoc(S, a, R);
    MulAssoc(a, S, R);
    PowAdd(B, n - 1, from);
    PowPositive(B, from);
    PowPositive(B, n - 1);
    MulMono(R, Pow(B, n - 1), a);
    MulMono(R, 0, a);
    MulMono(a * R, 1, S);
  }

  /** Shifted by whole digits. */
  method NewAligned(negative: bool, a: uint64, from: nat, mint: nat, B: nat) returns (result: LargeInteger)
    requires B >= 2 && mint >= 1 && a < Pow(B, mint) && a * Pow(B, from) >= Pow(B, mint + from - 1)
    ensures fresh(result) && fresh(result.digits) && result.Valid(B) && result.size > 0
    ensures result.negative == negative && result.Abs(B) == a * Pow(B, from)
  {
    hide Pow, Val, LowPart;
    AllDigits(a, mint, B);
    result := new LargeInteger(mint + from);
    result.negative := negative;
    ClearDigits(result.digits, from);
    WriteAligned(result.digits, a, from, mint, B);
    TopNotZero(result.digits[..result.size], B);
  }

  /** Shifted by whole digits and by S = 2^up; the top digit is dropped if nothing was pushed into it. */
  method NewShifted(negative: bool, a: uint64, from: nat, mint: nat, S: nat, T: nat, B: nat)
    returns (result: LargeInteger)
    requires B >= 2 && mint >= 1 && a < Pow(B, mint) && S >= 1 && T >= 1 && S * T == B
    requires S * (a * Pow(B, from)) >= Pow(B, mint + from - 1)
    ensures fresh(result) && fresh(result.digits) && result.Valid(B) && result.size > 0
    ensures result.negative == negative && result.Abs(B) == S * (a * Pow(B, from))
  {
    hide Pow, Val, LowPart;
    AllDigits(a, mint, B);
    result := new LargeInteger(mint + from + 1);
    result.negative := negative;
    var d := result.digits;
    ClearDigits(d, from);
    var carry := WriteShifted(d, a, from, mint, S, T, B);
    ghost var low := d[..from + mint];
    ZeroOnTop(low, carry, B);
    d[mint + from] := carry;
    CarryBelowBase(carry, S, T, B);
    if carry == 0 {
      result.size := mint + from;
      assert d[..result.size] == low;
      TopNotZero(low, B);
    } else {
      assert d[..result.size] == low + [carry];
    }
  }

  /** A word that uses all of its digits, times a power of two. */
  method NewFromShiftedInt64(value: int, shift: nat, bits: nat, mint: nat, B: nat) returns (result: LargeInteger)
    requires Word(bits, mint) && B == Pow(2, bits) && FitsWord(value) && AbsInt(value) >= Pow(B, mint - 1)
    ensures fresh(result) && fresh(result.digits) && result.Valid(B)
    ensures result.Value(B) == value * Pow(2, shift)
  {
    hide Pow, Val;
    WordIsDigits(bits, mint, B);
    ShiftParts(shift, bits, B);
    var absValue: uint64 := if value < 0 then -value else value;
    var digitShift, up := shift / bits, shift % bits;
    PowPositive(2, up);
    PowPositive(2, bits - up);
    ShiftedMagnitude(absValue, Pow(2, up), Pow(B, digitShift), Pow(2, shift), mint, digitShift, B);
    NegatedProduct(absValue, Pow(2, shift));
    if up == 0 {
      PowStep(2, 0);
      result := NewAligned(value < 0, absValue, digitShift, mint, B);
    } else {
      result := NewShifted(value < 0, absValue, digitShift, mint, Pow(2, up), Pow(2, bits - up), B);
    }
  }

  lemma CarryBelowBase(carry: int, S: int, T: int, B: int)
    requires 0 <= carry < S && T >= 1 && S * T == B
    ensures carry < B
  {
    MulMono(S, 1, T);
  }

  lemma NegatedProduct(a: int, P: int)
    ensures (-a) * P == -(a * P)
  {
  }

  method ClearDigits(d: array<int>, n: nat)
    requires n <= d.Length
    modifies d
    ensures forall i :: 0 <= i < n ==> d[i] == 0
  {
    for i := 0 to n
      invariant forall k :: 0 <= k < i ==> d[k] == 0
    {
      d[i] := 0;
    }
  }

  // ---- truncating a double ----

  lemma FloorOf(f: int, e: int)
    requires f >= 0 && e <= 0
    ensures Pow(2, -e) >= 1 && (f as real * RPow(2, e)).Floor == f / Pow(2, -e)
  {
    hide Pow, RPow;
    PowPositive(2, -e);
    var P, q := Pow(2, -e), f / Pow(2, -e);
    DivModBounds(f, P);
    Dist(q, 1, P);
    RPowMul(2, -e, e);
    RealPowIs(2, -e);
    RealPowIs(2, 0);
    PowStep(2, 0);
    var u := RPow(2, e);
    RPowPositive(2, e);
    IntProduct(q, P);
    IntProduct(q + 1, P);
    RealAssoc(q as real, P as real, u);
    RealAssoc((q + 1) as real, P as real, u);
    Scaled(u, (q * P) as real, f as real, ((q + 1) * P) as real);
  }

  lemma Scaled(u: real, x: real, y: real, z: real)
    requires u > 0.0 && x <= y < z
    ensures x * u <= y * u < z * u
  {
  }

  lemma FloorOfProduct(f: int, n: nat)
    ensures (f as real * RPow(2, n)).Floor == f * Pow(2, n)
  {
    hide Pow;
    RealPowIs(2, n);
    IntProduct(f, Pow(2, n));
  }

  lemma IntegerPart(v: Double)
    requires Finite(v)
    ensures v.e <= 0 ==> Pow(2, -v.e) >= 1 && Value(v).Floor == v.f / Pow(2, -v.e)
    ensures v.e < 0 && v.f < Pow(2, -v.e) ==> Value(v).Floor == 0
    ensures v.e >= 0 ==> Value(v).Floor == v.f * Pow(2, v.e)
  {
    hide Pow, RPow;
    if v.e <= 0 { FloorOf(v.f, v.e); }
    if v.e >= 0 { FloorOfProduct(v.f, v.e); }
    if v.e < 0 && v.f < Pow(2, -v.e) { DivModUnique(v.f, Pow(2, -v.e), 0, v.f); }
  }

  function Signed(negative: bool, magnitude: int): int { if negative then -magnitude else magnitude }

  /** The integer part of a double, for all doubles but infinity and what is not a number. */
  method FromDouble(negative: bool, x: Read, bits: nat, mint: nat) returns (done: bool, r: Integer)
    requires Word(bits, mint) && (x.Number? ==> Finite(x.v))
    ensures (done <==> x.Number?) && Reduced(r, Pow(2, bits))
    ensures done ==> ValueOf(r, Pow(2, bits)) == Signed(negative, Value(x.v).Floor)
  {
    hide Pow, RPow, Val, Value;
    if x.Infinity? { return false, Fixed(0); }
    var v := x.v;
    IntegerPart(v);
    if v.e < 0 && v.f < Pow(2, -v.e) { return true, Fixed(0); }
    var significand, exponent := v.f, v.e;
    if exponent <= 0 {
      WordSized(v.f, exponent);
      significand := significand / Pow(2, -exponent);
      exponent := 0;
    } else if exponent <= 10 {
      WordSized(v.f, exponent);
      significand := significand * Pow(2, exponent);
      exponent := 0;
    }
    if exponent == 0 {
      return true, Fixed(Signed(negative, significand));
    }
    r := FromLargeDouble(negative, significand, exponent, bits, mint, Pow(2, bits));
    done := true;
  }

  method FromLargeDouble(negative: bool, significand: int, exponent: nat, bits: nat, mint: nat, B: nat)
    returns (r: Integer)
    requires Word(bits, mint) && B == Pow(2, bits) && HIDDEN_BIT <= significand < 2 * HIDDEN_BIT
    ensures Reduced(r, B) && ValueOf(r, B) == Signed(negative, significand * Pow(2, exponent))
  {
    hide Pow, Val;
    NegatedProduct(significand, Pow(2, exponent));
    WordIsDigits(bits, mint, B);
    var large := NewFromShiftedInt64(Signed(negative, significand), exponent, bits, mint, B);
    r := Reduce(large, bits, mint, B);
  }

  lemma WordSized(f: int, e: int)
    requires 0 <= f < 2 * HIDDEN_BIT && e <= 10
    ensures e > 0 ==> 0 <= f * Pow(2, e) < W63
    ensures e <= 0 ==> Pow(2, -e) >= 1 && 0 <= f / Pow(2, -e) < W63
  {
    hide Pow;
    if e > 0 {
      AtMost63Bits(f, e);
    } else {
      PowPositive(2, -e);
      QuotientSmaller(f, Pow(2, -e));
    }
  }

  lemma QuotientSmaller(f: int, P: int)
    requires f >= 0 && P >= 1
    ensures 0 <= f / P <= f
  {
    DivModBounds(f, P);
    MulMono(f / P, 1, P);
  }

  lemma AtMost63Bits(f: int, e: nat)
    requires 0 <= f < 2 * HIDDEN_BIT && e <= 10
    ensures 0 <= f * Pow(2, e) < W63
  {
    TwoTo52();
    PowMono(2, e, 10);
    PowPositive(2, e);
    MulMono(f, Pow(2, e), 1024);
    MulMono(Pow(2, e), 0, f);
  }

  /** A double of at least 2^52 is converted to an integer and back without a change. */
  lemma ThereAndBack(v: Double, A: int, r: Read)
    requires v.Valid() && v.e >= 0 && A == Value(v).Floor && ReadsAs(A as real, r)
    ensures r == Number(v)
  {
    hide Pow, RPow, ReadsAs;
    FloorOfProduct(v.f, v.e);
    RealPowIs(2, v.e);
    var P := Pow(2, v.e);
    IntProduct(v.f, P);
    assert Value(v) == v.f as real * P as real;
    assert A == v.f * P;
    ExactIntegers(v, A, r);
  }

  ghost predicate BitsTimesPower(A: int, q: nat, e: nat) { q < 2 * HIDDEN_BIT && e <= 971 && A == q * Pow(2, e) }

  /** No more than 53 bits between the highest and the lowest that are set, and no more than 1024 in all. */
  ghost predicate HasDouble(A: int) { exists q, e :: BitsTimesPower(A, q, e) }

  /** The significand shifted up as far as it goes. */
  lemma {:induction false} Normalized(q: int, e: int) returns (v: Double)
    requires 0 < q < 2 * HIDDEN_BIT && DENORMAL_EXPONENT <= e <= 971
    ensures v.Valid() && Value(v) == q as real * RPow(2, e)
    decreases 2 * HIDDEN_BIT - q
  {
    hide Pow, RPow;
    if q < HIDDEN_BIT && e > DENORMAL_EXPONENT {
      v := Normalized(2 * q, e - 1);
      PowStep(2, 0);
      QuartersRescaled(q, e - 1, 1);
    } else {
      v := Double(q, e);
    }
  }

  /** An integer is converted to a double and back without a change just when it has at most 53 significant bits. */
  lemma BackAndThere(A: nat, r: Read)
    requires ReadsAs(A as real, r)
    ensures r.Number? && Value(r.v).Floor == A <==> HasDouble(A)
  {
    hide Pow, RPow, ReadsAs;
    if HasDouble(A) {
      var q: nat, e: nat :| BitsTimesPower(A, q, e);
      DoubleBack(A, q, e, r);
    }
    if r.Number? && Value(r.v).Floor == A {
      DoubleBits(A, r);
    }
  }

  lemma DoubleBack(A: nat, q: nat, e: nat, r: Read)
    requires ReadsAs(A as real, r) && BitsTimesPower(A, q, e)
    ensures r.Number? && Value(r.v).Floor == A
  {
    hide Pow, RPow, ReadsAs;
    if q == 0 {
      assert A == 0;
      ZeroBack(r);
    } else {
      var v := Normalized(q, e);
      RealPowIs(2, e);
      IntProduct(q, Pow(2, e));
      ExactIntegers(v, A, r);
    }
  }

  lemma ZeroBack(r: Read)
    requires ReadsAs(0.0, r)
    ensures r.Number? && Value(r.v).Floor == 0
  {
    hide RPow;
    RPowPositive(2, DENORMAL_EXPONENT - 2);
    assert ReadsAs(0.0, ZERO);
    ReadingUnique(0.0, r, ZERO);
  }

  lemma DoubleBits(A: nat, r: Read)
    requires ReadsAs(A as real, r) && r.Number? && Value(r.v).Floor == A
    ensures HasDouble(A)
  {
    var v := r.v;
    hide Pow, RPow, RoundsTo;
    IntegerPart(v);
    if v.e >= 0 {
      assert BitsTimesPower(A, v.f, v.e);
    } else {
      QuotientSmaller(v.f, Pow(2, -v.e));
      PowStep(2, 0);
      assert BitsTimesPower(A, A, 0);
    }
  }
}
