/** A fixed number of places after the decimal point, with 64 and 128 bits: double-conversion/fixed-dtoa.cc. */
module FixedDtoa {
  import opened Arith
  import BignumDtoa
  import opened Counted
  import opened DecimalReading
  import opened Decimals
  import opened DiyFps
  import opened Ieee
  import opened Rounding

  // ---- 128 bits ----

  const W128: int := W64 * W64

  class UInt128 {
    var highBits: uint64
    var lowBits: uint64

    constructor (high: uint64, low: uint64)
      ensures highBits == high && lowBits == low
    {
      highBits, lowBits := high, low;
    }

    ghost function Value(): int
      reads this
    {
      highBits * W64 + lowBits
    }

    /** Four half words times the factor, with a carry of half a word. */
    method Multiply(multiplicand: int)
      requires 0 <= multiplicand < W32 && Value() * multiplicand < W128
      modifies this
      ensures Value() == old(Value()) * multiplicand
    {
      HalfProduct(lowBits % W32, multiplicand);
      HalfProduct(lowBits / W32, multiplicand);
      HalfProduct(highBits % W32, multiplicand);
      HalfProduct(highBits / W32, multiplicand);
      var part0: uint64, part1: uint64 := lowBits % W32 * multiplicand, lowBits / W32 * multiplicand;
      var part2: uint64, part3: uint64 := highBits % W32 * multiplicand, highBits / W32 * multiplicand;
      FourHalves(highBits, lowBits, multiplicand, part0, part1, part2, part3);
      AddParts(part0, part1, part2, part3, Value() * multiplicand);
    }

    /** The parts, each shifted by half a word more than the one before, with the carries. */
    method AddParts(part0: uint64, part1: uint64, part2: uint64, part3: uint64, ghost product: int)
      requires part0 <= MAX_PART && part1 <= MAX_PART && part2 <= MAX_PART && part3 <= MAX_PART
      requires product == ((part3 * W32 + part2) * W32 + part1) * W32 + part0 && product < W128
      modifies this
      ensures Value() == product
    {
      CarriedOver(part0, part1, part2, part3, product);
      var accumulator: uint64 := part0;
      var part := accumulator % W32;
      accumulator := accumulator / W32;
      accumulator := accumulator + part1;
      var low: uint64 := accumulator % W32 * W32 + part;
      accumulator := accumulator / W32;
      accumulator := accumulator + part2;
      part := accumulator % W32;
      accumulator := accumulator / W32;
      accumulator := accumulator + part3;
      var high: uint64 := accumulator % W32 * W32 + part;
      highBits, lowBits := high, low;
    }

    /** To the right if the amount is positive; what is shifted out on the left is lost. */
    method Shift(shiftAmount: int)
      requires -64 <= shiftAmount <= 64
      modifies this
      ensures shiftAmount >= 0 ==> Pow(2, shiftAmount) >= 1 && Value() == old(Value()) / Pow(2, shiftAmount)
      ensures shiftAmount <= 0 ==> Value() == old(Value()) * Pow(2, -shiftAmount) % W128
    {
      hide Pow;
      TwoTo64();
      PowStep(2, 0);
      WholeWords(highBits, lowBits);
      if shiftAmount == 0 {
        return;
      } else if shiftAmount == -64 {
        highBits := lowBits;
        lowBits := 0;
      } else if shiftAmount == 64 {
        lowBits := highBits;
        highBits := 0;
      } else if shiftAmount <= 0 {
        ShiftLeft(-shiftAmount);
      } else {
        ShiftRight(shiftAmount);
      }
    }

    method ShiftLeft(amount: nat)
      requires amount < 64
      modifies this
      ensures Value() == old(Value()) * Pow(2, amount) % W128
    {
      hide Pow;
      TwoTo64();
      PowAdd(2, amount, 64 - amount);
      PowPositive(2, amount);
      PowPositive(2, 64 - amount);
      ShiftedUp(highBits, lowBits, Pow(2, amount), Pow(2, 64 - amount));
      var highPart: uint64 := highBits * Pow(2, amount) % W64;
      highBits := highPart + lowBits / Pow(2, 64 - amount);
      lowBits := lowBits * Pow(2, amount) % W64;
    }

    method ShiftRight(amount: nat)
      requires amount < 64
      modifies this
      ensures Pow(2, amount) >= 1 && Value() == old(Value()) / Pow(2, amount)
    {
      hide Pow;
      TwoTo64();
      PowAdd(2, amount, 64 - amount);
      PowPositive(2, amount);
      PowPositive(2, 64 - amount);
      ShiftedDown(highBits, lowBits, Pow(2, amount), Pow(2, 64 - amount));
      lowBits := lowBits / Pow(2, amount) + highBits * Pow(2, 64 - amount) % W64;
      highBits := highBits / Pow(2, amount);
    }

    /** Keeps the remainder. */
    method DivModPowerOf2(power: nat) returns (result: nat)
      requires 0 < power < 128 && Value() < 0x8000_0000 * Pow(2, power)
      modifies this
      ensures old(Value()) == result * Pow(2, power) + Value() && 0 <= Value() < Pow(2, power)
    {
      hide Pow;
      TwoTo64();
      if power >= 64 {
        PowAdd(2, power - 64, 64);
        PowPositive(2, power - 64);
        HighPart(highBits, lowBits, Pow(2, power - 64));
        result := highBits / Pow(2, power - 64);
        highBits := highBits - result * Pow(2, power - 64);
      } else {
        PowAdd(2, power, 64 - power);
        PowPositive(2, power);
        PowPositive(2, 64 - power);
        LowPart(highBits, lowBits, Pow(2, power), Pow(2, 64 - power));
        var partLow := lowBits / Pow(2, power);
        var partHigh := highBits * Pow(2, 64 - power) % W64;
        result := partLow + partHigh;
        highBits := 0;
        lowBits := lowBits - partLow * Pow(2, power);
      }
    }

    method IsZero() returns (zero: bool)
      ensures zero <==> Value() == 0
    {
      zero := highBits == 0 && lowBits == 0;
    }

    method BitAt(position: nat) returns (bit: nat)
      requires position < 128
      ensures Pow(2, position) >= 1 && bit == Value() / Pow(2, position) % 2
    {
      hide Pow;
      TwoTo64();
      PowPositive(2, position);
      if position >= 64 {
        PowAdd(2, 64, position - 64);
        PowPositive(2, position - 64);
        DivDiv(Value(), W64, Pow(2, position - 64));
        DivModUnique(Value(), W64, highBits, lowBits);
        bit := highBits / Pow(2, position - 64) % 2;
      } else {
        PowAdd(2, position, 63 - position);
        PowPositive(2, 63 - position);
        PowStep(2, 63);
        LowBit(highBits, lowBits, Pow(2, position), Pow(2, 63 - position));
        bit := lowBits / Pow(2, position) % 2;
      }
    }
  }

  /** The carries of a product by half a word: the last one is what is above 128 bits. */
  lemma FourHalves(high: int, low: int, m: int, p0: int, p1: int, p2: int, p3: int)
    requires 0 <= high < W64 && 0 <= low < W64 && 0 <= m < W32 && (high * W64 + low) * m < W128
    requires p0 == low % W32 * m && p1 == low / W32 * m && p2 == high % W32 * m && p3 == high / W32 * m
    ensures (high * W64 + low) * m == ((p3 * W32 + p2) * W32 + p1) * W32 + p0
  {
    Dist(high * W64, low, m);
    Dist(high / W32 * W32, high % W32, m);
    Dist(low / W32 * W32, low % W32, m);
    MulAssoc(W32, high / W32, m);
    MulAssoc(W32, low / W32, m);
    MulAssoc(W64, high, m);
  }

  const MAX_PART: int := (W32 - 1) * (W32 - 1)

  /** The carry out of the last part is zero, as the product has no more than 128 bits. */
  lemma CarriedOver(p0: int, p1: int, p2: int, p3: int, product: int)
    requires 0 <= p0 <= MAX_PART && 0 <= p1 <= MAX_PART && 0 <= p2 <= MAX_PART && 0 <= p3 <= MAX_PART && product < W128
    requires product == ((p3 * W32 + p2) * W32 + p1) * W32 + p0
    ensures var a1 := p0 / W32 + p1; var a2 := a1 / W32 + p2; var a3 := a2 / W32 + p3;
      product == (a3 % W32 * W32 + a2 % W32) * W64 + a1 % W32 * W32 + p0 % W32 && a3 / W32 == 0
    ensures var a1 := p0 / W32 + p1; var a2 := a1 / W32 + p2; var a3 := a2 / W32 + p3;
      0 <= a1 < W64 && 0 <= a2 < W64 && 0 <= a3 < W64
  {
    var a1 := p0 / W32 + p1;
    assert product == ((p3 * W32 + p2) * W32 + a1) * W32 + p0 % W32;
    var a2 := a1 / W32 + p2;
    assert product == ((p3 * W32 + a2) * W32 + a1 % W32) * W32 + p0 % W32;
    var a3 := a2 / W32 + p3;
    assert product == ((a3 * W32 + a2 % W32) * W32 + a1 % W32) * W32 + p0 % W32;
    assert a3 < W32;
    assert a3 % W32 == a3;
  }

  /** A word shifted left by the factor p, of which q is the complement. */
  lemma WordUp(x: int, p: int, q: int)
    requires 0 <= x < W64 && p >= 1 && q >= 1 && p * q == W64
    ensures x * p / W64 == x / q && x * p % W64 == x % q * p && 0 <= x / q < p && 0 <= x % q * p <= W64 - p
  {
    DivModBounds(x, q);
    Dist(x / q * q, x % q, p);
    MulAssoc(x / q, q, p);
    MulMono(p, x % q + 1, q);
    MulMono(p, 0, x % q);
    Dist(x % q, 1, p);
    DivModUnique(x * p, W64, x / q, x % q * p);
    if x / q >= p { MulMono(q, p, x / q); }
  }

  lemma ShiftedUp(high: int, low: int, p: int, q: int)
    requires 0 <= high < W64 && 0 <= low < W64 && p >= 1 && q >= 1 && p * q == W64
    ensures var h, l := high * p % W64 + low / q, low * p % W64;
      0 <= h < W64 && (high * W64 + low) * p % W128 == h * W64 + l
  {
    WordUp(high, p, q);
    WordUp(low, p, q);
    var h, l := high * p % W64 + low / q, low * p % W64;
    Dist(high * W64, low, p);
    MulAssoc(W64, high, p);
    DivModBounds(high * p, W64);
    DivModBounds(low * p, W64);
    DivModUnique((high * W64 + low) * p, W128, high / q, h * W64 + l);
  }

  lemma WholeWords(high: int, low: int)
    requires 0 <= high < W64 && 0 <= low < W64
    ensures (high * W64 + low) * W64 % W128 == low * W64 && (high * W64 + low) / W64 == high
    ensures (high * W64 + low) * 1 % W128 == high * W64 + low == (high * W64 + low) / 1
  {
    DivModUnique((high * W64 + low) * W64, W128, high, low * W64);
  }

  lemma ShiftedDown(high: int, low: int, p: int, q: int)
    requires 0 <= high < W64 && 0 <= low < W64 && p >= 1 && q >= 1 && p * q == W64
    ensures var h, l := high / p, low / p + high * q % W64;
      0 <= h < W64 && 0 <= low / p < q && 0 <= l < W64 && (high * W64 + low) / p == h * W64 + l
  {
    WordUp(high, q, p);
    WordUp(low, q, p);
    var h, l := high / p, low / p + high * q % W64;
    DivModBounds(high, p);
    DivModBounds(low, p);
    assert (h * W64 + l) * p + low % p == high * W64 + low by {
      Dist(h * W64, l, p);
      Dist(low / p, high % p * q, p);
      MulAssoc(W64, h, p);
      MulAssoc(high % p, q, p);
    }
    DivModUnique(high * W64 + low, p, h * W64 + l, low % p);
    if h >= W64 { MulMono(h, 1, p); }
  }

  lemma HighPart(high: int, low: int, p: int)
    requires 0 <= high < W64 && 0 <= low < W64 && p >= 1
    ensures var r := high / p;
      r >= 0 && 0 <= high - r * p < W64 && (high - r * p) * W64 + low < p * W64
      && high * W64 + low == r * (p * W64) + ((high - r * p) * W64 + low)
  {
    DivModBounds(high, p);
    MulAssoc(high / p, p, W64);
    Dist(high, high / p * p, W64);
    MulMono(p, 0, high / p);
    MulMono(W64, high % p + 1, p);
  }

  lemma LowPart(high: int, low: int, p: int, q: int)
    requires 0 <= high < W64 && 0 <= low < W64 && p >= 1 && q >= 1 && p * q == W64
    requires high * W64 + low < 0x8000_0000 * p
    ensures var r := low / p + high * q % W64;
      r >= 0 && 0 <= low - low / p * p < p && high * W64 + low == r * p + (low - low / p * p)
  {
    WordUp(high, q, p);
    DivModBounds(low, p);
    DivModBounds(high, p);
    if high / p >= 1 {
      MulMono(W64, p, high);
      MulMono(p, 0x8000_0000, W64);
    }
    Dist(low / p, high % p * q, p);
    MulAssoc(high % p, q, p);
  }

  lemma LowBit(high: int, low: int, p: int, q: int)
    requires 0 <= high && 0 <= low && p >= 1 && q >= 1 && p * q * 2 == W64
    ensures (high * W64 + low) / p % 2 == low / p % 2
  {
    DivModBounds(low, p);
    var r := high * (q * 2) + low / p;
    assert r * p + low % p == high * W64 + low by {
      Dist(high * (q * 2), low / p, p);
      MulAssoc(high, q * 2, p);
    }
    DivModUnique(high * W64 + low, p, r, low % p);
    MulAssoc(high, q, 2);
    assert r == high * q * 2 + low / p;
  }

  // ---- digits of integers ----

  /** The digits from one place to another are those of the number. */
  ghost predicate Filled(buffer: seq<int>, from: nat, to: nat, number: int)
  {
    from <= to <= |buffer| && IsDecimal(buffer[from..to]) && Decimal(buffer[from..to]) == number
  }

  /** One more digit in front of those that have been split off. */
  lemma SplitDigit(number: int, digits: seq<int>, k: nat)
    requires number >= 0 && |digits| == k && IsDecimal(digits)
    ensures IsDecimal([number % 10] + digits)
    ensures number / 10 * Pow(10, k + 1) + Decimal([number % 10] + digits) == number * Pow(10, k) + Decimal(digits)
  {
    hide Pow;
    DecimalConcat([number % 10], digits);
    assert [number % 10] == [] + [number % 10];
    DecimalPush([], number % 10);
    PowStep(10, k);
    Dist(number / 10 * 10, number % 10, Pow(10, k));
    MulAssoc(number / 10, 10, Pow(10, k));
  }

  method FillDigits32FixedLength(numberStart: int, requestedLength: nat, buffer: array<int>, lengthStart: nat)
    returns (length: nat)
    requires 0 <= numberStart < Pow(10, requestedLength) && lengthStart + requestedLength <= buffer.Length
    modifies buffer
    ensures length == lengthStart + requestedLength && buffer[..lengthStart] == old(buffer[..lengthStart])
    ensures Filled(buffer[..], lengthStart, length, numberStart)
  {
    hide Pow, Decimal;
    var number, i := numberStart, requestedLength;
    PowStep(10, 0);
    DecimalEmpty();
    assert buffer[lengthStart + i..lengthStart + requestedLength] == [];
    while i > 0
      invariant 0 <= i <= requestedLength && number >= 0 && buffer[..lengthStart] == old(buffer[..lengthStart])
      invariant var digits := buffer[lengthStart + i..lengthStart + requestedLength];
        IsDecimal(digits) && numberStart == number * Pow(10, requestedLength - i) + Decimal(digits)
    {
      ghost var digits := buffer[lengthStart + i..lengthStart + requestedLength];
      SplitDigit(number, digits, requestedLength - i);
      i := i - 1;
      buffer[lengthStart + i] := number % 10;
      assert buffer[lengthStart + i..lengthStart + requestedLength] == [number % 10] + digits;
      number := number / 10;
    }
    length := lengthStart + requestedLength;
    DecimalBelow(buffer[lengthStart..length]);
    NothingAbove(number, Pow(10, requestedLength), Decimal(buffer[lengthStart..length]));
  }

  lemma NothingAbove(number: int, power: int, low: int)
    requires 0 <= number * power + low < power && number >= 0 && low >= 0
    ensures number == 0
  {
    if number >= 1 { MulMono(power, 1, number); }
  }

  method FillDigits32(numberStart: int, buffer: array<int>, lengthStart: nat) returns (length: nat)
    requires 0 <= numberStart < W32 && lengthStart + 10 <= buffer.Length
    modifies buffer
    ensures lengthStart <= length <= lengthStart + 10 && buffer[..lengthStart] == old(buffer[..lengthStart])
    ensures Filled(buffer[..], lengthStart, length, numberStart)
  {
    hide Pow, Decimal;
    var number, numberLength := numberStart, 0;
    ghost var digits: seq<int> := [];
    PowStep(10, 0);
    DecimalEmpty();
    while number != 0
      invariant number >= 0 && numberLength == |digits| <= 10 && IsDecimal(digits)
      invariant numberStart == number * Pow(10, numberLength) + Decimal(digits)
      invariant Mirrored(buffer[lengthStart..lengthStart + numberLength], digits)
      invariant buffer[..lengthStart] == old(buffer[..lengthStart])
      decreases number
    {
      DecimalBelow(digits);
      AtMostTen(number, numberLength, Decimal(digits));
      SplitDigit(number, digits, numberLength);
      ghost var written := buffer[lengthStart..lengthStart + numberLength];
      var digit := number % 10;
      number := number / 10;
      buffer[lengthStart + numberLength] := digit;
      assert buffer[lengthStart..lengthStart + numberLength + 1] == written + [digit];
      digits := [digit] + digits;
      numberLength := numberLength + 1;
    }
    Exchange(buffer, lengthStart, numberLength, digits);
    length := lengthStart + numberLength;
    assert buffer[lengthStart..length] == digits;
  }

  lemma AtMostTen(number: int, length: nat, low: int)
    requires number >= 1 && low >= 0 && number * Pow(10, length) + low < W32
    ensures length < 10
  {
    if length >= 10 {
      PowMono(10, 10, length);
      PowAdd(10, 5, 5);
      PowStep(10, 0); PowStep(10, 1); PowStep(10, 2); PowStep(10, 3); PowStep(10, 4);
      hide Pow;
      MulMono(Pow(10, length), 1, number);
    }
  }

  ghost predicate Mirrored(s: seq<int>, t: seq<int>)
  {
    |s| == |t| && forall k :: 0 <= k < |s| ==> s[k] == t[|s| - 1 - k]
  }

  /** Reverses the digits in place. */
  method Exchange(buffer: array<int>, from: nat, count: nat, ghost digits: seq<int>)
    requires from + count <= buffer.Length && Mirrored(buffer[from..from + count], digits)
    modifies buffer
    ensures buffer[from..from + count] == digits && buffer[..from] == old(buffer[..from])
  {
    var i, j := from, from + count - 1;
    assert forall k :: i <= k <= j ==> buffer[k] == buffer[from..from + count][k - from];
    while i < j
      invariant from <= i && i + j == 2 * from + count - 1 && j >= i - 1 && buffer[..from] == old(buffer[..from])
      invariant forall k :: from <= k < i || j < k < from + count ==> buffer[k] == digits[k - from]
      invariant forall k :: i <= k <= j ==> buffer[k] == digits[count - 1 - (k - from)]
    {
      buffer[i], buffer[j] := buffer[j], buffer[i];
      i, j := i + 1, j - 1;
    }
  }

  const TEN7 := 10000000

  lemma SevenDigits()
    ensures Pow(10, 3) == 1000 && Pow(10, 7) == TEN7 && Pow(10, 17) == 1000 * TEN7 * TEN7
  {
    PowStep(10, 0); PowStep(10, 1); PowStep(10, 2); PowStep(10, 3); PowStep(10, 4); PowStep(10, 5); PowStep(10, 6);
    PowAdd(10, 7, 7);
    PowAdd(10, 14, 3);
  }

  /** Digits that follow each other. */
  lemma FilledBoth(buffer: seq<int>, from: nat, mid: nat, to: nat, high: int, low: int)
    requires Filled(buffer, from, mid, high) && Filled(buffer, mid, to, low)
    ensures Filled(buffer, from, to, high * Pow(10, to - mid) + low)
  {
    hide Pow, Decimal;
    assert buffer[from..to] == buffer[from..mid] + buffer[mid..to];
    DecimalConcat(buffer[from..mid], buffer[mid..to]);
  }

  lemma StillFilled(before: seq<int>, after: seq<int>, from: nat, to: nat, number: int, kept: nat)
    requires Filled(before, from, to, number) && to <= kept <= |after| == |before| && after[..kept] == before[..kept]
    ensures Filled(after, from, to, number)
  {
    assert after[from..to] == after[..kept][from..to] == before[..kept][from..to] == before[from..to];
  }

  method FillDigits64FixedLength(numberStart: uint64, buffer: array<int>, lengthStart: nat) returns (length: nat)
    requires numberStart < 1000 * TEN7 * TEN7 && lengthStart + 17 <= buffer.Length
    modifies buffer
    ensures length == lengthStart + 17 && buffer[..lengthStart] == old(buffer[..lengthStart])
    ensures Filled(buffer[..], lengthStart, length, numberStart)
  {
    hide Pow, Filled;
    SevenDigits();
    var number := numberStart;
    var part2 := number % TEN7;
    number := number / TEN7;
    var part1 := number % TEN7;
    var part0 := number / TEN7;
    length := FillDigits32FixedLength(part0, 3, buffer, lengthStart);
    length := FillParts(part0, part1, part2, buffer, lengthStart, length);
  }

  /** The other two parts. */
  method FillParts(ghost high: int, part1: int, part2: int, buffer: array<int>, ghost from: nat, lengthStart: nat)
    returns (length: nat)
    requires 0 <= part1 < TEN7 && 0 <= part2 < TEN7 && from <= lengthStart && lengthStart + 14 <= buffer.Length
    requires Filled(buffer[..], from, lengthStart, high)
    modifies buffer
    ensures length == lengthStart + 14 && buffer[..lengthStart] == old(buffer[..lengthStart])
    ensures Filled(buffer[..], from, length, (high * TEN7 + part1) * TEN7 + part2)
  {
    hide Pow, Filled;
    SevenDigits();
    ghost var before := buffer[..];
    var length1 := FillDigits32FixedLength(part1, 7, buffer, lengthStart);
    StillFilled(before, buffer[..], from, lengthStart, high, lengthStart);
    FilledBoth(buffer[..], from, lengthStart, length1, high, part1);
    before := buffer[..];
    length := FillDigits32FixedLength(part2, 7, buffer, length1);
    StillFilled(before, buffer[..], from, length1, high * TEN7 + part1, length1);
    FilledBoth(buffer[..], from, length1, length, high * TEN7 + part1, part2);
    assert buffer[..lengthStart] == buffer[..length1][..lengthStart];
  }

  method FillDigits64(numberStart: uint64, buffer: array<int>, lengthStart: nat) returns (length: nat)
    requires lengthStart + 24 <= buffer.Length
    modifies buffer
    ensures lengthStart <= length <= lengthStart + 24 && buffer[..lengthStart] == old(buffer[..lengthStart])
    ensures Filled(buffer[..], lengthStart, length, numberStart)
  {
    hide Pow, Filled;
    SevenDigits();
    var number := numberStart;
    var part2 := number % TEN7;
    number := number / TEN7;
    var part1 := number % TEN7;
    var part0 := number / TEN7;
    if part0 != 0 {
      length := FillDigits32(part0, buffer, lengthStart);
      length := FillParts(part0, part1, part2, buffer, lengthStart, length);
    } else if part1 != 0 {
      length := FillDigits32(part1, buffer, lengthStart);
      ghost var before, length1 := buffer[..], length;
      length := FillDigits32FixedLength(part2, 7, buffer, length);
      StillFilled(before, buffer[..], lengthStart, length1, part1, length1);
      FilledBoth(buffer[..], lengthStart, length1, length, part1, part2);
      assert buffer[..lengthStart] == buffer[..length1][..lengthStart];
    } else {
      length := FillDigits32(part2, buffer, lengthStart);
    }
  }

  // ---- digits after the decimal point ----

  /** Adds one to the last digit. No digits at all stand for zero. */
  method RoundUp(buffer: array<int>, lengthStart: nat, decimalPointStart: int) returns (length: nat, decimalPoint: int)
    requires lengthStart < buffer.Length && IsDecimal(buffer[..lengthStart])
    requires lengthStart == 0 ==> decimalPointStart == 0
    modifies buffer
    ensures length == (if lengthStart == 0 then 1 else lengthStart) && IsDecimal(buffer[..length])
    ensures Written(buffer[..length], decimalPoint)
      == DecimalValue(old(Decimal(buffer[..lengthStart])) + 1, decimalPointStart - lengthStart)
  {
    hide Pow, RPow, Decimal, DecimalValue;
    ghost var digits := buffer[..lengthStart];
    length, decimalPoint := lengthStart, decimalPointStart;
    if length == 0 {
      buffer[0] := 1;
      assert buffer[..1] == [] + [1] && digits == [];
      DecimalPush([], 1);
      DecimalEmpty();
      return 1, 1;
    }
    DecimalLast(digits, -1);
    buffer[length - 1] := buffer[length - 1] + 1;
    assert buffer[..length] == digits[length - 1 := digits[length - 1] + 1];
    var over := Carry(buffer, length);
    if over {
      Exponents(Decimal(buffer[..length]), decimalPoint + 1 - length, 1);
      PowStep(10, 0);
      decimalPoint := decimalPoint + 1;
    }
  }

  /** Multiplying by five and moving the point is multiplying by ten. */
  lemma DigitSplitOff(value: int, rest: int, point: nat, digit: int, rest': int, total: int)
    requires value * Pow(2, point) + rest == total && point >= 1 && 0 <= rest < Pow(2, point)
    requires 5 * rest == digit * Pow(2, point - 1) + rest' && 0 <= rest' < Pow(2, point - 1)
    ensures (10 * value + digit) * Pow(2, point - 1) + rest' == 5 * total && 0 <= digit <= 9
  {
    PowStep(2, point - 1);
    var half := Pow(2, point - 1);
    hide Pow;
    MulAssoc(value, 2, half);
    MulAssoc(10, value, half);
    Dist(10 * value, digit, half);
    if digit >= 10 { MulMono(half, 10, digit); }
    if digit < 0 { MulMono(half, digit, -1); }
  }

  /** Three digits use up the spare bits; from then on the point has moved far enough. */
  ghost predicate Spare(rest: int, i: nat, most: int)
  {
    (i == 0 ==> rest < most) && (i == 1 ==> rest < 5 * most) && (i == 2 ==> rest < 25 * most)
  }

  lemma Headroom(rest: int, i: nat, most: int, point: int, bits: nat)
    requires Spare(rest, i, most) && 125 * most <= Pow(2, bits) && 0 <= point <= bits - i && 0 <= rest < Pow(2, point)
    requires bits >= 3
    ensures 5 * rest < Pow(2, bits)
  {
    if i >= 3 {
      PowMono(2, point, bits - 3);
      PowStep(2, bits - 3);
      PowStep(2, bits - 2);
      PowStep(2, bits - 1);
    }
  }

  /** The number in units of 2^-point. */
  lemma InUnits(x: real, integer: int, fraction: int, e: int, point: nat)
    requires x == integer as real + BinaryValue(fraction, e) && point + e >= 0
    ensures x * Pow(2, point) as real == (integer * Pow(2, point) + fraction * Pow(2, point + e)) as real
  {
    hide Pow, RPow, RealPow;
    RPowMul(2, e, point);
    RealPowIs(2, point);
    RealPowIs(2, point + e);
    IntProduct(integer, Pow(2, point));
    IntProduct(fraction, Pow(2, point + e));
    var p, u := Pow(2, point) as real, RPow(2, e);
    RealSum(integer as real, fraction as real * u, p);
    RealAssoc(fraction as real, u, p);
  }

  /** What has been written, and what is left, after i digits. */
  ghost predicate Progress(x: real, value: int, rest: int, point: nat, i: nat)
  {
    0 <= rest < Pow(2, point) && x * RPow(10, i) * Pow(2, point) as real == (value * Pow(2, point) + rest) as real
  }

  lemma ProgressStart(x: real, value: int, rest: int, point: nat)
    requires x * Pow(2, point) as real == (value * Pow(2, point) + rest) as real && 0 <= rest < Pow(2, point)
    ensures Progress(x, value, rest, point, 0)
  {
    hide Pow, RPow;
    RealPowIs(10, 0);
    PowStep(10, 0);
    assert RPow(10, 0) == 1.0;
  }

  lemma ProgressStep(x: real, value: int, rest: int, point: nat, digit: int, rest': int, i: nat)
    requires Progress(x, value, rest, point, i) && point >= 1
    requires 5 * rest == digit * Pow(2, point - 1) + rest' && 0 <= rest' < Pow(2, point - 1)
    ensures Progress(x, 10 * value + digit, rest', point - 1, i + 1) && 0 <= digit <= 9
  {
    hide Pow, RPow, RealPow;
    DigitSplitOff(value, rest, point, digit, rest', value * Pow(2, point) + rest);
    RPowAdd(10, i, 1);
    TenOnce();
    PowStep(2, point - 1);
    TenTimes(x * RPow(10, i), Pow(2, point - 1));
    RealAssoc(x, RPow(10, i), 10.0);
  }

  lemma TenTimes(y: real, half: int)
    ensures y * 10.0 * half as real == 5.0 * (y * (2 * half) as real)
  {
    assert (2 * half) as real == 2.0 * half as real;
  }

  /** The first bit after the point says whether what is left is a half or more. */
  lemma FirstBit(rest: int, point: nat)
    requires 0 <= rest < Pow(2, point) && point >= 1
    ensures Pow(2, point - 1) >= 1 && (rest / Pow(2, point - 1) % 2 == 1 <==> 2 * rest >= Pow(2, point))
  {
    PowStep(2, point - 1);
    PowPositive(2, point - 1);
    var half := Pow(2, point - 1);
    hide Pow;
    if rest >= half {
      DivModUnique(rest, half, 1, rest - half);
    } else {
      DivModUnique(rest, half, 0, rest);
    }
  }

  lemma Rounded(x: real, count: nat, i: int, value: int, rest: int, point: nat)
    requires 0 <= i <= count && Progress(x, value, rest, point, i) && (i < count ==> rest == 0)
    ensures HalfUp(x, count) == DecimalValue(if 2 * rest >= Pow(2, point) then value + 1 else value, -i)
  {
    hide Pow, RPow;
    HalfUpIs(x, count, i, value, rest, Pow(2, point));
  }

  const MOST: int := 0x100_0000_0000_0000

  lemma MostIs()
    ensures Pow(2, 56) == MOST && Pow(2, 64) == W64 && Pow(2, 128) == W128
    ensures 125 * MOST <= Pow(2, 64) && 125 * Pow(2, 119) <= Pow(2, 128)
  {
    hide Pow;
    TwoTo64();
    PowAdd(2, 64, 64);
    PowAdd(2, 119, 9);
    TwoTo52();
    PowStep(2, 52);
    PowStep(2, 53);
    PowStep(2, 54);
    PowStep(2, 55);
  }

  lemma PointLeft(rest: int, point: nat)
    requires 0 < rest < Pow(2, point)
    ensures point >= 1
  {
  }

  method WordDigit(fractionals: uint64, point: nat, ghost i: nat, buffer: array<int>, length: nat, ghost x: real)
    returns (rest: uint64)
    requires 0 < fractionals < Pow(2, point) && point + i <= 64 && Spare(fractionals, i, MOST)
    requires length < buffer.Length && IsDecimal(buffer[..length])
    requires Progress(x, Decimal(buffer[..length]), fractionals, point, i)
    modifies buffer
    ensures point >= 1 && rest < Pow(2, point - 1) && Spare(rest, i + 1, MOST)
    ensures IsDecimal(buffer[..length + 1]) && Progress(x, Decimal(buffer[..length + 1]), rest, point - 1, i + 1)
  {
    hide Pow, RPow, Decimal, Progress;
    ghost var digits := buffer[..length];
    MostIs();
    PointLeft(fractionals, point);
    Headroom(fractionals, i, MOST, point, 64);
    var product: uint64 := fractionals * 5;
    PowPositive(2, point - 1);
    DivModBounds(product, Pow(2, point - 1));
    var digit := product / Pow(2, point - 1);
    ProgressStep(x, Decimal(digits), fractionals, point, digit, product % Pow(2, point - 1), i);
    Emit(buffer, length, digit);
    DecimalPush(digits, digit);
    rest := product - digit * Pow(2, point - 1);
  }

  /** As long as 64 bits are enough. */
  method FillWord(fractionalsStart: uint64, exponent: int, fractionalCount: nat, buffer: array<int>, lengthStart: nat,
                  ghost x: real) returns (length: nat, decimalPoint: int)
    requires -64 <= exponent <= 0 && fractionalsStart < MOST && fractionalsStart < Pow(2, -exponent)
    requires lengthStart + fractionalCount < buffer.Length && IsDecimal(buffer[..lengthStart])
    requires x == Decimal(buffer[..lengthStart]) as real + BinaryValue(fractionalsStart, exponent)
    modifies buffer
    ensures length <= buffer.Length && IsDecimal(buffer[..length])
    ensures Written(buffer[..length], decimalPoint) == HalfUp(x, fractionalCount)
  {
    hide Pow, RPow, Decimal, Progress, DecimalValue;
    MostIs();
    var fractionals: uint64, point, i := fractionalsStart, -exponent, 0;
    length, decimalPoint := lengthStart, lengthStart;
    PowStep(2, 0);
    InUnits(x, Decimal(buffer[..length]), fractionals, exponent, point);
    ProgressStart(x, Decimal(buffer[..length]), fractionals, point);
    while i < fractionalCount && fractionals != 0
      invariant 0 <= i <= fractionalCount && length == lengthStart + i && point == -exponent - i >= 0
      invariant IsDecimal(buffer[..length]) && Progress(x, Decimal(buffer[..length]), fractionals, point, i)
      invariant Spare(fractionals, i, MOST) && fractionals < Pow(2, point)
    {
      fractionals := WordDigit(fractionals, point, i, buffer, length, x);
      point := point - 1;
      length := length + 1;
      i := i + 1;
    }
    Rounded(x, fractionalCount, i, Decimal(buffer[..length]), fractionals, point);
    if fractionals != 0 {
      PointLeft(fractionals, point);
      FirstBit(fractionals, point);
      if fractionals / Pow(2, point - 1) % 2 == 1 {
        length, decimalPoint := RoundUp(buffer, length, decimalPoint);
      }
    }
  }

  method DoubleWordDigit(fractionals: UInt128, point: nat, ghost i: nat, buffer: array<int>, length: nat, ghost x: real)
    requires 0 <= fractionals.Value() < Pow(2, point) && 1 < point && point + i <= 128
    requires Spare(fractionals.Value(), i, Pow(2, 119)) && length < buffer.Length && IsDecimal(buffer[..length])
    requires Progress(x, Decimal(buffer[..length]), fractionals.Value(), point, i)
    modifies fractionals, buffer
    ensures 0 <= fractionals.Value() < Pow(2, point - 1) && Spare(fractionals.Value(), i + 1, Pow(2, 119))
    ensures IsDecimal(buffer[..length + 1])
    ensures Progress(x, Decimal(buffer[..length + 1]), fractionals.Value(), point - 1, i + 1)
  {
    hide Pow, RPow, Decimal, Progress, UInt128.Value;
    ghost var digits, rest := buffer[..length], fractionals.Value();
    MostIs();
    Headroom(rest, i, Pow(2, 119), point, 128);
    fractionals.Multiply(5);
    TenthOf(rest, point - 1);
    var digit := fractionals.DivModPowerOf2(point - 1);
    ghost var left := fractionals.Value();
    NotMore(digit, Pow(2, point - 1), left);
    ProgressStep(x, Decimal(digits), rest, point, digit, left, i);
    Emit(buffer, length, digit);
    DecimalPush(digits, digit);
  }

  lemma NotMore(digit: int, power: int, rest: int)
    requires digit >= 0 && power >= 0
    ensures rest <= digit * power + rest
  {
    MulMono(power, 0, digit);
  }

  /** Otherwise the fraction is moved to the top of 128 bits. */
  method FillDoubleWord(fractionalsStart: uint64, exponent: int, fractionalCount: nat, buffer: array<int>,
                        lengthStart: nat, ghost x: real) returns (length: nat, decimalPoint: int)
    requires -128 <= exponent < -64 && fractionalsStart < MOST && fractionalsStart < Pow(2, -exponent)
    requires fractionalCount <= 20
    requires lengthStart + fractionalCount < buffer.Length && IsDecimal(buffer[..lengthStart])
    requires x == Decimal(buffer[..lengthStart]) as real + BinaryValue(fractionalsStart, exponent)
    modifies buffer
    ensures length <= buffer.Length && IsDecimal(buffer[..length])
    ensures Written(buffer[..length], decimalPoint) == HalfUp(x, fractionalCount)
  {
    hide Pow, RPow, Decimal, Progress, DecimalValue, UInt128.Value;
    length, decimalPoint := lengthStart, lengthStart;
    var fractionals128 := Aligned(fractionalsStart, exponent);
    var point, i := 128, 0;
    InUnits(x, Decimal(buffer[..length]), fractionalsStart, exponent, point);
    ProgressStart(x, Decimal(buffer[..length]), fractionals128.Value(), point);
    var zero := fractionals128.IsZero();
    while i < fractionalCount && !zero
      invariant 0 <= i <= fractionalCount && length == lengthStart + i && point == 128 - i
      invariant IsDecimal(buffer[..length]) && Progress(x, Decimal(buffer[..length]), fractionals128.Value(), point, i)
      invariant Spare(fractionals128.Value(), i, Pow(2, 119)) && 0 <= fractionals128.Value() < Pow(2, point)
      invariant zero <==> fractionals128.Value() == 0
    {
      DoubleWordDigit(fractionals128, point, i, buffer, length, x);
      point := point - 1;
      length := length + 1;
      i := i + 1;
      zero := fractionals128.IsZero();
    }
    Rounded(x, fractionalCount, i, Decimal(buffer[..length]), fractionals128.Value(), point);
    FirstBit(fractionals128.Value(), point);
    var bit := fractionals128.BitAt(point - 1);
    if bit == 1 {
      length, decimalPoint := RoundUp(buffer, length, decimalPoint);
    }
  }

  lemma TenthOf(rest: int, point: nat)
    requires 0 <= rest < Pow(2, point + 1)
    ensures 5 * rest < 0x8000_0000 * Pow(2, point)
  {
    PowStep(2, point);
  }

  /** The fraction in units of 2^-128. */
  method Aligned(fractionals: uint64, exponent: int) returns (fractionals128: UInt128)
    requires -128 <= exponent < -64 && fractionals < MOST && fractionals < Pow(2, -exponent)
    ensures fresh(fractionals128) && fractionals128.Value() == fractionals * Pow(2, 128 + exponent)
    ensures 0 <= fractionals128.Value() < Pow(2, 119) && fractionals128.Value() < Pow(2, 128)
  {
    hide Pow;
    fractionals128 := new UInt128(fractionals, 0);
    fractionals128.Shift(-exponent - 64);
    AlignedFits(fractionals, exponent);
  }

  lemma AlignedFits(f: int, e: int)
    requires -128 <= e < -64 && 0 <= f < MOST && f < Pow(2, -e)
    ensures Pow(2, -e - 64) >= 1 && f * W64 / Pow(2, -e - 64) == f * Pow(2, 128 + e)
    ensures 0 <= f * Pow(2, 128 + e) < Pow(2, 119) && f * Pow(2, 128 + e) < Pow(2, 128)
  {
    hide Pow;
    MostIs();
    var p, q := Pow(2, 128 + e), Pow(2, -e - 64);
    PowPositive(2, 128 + e);
    PowPositive(2, -e - 64);
    PowAdd(2, 128 + e, -e - 64);
    MulAssoc(f, p, q);
    DivModUnique(f * W64, q, f * p, 0);
    PowAdd(2, 56, 63);
    PowMono(2, 128 + e, 63);
    MulStrictMono(p, f, MOST);
    MulMono(MOST, p, Pow(2, 63));
    PowMono(2, 119, 128);
  }

  /** A fraction after the integer that has been written, rounded to so many places. */
  method FillFractionals(fractionals: uint64, exponent: int, fractionalCount: nat, buffer: array<int>,
                         lengthStart: nat, ghost x: real) returns (length: nat, decimalPoint: int)
    requires -128 <= exponent <= 0 && fractionals < MOST && fractionals < Pow(2, -exponent)
    requires fractionalCount <= 20
    requires lengthStart + fractionalCount < buffer.Length && IsDecimal(buffer[..lengthStart])
    requires x == Decimal(buffer[..lengthStart]) as real + BinaryValue(fractionals, exponent)
    modifies buffer
    ensures length <= buffer.Length && IsDecimal(buffer[..length])
    ensures Written(buffer[..length], decimalPoint) == HalfUp(x, fractionalCount)
  {
    hide Pow, RPow, Decimal, DecimalValue, BinaryValue;
    if -exponent <= 64 {
      length, decimalPoint := FillWord(fractionals, exponent, fractionalCount, buffer, lengthStart, x);
    } else {
      length, decimalPoint := FillDoubleWord(fractionals, exponent, fractionalCount, buffer, lengthStart, x);
    }
  }

  // ---- zeros at the ends ----

  lemma {:induction false} ZerosAtEnd(digits: seq<int>, n: nat)
    requires n <= |digits| && forall i :: n <= i < |digits| ==> digits[i] == 0
    ensures Decimal(digits) == Decimal(digits[..n]) * Pow(10, |digits| - n)
    decreases |digits| - n
  {
    if n == |digits| {
      assert digits[..n] == digits;
    } else {
      var k := |digits| - 1;
      ZerosAtEnd(digits[..k], n);
      assert digits[..k][..n] == digits[..n];
      MulAssoc(10, Pow(10, k - n), Decimal(digits[..n]));
      PowStep(10, k - n);
    }
  }

  lemma {:induction false} ZerosInFront(digits: seq<int>, n: nat)
    requires n <= |digits| && forall i :: 0 <= i < n ==> digits[i] == 0
    ensures Decimal(digits) == Decimal(digits[n..])
  {
    hide Pow;
    assert digits == digits[..n] + digits[n..];
    DecimalConcat(digits[..n], digits[n..]);
    ZerosAtEnd(digits[..n], 0);
    assert digits[..n][..0] == [];
    DecimalEmpty();
  }

  /** No zeros at the ends. */
  ghost predicate Trimmed(digits: seq<int>)
  {
    IsDecimal(digits) && (digits != [] ==> digits[0] >= 1 && digits[|digits| - 1] >= 1)
  }

  method MoveToFront(buffer: array<int>, from: nat, to: nat)
    requires from <= to <= buffer.Length
    modifies buffer
    ensures buffer[..to - from] == old(buffer[from..to])
  {
    for i := from to to
      invariant forall k :: 0 <= k < i - from ==> buffer[k] == old(buffer[from..to])[k]
      invariant forall k :: i <= k < to ==> buffer[k] == old(buffer[k])
    {
      buffer[i - from] := buffer[i];
    }
  }

  /** Removes zeros at both ends; those in front move the decimal point. */
  method TrimZeros(buffer: array<int>, lengthStart: nat, decimalPointStart: int)
    returns (length: nat, decimalPoint: int)
    requires lengthStart <= buffer.Length && IsDecimal(buffer[..lengthStart])
    modifies buffer
    ensures length <= lengthStart && Trimmed(buffer[..length])
    ensures Written(buffer[..length], decimalPoint) == old(Written(buffer[..lengthStart], decimalPointStart))
  {
    hide Pow, RPow, Decimal, DecimalValue;
    ghost var digits := buffer[..lengthStart];
    length, decimalPoint := lengthStart, decimalPointStart;
    while length > 0 && buffer[length - 1] == 0
      invariant length <= lengthStart && forall i :: length <= i < lengthStart ==> digits[i] == 0
    {
      length := length - 1;
    }
    ZerosAtEnd(digits, length);
    Exponents(Decimal(digits[..length]), decimalPoint - length, lengthStart - length);
    var firstNonZero := 0;
    while firstNonZero < length && buffer[firstNonZero] == 0
      invariant firstNonZero <= length && forall i :: 0 <= i < firstNonZero ==> digits[i] == 0
    {
      firstNonZero := firstNonZero + 1;
    }
    ZerosInFront(digits[..length], firstNonZero);
    ghost var rest := buffer[firstNonZero..length];
    assert rest == digits[..length][firstNonZero..];
    if firstNonZero != 0 {
      MoveToFront(buffer, firstNonZero, length);
      length := length - firstNonZero;
      decimalPoint := decimalPoint - firstNonZero;
    }
    assert buffer[..length] == rest;
  }

  // ---- the conversion ----

  const FIVE17: int := 0xB1_A2BC_2EC5
  const TEN17: int := 1000 * TEN7 * TEN7

  /** A number of more than 64 bits, cut in two at a power of ten. */
  method CutLarge(significand: uint64, exponent: nat) returns (quotient: int, remainder: uint64)
    requires HIDDEN_BIT <= significand < 2 * HIDDEN_BIT && 11 < exponent <= 20
    ensures 0 <= quotient < W32 && remainder < TEN17 && quotient * TEN17 + remainder == significand * Pow(2, exponent)
  {
    hide Pow;
    var divisor, divisorPower, dividend := FIVE17, 17, significand as int;
    SmallShift(if exponent > 17 then exponent - 17 else 17 - exponent);
    SmallShift(exponent);
    if exponent > divisorPower {
      SmallShift(17);
      PowAdd(2, exponent - 17, 17);
      MulAssoc(significand, Pow(2, exponent - 17), Pow(2, 17));
      dividend := dividend * Pow(2, exponent - divisorPower);
      MulMono(significand, 0, Pow(2, exponent - 17));
      CutAt(dividend, divisor, Pow(2, 17));
      MulMono(Pow(2, exponent - 17), significand, 2 * HIDDEN_BIT);
      quotient := dividend / divisor;
      remainder := dividend % divisor * Pow(2, divisorPower);
    } else {
      PowAdd(2, 17 - exponent, exponent);
      SmallShift(17);
      MulAssoc(FIVE17, Pow(2, 17 - exponent), Pow(2, exponent));
      divisor := divisor * Pow(2, divisorPower - exponent);
      MulMono(FIVE17, 1, Pow(2, 17 - exponent));
      CutAt(dividend, divisor, Pow(2, exponent));
      QuotientBound(dividend, divisor, FIVE17);
      quotient := dividend / divisor;
      remainder := dividend % divisor * Pow(2, exponent);
    }
  }

  lemma SmallShift(n: nat)
    requires n <= 20
    ensures 1 <= Pow(2, n) <= 0x10_0000 && Pow(2, 17) == 0x2_0000 && (n <= 3 ==> Pow(2, n) <= 8)
  {
    PowPositive(2, n);
    PowMono(2, n, 20);
    PowAdd(2, 10, 10);
    PowAdd(2, 10, 7);
    PowStep(2, 0); PowStep(2, 1); PowStep(2, 2); PowStep(2, 3); PowStep(2, 4);
    PowStep(2, 5); PowStep(2, 6); PowStep(2, 7); PowStep(2, 8); PowStep(2, 9);
    if n <= 3 { PowMono(2, n, 3); }
  }

  lemma CutAt(dividend: int, divisor: int, scale: int)
    requires dividend >= 0 && divisor >= 1 && scale >= 1
    ensures dividend / divisor * (divisor * scale) + dividend % divisor * scale == dividend * scale
    ensures 0 <= dividend % divisor * scale < divisor * scale && dividend / divisor >= 0
  {
    DivModBounds(dividend, divisor);
    MulAssoc(dividend / divisor, divisor, scale);
    Dist(dividend / divisor * divisor, dividend % divisor, scale);
    MulStrictMono(scale, dividend % divisor, divisor);
    MulMono(scale, 0, dividend % divisor);
  }

  lemma QuotientBound(x: int, d: int, c: int)
    requires 0 <= x && 1 <= c <= d
    ensures 0 <= x / d <= x / c
  {
    DivModBounds(x, d);
    DivModBounds(x, c);
    if x / d > x / c { MulMono(d, x / c + 1, x / d); MulMono(x / c + 1, c, d); Dist(x / c, 1, c); }
  }

  lemma IntegerValue(v: Double)
    requires v.e >= 0
    ensures Value(v) == (v.f * Pow(2, v.e)) as real
  {
    hide Pow, RealPow;
    RealPowIs(2, v.e);
    IntProduct(v.f, Pow(2, v.e));
  }

  lemma FittingShift(f: int, e: nat)
    requires 0 <= f < 2 * HIDDEN_BIT && e <= 11
    ensures 0 <= f * Pow(2, e) < W64
  {
    PowMono(2, e, 11);
    PowPositive(2, e);
    TwoTo52();
    hide Pow;
    MulMono(Pow(2, e), 0, f);
    MulMono(f, Pow(2, e), 2048);
  }

  /** The integer part and the fraction. */
  lemma CutAtPoint(f: int, e: int)
    requires 0 <= f < 2 * HIDDEN_BIT && e <= 0
    ensures Pow(2, -e) >= 1
    ensures var integrals := f / Pow(2, -e); var fractionals := f - integrals * Pow(2, -e);
      && 0 <= integrals <= f && 0 <= fractionals < Pow(2, -e) && fractionals <= f
      && BinaryValue(f, e) == integrals as real + BinaryValue(fractionals, e)
  {
    hide Pow, RPow, RealPow;
    PowPositive(2, -e);
    var P, integrals := Pow(2, -e), f / Pow(2, -e);
    DivModBounds(f, P);
    MulMono(integrals, 1, P);
    RPowMul(2, -e, e);
    RealPowIs(2, -e);
    RealPowIs(2, 0);
    PowStep(2, 0);
    IntProduct(integrals, P);
    var u := RPow(2, e);
    RealAssoc(integrals as real, P as real, u);
    RealSum((integrals * P) as real, (f - integrals * P) as real, u);
  }

  lemma TooSmall(v: Double, count: nat)
    requires 0 <= v.f < 2 * HIDDEN_BIT && v.e < -128 && count <= 20
    ensures HalfUp(Value(v), count) == 0.0
  {
    hide Pow, RPow, HalfUp;
    TwentyPlaces(v.f, -v.e, count);
    BelowPlace(2 * v.f, -v.e, count);
    RPowPositive(2, v.e);
    IntProduct(2, v.f);
    RealAssoc(2.0, v.f as real, RPow(2, v.e));
    HalfUpZero(Value(v), count);
  }

  lemma TwentyPlaces(f: int, n: nat, count: nat)
    requires 0 <= f < 2 * HIDDEN_BIT && n > 128 && count <= 20
    ensures 2 * f * Pow(10, count) < Pow(2, n)
  {
    hide Pow;
    MostIs();
    PowMono(10, count, 20);
    SevenDigits();
    PowAdd(10, 17, 3);
    PowPositive(10, count);
    MulMono(Pow(10, count), 2 * f, 4 * HIDDEN_BIT);
    MulMono(4 * HIDDEN_BIT, Pow(10, count), Pow(10, 20));
    PowMono(2, 128, n);
  }

  lemma PowerInverse(b: nat, n: int)
    requires b >= 1 && n >= 0
    ensures RPow(b, -n) * Pow(b, n) as real == 1.0 && Pow(b, n) as real > 0.0
  {
    hide Pow, RPow, RealPow;
    PowPositive(b, n);
    RPowMul(b, -n, n);
    RealPowIs(b, n);
    RealPowIs(b, 0);
    PowStep(b, 0);
  }

  lemma BelowPlace(a: int, n: int, count: int)
    requires a >= 0 && n >= 0 && count >= 0 && a * Pow(10, count) < Pow(2, n)
    ensures a as real * RPow(2, -n) < RPow(10, -count)
  {
    hide *;
    PowerInverse(2, n);
    PowerInverse(10, count);
    IntProduct(a, Pow(10, count));
    CrossInverse(a as real, RPow(2, -n), Pow(2, n) as real, RPow(10, -count), Pow(10, count) as real);
  }

  lemma CrossInverse(a: real, u: real, p: real, w: real, t: real)
    requires u * p == 1.0 && w * t == 1.0 && p > 0.0 && t > 0.0 && a * t < p
    ensures a * u < w
  {
    RealAssoc(a, u, p);
    RealAssoc(w, p, t);
    RealAssoc(w, t, p);
    CompareScaled((a * u) * p, w * p, t);
    CompareScaled(a * u, w, p);
  }

  /** Finds the digits unless the number is too large or too many places are asked for. */
  method FastFixedDtoa(v: Double, fractionalCount: int, buffer: array<int>)
    returns (ok: bool, length: nat, decimalPoint: int)
    requires Finite(v) && fractionalCount >= 0 && buffer.Length >= 45
    modifies buffer
    ensures ok <==> v.e <= 20 && fractionalCount <= 20
    ensures ok ==> length <= buffer.Length && Trimmed(buffer[..length])
    ensures ok ==> BignumDtoa.FixedFor(v, fractionalCount, buffer[..length], decimalPoint)
  {
    hide Pow, RPow, Decimal, DecimalValue, Value, HalfUp, Filled, Finite;
    if v.e > 20 || fractionalCount > 20 {
      return false, 0, 0;
    }
    length, decimalPoint := FillDigits(v, fractionalCount, buffer);
    length, decimalPoint := TrimZeros(buffer, length, decimalPoint);
    if length == 0 {
      NothingWritten(decimalPoint, -fractionalCount);
      decimalPoint := -fractionalCount;
      assert buffer[..length] == [];
    }
    ok := true;
  }

  lemma NothingWritten(p: int, q: int)
    ensures Written([], p) == Written([], q) == 0.0
  {
    DecimalEmpty();
  }

  method FillLarge(significand: uint64, exponent: nat, buffer: array<int>) returns (length: nat)
    requires HIDDEN_BIT <= significand < 2 * HIDDEN_BIT && 11 < exponent <= 20 && buffer.Length >= 45
    modifies buffer
    ensures length <= buffer.Length && IsDecimal(buffer[..length])
    ensures Decimal(buffer[..length]) == significand * Pow(2, exponent)
  {
    hide Pow, Decimal;
    var quotient, remainder := CutLarge(significand, exponent);
    length := FillDigits32(quotient, buffer, 0);
    ghost var before, cut := buffer[..], length;
    length := FillDigits64FixedLength(remainder, buffer, length);
    StillFilled(before, buffer[..], 0, cut, quotient, cut);
    SevenDigits();
    FilledBoth(buffer[..], 0, cut, length, quotient, remainder);
  }

  /** The digits with zeros at the ends. */
  method FillDigits(v: Double, fractionalCount: int, buffer: array<int>) returns (length: nat, decimalPoint: int)
    requires Finite(v) && buffer.Length >= 45 && v.e <= 20 && 0 <= fractionalCount <= 20
    modifies buffer
    ensures length <= buffer.Length && IsDecimal(buffer[..length])
    ensures Written(buffer[..length], decimalPoint) == HalfUp(Value(v), fractionalCount)
  {
    hide Pow, RPow, Decimal, DecimalValue, HalfUp, BinaryValue, Value;
    ValueIs(v);
    var significand: uint64, exponent := v.f, v.e;
    if exponent + 53 > 64 {
      length := FillLarge(significand, exponent, buffer);
      WholeNumber(v, fractionalCount, buffer[..length]);
      decimalPoint := length;
    } else if exponent >= 0 {
      FittingShift(significand, exponent);
      significand := significand * Pow(2, exponent);
      length := FillDigits64(significand, buffer, 0);
      WholeNumber(v, fractionalCount, buffer[..length]);
      decimalPoint := length;
    } else if exponent > -53 {
      CutAtPoint(v.f, exponent);
      var integrals: uint64 := significand / Pow(2, -exponent);
      var fractionals: uint64 := significand - integrals * Pow(2, -exponent);
      if integrals > 0xFFFF_FFFF {
        length := FillDigits64(integrals, buffer, 0);
      } else {
        length := FillDigits32(integrals, buffer, 0);
      }
      assert buffer[..][0..length] == buffer[..length];
      length, decimalPoint := FillFractionals(fractionals, exponent, fractionalCount, buffer, length, Value(v));
    } else if exponent < -128 {
      TooSmall(v, fractionalCount);
      length, decimalPoint := 0, -fractionalCount;
      NothingWritten(decimalPoint, 0);
      assert buffer[..length] == [];
    } else {
      AllFraction(v);
      assert buffer[..0] == [];
      DecimalEmpty();
      length, decimalPoint := FillFractionals(significand, exponent, fractionalCount, buffer, 0, Value(v));
    }
  }

  lemma ValueIs(v: Double)
    ensures Value(v) == BinaryValue(v.f, v.e)
  {
  }

  lemma AllFraction(v: Double)
    requires Finite(v) && v.e <= -53
    ensures v.f < Pow(2, -v.e) && v.f < MOST && Value(v) == 0.0 + BinaryValue(v.f, v.e)
  {
    TwoTo52();
    PowStep(2, 52);
    PowMono(2, 53, -v.e);
  }

  /** The decimal point of an integer is at its end. */
  lemma WholeNumber(v: Double, count: nat, digits: seq<int>)
    requires v.e >= 0 && Decimal(digits) == v.f * Pow(2, v.e)
    ensures Written(digits, |digits|) == HalfUp(Value(v), count)
  {
    hide Pow, RPow, Value, HalfUp, DecimalValue;
    IntegerValue(v);
    HalfUpInteger(v.f * Pow(2, v.e), count);
  }
}
