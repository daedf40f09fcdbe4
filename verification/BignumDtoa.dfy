/** Shortest digits by exact arithmetic: double-conversion/bignum-dtoa.cc. */
module BignumDtoa {
  import opened Arith
  import opened Bignums
  import opened Counted
  import DecimalReading
  import opened Decimals
  import opened Digits
  import opened DiyFps
  import opened Ieee
  import opened Rounding

  // ---- what is promised ----

  /** A number scaled by ten to the k: num / den, and the distances to the two boundaries. */
  datatype Ratio = Ratio(num: int, den: int, minus: int, plus: int)
  {
    ghost predicate Valid() { den > 0 && 0 < minus < num && 0 < plus }
  }

  /** x / 10^k lies in the rounding interval, which contains its ends if and only if even. */
  ghost predicate InInterval(r: Ratio, even: bool, x: int, k: nat)
  {
    Between((r.num - r.minus) * Pow(10, k), x * r.den, (r.num + r.plus) * Pow(10, k), even)
  }

  ghost predicate Between(lo: int, x: int, hi: int, even: bool)
  {
    if even then lo <= x <= hi else lo < x < hi
  }

  ghost function Gap(a: int, b: int): int { if a < b then b - a else a - b }

  /** digits, read with the decimal point after the first one, are in the interval, shortest, and closest. */
  ghost predicate Shortest(r: Ratio, even: bool, digits: seq<int>)
  {
    && |digits| >= 1 && IsDecimal(digits) && digits[0] >= 1 && digits[|digits| - 1] >= 1
    && InInterval(r, even, Decimal(digits), |digits| - 1)
    && NoneShorter(r, even, |digits| - 1) && NoneCloser(r, even, Decimal(digits), |digits| - 1)
    && TieToEven(r, even, Decimal(digits), |digits| - 1)
  }

  ghost predicate NoneShorter(r: Ratio, even: bool, k: nat)
  {
    forall j: nat, x: int :: j < k ==> !InInterval(r, even, x, j)
  }

  ghost predicate NoneCloser(r: Ratio, even: bool, b: int, k: nat)
  {
    forall x: int :: InInterval(r, even, x, k) ==>
      Gap(b * r.den, r.num * Pow(10, k)) <= Gap(x * r.den, r.num * Pow(10, k))
  }

  /** If another candidate is just as close, the chosen one is even. */
  ghost predicate TieToEven(r: Ratio, even: bool, b: int, k: nat)
  {
    forall x: int ::
      var n := r.num * Pow(10, k);
      InInterval(r, even, x, k) && x != b && Gap(x * r.den, n) == Gap(b * r.den, n) ==> b % 2 == 0
  }

  // ---- one digit ----

  /** After k + 1 digits with value b, n is the remainder, and m and p are the scaled distances. */
  ghost predicate Generated(r: Ratio, b: int, n: int, m: int, p: int, k: nat)
  {
    && r.num * Pow(10, k) == b * r.den + n && 0 <= n < r.den
    && m == r.minus * Pow(10, k) && p == r.plus * Pow(10, k)
  }

  ghost predicate RoomMinus(n: int, m: int, even: bool) { if even then n <= m else n < m }

  ghost predicate RoomPlus(n: int, p: int, d: int, even: bool) { if even then n + p >= d else n + p > d }

  /** The tests for rounding down and up ask whether the result is in the interval. */
  lemma RoomIsInterval(r: Ratio, even: bool, b: int, n: int, m: int, p: int, k: nat)
    requires r.Valid() && Generated(r, b, n, m, p, k)
    ensures RoomMinus(n, m, even) <==> InInterval(r, even, b, k)
    ensures RoomPlus(n, p, r.den, even) <==> InInterval(r, even, b + 1, k)
    ensures InInterval(r, even, b, k) || InInterval(r, even, b + 1, k) || forall x: int :: !InInterval(r, even, x, k)
  {
    var t := Pow(10, k);
    PowPositive(10, k);
    Dist(r.num, r.minus, t);
    Dist(r.num, r.plus, t);
    Dist(b, 1, r.den);
    MulStrictMono(t, 0, r.plus);
    MulStrictMono(t, 0, r.minus);
    hide Pow;
    if !InInterval(r, even, b, k) && !InInterval(r, even, b + 1, k) {
      forall x: int ensures !InInterval(r, even, x, k) {
        if x <= b { MulMono(r.den, x, b); } else { MulMono(r.den, b + 1, x); }
      }
    }
  }

  /** Of b and b + 1, whichever is in the interval and nearer is nearest of all. */
  lemma NearestOfTwo(r: Ratio, even: bool, b: int, n: int, m: int, p: int, k: nat, up: bool)
    requires r.Valid() && Generated(r, b, n, m, p, k)
    requires if up then RoomPlus(n, p, r.den, even) && (RoomMinus(n, m, even) ==> 2 * n >= r.den)
             else RoomMinus(n, m, even) && (RoomPlus(n, p, r.den, even) ==> 2 * n <= r.den)
    ensures var c := if up then b + 1 else b; InInterval(r, even, c, k) && NoneCloser(r, even, c, k)
  {
    RoomIsInterval(r, even, b, n, m, p, k);
    var c, t := if up then b + 1 else b, Pow(10, k);
    PowPositive(10, k);
    Dist(b, 1, r.den);
    hide Pow;
    forall x: int | InInterval(r, even, x, k)
      ensures Gap(c * r.den, r.num * t) <= Gap(x * r.den, r.num * t)
    {
      if x < b {
        MulMono(r.den, x, b - 1);
        Dist(b, 1, r.den);
        BelowInside(r, even, x, b, k);
      } else if x > b + 1 {
        MulMono(r.den, b + 2, x);
        Dist(b, 2, r.den);
        AboveInside(r, even, x, b + 1, k);
      }
    }
  }

  /** A multiple of d away from b and b + 1 is at least d farther off. */
  lemma Positions(b: int, d: int, x: int)
    requires d > 0
    ensures (b + 1) * d == b * d + d
    ensures x < b ==> x * d <= b * d - d
    ensures x > b + 1 ==> x * d >= b * d + 2 * d
  {
    Dist(b, 1, d);
    Dist(b, 2, d);
    if x < b { MulMono(d, x, b - 1); }
    if x > b + 1 { MulMono(d, b + 2, x); }
  }

  lemma EqualGaps(V: int, B: int, X: int, d: int, n: int, up: bool)
    requires V == B + n && 0 <= n < d && Gap(X, V) == Gap(if up then B + d else B, V)
    ensures X == (if up then B else B + d) ==> 2 * n == d
    ensures X <= B - d ==> up && 2 * n < d
    ensures X >= B + 2 * d ==> !up && 2 * n > d
  {
  }

  lemma TieIsHalf(r: Ratio, even: bool, b: int, n: int, m: int, p: int, k: nat, up: bool)
    requires r.Valid() && Generated(r, b, n, m, p, k)
    requires RoomMinus(n, m, even) && RoomPlus(n, p, r.den, even) && 2 * n == r.den ==> (up <==> b % 2 != 0)
    requires if up then RoomPlus(n, p, r.den, even) && (RoomMinus(n, m, even) ==> 2 * n >= r.den)
             else RoomMinus(n, m, even) && (RoomPlus(n, p, r.den, even) ==> 2 * n <= r.den)
    ensures TieToEven(r, even, if up then b + 1 else b, k)
  {
    var c := if up then b + 1 else b;
    RoomIsInterval(r, even, b, n, m, p, k);
    forall x: int | InInterval(r, even, x, k) && x != c
      && Gap(x * r.den, r.num * Pow(10, k)) == Gap(c * r.den, r.num * Pow(10, k))
      ensures c % 2 == 0
    {
      TieOf(r, even, b, n, m, p, k, up, x);
    }
  }

  lemma TieOf(r: Ratio, even: bool, b: int, n: int, m: int, p: int, k: nat, up: bool, x: int)
    requires r.Valid() && Generated(r, b, n, m, p, k) && InInterval(r, even, x, k) && x != if up then b + 1 else b
    requires Gap(x * r.den, r.num * Pow(10, k)) == Gap((if up then b + 1 else b) * r.den, r.num * Pow(10, k))
    requires RoomMinus(n, m, even) && RoomPlus(n, p, r.den, even) && 2 * n == r.den ==> (up <==> b % 2 != 0)
    requires if up then RoomPlus(n, p, r.den, even) && (RoomMinus(n, m, even) ==> 2 * n >= r.den)
             else RoomMinus(n, m, even) && (RoomPlus(n, p, r.den, even) ==> 2 * n <= r.den)
    ensures (if up then b + 1 else b) % 2 == 0
  {
    hide Pow, InInterval, RoomMinus, RoomPlus, Gap;
    RoomIsInterval(r, even, b, n, m, p, k);
    Positions(b, r.den, x);
    if x < b && up { BelowInside(r, even, x, b, k); }
    if x > b + 1 && !up { AboveInside(r, even, x, b + 1, k); }
    EqualGaps(r.num * Pow(10, k), b * r.den, x * r.den, r.den, n, up);
  }

  /** The interval reaches from any of its points below the number up to the number. */
  lemma BelowInside(r: Ratio, even: bool, x: int, b: int, k: nat)
    requires r.Valid() && InInterval(r, even, x, k) && x <= b && b * r.den <= r.num * Pow(10, k)
    ensures InInterval(r, even, b, k)
  {
    MulMono(r.den, x, b);
    PowPositive(10, k);
    Dist(r.num, r.plus, Pow(10, k));
    MulStrictMono(Pow(10, k), 0, r.plus);
  }

  lemma AboveInside(r: Ratio, even: bool, x: int, b: int, k: nat)
    requires r.Valid() && InInterval(r, even, x, k) && b <= x && b * r.den >= r.num * Pow(10, k)
    ensures InInterval(r, even, b, k)
  {
    MulMono(r.den, b, x);
    PowPositive(10, k);
    Dist(r.num, r.minus, Pow(10, k));
    MulStrictMono(Pow(10, k), 0, r.minus);
  }

  // ---- the loop ----

  /** Before the next digit: b has been written in k digits, and n / den is what is left, times ten. */
  ghost predicate Pending(r: Ratio, even: bool, b: int, n: int, m: int, p: int, k: nat)
  {
    && r.num * Pow(10, k) == 10 * (b * r.den) + n && 0 <= n
    && m == r.minus * Pow(10, k) && p == r.plus * Pow(10, k)
    && (if even then n + p < 10 * r.den else n + p <= 10 * r.den)
  }

  lemma DigitStep(r: Ratio, even: bool, b: int, n0: int, digit: int, n: int, m: int, p: int, k: nat)
    requires r.Valid() && Pending(r, even, b, n0, m, p, k) && n0 == digit * r.den + n && 0 <= n < r.den && 0 <= digit
    ensures Generated(r, 10 * b + digit, n, m, p, k) && digit <= 9 && (digit == 9 ==> !RoomPlus(n, p, r.den, even))
  {
    PowPositive(10, k);
    MulStrictMono(Pow(10, k), 0, r.plus);
    if digit >= 10 { MulMono(r.den, 10, digit); }
    Dist(10 * b, digit, r.den);
    MulAssoc(10, b, r.den);
  }

  lemma NoneShorterNext(r: Ratio, even: bool, k: nat)
    requires NoneShorter(r, even, k) && forall x: int :: !InInterval(r, even, x, k)
    ensures NoneShorter(r, even, k + 1)
  {
    hide InInterval;
    forall j: nat, x: int | j < k + 1 ensures !InInterval(r, even, x, j) {
      if j == k { assert !InInterval(r, even, x, k); }
    }
  }

  lemma NextRound(r: Ratio, even: bool, b: int, n: int, m: int, p: int, k: nat)
    requires r.Valid() && Generated(r, b, n, m, p, k) && !RoomMinus(n, m, even) && !RoomPlus(n, p, r.den, even)
    requires NoneShorter(r, even, k)
    ensures Pending(r, even, b, 10 * n, 10 * m, 10 * p, k + 1) && NoneShorter(r, even, k + 1)
    ensures (r.minus + r.plus) * Pow(10, k) <= r.den
  {
    hide Pow, InInterval, NoneShorter;
    RoomIsInterval(r, even, b, n, m, p, k);
    NoneShorterNext(r, even, k);
    PowStep(10, k);
    var t := Pow(10, k);
    Dist(r.minus, r.plus, t);
    TenTimes(r.num, t);
    TenTimes(r.minus, t);
    TenTimes(r.plus, t);
  }

  lemma TenTimes(x: int, t: int)
    ensures x * (10 * t) == 10 * (x * t)
  {
    MulAssoc(x, 10, t);
    MulAssoc(10, x, t);
  }

  /** A last digit of zero would have been left away. */
  lemma LastDigitNotZero(r: Ratio, even: bool, b: int, k: nat)
    requires NoneShorter(r, even, k) && k >= 1
    ensures !InInterval(r, even, 10 * b, k)
  {
    hide Pow, NoneShorter;
    PowStep(10, k - 1);
    var t := Pow(10, k - 1);
    NotInterval(r, even, b, k - 1, k);
    TenTimes(r.num - r.minus, t);
    TenTimes(r.num + r.plus, t);
    MulAssoc(10, b, r.den);
  }

  lemma NotInterval(r: Ratio, even: bool, x: int, j: nat, k: nat)
    requires NoneShorter(r, even, k) && j < k
    ensures !InInterval(r, even, x, j)
  {
  }

  /** Zero is not in the interval of a positive number. */
  lemma ZeroOutside(r: Ratio, even: bool)
    requires r.Valid()
    ensures !InInterval(r, even, 0, 0)
  {
    PowStep(10, 0);
  }

  /** Fits: enough places for the precision of the interval. */
  lemma RoomForDigit(r: Ratio, even: bool, k: nat, places: nat)
    requires (r.minus + r.plus) * Pow(10, k) <= r.den && 0 < r.minus && 0 < r.plus && places >= 1
    requires (r.minus + r.plus) * Pow(10, places - 1) > r.den
    ensures k + 1 < places
  {
    if k >= places - 1 {
      PowMono(10, places - 1, k);
      MulMono(r.minus + r.plus, Pow(10, places - 1), Pow(10, k));
    }
  }

  /** The digits so far, when none of their prefixes is in the interval. */
  ghost predicate Prefix(digits: seq<int>, k: nat)
  {
    |digits| == k && IsDecimal(digits) && (k >= 1 ==> digits[0] >= 1)
  }

  lemma RoundedDigits(digits: seq<int>, k: nat, up: bool)
    requires |digits| == k + 1 && IsDecimal(digits) && (up ==> digits[k] <= 8)
    ensures var d := if up then 1 else 0;
      var result := digits[k := digits[k] + d];
      && IsDecimal(result) && Decimal(result) == Decimal(digits) + d && Decimal(digits) % 2 == digits[k] % 2
      && Decimal(result) == 10 * Decimal(result[..k]) + result[k]
  {
    hide Decimal;
    var d := if up then 1 else 0;
    var result := digits[k := digits[k] + d];
    DecimalLast(digits, -d);
    assert result == result[..k] + [result[k]];
    DecimalPush(result[..k], result[k]);
  }

  /** The shortest digits in the interval do not end, or begin, with a zero. */
  lemma NoZeros(r: Ratio, even: bool, digits: seq<int>, k: nat)
    requires r.Valid() && |digits| == k + 1 && IsDecimal(digits) && NoneShorter(r, even, k)
    requires InInterval(r, even, Decimal(digits), k) && Decimal(digits) == 10 * Decimal(digits[..k]) + digits[k]
    ensures digits[k] >= 1
  {
    hide Pow, InInterval, NoneShorter, Decimal;
    if k >= 1 {
      LastDigitNotZero(r, even, Decimal(digits[..k]), k);
    } else {
      assert digits[..0] == [];
      DecimalEmpty();
      ZeroOutside(r, even);
    }
  }

  /** The tests and the choice that end the loop give the shortest digits. */
  lemma Finished(r: Ratio, even: bool, digits: seq<int>, n: int, m: int, p: int, k: nat, up: bool)
    requires r.Valid() && |digits| == k + 1 && IsDecimal(digits) && (k >= 1 ==> digits[0] >= 1)
    requires Generated(r, Decimal(digits), n, m, p, k) && NoneShorter(r, even, k)
    requires digits[k] == 9 ==> !RoomPlus(n, p, r.den, even)
    requires if up then RoomPlus(n, p, r.den, even) && (RoomMinus(n, m, even) ==> 2 * n >= r.den)
             else RoomMinus(n, m, even) && (RoomPlus(n, p, r.den, even) ==> 2 * n <= r.den)
    requires RoomMinus(n, m, even) && RoomPlus(n, p, r.den, even) && 2 * n == r.den ==> (up <==> digits[k] % 2 != 0)
    ensures up ==> digits[k] <= 8
    ensures Shortest(r, even, digits[k := digits[k] + if up then 1 else 0])
  {
    hide TieToEven, Pow, RoomMinus, RoomPlus, InInterval, NoneShorter, NoneCloser, Decimal, Generated;
    assert up ==> digits[k] <= 8;
    var result := digits[k := digits[k] + if up then 1 else 0];
    RoundedDigits(digits, k, up);
    NearestOfTwo(r, even, Decimal(digits), n, m, p, k, up);
    TieIsHalf(r, even, Decimal(digits), n, m, p, k, up);
    NoZeros(r, even, result, k);
  }

  /** The four numbers are well-formed and different objects. */
  ghost predicate Ready(numerator: Bignum, denominator: Bignum, deltaMinus: Bignum, deltaPlus: Bignum)
    reads numerator, numerator.bigits, denominator, denominator.bigits
    reads deltaMinus, deltaMinus.bigits, deltaPlus, deltaPlus.bigits
  {
    && numerator.Valid() && denominator.Valid() && deltaMinus.Valid() && deltaPlus.Valid()
    && Apart(numerator, denominator) && Apart(numerator, deltaMinus) && Apart(numerator, deltaPlus)
    && Apart(denominator, deltaMinus) && Apart(denominator, deltaPlus) && Apart(deltaMinus, deltaPlus)
  }

  predicate Apart(a: Bignum, b: Bignum) { a != b && a.bigits != b.bigits }

  /** Reads off the ratio that the four numbers stand for. */
  ghost function RatioOf(numerator: Bignum, denominator: Bignum, deltaMinus: Bignum, deltaPlus: Bignum): Ratio
    requires Ready(numerator, denominator, deltaMinus, deltaPlus)
    reads numerator, numerator.bigits, denominator, denominator.bigits
    reads deltaMinus, deltaMinus.bigits, deltaPlus, deltaPlus.bigits
  {
    Ratio(numerator.Value(), denominator.Value(), deltaMinus.Value(), deltaPlus.Value())
  }

  /** There is room for a number and for a little more. */
  ghost predicate Roomy(V: int) { exists n: nat :: n + 2 <= CAPACITY && V < Pow(BASE, n) }

  lemma RoomyLess(V: int, W: int)
    requires V <= W && Roomy(W)
    ensures Roomy(V)
  {
    var n: nat :| n + 2 <= CAPACITY && W < Pow(BASE, n);
    assert V < Pow(BASE, n);
  }

  lemma RoomyLength(x: Bignum)
    requires x.Valid() && Roomy(x.Value())
    ensures x.BigitLength() + 2 <= CAPACITY && 0 <= x.Mantissa() <= x.Value()
    ensures x.Mantissa() * 10 < Pow(BASE, x.bigits.Length)
  {
    hide Pow, Val;
    var n: nat :| n + 2 <= CAPACITY && x.Value() < Pow(BASE, n);
    LengthBelow(x, n);
    MantissaBelow(x);
    PowStep(BASE, n);
    PowMono(BASE, n + 1, x.bigits.Length);
  }

  method MultiplyByTen(x: Bignum)
    requires x.Valid() && Roomy(x.Value())
    modifies x, x.bigits
    ensures x.Valid() && x.Value() == 10 * old(x.Value())
  {
    hide Pow, Val, IsDigits;
    RoomyLength(x);
    x.Times10();
  }

  /** The interval reaches one but not ten. */
  ghost predicate InRange(r: Ratio, even: bool)
  {
    && (if even then r.num + r.plus >= r.den else r.num + r.plus > r.den)
    && (if even then r.num + r.plus < 10 * r.den else r.num + r.plus <= 10 * r.den)
  }

  /** Generates digits from the left until rounding down or up leads into the interval. */
  method GenerateShortestDigits(numerator: Bignum, denominator: Bignum, deltaMinus: Bignum, deltaPlusStart: Bignum,
                                even: bool, buffer: array<int>, ghost places: nat)
    returns (length: nat)
    requires Ready(numerator, denominator, deltaMinus, deltaPlusStart) && Roomy(10 * denominator.Value())
    requires buffer !in {numerator.bigits, denominator.bigits, deltaMinus.bigits, deltaPlusStart.bigits}
    requires RatioOf(numerator, denominator, deltaMinus, deltaPlusStart).Valid()
    requires InRange(RatioOf(numerator, denominator, deltaMinus, deltaPlusStart), even)
    requires 1 <= places <= buffer.Length
    requires (deltaMinus.Value() + deltaPlusStart.Value()) * Pow(10, places - 1) > denominator.Value()
    modifies numerator, numerator.bigits, deltaMinus, deltaMinus.bigits, deltaPlusStart, deltaPlusStart.bigits, buffer
    ensures 1 <= length <= places
    ensures Shortest(old(RatioOf(numerator, denominator, deltaMinus, deltaPlusStart)), even, buffer[..length])
  {
    hide Pow, Decimal, NoneShorter, InInterval, Shortest, Generated, Pending, Prefix, IsDecimal, InRange, Roomy;
    hide RoomMinus, RoomPlus, Bignum.Shaped, Bignum.Value;
    ghost var r := RatioOf(numerator, denominator, deltaMinus, deltaPlusStart);
    var deltaPlus := deltaPlusStart;
    var same := Compare(deltaMinus, deltaPlus);
    if same == 0 {
      deltaPlus := deltaMinus;
    }
    length := 0;
    FirstRound(r, even);
    assert buffer[..0] == [];
    while true
      invariant length < places && denominator.Valid() && denominator.Value() == r.den
      invariant numerator.Valid() && deltaMinus.Valid() && deltaPlus.Valid()
      invariant deltaPlus == (if r.minus == r.plus then deltaMinus else deltaPlusStart)
      invariant Pending(r, even, Decimal(buffer[..length]), numerator.Value(), deltaMinus.Value(), deltaPlus.Value(),
                        length)
      invariant NoneShorter(r, even, length) && Prefix(buffer[..length], length)
      decreases places - length
    {
      ghost var digits, k := buffer[..length], length;
      var digit := NextDigit(r, even, digits, numerator, denominator, deltaMinus, deltaPlus);
      ghost var n, m, p := numerator.Value(), deltaMinus.Value(), deltaPlus.Value();
      Emit(buffer, length, digit);
      length := length + 1;
      var inDeltaRoomMinus, inDeltaRoomPlus := DeltaRoom(numerator, denominator, deltaMinus, deltaPlus, even);
      if !inDeltaRoomMinus && !inDeltaRoomPlus {
        OneMoreRound(r, even, digits + [digit], n, m, p, k, places);
        NoRoomIsSmall(r, even, Decimal(digits + [digit]), n, m, p, k);
        ScaleAll(numerator, deltaMinus, deltaPlus);
      } else {
        ghost var up := RoundLast(buffer, length, numerator, denominator, inDeltaRoomMinus, inDeltaRoomPlus);
        Finished(r, even, digits + [digit], n, m, p, k, up);
        return;
      }
    }
  }

  /** Whether rounding down or up leads into the interval. */
  method DeltaRoom(numerator: Bignum, denominator: Bignum, deltaMinus: Bignum, deltaPlus: Bignum, even: bool)
    returns (inDeltaRoomMinus: bool, inDeltaRoomPlus: bool)
    requires numerator.Valid() && denominator.Valid() && deltaMinus.Valid() && deltaPlus.Valid()
    ensures inDeltaRoomMinus <==> RoomMinus(numerator.Value(), deltaMinus.Value(), even)
    ensures inDeltaRoomPlus <==> RoomPlus(numerator.Value(), deltaPlus.Value(), denominator.Value(), even)
  {
    hide Bignum.Shaped, Bignum.Value;
    var compareMinus := Compare(numerator, deltaMinus);
    inDeltaRoomMinus := if even then compareMinus <= 0 else compareMinus < 0;
    var comparePlus := PlusCompare(numerator, deltaPlus, denominator);
    inDeltaRoomPlus := if even then comparePlus >= 0 else comparePlus > 0;
  }

  /** The next digit is a quotient. */
  method NextDigit(ghost r: Ratio, even: bool, ghost digits: seq<int>, numerator: Bignum, denominator: Bignum,
                   deltaMinus: Bignum, deltaPlus: Bignum)
    returns (digit: nat)
    requires numerator.Valid() && denominator.Valid() && Apart(numerator, denominator) && denominator.Value() == r.den
    requires deltaMinus.Valid() && deltaPlus.Valid() && Apart(numerator, deltaMinus) && Apart(numerator, deltaPlus)
    requires r.Valid() && InRange(r, even) && Roomy(10 * r.den) && Prefix(digits, |digits|)
    requires Pending(r, even, Decimal(digits), numerator.Value(), deltaMinus.Value(), deltaPlus.Value(), |digits|)
    modifies numerator, numerator.bigits
    ensures numerator.Valid()
    ensures var n, m, p := numerator.Value(), deltaMinus.Value(), deltaPlus.Value();
      && Generated(r, Decimal(digits + [digit]), n, m, p, |digits|) && IsDecimal(digits + [digit])
      && (digit == 9 ==> !RoomPlus(n, p, r.den, even))
      && ((digits + [digit])[0] >= 1 || RoomPlus(n, p, r.den, even))
      && (|digits| >= 1 ==> (digits + [digit])[0] >= 1)
  {
    hide Pow, Decimal, Generated, Pending, Prefix, IsDecimal, InRange, Roomy, RoomPlus, Bignum.Value;
    ghost var n0 := numerator.Value();
    PendingIsSmall(r, even, Decimal(digits), n0, deltaMinus.Value(), deltaPlus.Value(), |digits|);
    RoomyLess(n0, 10 * r.den);
    RoomyLess(r.den, 10 * r.den);
    RoomyLength(numerator);
    LengthBounds(denominator);
    digit := numerator.DivideModuloIntBignum(denominator);
    OneDigit(r, even, digits, n0, digit, numerator.Value(), deltaMinus.Value(), deltaPlus.Value());
  }

  /** What is pending is at most ten times the denominator. */
  lemma PendingIsSmall(r: Ratio, even: bool, b: int, n: int, m: int, p: int, k: nat)
    requires r.Valid() && InRange(r, even) && Pending(r, even, b, n, m, p, k)
    ensures 0 <= n <= 10 * r.den
  {
    PowPositive(10, k);
    MulMono(Pow(10, k), 0, r.plus);
  }

  method ScaleAll(numerator: Bignum, deltaMinus: Bignum, deltaPlus: Bignum)
    requires numerator.Valid() && deltaMinus.Valid() && deltaPlus.Valid()
    requires Apart(numerator, deltaMinus) && Apart(numerator, deltaPlus)
    requires deltaMinus == deltaPlus || Apart(deltaMinus, deltaPlus)
    requires Roomy(numerator.Value()) && Roomy(deltaMinus.Value()) && Roomy(deltaPlus.Value())
    modifies numerator, numerator.bigits, deltaMinus, deltaMinus.bigits, deltaPlus, deltaPlus.bigits
    ensures numerator.Valid() && deltaMinus.Valid() && deltaPlus.Valid()
    ensures numerator.Value() == 10 * old(numerator.Value())
    ensures deltaMinus.Value() == 10 * old(deltaMinus.Value()) && deltaPlus.Value() == 10 * old(deltaPlus.Value())
  {
    hide Roomy, Bignum.Shaped, Bignum.Value;
    MultiplyByTen(numerator);
    MultiplyByTen(deltaMinus);
    if deltaMinus != deltaPlus {
      MultiplyByTen(deltaPlus);
    }
  }

  /** What is not in the interval leaves no more than the denominator. */
  lemma NoRoomIsSmall(r: Ratio, even: bool, b: int, n: int, m: int, p: int, k: nat)
    requires Generated(r, b, n, m, p, k) && !RoomMinus(n, m, even) && !RoomPlus(n, p, r.den, even)
    requires r.den > 0 && Roomy(10 * r.den)
    ensures Roomy(n) && Roomy(m) && Roomy(p)
  {
    hide Roomy, Pow;
    RoomyLess(n, 10 * r.den);
    RoomyLess(m, 10 * r.den);
    RoomyLess(p, 10 * r.den);
  }

  /** Rounds the last digit: to the nearer end if both are possible, and halfway to an even digit. */
  method RoundLast(buffer: array<int>, length: nat, numerator: Bignum, denominator: Bignum, roomMinus: bool,
                   roomPlus: bool) returns (up: bool)
    requires 1 <= length <= buffer.Length && (roomMinus || roomPlus)
    requires numerator.Valid() && denominator.Valid() && buffer != numerator.bigits && buffer != denominator.bigits
    modifies buffer
    ensures var last := old(buffer[length - 1]);
      && (up <==> roomPlus && (!roomMinus || 2 * numerator.Value() > denominator.Value() ||
                               (2 * numerator.Value() == denominator.Value() && last % 2 != 0)))
      && buffer[..length] == old(buffer[..length])[length - 1 := last + if up then 1 else 0]
  {
    hide Bignum.Shaped, Bignum.Valid, Bignum.Value;
    up := false;
    if roomMinus && roomPlus {
      var half := PlusCompare(numerator, numerator, denominator);
      if half > 0 || (half == 0 && buffer[length - 1] % 2 != 0) {
        up := true;
      }
    } else if roomPlus {
      up := true;
    }
    if up {
      buffer[length - 1] := buffer[length - 1] + 1;
    }
  }

  /** One more digit, which is not the last one. */
  lemma OneMoreRound(r: Ratio, even: bool, digits: seq<int>, n: int, m: int, p: int, k: nat, places: nat)
    requires r.Valid() && Generated(r, Decimal(digits), n, m, p, k) && !RoomMinus(n, m, even)
    requires !RoomPlus(n, p, r.den, even)
    requires NoneShorter(r, even, k) && |digits| == k + 1 && IsDecimal(digits)
    requires (digits[0] >= 1 || RoomPlus(n, p, r.den, even))
    requires places >= 1 && (r.minus + r.plus) * Pow(10, places - 1) > r.den
    ensures Pending(r, even, Decimal(digits), 10 * n, 10 * m, 10 * p, k + 1) && NoneShorter(r, even, k + 1)
    ensures Prefix(digits, k + 1) && k + 1 < places
  {
    hide Pow, Decimal, NoneShorter, Generated, Pending;
    NextRound(r, even, Decimal(digits), n, m, p, k);
    RoomForDigit(r, even, k, places);
  }

  /** What the quotient is: the next digit, with the remainder. */
  lemma OneDigit(r: Ratio, even: bool, digits: seq<int>, n0: int, digit: int, n: int, m: int, p: int)
    requires r.Valid() && InRange(r, even) && Pending(r, even, Decimal(digits), n0, m, p, |digits|)
    requires Prefix(digits, |digits|)
    requires n0 == digit * r.den + n && 0 <= n < r.den && 0 <= digit
    ensures Generated(r, Decimal(digits + [digit]), n, m, p, |digits|) && IsDecimal(digits + [digit])
    ensures digit == 9 ==> !RoomPlus(n, p, r.den, even)
    ensures (digits + [digit])[0] >= 1 || RoomPlus(n, p, r.den, even)
    ensures |digits| >= 1 ==> (digits + [digit])[0] >= 1
  {
    hide Pow, Decimal, Generated, Pending, InRange, RoomPlus;
    DigitStep(r, even, Decimal(digits), n0, digit, n, m, p, |digits|);
    DecimalPush(digits, digit);
    FirstDigitUp(r, even, digits, n0, digit, n, m, p);
  }

  lemma FirstRound(r: Ratio, even: bool)
    requires r.Valid() && InRange(r, even)
    ensures Pending(r, even, Decimal([]), r.num, r.minus, r.plus, 0) && NoneShorter(r, even, 0) && Prefix([], 0)
  {
    PowStep(10, 0);
  }

  /** A first digit of zero is rounded up at once. */
  lemma FirstDigitUp(r: Ratio, even: bool, digits: seq<int>, n0: int, digit: int, n: int, m: int, p: int)
    requires InRange(r, even) && Pending(r, even, Decimal(digits), n0, m, p, |digits|) && n0 == digit * r.den + n
    ensures digits == [] && digit == 0 ==> RoomPlus(n, p, r.den, even)
  {
    PowStep(10, 0);
  }

  // ---- what the ratio stands for ----

  /** num / den is v / 10^p, and so for its boundaries. */
  ghost predicate Represents(r: Ratio, v: Double, p: int)
  {
    && r.den > 0
    && Stands(r.num - r.minus, r.den, Lower(v), RPow(10, p))
    && Stands(r.num, r.den, Value(v), RPow(10, p))
    && Stands(r.num + r.plus, r.den, Upper(v), RPow(10, p))
  }

  ghost predicate Stands(num: int, den: int, x: real, power: real)
  {
    num as real * power == x * den as real
  }

  /** Comparing with a boundary over the common denominator. */
  lemma ComparesAlike(num: int, den: int, bound: real, x: int, t: int, s: real)
    requires den > 0 && s > 0.0 && Stands(num, den, bound, s * t as real)
    ensures num * t < x * den <==> bound < x as real * s
    ensures num * t == x * den <==> bound == x as real * s
  {
    var a, b, d := (num * t) as real, (x * den) as real, den as real;
    IntProduct(num, t);
    IntProduct(x, den);
    assert a * s == bound * d by { RealAssoc(num as real, t as real, s); RealAssoc(s, t as real, 1.0); }
    assert b * s == (x as real * s) * d by { RealAssoc(x as real, d, s); RealAssoc(x as real, s, d); }
    CompareScaled(a, b, s);
    CompareScaled(bound, x as real * s, d);
  }

  lemma Scales(p: int, k: nat) returns (s: real, t: int)
    ensures s == RPow(10, p - k) > 0.0 && t == Pow(10, k) >= 1 && RPow(10, p) == s * t as real
  {
    hide RPow, Pow;
    s, t := RPow(10, p - k), Pow(10, k);
    PowPositive(10, k);
    RPowPositive(10, p - k);
    RPowAdd(10, p - k, k);
  }

  /** x / 10^k is in the interval of the ratio exactly when x * 10^(p - k) rounds to v. */
  lemma IntervalIsRounding(r: Ratio, v: Double, p: int, x: int, k: nat)
    requires Represents(r, v, p)
    ensures InInterval(r, v.f % 2 == 0, x, k) <==> RoundsTo(DecimalValue(x, p - k), v)
  {
    hide Pow, RPow, RealPow, Lower, Upper, Value, Stands;
    var s, t := Scales(p, k);
    ComparesAlike(r.num - r.minus, r.den, Lower(v), x, t, s);
    ComparesAlike(r.num + r.plus, r.den, Upper(v), x, t, s);
  }

  lemma GapIsDistance(num: int, den: int, val: real, x: int, t: int, s: real)
    requires den > 0 && s > 0.0 && Stands(num, den, val, s * t as real)
    ensures Gap(x * den, num * t) as real * s == Far(x as real * s, val) * den as real
  {
    ComparesAlike(num, den, val, x, t, s);
    var a, b, d := (num * t) as real, (x * den) as real, den as real;
    IntProduct(num, t);
    IntProduct(x, den);
    assert a * s == val * d by { RealAssoc(num as real, t as real, s); RealAssoc(s, t as real, 1.0); }
    assert b * s == (x as real * s) * d by { RealAssoc(x as real, d, s); RealAssoc(x as real, s, d); }
    RealSub(a, b, s);
    RealSub(val, x as real * s, d);
  }

  lemma RealSub(x: real, y: real, z: real)
    ensures (x - y) * z == x * z - y * z && (y - x) * z == y * z - x * z
  {
  }

  lemma Closest(r: Ratio, v: Double, p: int, b: int, x: int, k: nat)
    requires Represents(r, v, p) && NoneCloser(r, v.f % 2 == 0, b, k) && RoundsTo(DecimalValue(x, p - k), v)
    ensures Far(DecimalValue(b, p - k), Value(v)) <= Far(DecimalValue(x, p - k), Value(v))
  {
    hide Pow, RPow, RealPow, Lower, Upper, Value, InInterval, RoundsTo, Far, Gap, Stands;
    IntervalIsRounding(r, v, p, x, k);
    var s, t := Scales(p, k);
    var y, z, d := DecimalValue(b, p - k), DecimalValue(x, p - k), r.den as real;
    assert y == b as real * s && z == x as real * s;
    GapIsDistance(r.num, r.den, Value(v), b, t, s);
    GapIsDistance(r.num, r.den, Value(v), x, t, s);
    var g, h := Gap(b * r.den, r.num * t), Gap(x * r.den, r.num * t);
    assert g <= h;
    CompareScaled(g as real, h as real, s);
    assert Far(y, Value(v)) * d <= Far(z, Value(v)) * d;
    CompareScaled(Far(y, Value(v)), Far(z, Value(v)), d);
  }

  /** A decimal number with fewer digits does not round to v. */
  lemma ShorterMisses(r: Ratio, v: Double, p: int, n: nat, d: int, k: int)
    requires Represents(r, v, p) && r.Valid() && InRange(r, v.f % 2 == 0) && NoneShorter(r, v.f % 2 == 0, n)
    requires 1 <= d < Pow(10, n)
    ensures !RoundsTo(DecimalValue(d, k), v)
  {
    var even := v.f % 2 == 0;
    hide RoundsTo, Lower, Upper, Value, NoneShorter, Pow, DecimalValue, InInterval, Represents, InRange;
    assert n >= 1 by { PowStep(10, 0); }
    if k > p {
      var x := d * Pow(10, k - p);
      LowerExponent(d, k, p);
      IntervalIsRounding(r, v, p, x, 0);
      NotInterval(r, even, x, 0, n);
    } else {
      IntervalIsRounding(r, v, p, d, p - k);
      if p - k < n {
        NotInterval(r, even, d, p - k, n);
      } else {
        PowMono(10, n, p - k);
        OneInside(r, even, d, p - k);
        NotInterval(r, even, 1, 0, n);
      }
    }
  }

  /** If a number below one is in the interval, so is one. */
  lemma OneInside(r: Ratio, even: bool, d: int, j: nat)
    requires r.Valid() && InRange(r, even) && d < Pow(10, j)
    ensures InInterval(r, even, d, j) ==> InInterval(r, even, 1, 0)
  {
    PowStep(10, 0);
    PowPositive(10, j);
    var t := Pow(10, j);
    hide Pow;
    MulStrictMono(r.den, d, t);
    if r.num - r.minus >= r.den { MulMono(t, r.den, r.num - r.minus); }
  }

  lemma ShortestStands(r: Ratio, v: Double, p: int, digits: seq<int>)
    requires Represents(r, v, p) && r.Valid() && InRange(r, v.f % 2 == 0) && Shortest(r, v.f % 2 == 0, digits)
    ensures ShortestFor(v, digits, p + 1 - |digits|)
  {
    var even, k := v.f % 2 == 0, |digits| - 1;
    hide Represents, InRange, InInterval, NoneShorter, NoneCloser, RoundsTo, TieToEven, Pow, Far, DecimalValue;
    IntervalIsRounding(r, v, p, Decimal(digits), k);
    forall d: int, e: int | d >= 1 && RoundsTo(DecimalValue(d, e), v) ensures d >= Pow(10, k) {
      if d < Pow(10, k) { ShorterMisses(r, v, p, k, d, e); }
    }
    var exponent := p - k;
    forall x: int | RoundsTo(DecimalValue(x, exponent), v)
      ensures Far(DecimalValue(Decimal(digits), exponent), Value(v)) <= Far(DecimalValue(x, exponent), Value(v))
    {
      Closest(r, v, p, Decimal(digits), x, k);
    }
  }

  // ---- start values ----

  /** Twice as much precision is needed below a power of two, where the lower neighbour is closer. */
  function Precision(v: Double): nat { if v.LowerBoundaryIsCloser() then 2 else 1 }

  /** unit is half a place of v (a quarter if the lower boundary is closer), over the common denominator. */
  ghost predicate Shape(r: Ratio, v: Double, unit: int)
  {
    && unit >= 1 && r.num == 2 * Precision(v) * v.f * unit && r.minus == unit && r.plus == Precision(v) * unit
  }

  /** unit / den is 2^e / 10^p. */
  ghost predicate UnitScale(unit: int, den: int, e: int, p: int)
  {
    unit >= 1 && den >= 1 && unit as real * RPow(10, p) == den as real * RPow(2, e)
  }

  lemma QuarterScale(e: int)
    ensures RPow(2, e) == RPow(2, e - 2) * 4.0
  {
    RPowAdd(2, e - 2, 2);
    PowStep(2, 0);
    PowStep(2, 1);
  }

  lemma PartStands(q: int, unit: int, den: int, c: int, quarters: int, e: int, p: int)
    requires UnitScale(unit, den, e, p) && 4 * q == 2 * c * quarters
    ensures Stands(q * unit, 2 * c * den, quarters as real * RPow(2, e - 2), RPow(10, p))
  {
    hide RPow, RealPow, Pow;
    QuarterScale(e);
    var s, t := RPow(2, e - 2), RPow(10, p);
    IntProduct(q, unit);
    IntProduct(2 * c, den);
    var u, d := unit as real, den as real;
    assert u * t == d * (s * 4.0);
    IntProduct(4, q);
    IntProduct(2 * c, quarters);
    PartProduct(q as real, u, t, d, s, (2 * c) as real, quarters as real);
  }

  lemma PartProduct(q: real, u: real, t: real, d: real, s: real, c: real, quarters: real)
    requires u * t == d * (s * 4.0) && 4.0 * q == c * quarters
    ensures (q * u) * t == (quarters * s) * (c * d)
  {
    RealAssoc(q, u, t);
    assert (q * u) * t == q * (d * (s * 4.0));
    assert q * (d * (s * 4.0)) == (4.0 * q) * (d * s);
    assert (4.0 * q) * (d * s) == (quarters * s) * (c * d);
  }

  /** The start values represent v and its boundaries. */
  lemma StartRepresents(v: Double, unit: int, den: int, p: int)
    requires v.Valid() && UnitScale(unit, den, v.e, p)
    ensures var c := Precision(v);
      var r := Ratio(2 * c * v.f * unit, 2 * c * den, unit, c * unit);
      Represents(r, v, p) && r.Valid() && Shape(r, v, unit)
  {
    var c := Precision(v);
    var f := v.f;
    hide RPow, UnitScale;
    PartStands(2 * c * f - 1, unit, den, c, LowerQuarters(v), v.e, p);
    PartStands(2 * c * f, unit, den, c, 4 * f, v.e, p);
    PartStands(2 * c * f + c, unit, den, c, UpperQuarters(v), v.e, p);
    Dist(2 * c * f, 1, unit);
    Dist(2 * c * f, c, unit);
    ValueInQuarters(v);
    UnitPositive(unit, den, v.e, p);
    MulStrictMono(unit, 1, 2 * c * f);
  }

  lemma UnitPositive(unit: int, den: int, e: int, p: int)
    requires UnitScale(unit, den, e, p)
    ensures unit >= 1 && den >= 1
  {
  }

  lemma ValueInQuarters(v: Double)
    ensures Value(v) == (4 * v.f) as real * RPow(2, v.e - 2)
  {
    hide RPow, RealPow, Pow;
    QuarterScale(v.e);
    IntProduct(4, v.f);
    RealAssoc(v.f as real, RPow(2, v.e - 2), 4.0);
  }

  lemma PositiveExponent(e: nat, p: nat)
    ensures UnitScale(Pow(2, e), Pow(10, p), e, p)
  {
    PowPositive(2, e);
    PowPositive(10, p);
  }

  lemma NegativeExponentPositivePower(e: int, p: nat)
    requires e < 0
    ensures UnitScale(1, Pow(10, p) * Pow(2, -e), e, p)
  {
    PowPositive(2, -e);
    PowPositive(10, p);
    var x, y := Pow(10, p), Pow(2, -e);
    MulMono(x, 1, y);
    IntProduct(x, y);
    assert RealPow(2, -e) == y as real && RealPow(10, p) == x as real;
    hide Pow;
    Inverse(y as real);
    RealAssoc(x as real, y as real, 1.0 / y as real);
  }

  lemma NegativeExponentNegativePower(e: int, p: int)
    requires e < 0 && p < 0
    ensures UnitScale(Pow(10, -p), Pow(2, -e), e, p)
  {
    PowPositive(2, -e);
    PowPositive(10, -p);
    assert RealPow(2, -e) == Pow(2, -e) as real && RealPow(10, -p) == Pow(10, -p) as real;
    Inverse(Pow(2, -e) as real);
    Inverse(Pow(10, -p) as real);
  }

  /** Before the lower boundary is looked at: num / den is twice f * unit over twice base. */
  ghost predicate StartValues(r: Ratio, f: int, unit: int, base: int)
  {
    r.num == 2 * (f * unit) && r.den == 2 * base && r.minus == unit && r.plus == unit
  }

  lemma Doubling()
    ensures Pow(2, 0) == 1 && Pow(2, 1) == 2
  {
    PowStep(2, 0);
  }

  // ---- room for the start values ----

  lemma RoomyProduct(V: int, W: int, m: nat, n: nat)
    requires 0 <= V < Pow(BASE, m) && 0 <= W < Pow(BASE, n) && m + n + 2 <= CAPACITY
    ensures Roomy(V * W) && 0 <= V * W < Pow(BASE, m + n)
  {
    hide Pow;
    PowAdd(BASE, m, n);
    MulMono(W, V, Pow(BASE, m));
    MulStrictMono(Pow(BASE, m), W, Pow(BASE, n));
    MulMono(W, 0, V);
  }

  lemma PowersFit(n: nat, p: nat)
    requires n <= 1119 && p <= 330
    ensures Pow(2, n) < Pow(BASE, 40) && Pow(10, p) < Pow(BASE, 40)
  {
    hide Pow;
    BaseIsPower();
    PowPow(2, BIGIT_SIZE, 40);
    PowStrictMono(2, n, 1120);
    ThreeDigits(110);
    PowMono(10, p, 330);
    PowStrictMono(2, 1100, 1120);
  }

  /** Whatever the start values are made of, there is room. */
  lemma StartFits(f: int, unit: int, x: int, y: int)
    requires 0 <= f < 2 * HIDDEN_BIT && 1 <= unit < Pow(BASE, 40) && 1 <= x < Pow(BASE, 40) && 1 <= y < Pow(BASE, 40)
    ensures Roomy(unit) && Roomy(f) && Roomy(f * unit) && Roomy(2 * (f * unit))
    ensures Roomy(x) && Roomy(y) && Roomy(x * y) && Roomy(40 * (x * y))
  {
    hide Pow;
    PowStep(BASE, 0);
    PowStep(BASE, 1);
    RoomyProduct(f, unit, 2, 40);
    RoomyProduct(2, f * unit, 1, 42);
    RoomyProduct(x, y, 40, 40);
    RoomyProduct(40, x * y, 1, 80);
    assert 1 + 2 <= CAPACITY && f < Pow(BASE, 2);
  }

  method Shift(x: Bignum, amount: nat)
    requires x.Valid() && Roomy(x.Value())
    modifies x, x.bigits
    ensures x.Valid() && x.Value() == old(x.Value()) * Pow(2, amount)
  {
    hide Pow, Val, IsDigits;
    RoomyLength(x);
    x.ShiftLeft(amount);
  }

  /** The value shifted left. */
  method AssignShifted(x: Bignum, value: uint64, amount: nat)
    requires x.Valid()
    modifies x, x.bigits
    ensures x.Valid() && x.Value() == value * Pow(2, amount)
  {
    hide Pow, Val, IsDigits;
    x.AssignUInt64(value);
    WordIsShort(x);
    x.ShiftLeft(amount);
  }

  method Copy(x: Bignum, other: Bignum)
    requires x.Valid() && other.Valid() && Apart(x, other)
    modifies x, x.bigits
    ensures x.Valid() && x.Value() == other.Value()
  {
    x.AssignBignum(other);
  }

  /** Multiplies by a word. */
  method Multiply(x: Bignum, factor: uint64)
    requires x.Valid() && Roomy(factor * x.Value())
    modifies x, x.bigits
    ensures x.Valid() && x.Value() == old(x.Value()) * factor
  {
    hide Pow, Val, IsDigits;
    ProductFits(x, factor);
    x.MultiplyByUInt64(factor);
  }

  method AssignPowerOfTen(x: Bignum, power: nat)
    requires x.Valid() && power <= 330
    modifies x, x.bigits
    ensures x.Valid() && x.Value() == Pow(10, power)
  {
    hide Pow, Val, IsDigits;
    TenIsTwiceFive();
    x.AssignPowerUInt16(10, power);
  }

  /** The odd part of ten has three bits. */
  lemma TenIsTwiceFive()
    ensures OddPart(10) == 5 && BitSize(5) == 3
  {
    assert OddPart(5) == 5;
    assert BitSize(1) == 1 && BitSize(2) == 2;
  }

  method PositiveExponentValues(v: Double, power: nat, numerator: Bignum, denominator: Bignum, deltaMinus: Bignum,
                                deltaPlus: Bignum, needDeltas: bool)
    returns (ghost unit: int, ghost base: int)
    requires v.Valid() && v.e >= 0 && power <= 330 && Ready(numerator, denominator, deltaMinus, deltaPlus)
    modifies numerator, numerator.bigits, denominator, denominator.bigits
    modifies deltaMinus, deltaMinus.bigits, deltaPlus, deltaPlus.bigits
    ensures Ready(numerator, denominator, deltaMinus, deltaPlus) && UnitScale(unit, base, v.e, power)
    ensures var r := RatioOf(numerator, denominator, deltaMinus, deltaPlus);
      if needDeltas then StartValues(r, v.f, unit, base)
      else r == Ratio(v.f * unit, base, old(deltaMinus.Value()), old(deltaPlus.Value()))
    ensures Roomy(2 * (v.f * unit)) && Roomy(40 * base) && Roomy(unit)
  {
    hide Pow, RPow, Roomy, Bignum.Shaped, Bignum.Value;
    Doubling();
    PositiveExponent(v.e, power);
    unit, base := Pow(2, v.e), Pow(10, power);
    PowersFit(v.e, power);
    PowStep(BASE, 39);
    StartFits(v.f, unit, base, 1);
    AssignShifted(numerator, v.f, v.e);
    AssignPowerOfTen(denominator, power);
    if needDeltas {
      Shift(denominator, 1);
      Shift(numerator, 1);
      AssignShifted(deltaPlus, 1, v.e);
      AssignShifted(deltaMinus, 1, v.e);
    }
  }

  method NegativeExponentPositivePowerValues(v: Double, power: nat, numerator: Bignum, denominator: Bignum,
                                             deltaMinus: Bignum, deltaPlus: Bignum, needDeltas: bool)
    returns (ghost unit: int, ghost base: int)
    requires v.Valid() && v.e < 0 && power <= 330 && Ready(numerator, denominator, deltaMinus, deltaPlus)
    modifies numerator, numerator.bigits, denominator, denominator.bigits
    modifies deltaMinus, deltaMinus.bigits, deltaPlus, deltaPlus.bigits
    ensures Ready(numerator, denominator, deltaMinus, deltaPlus) && UnitScale(unit, base, v.e, power)
    ensures var r := RatioOf(numerator, denominator, deltaMinus, deltaPlus);
      if needDeltas then StartValues(r, v.f, unit, base)
      else r == Ratio(v.f * unit, base, old(deltaMinus.Value()), old(deltaPlus.Value()))
    ensures Roomy(2 * (v.f * unit)) && Roomy(40 * base) && Roomy(unit)
  {
    hide Pow, RPow, Roomy, Bignum.Shaped, Bignum.Value;
    Doubling();
    NegativeExponentPositivePower(v.e, power);
    unit, base := 1, Pow(10, power) * Pow(2, -v.e);
    PowersFit(-v.e, power);
    PowPositive(10, power);
    PowPositive(2, -v.e);
    StartFits(v.f, 1, Pow(10, power), Pow(2, -v.e));
    AssignShifted(numerator, v.f, 0);
    assert numerator.Value() == v.f;
    AssignPowerOfTen(denominator, power);
    Shift(denominator, -v.e);
    RoomyLess(base, 40 * base);
    if needDeltas {
      Shift(denominator, 1);
      Shift(numerator, 1);
      AssignShifted(deltaPlus, 1, 0);
      AssignShifted(deltaMinus, 1, 0);
    }
  }

  method NegativeExponentNegativePowerValues(v: Double, power: int, numerator: Bignum, denominator: Bignum,
                                             deltaMinus: Bignum, deltaPlus: Bignum, needDeltas: bool)
    returns (ghost unit: int, ghost base: int)
    requires v.Valid() && v.e < 0 && -330 <= power < 0 && Ready(numerator, denominator, deltaMinus, deltaPlus)
    modifies numerator, numerator.bigits, denominator, denominator.bigits
    modifies deltaMinus, deltaMinus.bigits, deltaPlus, deltaPlus.bigits
    ensures Ready(numerator, denominator, deltaMinus, deltaPlus) && UnitScale(unit, base, v.e, power)
    ensures var r := RatioOf(numerator, denominator, deltaMinus, deltaPlus);
      if needDeltas then StartValues(r, v.f, unit, base)
      else r == Ratio(v.f * unit, base, old(deltaMinus.Value()), old(deltaPlus.Value()))
    ensures Roomy(2 * (v.f * unit)) && Roomy(40 * base) && Roomy(unit)
  {
    hide Pow, RPow, Roomy, Bignum.Shaped, Bignum.Value, IsDigits, Bignum.Valid;
    Doubling();
    NegativeExponentNegativePower(v.e, power);
    unit, base := Pow(10, -power), Pow(2, -v.e);
    PowersFit(-v.e, -power);
    PowPositive(10, -power);
    PowPositive(2, -v.e);
    StartFits(v.f, unit, base, 1);
    AssignPowerOfTen(numerator, -power);
    if needDeltas {
      Copy(deltaPlus, numerator);
      Copy(deltaMinus, numerator);
    }
    Multiply(numerator, v.f);
    AssignShifted(denominator, 1, -v.e);
    if needDeltas {
      Shift(numerator, 1);
      Shift(denominator, 1);
    }
  }

  lemma ProductFits(x: Bignum, f: int)
    requires x.Valid() && 0 <= f && Roomy(f * x.Value())
    ensures x.Mantissa() * f < Pow(BASE, x.bigits.Length)
  {
    hide Pow;
    var n: nat :| n + 2 <= CAPACITY && f * x.Value() < Pow(BASE, n);
    MantissaBelow(x);
    MulMono(f, x.Mantissa(), x.Value());
    PowMono(BASE, n, x.bigits.Length);
  }

  /** One of three ways to avoid fractions. */
  method StartValuesFor(v: Double, power: int, numerator: Bignum, denominator: Bignum, deltaMinus: Bignum,
                        deltaPlus: Bignum, needDeltas: bool)
    returns (ghost unit: int, ghost base: int)
    requires v.Valid() && Ready(numerator, denominator, deltaMinus, deltaPlus) && (v.e >= 0 ==> power >= 0)
    requires -330 <= power <= 330
    modifies numerator, numerator.bigits, denominator, denominator.bigits
    modifies deltaMinus, deltaMinus.bigits, deltaPlus, deltaPlus.bigits
    ensures Ready(numerator, denominator, deltaMinus, deltaPlus) && UnitScale(unit, base, v.e, power)
    ensures var r := RatioOf(numerator, denominator, deltaMinus, deltaPlus);
      if needDeltas then StartValues(r, v.f, unit, base)
      else r == Ratio(v.f * unit, base, old(deltaMinus.Value()), old(deltaPlus.Value()))
    ensures Roomy(2 * (v.f * unit)) && Roomy(40 * base) && Roomy(unit)
  {
    hide RPow, Pow, UnitScale, StartValues, RatioOf, Ready, Roomy;
    if v.e >= 0 {
      unit, base := PositiveExponentValues(v, power, numerator, denominator, deltaMinus, deltaPlus,
                                           needDeltas);
    } else if power >= 0 {
      unit, base := NegativeExponentPositivePowerValues(v, power, numerator, denominator, deltaMinus, deltaPlus,
                                                        needDeltas);
    } else {
      unit, base := NegativeExponentNegativePowerValues(v, power, numerator, denominator, deltaMinus, deltaPlus,
                                                        needDeltas);
    }
  }

  /** If the lower boundary is closer, all but its distance are doubled. */
  method AdjustForBoundary(v: Double, numerator: Bignum, denominator: Bignum, deltaMinus: Bignum, deltaPlus: Bignum)
    requires Ready(numerator, denominator, deltaMinus, deltaPlus)
    requires Roomy(numerator.Value()) && Roomy(denominator.Value()) && Roomy(deltaPlus.Value())
    modifies numerator, numerator.bigits, denominator, denominator.bigits, deltaPlus, deltaPlus.bigits
    ensures Ready(numerator, denominator, deltaMinus, deltaPlus)
    ensures var r, c := old(RatioOf(numerator, denominator, deltaMinus, deltaPlus)), Precision(v);
      RatioOf(numerator, denominator, deltaMinus, deltaPlus) == Ratio(c * r.num, c * r.den, r.minus, c * r.plus)
  {
    hide Pow, Roomy, Bignum.Shaped, Bignum.Value;
    Doubling();
    if v.LowerBoundaryIsCloser() {
      Shift(denominator, 1);
      Shift(numerator, 1);
      Shift(deltaPlus, 1);
    }
  }

  /** num / den is v / 10^p, and no boundaries are needed. */
  ghost predicate Plain(r: Ratio, v: Double, p: int)
  {
    r.den > 0 && r.num > 0 && r.minus == r.plus == 0 && Stands(r.num, r.den, Value(v), RPow(10, p))
  }

  /** num / den is v / 10^p; if they are needed, its boundaries are represented too. */
  ghost predicate Scaled(r: Ratio, v: Double, p: int, unit: int, needDeltas: bool)
  {
    if needDeltas then Represents(r, v, p) && r.Valid() && Shape(r, v, unit) else Plain(r, v, p)
  }

  /** v / 10^power as a ratio, and the distances to its boundaries over the same denominator if they are needed. */
  method InitialScaledStartValues(v: Double, power: int, numerator: Bignum, denominator: Bignum, deltaMinus: Bignum,
                                  deltaPlus: Bignum, needDeltas: bool)
    returns (ghost unit: int)
    requires v.Valid() && Ready(numerator, denominator, deltaMinus, deltaPlus) && (v.e >= 0 ==> power >= 0)
    requires -330 <= power <= 330 && deltaMinus.Value() == deltaPlus.Value() == 0
    modifies numerator, numerator.bigits, denominator, denominator.bigits
    modifies deltaMinus, deltaMinus.bigits, deltaPlus, deltaPlus.bigits
    ensures Ready(numerator, denominator, deltaMinus, deltaPlus) && Roomy(10 * denominator.Value())
    ensures Scaled(RatioOf(numerator, denominator, deltaMinus, deltaPlus), v, power, unit, needDeltas)
  {
    hide RPow, Pow, UnitScale, Roomy, Represents, Shape, Plain, Bignum.Shaped, Bignum.Value;
    ghost var base;
    unit, base := StartValuesFor(v, power, numerator, denominator, deltaMinus, deltaPlus, needDeltas);
    UnitPositive(unit, base, v.e, power);
    if needDeltas {
      RoomyLess(2 * base, 40 * base);
      AdjustForBoundary(v, numerator, denominator, deltaMinus, deltaPlus);
      StartRatio(v, unit, base, power, RatioOf(numerator, denominator, deltaMinus, deltaPlus));
    } else {
      PlainRatio(v, unit, base, power);
      RoomyLess(10 * base, 40 * base);
    }
  }

  lemma PlainRatio(v: Double, unit: int, base: int, power: int)
    requires v.Valid() && UnitScale(unit, base, v.e, power)
    ensures Plain(Ratio(v.f * unit, base, 0, 0), v, power)
  {
    hide RPow;
    MulStrictMono(unit, 0, v.f);
    IntProduct(v.f, unit);
    var u, t, x := unit as real, RPow(10, power), RPow(2, v.e);
    RealAssoc(v.f as real, u, t);
    RealAssoc(v.f as real, base as real, x);
    RealAssoc(v.f as real, x, base as real);
    assert (v.f as real * u) * t == v.f as real * (base as real * x);
  }

  lemma StartRatio(v: Double, unit: int, base: int, power: int, r: Ratio)
    requires v.Valid() && UnitScale(unit, base, v.e, power) && base >= 1 && Roomy(40 * base)
    requires var c := Precision(v); r == Ratio(c * (2 * (v.f * unit)), c * (2 * base), unit, c * unit)
    ensures Represents(r, v, power) && r.Valid() && Shape(r, v, unit) && Roomy(10 * r.den)
  {
    hide RPow, Pow, UnitScale, Roomy, Represents, Shape;
    StartRepresents(v, unit, base, power);
    ghost var c := Precision(v);
    MulAssoc(2 * c, v.f, unit);
    assert r == Ratio(2 * c * v.f * unit, 2 * c * base, unit, c * unit);
    RoomyLess(10 * r.den, 40 * base);
  }

  // ---- the power of ten ----

  /** What the estimate promises: it is at most one too low, even for the upper boundary. */
  ghost predicate GoodEstimate(v: Double, power: int)
  {
    RPow(10, power - 1) <= Value(v) && Upper(v) < RPow(10, power + 1)
  }

  lemma EstimateBounds(r: Ratio, v: Double, power: int)
    requires Represents(r, v, power) && GoodEstimate(v, power) && 0 < r.plus
    ensures r.num + r.plus < 10 * r.den && r.den < 10 * (r.num + r.plus)
  {
    hide RPow, Pow, RealPow, Value, Upper, Lower;
    PowStep(10, 0);
    var s, t := Scales(power, 1);
    ComparesAlike(r.num, r.den, Value(v), 1, t, s);
    RPowAdd(10, power, 1);
    TenOnce();
    RPowPositive(10, power);
    ComparesAlike(r.num + r.plus, r.den, Upper(v), 10, 1, RPow(10, power));
  }

  lemma TimesTen(r: Ratio, v: Double, p: int, unit: int)
    requires Represents(r, v, p) && r.Valid() && Shape(r, v, unit)
    ensures var r' := Ratio(10 * r.num, r.den, 10 * r.minus, 10 * r.plus);
      Represents(r', v, p - 1) && r'.Valid() && Shape(r', v, 10 * unit)
  {
    PowStep(10, 0);
    var s, t := Scales(p, 1);
    hide RPow, RealPow, Pow, Value, Upper, Lower;
    StandsTen(r.num - r.minus, r.den, Lower(v), s);
    StandsTen(r.num, r.den, Value(v), s);
    StandsTen(r.num + r.plus, r.den, Upper(v), s);
    var c := 2 * Precision(v) * v.f;
    MulAssoc(c, 10, unit);
    MulAssoc(10, c, unit);
    MulAssoc(c, unit, 10);
  }

  lemma StandsTen(num: int, den: int, x: real, s: real)
    requires Stands(num, den, x, s * 10.0)
    ensures Stands(10 * num, den, x, s)
  {
    IntProduct(10, num);
    RealAssoc(num as real, s, 10.0);
  }

  /** Without deltas the number itself is at least one and below ten. */
  ghost predicate OneDigitBefore(r: Ratio) { r.den <= r.num < 10 * r.den }

  lemma PlainBounds(r: Ratio, v: Double, power: int)
    requires v.Valid() && Plain(r, v, power) && GoodEstimate(v, power)
    ensures r.num < 10 * r.den && r.den <= 10 * r.num && (r.num == r.den ==> v.f % 2 == 0)
  {
    hide RPow, Pow, RealPow, Value, Upper, Lower;
    PowStep(10, 0);
    var s, t := Scales(power, 1);
    ComparesAlike(r.num, r.den, Value(v), 1, t, s);
    RPowAdd(10, power, 1);
    TenOnce();
    RPowPositive(10, power);
    DecimalReading.ValueBelowUpper(v);
    ComparesAlike(r.num, r.den, Value(v), 10, 1, RPow(10, power));
    ComparesAlike(r.num, r.den, Value(v), 1, 1, RPow(10, power));
    if r.num == r.den { PowerOfTenEven(v, power); }
  }

  lemma PlainTen(r: Ratio, v: Double, p: int)
    requires Plain(r, v, p)
    ensures Plain(Ratio(10 * r.num, r.den, 0, 0), v, p - 1)
  {
    PowStep(10, 0);
    var s, t := Scales(p, 1);
    hide RPow, RealPow, Pow, Value;
    StandsTen(r.num, r.den, Value(v), s);
  }

  // ---- no double with an odd significand is a power of ten ----

  lemma {:induction false} NotByFive(n: nat)
    ensures Pow(2, n) % 5 != 0
  {
    if n > 0 { NotByFive(n - 1); }
  }

  lemma {:induction false} OddPower(n: nat)
    ensures Pow(5, n) % 2 == 1
  {
    if n > 0 { OddPower(n - 1); }
  }

  /** Between 2^52 and 2^53 there is no power of five. */
  lemma NoPowerOfFive(n: nat)
    ensures !(HIDDEN_BIT <= Pow(5, n) < 2 * HIDDEN_BIT)
  {
    PowAdd(5, 11, 11);
    PowStep(5, 0); PowStep(5, 1); PowStep(5, 2); PowStep(5, 3); PowStep(5, 4); PowStep(5, 5);
    PowStep(5, 6); PowStep(5, 7); PowStep(5, 8); PowStep(5, 9); PowStep(5, 10);
    PowStep(5, 22);
    hide Pow;
    if n <= 22 { PowMono(5, n, 22); } else { PowMono(5, 23, n); }
  }

  lemma EvenFactor(x: int, n: nat)
    requires n >= 1
    ensures x * Pow(2, n) % 2 == 0
  {
    PowStep(2, n - 1);
    EvenProduct(x, Pow(2, n - 1));
  }

  lemma EvenProduct(x: int, y: int)
    ensures x * (2 * y) % 2 == 0
  {
    assert x * (2 * y) == 2 * (x * y);
  }

  /** f * 2^a = 10^b with an odd f. */
  lemma OddTimesPower(f: int, a: nat, b: nat)
    requires f % 2 == 1 && f >= 1 && f * Pow(2, a) == Pow(10, b)
    ensures f == Pow(5, b)
  {
    hide Pow;
    PowMulBase(2, 5, b);
    OddPower(b);
    PowPositive(2, a);
    PowPositive(2, b);
    var five := Pow(5, b);
    if a < b {
      PowAdd(2, b - a, a);
      EvenFactor(five, b - a);
      CancelPart(five, f, Pow(2, b - a), Pow(2, a));
    } else {
      PowAdd(2, a - b, b);
      CancelPart(f, five, Pow(2, a - b), Pow(2, b));
      if a > b { EvenFactor(f, a - b); } else { PowStep(2, 0); }
    }
  }

  lemma CancelPart(x: int, y: int, b: int, c: int)
    requires c >= 1 && x * (b * c) == y * c
    ensures x * b == y
  {
    MulAssoc(x, b, c);
    Cancel(x * b, y, c);
  }

  lemma Cancel(x: int, y: int, c: int)
    requires c >= 1 && x * c == y * c
    ensures x == y
  {
    if x < y { MulStrictMono(c, x, y); }
    if y < x { MulStrictMono(c, y, x); }
  }

  lemma PowerOfTenEven(v: Double, p: int)
    requires v.Valid() && Value(v) == RPow(10, p)
    ensures v.f % 2 == 0
  {
    hide Pow, RPow;
    PowStep(2, 0);
    PowStep(10, 0);
    if v.f % 2 == 1 {
      if p >= 0 {
        if v.e >= 0 {
          Crossed(v, v.e, 0, p, 0);
          OddTimesPower(v.f, v.e, p);
          NoPowerOfFive(p);
        } else {
          Crossed(v, 0, -v.e, p, 0);
          EvenFactor(Pow(10, p), -v.e);
        }
      } else {
        var a, b := if v.e >= 0 then v.e else 0, if v.e >= 0 then 0 else -v.e;
        Crossed(v, a, b, 0, -p);
        PowStep(10, -p - 1);
        FiveDivides(v.f * Pow(2, a), Pow(10, -p - 1));
        NotByFive(b);
      }
    }
  }

  lemma FiveDivides(x: int, y: int)
    ensures x * (10 * y) % 5 == 0
  {
    assert x * (10 * y) == 5 * (2 * (x * y));
  }

  /** v is 10^p, without fractions. */
  lemma Crossed(v: Double, a: nat, b: nat, c: nat, d: nat)
    requires v.e == a - b && Value(v) == RPow(10, c - d)
    ensures v.f * Pow(2, a) * Pow(10, d) == Pow(10, c) * Pow(2, b)
  {
    hide *;
    SplitPower(2, a, b);
    SplitPower(10, c, d);
    ValueIsProduct(v);
    CrossProduct(v.f, RPow(2, v.e), RPow(10, c - d), Pow(2, a), Pow(2, b), Pow(10, c), Pow(10, d));
  }

  lemma ValueIsProduct(v: Double)
    ensures Value(v) == v.f as real * RPow(2, v.e)
  {
  }

  lemma CrossProduct(f: int, u: real, w: real, a: int, b: int, c: int, d: int)
    requires f as real * u == w && u * b as real == a as real && w * d as real == c as real
    ensures f * a * d == c * b
  {
    IntProduct(f, a);
    IntProduct(f * a, d);
    IntProduct(c, b);
    RealAssoc(f as real, u, b as real);
    RealAssoc(f as real * u, b as real, d as real);
    RealAssoc(w, d as real, b as real);
  }

  lemma SplitPower(n: nat, a: nat, b: nat)
    requires n >= 1
    ensures RPow(n, a - b) * Pow(n, b) as real == Pow(n, a) as real
  {
    hide RPow, Pow;
    RPowAdd(n, a - b, b);
    RealPowIs(n, a);
  }

  /** Brings the ratio into the range from one to ten, if the estimate was not too low already. */
  method FixupMultiply10(v: Double, power: int, even: bool, numerator: Bignum, denominator: Bignum, deltaMinus: Bignum,
                         deltaPlus: Bignum, ghost unit: int, ghost needDeltas: bool)
    returns (decimalPoint: int, ghost unit': int)
    requires v.Valid() && Ready(numerator, denominator, deltaMinus, deltaPlus) && Roomy(10 * denominator.Value())
    requires GoodEstimate(v, power) && even == (v.f % 2 == 0)
    requires Scaled(RatioOf(numerator, denominator, deltaMinus, deltaPlus), v, power, unit, needDeltas)
    modifies numerator, numerator.bigits, deltaMinus, deltaMinus.bigits, deltaPlus, deltaPlus.bigits
    ensures Ready(numerator, denominator, deltaMinus, deltaPlus) && power <= decimalPoint <= power + 1
    ensures var r := RatioOf(numerator, denominator, deltaMinus, deltaPlus);
      && Scaled(r, v, decimalPoint - 1, unit', needDeltas)
      && if needDeltas then InRange(r, even) else OneDigitBefore(r)
  {
    hide RPow, Represents, GoodEstimate, Shape, Roomy, Plain, Bignum.Shaped, Bignum.Value, Bignum.Valid;
    ghost var r := RatioOf(numerator, denominator, deltaMinus, deltaPlus);
    RatioBounds(r, v, power, unit, needDeltas);
    var compare := PlusCompare(numerator, deltaPlus, denominator);
    var inRange := if even then compare >= 0 else compare > 0;
    if inRange {
      decimalPoint, unit' := power + 1, unit;
    } else {
      decimalPoint, unit' := power, 10 * unit;
      if needDeltas { TimesTen(r, v, power, unit); } else { PlainTen(r, v, power); }
      RoomyLess(r.num, 10 * r.den);
      RoomyLess(r.minus, 10 * r.den);
      RoomyLess(r.plus, 10 * r.den);
      MultiplyByTen(numerator);
      var same := Compare(deltaMinus, deltaPlus);
      if same == 0 {
        MultiplyByTen(deltaMinus);
        Copy(deltaPlus, deltaMinus);
      } else {
        MultiplyByTen(deltaMinus);
        MultiplyByTen(deltaPlus);
      }
    }
  }

  lemma RatioBounds(r: Ratio, v: Double, power: int, unit: int, needDeltas: bool)
    requires v.Valid() && Scaled(r, v, power, unit, needDeltas) && GoodEstimate(v, power)
    ensures r.num + r.plus < 10 * r.den && r.den <= 10 * (r.num + r.plus)
    ensures 0 < r.num && 0 <= r.plus && 0 <= r.minus <= r.num && 0 < r.den
    ensures needDeltas ==> r.den < 10 * (r.num + r.plus)
    ensures !needDeltas ==> r.minus == r.plus == 0 && (r.num == r.den ==> v.f % 2 == 0)
  {
    hide GoodEstimate, Shape, RPow, Represents;
    if needDeltas { EstimateBounds(r, v, power); DenominatorPositive(r, v, power); } else { PlainBounds(r, v, power); }
  }

  lemma DenominatorPositive(r: Ratio, v: Double, p: int)
    requires Represents(r, v, p)
    ensures r.den > 0
  {
  }

  /** Seventeen digits are enough for a double. */
  lemma SeventeenDigits(r: Ratio, v: Double, unit: int)
    requires v.Valid() && Shape(r, v, unit) && InRange(r, v.f % 2 == 0)
    ensures (r.minus + r.plus) * Pow(10, 16) > r.den
  {
    PowAdd(10, 8, 8);
    PowStep(10, 0); PowStep(10, 1); PowStep(10, 2); PowStep(10, 3);
    PowStep(10, 4); PowStep(10, 5); PowStep(10, 6); PowStep(10, 7);
    hide Pow;
    var c := Precision(v);
    Dist(2 * c * v.f, c, unit);
    Dist(1, c, unit);
    MulStrictMono(unit, 2 * c * v.f + c, (1 + c) * 10000000000000000);
    MulAssoc(1 + c, 10000000000000000, unit);
  }

  lemma AtLeastOne(v: Double)
    requires v.Valid() && v.e >= 0
    ensures 1.0 <= Value(v)
  {
    PowPositive(2, v.e);
    MulMono(v.f, 1, Pow(2, v.e));
    IntProduct(v.f, Pow(2, v.e));
    hide Pow;
    assert RPow(2, v.e) == Pow(2, v.e) as real;
    assert Value(v) == (v.f * Pow(2, v.e)) as real;
  }

  /** A positive exponent means a number of at least one. */
  lemma PowerNotNegative(v: Double, power: int)
    requires v.Valid() && v.e >= 0 && GoodEstimate(v, power)
    ensures power >= 0
  {
    hide RPow, Value, Upper;
    AtLeastOne(v);
    DecimalReading.ValueBelowUpper(v);
    if power < 0 {
      AtMostOne(power + 1);
    }
  }

  lemma AtMostOne(e: int)
    requires e <= 0
    ensures RPow(10, e) <= 1.0
  {
    PowPositive(10, -e);
    if e < 0 {
      Inverse(RealPow(10, -e));
      CompareScaled(1.0 / RealPow(10, -e), 1.0, RealPow(10, -e));
    } else {
      PowStep(10, 0);
    }
  }

  /** The estimate for a double is a small number. */
  lemma EstimateRange(v: Double, power: int)
    requires v.Valid() && GoodEstimate(v, power)
    ensures -330 <= power <= 330
  {
    hide RPow, Value, Upper;
    DoubleRange(v);
    if power > 330 { RPowGrows(10, 330, power - 1); }
    if power < -330 { RPowGrows(10, power + 1, -329); }
  }

  lemma RPowGrows(b: nat, x: int, y: int)
    requires b >= 1 && x <= y
    ensures RPow(b, x) <= RPow(b, y)
  {
    hide RPow;
    RPowAdd(b, x, y - x);
    RPowPositive(b, x);
    PowPositive(b, y - x);
    CompareScaled(1.0, Pow(b, y - x) as real, RPow(b, x));
  }

  /** Doubles in powers of ten. */
  lemma DoubleRange(v: Double)
    requires v.Valid()
    ensures Value(v) < RPow(10, 330) && RPow(10, -329) <= Upper(v)
  {
    DecimalReading.RangeLimits();
    PowStep(2, 1075);
    PowStep(10, 324);
    LargestValue(v);
    SmallestUpper(v);
  }

  lemma LargestValue(v: Double)
    requires v.Valid() && Pow(2, 1024) < Pow(10, 309)
    ensures Value(v) < RPow(10, 330)
  {
    hide Pow, RPow;
    TwoTo52();
    PowPositive(2, 971);
    PowAdd(2, 52, 972);
    PowStep(2, 971);
    MulStrictMono(Pow(2, 971), v.f, 2 * HIDDEN_BIT);
    MulAssoc(HIDDEN_BIT, 2, Pow(2, 971));
    assert v.f * Pow(2, 971) < Pow(2, 1024);
    RealPowIs(2, 971);
    RealPowIs(10, 309);
    IntProduct(v.f, Pow(2, 971));
    RPowGrows(2, v.e, 971);
    TimesMono(v.f as real, RPow(2, v.e), RPow(2, 971));
    RPowGrows(10, 309, 330);
    assert v.f as real * Pow(2, 971) as real < Pow(10, 309) as real;
    assert v.f as real * RPow(2, 971) < RPow(10, 309);
  }

  lemma TimesMono(x: real, y: real, z: real)
    requires x >= 0.0 && y <= z
    ensures x * y <= x * z
  {
  }

  lemma SmallestUpper(v: Double)
    requires v.Valid() && Pow(2, 1076) < Pow(10, 325)
    ensures RPow(10, -329) <= Upper(v)
  {
    hide Pow;
    hide RPow;
    SmallPowers();
    RPowGrows(2, -1076, v.e - 2);
    RPowGrows(10, -329, -325);
    RPowPositive(2, v.e - 2);
    TimesMono(RPow(2, v.e - 2), 1.0, UpperQuarters(v) as real);
    assert Upper(v) == RPow(2, v.e - 2) * UpperQuarters(v) as real;
  }

  lemma SmallPowers()
    requires Pow(2, 1076) < Pow(10, 325)
    ensures RPow(10, -325) <= RPow(2, -1076)
  {
    hide Pow;
    PowPositive(2, 1076);
    Reciprocals(Pow(2, 1076) as real, Pow(10, 325) as real);
    assert RealPow(2, 1076) == Pow(2, 1076) as real && RealPow(10, 325) == Pow(10, 325) as real;
  }

  lemma Reciprocals(x: real, y: real)
    requires 0.0 < x <= y
    ensures 1.0 / y <= 1.0 / x
  {
    CompareScaled(1.0 / y, 1.0 / x, x * y);
    assert (1.0 / x) * (x * y) == y by { RealAssoc(1.0 / x, x, y); Inverse(x); }
    assert (1.0 / y) * (x * y) == x by { RealAssoc(1.0 / y, y, x); Inverse(y); }
  }

  // ---- a given number of digits ----

  /** After k digits with value b: ten times what is left, over the denominator, is n / den. */
  ghost predicate Counting(r: Ratio, b: int, n: int, k: nat)
  {
    r.num * Pow(10, k) == 10 * (b * r.den) + n && 0 <= n < 10 * r.den
  }

  lemma CountedDigit(r: Ratio, b: int, n0: int, digit: int, n: int, k: nat)
    requires Counting(r, b, n0, k) && n0 == digit * r.den + n && 0 <= n < r.den && digit >= 0
    ensures digit <= 9 && r.num * Pow(10, k) == (10 * b + digit) * r.den + n
    ensures Counting(r, 10 * b + digit, 10 * n, k + 1)
  {
    if digit >= 10 { MulMono(r.den, 10, digit); }
    Dist(10 * b, digit, r.den);
    MulAssoc(10, b, r.den);
    PowStep(10, k);
    hide Pow;
    TenTimes(r.num, Pow(10, k));
  }

  /** The next digit and what is left after it. */
  method CountDigit(ghost r: Ratio, ghost digits: seq<int>, numerator: Bignum, denominator: Bignum)
    returns (digit: nat)
    requires numerator.Valid() && denominator.Valid() && Apart(numerator, denominator) && denominator.Value() == r.den
    requires r.den > 0 && Roomy(10 * r.den) && IsDecimal(digits)
    requires Counting(r, Decimal(digits), numerator.Value(), |digits|)
    modifies numerator, numerator.bigits
    ensures numerator.Valid() && 0 <= numerator.Value() < r.den && IsDecimal(digits + [digit])
    ensures r.num * Pow(10, |digits|) == Decimal(digits + [digit]) * r.den + numerator.Value()
    ensures Counting(r, Decimal(digits + [digit]), 10 * numerator.Value(), |digits| + 1)
    ensures digits == [] && r.num >= r.den ==> digit >= 1
  {
    hide Pow, Decimal, Roomy, Bignum.Value;
    ghost var n0 := numerator.Value();
    CountingSmall(r, Decimal(digits), n0, |digits|);
    RoomyLess(n0, 10 * r.den);
    RoomyLess(r.den, 10 * r.den);
    RoomyLength(numerator);
    LengthBounds(denominator);
    digit := numerator.DivideModuloIntBignum(denominator);
    CountedDigit(r, Decimal(digits), n0, digit, numerator.Value(), |digits|);
    DecimalPush(digits, digit);
    FirstCounted(r, digits, n0, digit, numerator.Value());
  }

  lemma CountingSmall(r: Ratio, b: int, n: int, k: nat)
    requires Counting(r, b, n, k)
    ensures 0 <= n < 10 * r.den
  {
  }

  lemma FirstCounted(r: Ratio, digits: seq<int>, n0: int, digit: int, n: int)
    requires Counting(r, Decimal(digits), n0, |digits|) && n0 == digit * r.den + n && 0 <= n < r.den && digit >= 0
    ensures digits == [] && r.num >= r.den ==> digit >= 1
  {
    PowStep(10, 0);
  }

  lemma CountingStart(r: Ratio)
    requires OneDigitBefore(r) && r.den > 0
    ensures Counting(r, Decimal([]), r.num, 0)
  {
    PowStep(10, 0);
  }

  /** So many digits of v / 10^(p - 1), and a remainder that says whether to round up. */
  lemma CountedUnits(r: Ratio, v: Double, p: int, count: int, b: int, n: int)
    requires Plain(r, v, p) && count >= 1 && r.num * Pow(10, count - 1) == b * r.den + n && 0 <= n < r.den
    ensures Units(Value(v), count - 1 - p) == if 2 * n >= r.den then b + 1 else b
  {
    hide Pow, RPow, Value;
    var x, k := Value(v), count - 1;
    RPowMul(10, k - p, p);
    RealPowIs(10, k);
    var s, w := RPow(10, k - p), RPow(10, p);
    RPowPositive(10, p);
    IntProduct(r.num, Pow(10, k));
    CountedProduct(x, s, w, Pow(10, k) as real, r.num as real, r.den as real);
    UnitsAre(x, k - p, b, n, r.den);
  }

  lemma CountedProduct(x: real, s: real, w: real, t: real, num: real, den: real)
    requires num * w == x * den && t == s * w && w > 0.0
    ensures x * s * den == num * t
  {
    RealAssoc(num, s, w);
    RealAssoc(x, s, den);
    RealAssoc(x, den, s);
    RealAssoc(num, w, s);
    assert num * t == (num * w) * s;
  }

  /**
   * Generates the digits from left to right and rounds the last one, halves up. Carrying over nines can move the
   * decimal point.
   */
  method GenerateCountedDigits(count: nat, decimalPointStart: int, numerator: Bignum, denominator: Bignum,
                               buffer: array<int>, ghost r: Ratio, ghost v: Double)
    returns (length: nat, decimalPoint: int)
    requires 1 <= count <= buffer.Length && numerator.Valid() && denominator.Valid() && Apart(numerator, denominator)
    requires buffer !in {numerator.bigits, denominator.bigits} && Roomy(10 * denominator.Value())
    requires Plain(r, v, decimalPointStart - 1) && OneDigitBefore(r)
    requires r.num == numerator.Value() && r.den == denominator.Value()
    modifies numerator, numerator.bigits, buffer
    ensures length == count && IsDecimal(buffer[..length]) && buffer[0] >= 1
    ensures Written(buffer[..length], decimalPoint) == HalfUp(Value(v), count - decimalPointStart)
    ensures decimalPointStart <= decimalPoint <= decimalPointStart + 1
  {
    hide Pow, RPow, Decimal, DecimalValue, Counting, Plain, Roomy, Value, Units, IsDecimal;
    hide Bignum.Shaped, Bignum.Value;
    decimalPoint := decimalPointStart;
    CountingStart(r);
    assert buffer[..0] == [] && IsDecimal([]) by { NoDigits(); }
    var i := 0;
    while i < count - 1
      invariant 0 <= i <= count - 1 && numerator.Valid() && denominator.Valid() && denominator.Value() == r.den
      invariant IsDecimal(buffer[..i]) && Counting(r, Decimal(buffer[..i]), numerator.Value(), i)
      invariant i > 0 ==> buffer[0] >= 1
    {
      ghost var digits := buffer[..i];
      var digit := CountDigit(r, digits, numerator, denominator);
      Emit(buffer, i, digit);
      RoomyLess(numerator.Value(), 10 * r.den);
      MultiplyByTen(numerator);
      assert buffer[..i + 1] == digits + [digit];
      i := i + 1;
    }
    RoundedDigit(count, numerator, denominator, buffer, r, v, decimalPoint - 1);
    var over := Carry(buffer, count);
    length := count;
    if over {
      CarriedPlace(Decimal(buffer[..length]), decimalPoint + 1 - count);
      decimalPoint := decimalPoint + 1;
    }
  }

  /** The last digit, which can be rounded up to ten. */
  method RoundedDigit(count: nat, numerator: Bignum, denominator: Bignum, buffer: array<int>, ghost r: Ratio,
                      ghost v: Double, ghost p: int)
    requires 1 <= count <= buffer.Length && numerator.Valid() && denominator.Valid() && Apart(numerator, denominator)
    requires buffer !in {numerator.bigits, denominator.bigits} && Roomy(10 * denominator.Value())
    requires Plain(r, v, p) && OneDigitBefore(r) && r.den == denominator.Value() && IsDecimal(buffer[..count - 1])
    requires Counting(r, Decimal(buffer[..count - 1]), numerator.Value(), count - 1)
    requires count > 1 ==> buffer[0] >= 1
    modifies numerator, numerator.bigits, buffer
    ensures Tens(buffer[..count], count - 1) && Decimal(buffer[..count]) == Units(Value(v), count - 1 - p)
    ensures buffer[0] >= 1
  {
    hide Pow, RPow, Decimal, Counting, Plain, Roomy, Value, Units, IsDecimal, Bignum.Shaped, Bignum.Value, Tens;
    DenominatorIs(r, v, p);
    ghost var digits := buffer[..count - 1];
    var digit := CountDigit(r, digits, numerator, denominator);
    ghost var written := digits + [digit];
    CountedUnits(r, v, p, count, Decimal(written), numerator.Value());
    var half := PlusCompare(numerator, numerator, denominator);
    if half >= 0 {
      digit := digit + 1;
    }
    Emit(buffer, count - 1, digit);
    LastPlace(written, buffer[..count], digit);
  }

  lemma DenominatorIs(r: Ratio, v: Double, p: int)
    requires Plain(r, v, p)
    ensures r.den > 0
  {
  }

  lemma NoDigits()
    ensures IsDecimal([])
  {
  }

  lemma CarriedPlace(m: int, e: int)
    ensures DecimalValue(10 * m, e - 1) == DecimalValue(m, e)
  {
    Exponents(m, e, 1);
    PowStep(10, 0);
  }

  lemma LastPlace(before: seq<int>, after: seq<int>, digit: int)
    requires |before| == |after| >= 1 && IsDecimal(before) && after == before[..|before| - 1] + [digit]
    requires before[|before| - 1] <= digit <= before[|before| - 1] + 1
    ensures Tens(after, |after| - 1) && Decimal(after) == Decimal(before) + digit - before[|before| - 1]
  {
    var k := |before| - 1;
    DecimalLast(before, before[k] - digit);
    assert after == before[k := digit];
  }

  // ---- a given number of places ----

  /** v is below 10^p, and not below 10^(p - 1). */
  ghost predicate Magnitude(v: Double, p: int) { RPow(10, p - 1) <= Value(v) < RPow(10, p) }

  lemma MagnitudeIs(r: Ratio, v: Double, p: int)
    requires Plain(r, v, p - 1) && OneDigitBefore(r)
    ensures Magnitude(v, p)
  {
    hide RPow, Pow, RealPow, Value;
    PowStep(10, 0);
    RPowPositive(10, p - 1);
    ComparesAlike(r.num, r.den, Value(v), 1, 1, RPow(10, p - 1));
    ComparesAlike(r.num, r.den, Value(v), 10, 1, RPow(10, p - 1));
    RPowAdd(10, p - 1, 1);
    TenOnce();
  }

  /** The digits of the rounded number without zeros in front; no digits at all stand for zero. */
  ghost predicate FixedFor(v: Double, count: int, digits: seq<int>, decimalPoint: int)
  {
    && IsDecimal(digits) && Written(digits, decimalPoint) == HalfUp(Value(v), count)
    && if digits == [] then decimalPoint == -count else digits[0] >= 1
  }

  /** A number too small for its first digit to matter. */
  lemma NothingFixed(v: Double, count: int, p: int)
    requires v.Valid() && Value(v) < RPow(10, p) && p < -count
    ensures FixedFor(v, count, [], -count)
  {
    hide RPow, Value;
    TenOnce();
    RPowGrows(10, p, -count - 1);
    RPowAdd(10, -count - 1, 1);
    ValuePositive(v);
    HalfUpZero(Value(v), count);
    DecimalEmpty();
  }

  lemma ValuePositive(v: Double)
    requires v.Valid()
    ensures Value(v) > 0.0
  {
    hide RPow;
    RPowPositive(2, v.e);
    CompareScaled(0.0, v.f as real, RPow(2, v.e));
  }

  /** A number whose first digit is the one after the last place is rounded to nothing or to one unit. */
  lemma FirstPlace(r: Ratio, v: Double, p: int)
    requires v.Valid() && Plain(r, v, p - 1) && OneDigitBefore(r)
    ensures Units(Value(v), -p) == if 2 * r.num >= 10 * r.den then 1 else 0
  {
    PowStep(10, 0);
    var s, t := Scales(p, 1);
    hide RPow, RealPow, Pow, Value;
    StandsTenth(r.num, r.den, Value(v), s);
    CountedUnits(Ratio(r.num, 10 * r.den, 0, 0), v, p, 1, 0, r.num);
  }

  lemma StandsTenth(num: int, den: int, x: real, s: real)
    requires Stands(num, den, x, s)
    ensures Stands(num, 10 * den, x, s * 10.0)
  {
    IntProduct(10, den);
    RealAssoc(num as real, s, 10.0);
    RealAssoc(x, den as real, 10.0);
  }

  /** Generates digits up to so many places after the decimal point. */
  method BignumToFixed(requestedDigits: int, decimalPointStart: int, numerator: Bignum, denominator: Bignum,
                       buffer: array<int>, ghost r: Ratio, ghost v: Double)
    returns (length: nat, decimalPoint: int)
    requires numerator.Valid() && denominator.Valid() && Apart(numerator, denominator) && v.Valid()
    requires 1 <= buffer.Length && decimalPointStart + requestedDigits <= buffer.Length
    requires buffer !in {numerator.bigits, denominator.bigits} && Roomy(10 * denominator.Value())
    requires Plain(r, v, decimalPointStart - 1) && OneDigitBefore(r)
    requires r.num == numerator.Value() && r.den == denominator.Value()
    modifies numerator, numerator.bigits, denominator, denominator.bigits, buffer
    ensures length <= buffer.Length && FixedFor(v, requestedDigits, buffer[..length], decimalPoint)
  {
    hide Pow, RPow, Decimal, DecimalValue, Plain, Roomy, Value, Units, Bignum.Shaped, Bignum.Value, Bignum.Valid;
    decimalPoint := decimalPointStart;
    if -decimalPoint > requestedDigits {
      MagnitudeIs(r, v, decimalPoint);
      NothingFixed(v, requestedDigits, decimalPoint);
      assert buffer[..0] == [];
      return 0, -requestedDigits;
    } else if -decimalPoint == requestedDigits {
      FirstPlace(r, v, decimalPoint);
      RoomyLess(r.den, 10 * r.den);
      MultiplyByTen(denominator);
      OnePlace(decimalPoint);
      var half := PlusCompare(numerator, numerator, denominator);
      if half >= 0 {
        buffer[0] := 1;
        assert buffer[..1] == [1];
        length, decimalPoint := 1, decimalPoint + 1;
      } else {
        length := 0;
        assert buffer[..0] == [];
      }
    } else {
      length, decimalPoint := GenerateCountedDigits(decimalPoint + requestedDigits, decimalPoint, numerator,
                                                    denominator, buffer, r, v);
    }
  }

  lemma OnePlace(p: int)
    ensures Written([1], p + 1) == DecimalValue(1, p) && Written([], p) == DecimalValue(0, p) && IsDecimal([1])
  {
    assert [1] == [] + [1];
    DecimalPush([], 1);
    DecimalEmpty();
  }

  /** So many digits of v, rounded, the first of which is not zero. */
  ghost predicate CountedFor(v: Double, count: nat, digits: seq<int>, decimalPoint: int)
  {
    && |digits| == count && IsDecimal(digits) && (count >= 1 ==> digits[0] >= 1)
    && exists p :: Magnitude(v, p) && p <= decimalPoint <= p + 1
                   && Written(digits, decimalPoint) == HalfUp(Value(v), count - p)
  }

  /** Whoever finds the digits, they are the same but for zeros at the end, and the decimal point is the same. */
  lemma FixedOnce(v: Double, count: int, s: seq<int>, p: int, t: seq<int>, q: int)
    requires FixedFor(v, count, s, p) && FixedFor(v, count, t, q) && |s| <= |t|
    ensures p == q && t[..|s|] == s && forall i :: |s| <= i < |t| ==> t[i] == 0
  {
    hide HalfUp, Value, Written;
    NothingIsZero(s, p);
    NothingIsZero(t, q);
    if s != [] { WrittenOnce(s, p, t, q); }
  }

  lemma MagnitudeOnce(v: Double, p: int, q: int)
    requires Magnitude(v, p) && Magnitude(v, q)
    ensures p == q
  {
    hide RPow, Value;
    if p < q { RPowGrows(10, p, q - 1); }
    if q < p { RPowGrows(10, q, p - 1); }
  }

  /** There is one right answer. */
  lemma CountedOnce(v: Double, count: nat, s: seq<int>, p: int, t: seq<int>, q: int)
    requires count >= 1 && CountedFor(v, count, s, p) && CountedFor(v, count, t, q)
    ensures s == t && p == q
  {
    hide HalfUp, Value, Written, Magnitude;
    var a :| Magnitude(v, a) && Written(s, p) == HalfUp(Value(v), count - a);
    var b :| Magnitude(v, b) && Written(t, q) == HalfUp(Value(v), count - b);
    MagnitudeOnce(v, a, b);
    WrittenOnce(s, p, t, q);
  }

  // ---- the conversion ----

  datatype DtoaMode = SHORTEST | FIXED | PRECISION

  /** What is promised in each mode. */
  ghost predicate DtoaFor(v: Double, mode: DtoaMode, requestedDigits: int, digits: seq<int>, decimalPoint: int)
  {
    match mode
    case SHORTEST => 1 <= |digits| <= 17 && ShortestFor(v, digits, decimalPoint - |digits|)
    case FIXED => FixedFor(v, requestedDigits, digits, decimalPoint)
    case PRECISION => requestedDigits >= 1 && CountedFor(v, requestedDigits, digits, decimalPoint)
  }

  /** Places enough for a number below 10^331. */
  predicate Enough(mode: DtoaMode, requestedDigits: int, places: nat)
  {
    match mode
    case SHORTEST => places >= 17
    case FIXED => places >= 1 && places >= requestedDigits + 331
    case PRECISION => places >= requestedDigits
  }

  /**
   * The shortest decimal digits that read back as v, the closest to v among those; or v rounded to a number of places
   * or of digits.
   */
  method BignumDtoa(v: Double, mode: DtoaMode, requestedDigits: int, estimatedPower: int, buffer: array<int>)
    returns (length: nat, decimalPoint: int)
    requires v.Valid() && GoodEstimate(v, estimatedPower) && Enough(mode, requestedDigits, buffer.Length)
    requires mode == PRECISION ==> requestedDigits >= 1
    modifies buffer
    ensures length <= buffer.Length && DtoaFor(v, mode, requestedDigits, buffer[..length], decimalPoint)
  {
    hide RPow, Pow, Represents, GoodEstimate, Shape, ShortestFor, Roomy, Plain, FixedFor, CountedFor, UnitScale;
    hide InRange, Bignum.Shaped, Bignum.Value, Bignum.Valid;
    var needDeltas, even := mode == SHORTEST, v.f % 2 == 0;
    if mode == FIXED && -estimatedPower - 1 > requestedDigits {
      EstimateAbove(v, estimatedPower);
      NothingFixed(v, requestedDigits, estimatedPower + 1);
      assert buffer[..0] == [];
      return 0, -requestedDigits;
    }
    var numerator := new Bignum();
    var denominator := new Bignum();
    var deltaMinus := new Bignum();
    var deltaPlus := new Bignum();
    ghost var unit;
    if v.e >= 0 { PowerNotNegative(v, estimatedPower); }
    EstimateRange(v, estimatedPower);
    unit := InitialScaledStartValues(v, estimatedPower, numerator, denominator, deltaMinus, deltaPlus, needDeltas);
    decimalPoint, unit := FixupMultiply10(v, estimatedPower, even, numerator, denominator, deltaMinus, deltaPlus, unit,
                                          needDeltas);
    length, decimalPoint := Generate(v, mode, requestedDigits, decimalPoint, numerator, denominator, deltaMinus,
                                     deltaPlus, buffer, unit);
  }

  /** What each mode does with the ratio. */
  method Generate(v: Double, mode: DtoaMode, requestedDigits: int, decimalPointStart: int, numerator: Bignum,
                  denominator: Bignum, deltaMinus: Bignum, deltaPlus: Bignum, buffer: array<int>, ghost unit: int)
    returns (length: nat, decimalPoint: int)
    requires v.Valid() && Ready(numerator, denominator, deltaMinus, deltaPlus) && Roomy(10 * denominator.Value())
    requires buffer !in {numerator.bigits, denominator.bigits, deltaMinus.bigits, deltaPlus.bigits}
    requires Enough(mode, requestedDigits, buffer.Length) && decimalPointStart <= 331
    requires mode == PRECISION ==> requestedDigits >= 1
    requires var r := RatioOf(numerator, denominator, deltaMinus, deltaPlus);
      && Scaled(r, v, decimalPointStart - 1, unit, mode == SHORTEST)
      && if mode == SHORTEST then InRange(r, v.f % 2 == 0) else OneDigitBefore(r)
    modifies numerator, numerator.bigits, denominator, denominator.bigits
    modifies deltaMinus, deltaMinus.bigits, deltaPlus, deltaPlus.bigits, buffer
    ensures length <= buffer.Length && DtoaFor(v, mode, requestedDigits, buffer[..length], decimalPoint)
  {
    hide RPow, Pow, Represents, Shape, ShortestFor, Roomy, Plain, FixedFor, CountedFor, InRange;
    hide Bignum.Shaped, Bignum.Value, Bignum.Valid;
    decimalPoint := decimalPointStart;
    var even := v.f % 2 == 0;
    ghost var r := RatioOf(numerator, denominator, deltaMinus, deltaPlus);
    match mode
    case SHORTEST =>
      length := ShortestDigits(v, decimalPoint, numerator, denominator, deltaMinus, deltaPlus, even, buffer, unit);
    case FIXED =>
      length, decimalPoint := BignumToFixed(requestedDigits, decimalPoint, numerator, denominator, buffer, r, v);
    case PRECISION =>
      length, decimalPoint := CountedDigits(v, requestedDigits, decimalPoint, numerator, denominator, buffer, r);
  }

  method ShortestDigits(v: Double, decimalPoint: int, numerator: Bignum, denominator: Bignum, deltaMinus: Bignum,
                        deltaPlus: Bignum, even: bool, buffer: array<int>, ghost unit: int) returns (length: nat)
    requires v.Valid() && Ready(numerator, denominator, deltaMinus, deltaPlus) && Roomy(10 * denominator.Value())
    requires buffer !in {numerator.bigits, denominator.bigits, deltaMinus.bigits, deltaPlus.bigits}
    requires buffer.Length >= 17 && even == (v.f % 2 == 0)
    requires Scaled(RatioOf(numerator, denominator, deltaMinus, deltaPlus), v, decimalPoint - 1, unit, true)
    requires InRange(RatioOf(numerator, denominator, deltaMinus, deltaPlus), even)
    modifies numerator, numerator.bigits, deltaMinus, deltaMinus.bigits, deltaPlus, deltaPlus.bigits, buffer
    ensures 1 <= length <= 17 && ShortestFor(v, buffer[..length], decimalPoint - length)
  {
    hide RPow, Pow, Represents, Shape, ShortestFor, Shortest, Roomy, Bignum.Shaped, Bignum.Value, Bignum.Valid;
    ghost var r := RatioOf(numerator, denominator, deltaMinus, deltaPlus);
    SeventeenDigits(r, v, unit);
    length := GenerateShortestDigits(numerator, denominator, deltaMinus, deltaPlus, even, buffer, 17);
    ShortestStands(r, v, decimalPoint - 1, buffer[..length]);
  }

  method CountedDigits(v: Double, count: nat, decimalPointStart: int, numerator: Bignum, denominator: Bignum,
                       buffer: array<int>, ghost r: Ratio)
    returns (length: nat, decimalPoint: int)
    requires 1 <= count <= buffer.Length && numerator.Valid() && denominator.Valid() && Apart(numerator, denominator)
    requires buffer !in {numerator.bigits, denominator.bigits} && Roomy(10 * denominator.Value())
    requires Plain(r, v, decimalPointStart - 1) && OneDigitBefore(r)
    requires r.num == numerator.Value() && r.den == denominator.Value()
    modifies numerator, numerator.bigits, buffer
    ensures length == count && CountedFor(v, count, buffer[..length], decimalPoint)
  {
    hide RPow, Pow, Roomy, Plain, Magnitude, Bignum.Shaped, Bignum.Value, Bignum.Valid, HalfUp, Written;
    MagnitudeIs(r, v, decimalPointStart);
    length, decimalPoint := GenerateCountedDigits(count, decimalPointStart, numerator, denominator, buffer, r, v);
    assert buffer[..length][0] == buffer[0];
  }

  lemma EstimateAbove(v: Double, power: int)
    requires GoodEstimate(v, power)
    ensures Value(v) < RPow(10, power + 1)
  {
    hide RPow, Value, Upper;
    DecimalReading.ValueBelowUpper(v);
  }
}
