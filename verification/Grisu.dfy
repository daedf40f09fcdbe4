/** Shortest digits by floating-point arithmetic with an error bound: double-conversion/fast-dtoa.cc. */
module Grisu {
  import opened Arith
  import opened Decimals
  import opened DiyFps
  import opened Ieee
  import opened Rounding

  // ---- powers of ten ----

  const SMALL_POWERS_OF_TEN: seq<int> :=
    [0, 1, 10, 100, 1000, 10000, 100000, 1000000, 10000000, 100000000, 1000000000]

  lemma SmallPower(i: nat)
    requires 1 <= i <= 10
    ensures SMALL_POWERS_OF_TEN[i] == Pow(10, i - 1)
  {
    PowStep(10, 0); PowStep(10, 1); PowStep(10, 2); PowStep(10, 3); PowStep(10, 4);
    PowStep(10, 5); PowStep(10, 6); PowStep(10, 7); PowStep(10, 8);
  }

  /** The guess is exact for a number that uses at least all but two of its bits. */
  method BiggestPowerTen(number: int, numberBits: nat) returns (power: int, exponentPlusOne: nat)
    requires numberBits <= 32 && 1 <= number < W32 && number < Pow(2, numberBits + 1)
    ensures 1 <= exponentPlusOne <= 10 && power == Pow(10, exponentPlusOne - 1) && number < 10 * power
    ensures Pow(2, numberBits) <= 4 * number ==> power <= number
  {
    var guess := (numberBits + 1) * 1233 / 4096 + 1;
    GuessBounds(numberBits, guess);
    if number < SMALL_POWERS_OF_TEN[guess] {
      guess := guess - 1;
    }
    SmallPower(guess);
    power, exponentPlusOne := SMALL_POWERS_OF_TEN[guess], guess;
  }

  const POWERS_OF_TWO: seq<int> :=
    [1, 2, 4, 8, 16, 32, 64, 128, 256, 512, 1024, 2048, 4096, 8192, 16384, 32768, 65536, 131072, 262144, 524288,
     1048576, 2097152, 4194304, 8388608, 16777216, 33554432, 67108864, 134217728, 268435456, 536870912, 1073741824,
     2147483648, 4294967296, 8589934592]

  lemma {:induction false} PowerOfTwo(i: nat)
    requires i <= 33
    ensures POWERS_OF_TWO[i] == Pow(2, i)
  {
    if i > 0 {
      PowerOfTwo(i - 1);
      PowStep(2, i - 1);
    }
  }

  lemma GuessBounds(bits: nat, guess: nat)
    requires bits <= 32 && guess == (bits + 1) * 1233 / 4096 + 1
    ensures 1 <= guess <= 10 && Pow(2, bits + 1) <= 10 * SMALL_POWERS_OF_TEN[guess]
    ensures guess == 1 ==> Pow(2, bits) <= 4
    ensures guess > 1 ==> 4 * SMALL_POWERS_OF_TEN[guess - 1] <= Pow(2, bits)
  {
    hide Pow;
    PowerOfTwo(bits);
    PowerOfTwo(bits + 1);
  }

  // ---- what the digits promise ----

  /**
   * b * tk / unit is the chosen number, in the last places of low, w and high. It lies inside the safe interval; no
   * multiple of ten times its last place lies in the unsafe one; and no other multiple of its last place in the
   * unsafe interval is closer to any number within one unit of w.
   */
  ghost predicate Chosen(low: int, w: int, high: int, b: int, tk: int, unit: int)
  {
    && Inside(low, high, b * tk, unit) && NoCoarser(low, high, tk, unit) && NoneCloser(low, w, high, b, tk, unit)
  }

  ghost predicate Inside(low: int, high: int, n: int, unit: int)
  {
    (low + 1) * unit <= n <= (high - 1) * unit
  }

  ghost predicate NoCoarser(low: int, high: int, tk: int, unit: int)
  {
    forall x: int {:trigger x * (10 * tk)} :: x * (10 * tk) <= (low - 1) * unit || (high + 1) * unit < x * (10 * tk)
  }

  ghost predicate NoneCloser(low: int, w: int, high: int, b: int, tk: int, unit: int)
  {
    forall x: int {:trigger x * tk} :: (low - 1) * unit < x * tk <= (high + 1) * unit ==>
      && (x < b ==> x * tk + b * tk <= 2 * ((w - 1) * unit))
      && (x > b ==> x * tk + b * tk >= 2 * ((w + 1) * unit))
  }

  // ---- rounding towards w ----

  /** Stepping down by tk stays in the unsafe interval and comes no farther from target. */
  predicate StepHelps(rest: uint64, tk: uint64, target: uint64, unsafe: uint64)
    requires rest <= unsafe
  {
    rest < target && unsafe - rest >= tk && var next: uint64 := rest + tk;
      (next < target || target - rest >= next - target)
  }

  predicate StepStrictlyHelps(rest: uint64, tk: uint64, target: uint64, unsafe: uint64)
    requires rest <= unsafe
  {
    rest < target && unsafe - rest >= tk && var next: uint64 := rest + tk;
      (next < target || target - rest > next - target)
  }

  /** Where rounding stopped: n steps down from rest0, and neither neighbour is closer to w. */
  ghost predicate Weeded(rest0: int, n: int, tk: int, dist: int, unsafe: int, unit: int)
  {
    var r := rest0 + n * tk;
    && n >= 0 && 2 * unit <= r <= unsafe - 4 * unit
    && (unsafe - r < tk || 2 * r + tk >= 2 * (dist + unit))
    && (n == 0 || 2 * r - tk <= 2 * (dist - unit))
  }

  /**
   * Rounds the last digit towards w and reports whether the result can be trusted. The last digit never drops below
   * zero, and is not zero if the result is trusted.
   */
  method RoundWeed(buffer: array<int>, length: nat, distanceTooHighW: uint64, unsafeInterval: uint64, restStart: uint64,
                   tenKappa: uint64, unit: uint64)
    returns (ok: bool, ghost n: int)
    requires 1 <= length <= buffer.Length && 0 <= buffer[length - 1] <= 9
    requires 1 <= unit <= distanceTooHighW && distanceTooHighW + unit <= unsafeInterval && 4 * unit <= unsafeInterval
    requires tenKappa >= 1 && restStart < unsafeInterval
    requires restStart + buffer[length - 1] * tenKappa >= unsafeInterval
    modifies buffer
    ensures 0 <= n <= old(buffer[length - 1])
    ensures buffer[..] == old(buffer[..])[length - 1 := old(buffer[length - 1]) - n]
    ensures ok ==> Weeded(restStart, n, tenKappa, distanceTooHighW, unsafeInterval, unit) && buffer[length - 1] >= 1
  {
    var smallDistance: uint64 := distanceTooHighW - unit;
    var bigDistance: uint64 := distanceTooHighW + unit;
    var rest := restStart;
    n := 0;
    ghost var digit := buffer[length - 1];
    while StepHelps(rest, tenKappa, smallDistance, unsafeInterval)
      invariant 0 <= n <= digit && rest <= unsafeInterval && rest == restStart + n * tenKappa
      invariant buffer[..] == old(buffer[..])[length - 1 := digit - n]
      invariant n == 0 || 2 * rest - tenKappa <= 2 * smallDistance
      decreases unsafeInterval - rest
    {
      Dist(n, 1, tenKappa);
      if n >= digit { MulMono(tenKappa, digit, n); }
      buffer[length - 1] := buffer[length - 1] - 1;
      rest := rest + tenKappa;
      n := n + 1;
    }
    if StepStrictlyHelps(rest, tenKappa, bigDistance, unsafeInterval) {
      return false, n;
    }
    if n == digit { assert rest >= unsafeInterval; }
    ok := 2 * unit <= rest && rest <= unsafeInterval - 4 * unit;
  }

  /** What rounding establishes about the chosen number. */
  lemma WeededChosen(low: int, w: int, high: int, b0: int, digit: int, rest0: int, n: int, tk: int, unit: int)
    requires tk >= 1 && unit >= 1 && 0 <= rest0 < tk && (high + 1) * unit == b0 * tk + rest0
    requires 0 <= digit <= 9 && (b0 - digit) % 10 == 0 && rest0 + digit * tk >= (high - low + 2) * unit
    requires Weeded(rest0, n, tk, (high + 1 - w) * unit, (high - low + 2) * unit, unit)
    ensures Chosen(low, w, high, b0 - n, tk, unit)
  {
    var b, r := b0 - n, rest0 + n * tk;
    Dist(b0, n, tk);
    assert b * tk == (high + 1) * unit - r;
    Dist(high - low + 2, high + 1, unit);
    Dist(high + 1, w, unit);
    Dist(low, 1, unit);
    Dist(high, 1, unit);
    Dist(w, 1, unit);
    assert (low - 1) * unit == (high + 1) * unit - (high - low + 2) * unit;
    forall x: int ensures x * (10 * tk) <= (low - 1) * unit || (high + 1) * unit < x * (10 * tk) {
      CoarserOutside(x, b0, digit, rest0, tk, (high + 1) * unit, (high - low + 2) * unit);
    }
    forall x: int | (low - 1) * unit < x * tk <= (high + 1) * unit
      ensures x < b ==> x * tk + b * tk <= 2 * ((w - 1) * unit)
      ensures x > b ==> x * tk + b * tk >= 2 * ((w + 1) * unit)
    {
      NeighbourFarther(x, b0, n, rest0, tk, (high + 1) * unit, (high + 1 - w) * unit, (high - low + 2) * unit, unit);
    }
  }

  lemma CoarserOutside(x: int, b0: int, digit: int, rest0: int, tk: int, top: int, unsafe: int)
    requires tk >= 1 && 0 <= rest0 < tk && top == b0 * tk + rest0 && 0 <= digit <= 9 && (b0 - digit) % 10 == 0
    requires rest0 + digit * tk >= unsafe
    ensures x * (10 * tk) <= top - unsafe || top < x * (10 * tk)
  {
    var c := (b0 - digit) / 10;
    MulAssoc(x, 10, tk);
    Dist(b0, digit, tk);
    if 10 * x <= b0 - digit {
      MulMono(tk, 10 * x, b0 - digit);
    } else {
      FarAbove(x, b0, digit, rest0, tk, top);
    }
  }

  /** The next multiple of ten above b0 is above the top, as long as b0 ends in digit. */
  lemma FarAbove(x: int, b0: int, digit: int, rest0: int, tk: int, top: int)
    requires tk >= 1 && 0 <= rest0 < tk && top == b0 * tk + rest0 && 0 <= digit <= 9 && (b0 - digit) % 10 == 0
    requires 10 * x > b0 - digit
    ensures top < (x * 10) * tk
  {
    MulMono(tk, b0 + 1, 10 * x);
    Dist(b0, 1, tk);
  }

  lemma NeighbourFarther(x: int, b0: int, n: int, rest0: int, tk: int, top: int, dist: int, unsafe: int, unit: int)
    requires tk >= 1 && 0 <= rest0 < tk && top == b0 * tk + rest0 && Weeded(rest0, n, tk, dist, unsafe, unit)
    requires top - unsafe < x * tk <= top
    ensures x < b0 - n ==> x * tk + (b0 - n) * tk <= 2 * (top - dist - unit)
    ensures x > b0 - n ==> x * tk + (b0 - n) * tk >= 2 * (top - dist + unit)
  {
    var b, r := b0 - n, rest0 + n * tk;
    Dist(b0, n, tk);
    if x < b {
      MulMono(tk, x + 1, b);
      Dist(x, 1, tk);
    } else if x > b {
      if x > b0 { MulMono(tk, b0 + 1, x); Dist(b0, 1, tk); }
      MulMono(tk, b + 1, x);
      Dist(b, 1, tk);
    }
  }

  // ---- digit generation ----

  ghost function TenKappa(kappa: int, one: int): int
  {
    if kappa >= 0 then Pow(10, kappa) * one else one
  }

  ghost function Unit(kappa: int): int
  {
    if kappa >= 0 then 1 else Pow(10, -kappa)
  }

  /** The digits so far are those of top, and what is left is still at least the unsafe interval. */
  ghost predicate Generated(top: int, unsafe: int, digits: seq<int>, kappa: int, rest: int, one: int)
  {
    && IsDecimal(digits) && (|digits| > 0 ==> digits[0] >= 1)
    && 0 <= rest < TenKappa(kappa, one)
    && top * Unit(kappa) == Decimal(digits) * TenKappa(kappa, one) + rest
    && unsafe * Unit(kappa) <= rest
  }

  lemma StepIntegral(top: int, D: int, p: int, digit: int, rest: int, rest': int)
    requires top == D * (10 * p) + rest && rest == digit * p + rest'
    ensures top == (10 * D + digit) * p + rest'
  {
    MulAssoc(D, 10, p);
    Dist(10 * D, digit, p);
  }

  lemma StepFractional(top: int, u: int, D: int, one: int, digit: int, rest: int, rest': int)
    requires top * u == D * one + rest && 10 * rest == digit * one + rest'
    ensures top * (10 * u) == (10 * D + digit) * one + rest'
  {
    MulAssoc(D, 10, one);
    Dist(10 * D, digit, one);
    MulAssoc(top, 10, u);
  }

  /** The scales on both sides of one more digit. */
  lemma NextScale(kappa: int, one: int)
    requires one >= 1
    ensures TenKappa(kappa - 1, one) >= 1 && Unit(kappa - 1) >= 1 && Unit(kappa) >= 1
    ensures if kappa > 0 then TenKappa(kappa, one) == 10 * TenKappa(kappa - 1, one)
      && Unit(kappa) == Unit(kappa - 1) == 1
            else TenKappa(kappa, one) == TenKappa(kappa - 1, one) == one && Unit(kappa - 1) == 10 * Unit(kappa)
  {
    if kappa > 0 {
      PowStep(10, kappa - 1);
      PowPositive(10, kappa - 1);
      MulMono(one, 1, Pow(10, kappa - 1));
      MulAssoc(10, Pow(10, kappa - 1), one);
    } else {
      PowStep(10, -kappa);
      PowPositive(10, -kappa);
    }
  }

  /** top * u, cut into the digits D, worth tk each, and a rest that is still at least unsafe * u. */
  ghost predicate CutAt(top: int, unsafe: int, u: int, D: int, tk: int, rest: int)
  {
    0 <= rest < tk && top * u == D * tk + rest && unsafe * u <= rest
  }

  /** The next digit is cut off the rest; u' and tk' are the scales behind it. */
  ghost predicate NextCut(top: int, unsafe: int, u': int, D: int, tk': int, rest': int, digit: int)
  {
    && 0 <= digit <= 9 && rest' + digit * tk' >= unsafe * u' && top * u' == (10 * D + digit) * tk' + rest'
  }

  lemma NextIntegral(top: int, unsafe: int, D: int, tk': int, rest: int, rest': int, digit: int)
    requires tk' >= 1 && CutAt(top, unsafe, 1, D, 10 * tk', rest) && rest == digit * tk' + rest' && 0 <= rest' < tk'
    ensures NextCut(top, unsafe, 1, D, tk', rest', digit)
  {
    DigitRange(rest, digit, tk', rest');
    StepIntegral(top, D, tk', digit, rest, rest');
  }

  lemma NextFractional(top: int, unsafe: int, u: int, D: int, tk: int, rest: int, rest': int, digit: int)
    requires tk >= 1 && CutAt(top, unsafe, u, D, tk, rest) && 10 * rest == digit * tk + rest' && 0 <= rest' < tk
    ensures NextCut(top, unsafe, 10 * u, D, tk, rest', digit)
  {
    DigitRange(10 * rest, digit, tk, rest');
    StepFractional(top, u, D, tk, digit, rest, rest');
    MulAssoc(unsafe, 10, u);
  }

  lemma GeneratedCut(top: int, unsafe: int, digits: seq<int>, kappa: int, rest: int, one: int)
    requires IsDecimal(digits) && (|digits| > 0 ==> digits[0] >= 1)
    ensures Generated(top, unsafe, digits, kappa, rest, one) <==>
      CutAt(top, unsafe, Unit(kappa), Decimal(digits), TenKappa(kappa, one), rest)
  {
    hide TenKappa, Unit, Decimal;
  }

  lemma CutOf(top: int, unsafe: int, u: int, D: int, tk: int, rest: int, digit: int, D': int)
    requires NextCut(top, unsafe, u, D, tk, rest, digit) && D' == 10 * D + digit && 0 <= rest < tk
    ensures top * u == D' * tk + rest && rest + digit * tk >= unsafe * u
    ensures unsafe * u <= rest ==> CutAt(top, unsafe, u, D', tk, rest)
  {
  }

  /** One more digit: the rest divided by the next power of ten. */
  lemma NextDigit(top: int, unsafe: int, digits: seq<int>, kappa: int, rest: int, one: int, rest': int, digit: int)
    requires Generated(top, unsafe, digits, kappa, rest, one) && one >= 1 && unsafe >= 0
    requires (if kappa > 0 then rest else 10 * rest) == digit * TenKappa(kappa - 1, one) + rest'
    requires 0 <= rest' < TenKappa(kappa - 1, one) && (|digits| == 0 ==> digit >= 1)
    ensures 0 <= digit <= 9
    ensures var tk, unit := TenKappa(kappa - 1, one), Unit(kappa - 1);
      && tk >= 1 && unit >= 1 && 0 <= rest' < tk && rest' + digit * tk >= unsafe * unit
      && top * unit == Decimal(digits + [digit]) * tk + rest'
    ensures IsDecimal(digits + [digit]) && (digits + [digit])[0] >= 1
    ensures unsafe * Unit(kappa - 1) <= rest' ==> Generated(top, unsafe, digits + [digit], kappa - 1, rest', one)
  {
    hide TenKappa, Unit, Decimal, Generated, CutAt, NextCut;
    GeneratedDigits(top, unsafe, digits, kappa, rest, one);
    GeneratedCut(top, unsafe, digits, kappa, rest, one);
    NextScale(kappa, one);
    var D, tk, u := Decimal(digits), TenKappa(kappa - 1, one), Unit(kappa - 1);
    if kappa > 0 {
      NextIntegral(top, unsafe, D, tk, rest, rest', digit);
    } else {
      NextFractional(top, unsafe, Unit(kappa), D, tk, rest, rest', digit);
    }
    NextCutRange(top, unsafe, u, D, tk, rest', digit);
    DecimalPush(digits, digit);
    CutOf(top, unsafe, u, D, tk, rest', digit, Decimal(digits + [digit]));
    GeneratedCut(top, unsafe, digits + [digit], kappa - 1, rest', one);
  }

  lemma GeneratedDigits(top: int, unsafe: int, digits: seq<int>, kappa: int, rest: int, one: int)
    requires Generated(top, unsafe, digits, kappa, rest, one)
    ensures IsDecimal(digits) && (|digits| > 0 ==> digits[0] >= 1)
  {
    hide TenKappa, Unit, Decimal;
  }

  lemma NextCutRange(top: int, unsafe: int, u: int, D: int, tk: int, rest: int, digit: int)
    requires NextCut(top, unsafe, u, D, tk, rest, digit)
    ensures 0 <= digit <= 9
  {
  }

  lemma DigitRange(n: int, digit: int, p: int, r: int)
    requires p >= 1 && n == digit * p + r && 0 <= r < p && 0 <= n < 10 * p
    ensures 0 <= digit <= 9
  {
    if digit < 0 { MulMono(p, digit, -1); }
    if digit > 9 { MulMono(p, 10, digit); }
  }

  /** The outcome of digit generation, for a trusted result. */
  ghost predicate Shortest(low: int, w: int, high: int, digits: seq<int>, kappa: int, one: int)
  {
    && |digits| >= 1 && IsDecimal(digits) && digits[0] >= 1 && digits[|digits| - 1] >= 1
    && Chosen(low, w, high, Decimal(digits), TenKappa(kappa, one), Unit(kappa))
  }

  /** Rounding the last digit turns the digits of high + 1 into the chosen ones. */
  lemma RoundedShortest(low: int, w: int, high: int, digits: seq<int>, kappa: int, rest: int, one: int, n: int)
    requires |digits| >= 1 && IsDecimal(digits) && digits[0] >= 1 && 0 <= n < digits[|digits| - 1]
    requires var tk, unit, d := TenKappa(kappa, one), Unit(kappa), digits[|digits| - 1];
      && tk >= 1 && unit >= 1 && 0 <= rest < tk && rest + d * tk >= (high - low + 2) * unit
      && (high + 1) * unit == Decimal(digits) * tk + rest
      && Weeded(rest, n, tk, (high + 1 - w) * unit, (high - low + 2) * unit, unit)
    ensures Shortest(low, w, high, digits[|digits| - 1 := digits[|digits| - 1] - n], kappa, one)
  {
    var k := |digits| - 1;
    hide TenKappa, Unit, Decimal, Chosen, Weeded;
    var d, rounded := digits[k], digits[k := digits[k] - n];
    DecimalLast(digits, n);
    WeededChosen(low, w, high, Decimal(digits), d, rest, n, TenKappa(kappa, one), Unit(kappa));
  }

  /** The shift amount and the scale 2^-e of the numbers being printed. */
  lemma OneBounds(E: nat, one: int)
    requires 32 <= E <= 60 && one == Pow(2, E)
    ensures 0x1_0000_0000 <= one <= 0x1000_0000_0000_0000 && one * Pow(2, 64 - E) == W64 && Pow(2, 64 - E) >= 1
  {
    hide Pow;
    PowerOfTwo(32);
    PowMono(2, 32, E);
    PowMono(2, E, 60);
    PowAdd(2, 30, 30);
    PowerOfTwo(30);
    PowAdd(2, E, 64 - E);
    PowAdd(2, 32, 32);
    PowPositive(2, 64 - E);
  }

  lemma CutBounds(top: int, one: int, p: int, q: int, x: int, y: int)
    requires one >= 0x1_0000_0000 && one * p == W64 && q * 4 == p && W64 / 4 <= top < W64 && top == x * one + y
    requires 0 <= y < one
    ensures 1 <= x < p <= 4 * x && x < W32
  {
    if x >= p { MulMono(one, p, x); }
    if x < q { MulMono(one, x + 1, q); Dist(x, 1, one); }
    if x >= W32 { MulMono(one, W32, x); }
    if p < 4 { MulMono(one, p, 3); }
  }

  /** high + 1 cut at the binary point. */
  lemma CutInTwo(top: int, E: nat, one: int, integrals: int, fractionals: int)
    requires 32 <= E <= 60 && one == Pow(2, E) && one > 0 && 0x4000_0000_0000_0000 <= top < W64
    requires integrals == top / one && fractionals == top % one
    ensures 1 <= integrals < Pow(2, 64 - E) <= 4 * integrals && integrals < W32
    ensures 0 <= fractionals < one && top == integrals * one + fractionals
  {
    hide Pow;
    OneBounds(E, one);
    DivModBounds(top, one);
    PowStep(2, 62 - E);
    PowStep(2, 63 - E);
    PowPositive(2, 62 - E);
    CutBounds(top, one, Pow(2, 64 - E), Pow(2, 62 - E), integrals, fractionals);
  }

  /** As long as digits are still needed, few have been written. */
  lemma GeneratedLength(top: int, unsafe: int, digits: seq<int>, kappa: int, rest: int, one: int)
    requires Generated(top, unsafe, digits, kappa, rest, one) && one >= 1 && unsafe >= 1 && |digits| >= 1
    ensures unsafe * Pow(10, |digits| - 1) < top
  {
    DecimalBounds(digits);
    NextScale(kappa, one);
    var p, tk, unit := Pow(10, |digits| - 1), TenKappa(kappa, one), Unit(kappa);
    PowPositive(10, |digits| - 1);
    hide Pow, TenKappa, Unit, Decimal;
    MulMono(tk, p, Decimal(digits));
    MulStrictMono(p, unsafe * unit, tk);
    MulAssoc(unsafe, unit, p);
    MulAssoc(unsafe, p, unit);
    if unsafe * p >= top { MulMono(unit, top, unsafe * p); }
  }

  /** How many digits there can be: seventeen, if the unsafe interval is wide enough. */
  ghost function Room(top: int, unsafe: int): nat { if unsafe * 10000000000000000 >= top then 17 else 20 }

  /** Twenty places are always enough. */
  lemma RoomForDigit(top: int, unsafe: int, digits: seq<int>, kappa: int, rest: int, one: int)
    requires Generated(top, unsafe, digits, kappa, rest, one) && one >= 1 && unsafe >= 4 && top < W64
    ensures |digits| < Room(top, unsafe)
  {
    if |digits| >= 1 {
      GeneratedLength(top, unsafe, digits, kappa, rest, one);
      SmallPower(10);
      SmallPower(8);
      PowAdd(10, 9, 9);
      PowAdd(10, 9, 7);
      var p := Pow(10, |digits| - 1);
      if |digits| >= 20 { PowMono(10, 19, |digits| - 1); PowStep(10, 18); MulMono(p, 4, unsafe); }
      if |digits| >= 17 { PowMono(10, 16, |digits| - 1); MulMono(unsafe, 10000000000000000, p); }
    }
  }

  lemma FirstGenerated(top: int, unsafe: int, kappa: nat, one: int)
    requires 0 <= top < Pow(10, kappa) * one && unsafe <= top
    ensures Generated(top, unsafe, [], kappa, top, one)
  {
  }

  /** The rest after an integral digit, and the divisor that gave it. */
  lemma IntegralRest(integrals: int, divisor: int, fractionals: int, one: int)
    requires divisor >= 1 && one >= 1 && 0 <= integrals && 0 <= fractionals < one
    ensures var digit, left := integrals / divisor, integrals % divisor;
      && 0 <= left < divisor && 0 <= digit && integrals == digit * divisor + left
      && integrals * one + fractionals == digit * (divisor * one) + (left * one + fractionals)
      && 0 <= left * one + fractionals < divisor * one
      && (divisor <= integrals ==> digit >= 1)
  {
    var digit, left := integrals / divisor, integrals % divisor;
    DivModBounds(integrals, divisor);
    DivPos(integrals, divisor);
    Dist(digit * divisor, left, one);
    MulAssoc(digit, divisor, one);
    MulMono(one, left + 1, divisor);
    MulMono(one, 0, left);
    Dist(left, 1, one);
    if digit < 1 { MulMono(divisor, digit, 0); }
  }

  /** The rest after a fractional digit. */
  lemma FractionalRest(f: int, one: int)
    requires one >= 1 && 0 <= f < one
    ensures var digit, left := 10 * f / one, 10 * f % one; 0 <= left < one && 10 * f == digit * one + left
  {
    DivModBounds(10 * f, one);
  }

  /** A digit has been written; what is left is below the unsafe interval. */
  ghost predicate Stopped(low: int, high: int, digits: seq<int>, kappa: int, rest: int, one: int)
  {
    && |digits| >= 1 && IsDecimal(digits) && digits[0] >= 1
    && var tk, unit, d := TenKappa(kappa, one), Unit(kappa), digits[|digits| - 1];
    && tk >= 1 && unit >= 1 && 0 <= rest < tk && rest + d * tk >= (high - low + 2) * unit
    && (high + 1) * unit == Decimal(digits) * tk + rest
  }

  /** The arguments of the final rounding are in range. */
  lemma StoppedArguments(low: int, w: int, high: int, digits: seq<int>, kappa: int, rest: int, one: int)
    requires Stopped(low, high, digits, kappa, rest, one) && low <= w <= high && low + 1 <= high - 1
    ensures var unsafe, unit := (high - low + 2) * Unit(kappa), Unit(kappa);
      1 <= unit <= (high + 1 - w) * unit && (high + 1 - w) * unit + unit <= unsafe && 4 * unit <= unsafe
  {
    var u := Unit(kappa);
    MulMono(u, 1, high + 1 - w);
    Dist(high + 1 - w, 1, u);
    MulMono(u, high + 2 - w, high - low + 2);
    MulMono(u, 4, high - low + 2);
  }

  lemma StoppedScale(low: int, high: int, digits: seq<int>, kappa: int, rest: int, one: int)
    requires Stopped(low, high, digits, kappa, rest, one)
    ensures TenKappa(kappa, one) <= (high + 1) * Unit(kappa)
  {
    DecimalBounds(digits);
    PowPositive(10, |digits| - 1);
    MulMono(TenKappa(kappa, one), 1, Decimal(digits));
  }

  /** Rounds the digits that have been generated. */
  method Round(low: uint64, w: uint64, high: uint64, buffer: array<int>, length: nat, kappa: int, rest: uint64,
               tenKappa: uint64, unit: uint64, unsafe: uint64, distance: uint64, ghost one: int)
    returns (ok: bool)
    requires 1 <= length <= buffer.Length && Stopped(low, high, buffer[..length], kappa, rest, one)
    requires low <= w <= high && low + 1 <= high - 1 && rest < unsafe
    requires tenKappa == TenKappa(kappa, one) && unit == Unit(kappa)
    requires unsafe == (high - low + 2) * unit && distance == (high + 1 - w) * unit
    modifies buffer
    ensures ok ==> Shortest(low, w, high, buffer[..length], kappa, one)
  {
    hide TenKappa, Unit, Decimal, Weeded, Shortest;
    ghost var digits := buffer[..length];
    StoppedArguments(low, w, high, digits, kappa, rest, one);
    ghost var n;
    ok, n := RoundWeed(buffer, length, distance, unsafe, rest, tenKappa, unit);
    assert buffer[..length] == digits[length - 1 := digits[length - 1] - n];
    if ok {
      RoundedShortest(low, w, high, digits, kappa, rest, one, n);
    }
  }

  /** 2^-e, computed by a shift. */
  method OneOf(shift: nat) returns (one: uint64)
    requires 32 <= shift <= 60
    ensures one == Pow(2, shift)
  {
    OneBounds(shift, Pow(2, shift));
    one := 1;
    var i := 0;
    while i < shift
      invariant i <= shift && one == Pow(2, i) <= Pow(2, shift)
    {
      PowStep(2, i);
      PowMono(2, i + 1, shift);
      one := one * 2;
      i := i + 1;
    }
  }

  /** One pass of the loop over the integral digits. */
  method IntegralDigit(buffer: array<int>, length: nat, kappa: nat, integrals: uint64, fractionals: uint64,
                       divisor: uint64, one: uint64, ghost top: int, ghost unsafe: int, ghost low: int, ghost high: int)
    returns (left: uint64, rest: uint64, tenKappa: uint64)
    requires 1 <= kappa && length < buffer.Length && 0 <= fractionals < one
    requires divisor == Pow(10, kappa - 1) && (length == 0 ==> divisor <= integrals)
    requires top == high + 1 < W64 && unsafe == high - low + 2 && unsafe >= 1
    requires Generated(top, unsafe, buffer[..length], kappa, integrals * one + fractionals, one)
    requires integrals * one + fractionals <= top
    modifies buffer
    ensures rest == left * one + fractionals <= top && tenKappa == TenKappa(kappa - 1, one)
    ensures Stopped(low, high, buffer[..length + 1], kappa - 1, rest, one)
    ensures unsafe <= rest ==> Generated(top, unsafe, buffer[..length + 1], kappa - 1, rest, one)
  {
    hide Pow, Decimal;
    ghost var digits := buffer[..length];
    PowPositive(10, kappa - 1);
    IntegralRest(integrals, divisor, fractionals, one);
    var digit := integrals / divisor;
    Emit(buffer, length, digit);
    left := integrals % divisor;
    ghost var after := left * one + fractionals;
    NextDigit(top, unsafe, digits, kappa, integrals * one + fractionals, one, after, digit);
    assert after <= top by { MulMono(divisor * one, 0, digit); }
    MulMono(one, 0, left);
    rest := left * one + fractionals;
    StoppedScale(low, high, digits + [digit], kappa - 1, rest, one);
    tenKappa := divisor * one;
  }

  /** One pass of the loop over the fractional digits. */
  method FractionalDigit(buffer: array<int>, length: nat, kappa: int, fractionals: uint64, one: uint64,
                         ghost top: int, ghost unsafe: int, ghost low: int, ghost high: int)
    returns (rest: uint64)
    requires kappa <= 0 && 1 <= length < buffer.Length && 0 <= fractionals < one <= 0x1000_0000_0000_0000
    requires top == high + 1 && unsafe == high - low + 2 && unsafe >= 1
    requires Generated(top, unsafe, buffer[..length], kappa, fractionals, one)
    modifies buffer
    ensures 0 <= rest < one && Stopped(low, high, buffer[..length + 1], kappa - 1, rest, one)
    ensures unsafe * Unit(kappa - 1) <= rest ==> Generated(top, unsafe, buffer[..length + 1], kappa - 1, rest, one)
  {
    hide Pow, Decimal;
    ghost var digits := buffer[..length];
    FractionalRest(fractionals, one);
    var ten: uint64 := fractionals * 10;
    var digit := ten / one;
    Emit(buffer, length, digit);
    rest := ten % one;
    NextDigit(top, unsafe, digits, kappa, fractionals, one, rest, digit);
  }

  /** The first divisor is the power of ten of the leading digit. */
  lemma FirstDivisor(top: int, integrals: int, fractionals: int, one: int, divisor: int, kappa: nat)
    requires top == integrals * one + fractionals && 0 <= fractionals < one && 1 <= kappa
    requires divisor == Pow(10, kappa - 1) && integrals < 10 * divisor
    ensures top < Pow(10, kappa) * one
  {
    PowStep(10, kappa - 1);
    MulMono(one, integrals + 1, 10 * divisor);
    Dist(integrals, 1, one);
  }

  /** The divisor of the next pass. */
  lemma NextDivisor(divisor: int, kappa: nat)
    requires 1 <= kappa && divisor == Pow(10, kappa)
    ensures divisor / 10 == Pow(10, kappa - 1)
  {
    PowStep(10, kappa - 1);
  }

  /** The scaled interval grows, but stays below the rest it is compared with. */
  lemma NextUnit(unsafe: int, kappa: int, rest: int, one: int)
    requires kappa <= 0 && unsafe >= 4 && unsafe * Unit(kappa) <= rest < one
    ensures Unit(kappa - 1) == 10 * Unit(kappa) && unsafe * Unit(kappa - 1) == 10 * (unsafe * Unit(kappa))
    ensures 1 <= Unit(kappa) < one && unsafe * Unit(kappa) < one && unsafe * Unit(kappa) < unsafe * Unit(kappa - 1)
  {
    PowStep(10, -kappa);
    PowPositive(10, -kappa);
    MulMono(Unit(kappa), 1, unsafe);
    MulAssoc(unsafe, 10, Unit(kappa));
    MulStrictMono(unsafe, 0, Unit(kappa));
  }

  /** What is known between two digits. */
  ghost predicate Going(top: int, unsafe: int, digits: seq<int>, kappa: int, rest: int, one: int)
  {
    Generated(top, unsafe, digits, kappa, rest, one) && |digits| < Room(top, unsafe)
  }

  /** The digits after the binary point, until they are in the unsafe interval. */
  method FractionalDigits(low: uint64, w: uint64, high: uint64, buffer: array<int>, start: nat,
                          fractionalsStart: uint64, one: uint64)
    returns (ok: bool, length: nat, kappa: int)
    requires low + 1 <= high - 1 && low <= w <= high < W64 - 1 && 1 <= low
    requires buffer.Length >= Room(high + 1, high - low + 2)
    requires 1 <= start <= buffer.Length && 0 <= fractionalsStart < one <= 0x1000_0000_0000_0000
    requires Going(high + 1, high - low + 2, buffer[..start], 0, fractionalsStart, one)
    modifies buffer
    ensures 1 <= length <= Room(high + 1, high - low + 2)
    ensures ok ==> Shortest(low, w, high, buffer[..length], kappa, one)
  {
    hide Pow, Shortest, Generated, TenKappa, Unit, Decimal, Stopped, Room;
    var tooHigh: uint64 := high + 1;
    ghost var unsafe := high - low + 2;
    var unsafeInterval: uint64 := tooHigh - (low - 1);
    var distance: uint64 := tooHigh - w;
    var unit: uint64 := 1;
    var fractionals := fractionalsStart;
    kappa, length := 0, start;
    UnitZero();
    while true
      invariant kappa <= 0 && 1 <= length < Room(high + 1, unsafe) && unit == Unit(kappa)
      invariant unsafeInterval == unsafe * unit
      invariant 0 <= fractionals < one && Going(high + 1, unsafe, buffer[..length], kappa, fractionals, one)
      decreases one - unsafeInterval
    {
      GeneratedRest(high + 1, unsafe, buffer[..length], kappa, fractionals, one);
      NextUnit(unsafe, kappa, fractionals, one);
      fractionals := FractionalDigit(buffer, length, kappa, fractionals, one, tooHigh, unsafe, low, high);
      unit := unit * 10;
      unsafeInterval := unsafeInterval * 10;
      kappa, length := kappa - 1, length + 1;
      if fractionals < unsafeInterval {
        StoppedFits(low, w, high, buffer[..length], kappa, fractionals, one, unsafeInterval);
        var scaled: uint64 := distance * unit;
        ok := Round(low, w, high, buffer, length, kappa, fractionals, one, unit, unsafeInterval, scaled, one);
        return;
      }
      RoomForDigit(high + 1, unsafe, buffer[..length], kappa, fractionals, one);
    }
  }

  lemma UnitZero()
    ensures Unit(0) == 1
  {
  }

  lemma GeneratedRest(top: int, unsafe: int, digits: seq<int>, kappa: int, rest: int, one: int)
    requires Generated(top, unsafe, digits, kappa, rest, one)
    ensures unsafe * Unit(kappa) <= rest
  {
  }

  lemma StoppedFits(low: int, w: int, high: int, digits: seq<int>, kappa: int, rest: int, one: int, unsafe: int)
    requires Stopped(low, high, digits, kappa, rest, one) && low <= w <= high && low + 1 <= high - 1 && kappa <= 0
    requires unsafe == (high - low + 2) * Unit(kappa)
    ensures 0 <= (high + 1 - w) * Unit(kappa) <= unsafe && one == TenKappa(kappa, one)
  {
    StoppedArguments(low, w, high, digits, kappa, rest, one);
    if kappa == 0 { PowStep(10, 0); }
  }

  /**
   * Generates the digits of high + 1 until they lie in the unsafe interval, and rounds them towards w. A trusted result
   * is Shortest; no step overflows.
   */
  method DigitGen(low: DiyFp, w: DiyFp, high: DiyFp, buffer: array<int>) returns (ok: bool, length: nat, kappa: int)
    requires low.e == w.e == high.e && -60 <= w.e <= -32
    requires buffer.Length >= Room(high.f + 1, high.f - low.f + 2)
    requires 1 <= low.f <= w.f <= high.f < W64 - 1 && low.f + 1 <= high.f - 1 && high.f + 1 >= 0x4000_0000_0000_0000
    modifies buffer
    ensures 1 <= length <= Room(high.f + 1, high.f - low.f + 2)
    ensures ok ==> Shortest(low.f, w.f, high.f, buffer[..length], kappa, Pow(2, -w.e))
  {
    hide Pow, Shortest, Generated, TenKappa, Unit, Decimal, Stopped, Room;
    var tooLow: uint64, tooHigh: uint64 := low.f - 1, high.f + 1;
    var unsafe: uint64 := tooHigh - tooLow;
    var one := OneOf(-w.e);
    OneBounds(-w.e, one);
    var integrals: uint64, fractionals: uint64 := tooHigh / one, tooHigh % one;
    CutInTwo(tooHigh, -w.e, one, integrals, fractionals);
    var divisor: uint64;
    PowStep(2, 64 + w.e);
    divisor, kappa := BiggestPowerTen(integrals, 64 + w.e);
    length := 0;
    FirstDivisor(tooHigh, integrals, fractionals, one, divisor, kappa);
    FirstGenerated(tooHigh, unsafe, kappa, one);
    SomeRoom(tooHigh, unsafe);
    UnitZero();
    assert buffer[..0] == [];
    while kappa > 0
      invariant 0 <= kappa && length < Room(tooHigh, unsafe) && 0 <= integrals && 0 <= fractionals < one
      invariant (length == 0 ==> kappa > 0 && divisor <= integrals)
      invariant kappa > 0 ==> divisor == Pow(10, kappa - 1)
      invariant kappa == 0 ==> integrals == 0
      invariant integrals * one + fractionals <= tooHigh
      invariant Going(tooHigh, unsafe, buffer[..length], kappa, integrals * one + fractionals, one)
      decreases kappa
    {
      var rest, tenKappa;
      integrals, rest, tenKappa := IntegralDigit(buffer, length, kappa, integrals, fractionals, divisor, one, tooHigh,
                                                 unsafe, low.f, high.f);
      kappa, length := kappa - 1, length + 1;
      UnitOfIntegral(kappa);
      if rest < unsafe {
        ok := Round(low.f, w.f, high.f, buffer, length, kappa, rest, tenKappa, 1, unsafe, tooHigh - w.f, one);
        return;
      }
      RoomForDigit(tooHigh, unsafe, buffer[..length], kappa, rest, one);
      if kappa > 0 {
        NextDivisor(divisor, kappa);
      } else {
        NothingLeft(tooHigh, unsafe, buffer[..length], integrals, fractionals, one);
      }
      divisor := divisor / 10;
    }
    ok, length, kappa := FractionalDigits(low.f, w.f, high.f, buffer, length, fractionals, one);
  }

  lemma SomeRoom(top: int, unsafe: int)
    ensures 17 <= Room(top, unsafe) <= 20
  {
  }

  lemma UnitOfIntegral(kappa: nat)
    ensures Unit(kappa) == 1
  {
  }

  lemma NothingLeft(top: int, unsafe: int, digits: seq<int>, integrals: int, fractionals: int, one: int)
    requires Generated(top, unsafe, digits, 0, integrals * one + fractionals, one) && 0 <= fractionals < one
    requires 0 <= integrals
    ensures integrals == 0
  {
    PowStep(10, 0);
    if integrals >= 1 { MulMono(one, 1, integrals); }
  }

  // ---- what this says about exact numbers ----

  ghost predicate Near(x: real, f: int) { (f - 1) as real < x < (f + 1) as real }

  /**
   * n = b * tk is strictly between the boundaries, no multiple of ten times tk is between or on them, and no multiple
   * of tk
   * there is closer to mid.
   */
  ghost predicate ShortestBetween(lo: real, mid: real, hi: real, b: int, tk: int)
  {
    && lo < (b * tk) as real < hi
    && (forall x: int {:trigger x * (10 * tk)} :: !(lo <= (x * (10 * tk)) as real <= hi))
    && (forall x: int {:trigger x * tk} :: lo <= (x * tk) as real <= hi ==>
          Far((b * tk) as real, mid) <= Far((x * tk) as real, mid))
  }

  /** The promise of Chosen, for exact numbers instead of approximations. */
  ghost predicate ExactlyShortest(vLow: real, v: real, vHigh: real, b: int, tk: int, unit: int)
  {
    ShortestBetween(vLow * unit as real, v * unit as real, vHigh * unit as real, b, tk)
  }

  lemma RealStrictMono(m: real, x: real, y: real)
    requires 0.0 < m && x < y
    ensures x * m < y * m
  {
  }

  lemma Scaled(x: real, f: int, unit: int)
    requires Near(x, f) && unit >= 1
    ensures ((f - 1) * unit) as real < x * unit as real < ((f + 1) * unit) as real
  {
    var u := unit as real;
    IntProduct(f - 1, unit);
    IntProduct(f + 1, unit);
    RealStrictMono(u, (f - 1) as real, x);
    RealStrictMono(u, x, (f + 1) as real);
  }

  lemma Closer(below: int, above: int, mid: real, n: int, m: int)
    requires below as real < mid < above as real
    requires m < n ==> m + n <= 2 * below
    requires m > n ==> m + n >= 2 * above
    ensures Far(n as real, mid) <= Far(m as real, mid)
  {
  }

  lemma NeighbourBetween(l1: int, w1: int, w2: int, h2: int, b: int, tk: int, x: int, mid: real)
    requires tk >= 1 && w1 as real < mid < w2 as real && l1 < x * tk <= h2
    requires (x < b ==> x * tk + b * tk <= 2 * w1) && (x > b ==> x * tk + b * tk >= 2 * w2)
    ensures Far((b * tk) as real, mid) <= Far((x * tk) as real, mid)
  {
    hide Far;
    var n, m := b * tk, x * tk;
    if m < n { if x >= b { MulMono(tk, b, x); } }
    if m > n { if x <= b { MulMono(tk, x, b); } }
    Closer(w1, w2, mid, n, m);
  }

  lemma CoarserBetween(l1: int, h2: int, tk: int, lo: real, hi: real)
    requires l1 as real < lo && hi < h2 as real
    requires forall x: int {:trigger x * (10 * tk)} :: x * (10 * tk) <= l1 || h2 < x * (10 * tk)
    ensures forall x: int {:trigger x * (10 * tk)} :: !(lo <= (x * (10 * tk)) as real <= hi)
  {
    forall x: int ensures !(lo <= (x * (10 * tk)) as real <= hi) {
      var y := x * (10 * tk);
      assert y <= l1 || h2 < y;
    }
  }

  lemma NeighboursBetween(l1: int, w1: int, w2: int, h2: int, b: int, tk: int, lo: real, mid: real, hi: real)
    requires tk >= 1 && l1 as real < lo && w1 as real < mid < w2 as real && hi < h2 as real
    requires forall x: int {:trigger x * tk} :: l1 < x * tk <= h2 ==>
      (x < b ==> x * tk + b * tk <= 2 * w1) && (x > b ==> x * tk + b * tk >= 2 * w2)
    ensures forall x: int {:trigger x * tk} :: lo <= (x * tk) as real <= hi ==>
      Far((b * tk) as real, mid) <= Far((x * tk) as real, mid)
  {
    hide Far;
    forall x: int | lo <= (x * tk) as real <= hi
      ensures Far((b * tk) as real, mid) <= Far((x * tk) as real, mid)
    {
      var y := x * tk;
      assert l1 < y <= h2;
      NeighbourBetween(l1, w1, w2, h2, b, tk, x, mid);
    }
  }

  lemma ChosenBetween(l1: int, l2: int, w1: int, w2: int, h1: int, h2: int, b: int, tk: int, lo: real, mid: real,
                      hi: real)
    requires tk >= 1 && l1 as real < lo < l2 as real && w1 as real < mid < w2 as real && h1 as real < hi < h2 as real
    requires l2 <= b * tk <= h1
    requires forall x: int {:trigger x * (10 * tk)} :: x * (10 * tk) <= l1 || h2 < x * (10 * tk)
    requires forall x: int {:trigger x * tk} :: l1 < x * tk <= h2 ==>
      (x < b ==> x * tk + b * tk <= 2 * w1) && (x > b ==> x * tk + b * tk >= 2 * w2)
    ensures ShortestBetween(lo, mid, hi, b, tk)
  {
    CoarserBetween(l1, h2, tk, lo, hi);
    NeighboursBetween(l1, w1, w2, h2, b, tk, lo, mid, hi);
  }

  /** Whatever the exact numbers within one unit of low, w and high are, the choice is right for them. */
  lemma ChosenExactly(low: int, w: int, high: int, b: int, tk: int, unit: int, vLow: real, v: real, vHigh: real)
    requires Chosen(low, w, high, b, tk, unit) && tk >= 1 && unit >= 1 && Near(vLow, low) && Near(v, w)
    requires Near(vHigh, high)
    ensures ExactlyShortest(vLow, v, vHigh, b, tk, unit)
  {
    hide Near, ShortestBetween;
    Scaled(vLow, low, unit);
    Scaled(v, w, unit);
    Scaled(vHigh, high, unit);
    ChosenBetween((low - 1) * unit, (low + 1) * unit, (w - 1) * unit, (w + 1) * unit, (high - 1) * unit,
                  (high + 1) * unit,
                  b, tk, vLow * unit as real, v * unit as real, vHigh * unit as real);
  }

  // ---- no shorter string ----

  /** Both scales, brought to the common denominator 10^m. */
  lemma CommonScale(kappa: int, one: int, m: nat) returns (t: nat)
    requires kappa + m >= 0
    ensures Unit(kappa) * Pow(10, t) == Pow(10, m) && TenKappa(kappa, one) * Pow(10, t) == Pow(10, kappa + m) * one
  {
    hide Pow;
    if kappa >= 0 {
      t := m;
      PowAdd(10, kappa, m);
      Reassociate(Pow(10, kappa), Pow(10, m), one);
    } else {
      t := m + kappa;
      PowAdd(10, -kappa, t);
    }
  }

  lemma Reassociate(x: int, y: int, z: int)
    ensures (x * y) * z == (x * z) * y
  {
    MulAssoc(x, y, z);
    MulAssoc(x, z, y);
  }

  lemma CoarserScaled(low: int, high: int, tk: int, unit: int, x: int, s: int, y: int)
    requires NoCoarser(low, high, tk, unit) && s >= 1 && y == x * ((10 * tk) * s)
    ensures y <= (low - 1) * (unit * s) || y > (high + 1) * (unit * s)
  {
    MulAssoc(x, 10 * tk, s);
    MulAssoc(low - 1, unit, s);
    MulAssoc(high + 1, unit, s);
    if x * (10 * tk) <= (low - 1) * unit {
      MulMono(s, x * (10 * tk), (low - 1) * unit);
    } else {
      MulStrictMono(s, (high + 1) * unit, x * (10 * tk));
    }
  }

  /** A trusted result is as short as any: whatever number d * 10^k is in the unsafe interval, d has as many digits. */
  lemma NoShorterString(low: int, w: int, high: int, digits: seq<int>, kappa: int, one: int, d: int, k: int, m: nat)
    requires Shortest(low, w, high, digits, kappa, one) && one >= 1 && d >= 1 && k + m >= 0 && kappa + m >= 0
    requires (low - 1) * Pow(10, m) < d * (Pow(10, k + m) * one) <= (high + 1) * Pow(10, m)
    ensures d >= Pow(10, |digits| - 1)
  {
    var n := |digits|;
    var t := CommonScale(kappa, one, m);
    var tk, unit, s := TenKappa(kappa, one), Unit(kappa), Pow(10, t);
    PowPositive(10, t);
    if d < Pow(10, n - 1) {
      if k > kappa {
        PowAdd(10, k - kappa - 1, kappa + m + 1);
        PowStep(10, kappa + m);
        hide Pow, TenKappa, Unit, Shortest;
        ShortestParts(low, w, high, digits, kappa, one);
        var x := d * Pow(10, k - kappa - 1);
        LongerValue(d, Pow(10, k - kappa - 1), Pow(10, kappa + m), one, tk, s);
        CoarserScaled(low, high, tk, unit, x, s, d * (Pow(10, k + m) * one));
      } else {
        ShorterBelow(low, w, high, digits, kappa, one, d, k, m, t);
      }
    }
  }

  lemma ShortestParts(low: int, w: int, high: int, digits: seq<int>, kappa: int, one: int)
    requires Shortest(low, w, high, digits, kappa, one)
    ensures NoCoarser(low, high, TenKappa(kappa, one), Unit(kappa))
    ensures Decimal(digits) * TenKappa(kappa, one) <= (high - 1) * Unit(kappa)
    ensures Pow(10, |digits| - 1) <= Decimal(digits)
  {
    DecimalBounds(digits);
  }

  lemma LongerValue(d: int, q: int, p: int, one: int, tk: int, s: int)
    requires tk * s == p * one
    ensures d * ((q * (10 * p)) * one) == (d * q) * ((10 * tk) * s)
  {
    MulAssoc(10, tk, s);
    MulAssoc(10, p, one);
    MulAssoc(q, 10 * p, one);
    MulAssoc(d, q, (10 * p) * one);
  }

  /** A shorter number with a smaller exponent would put a power of ten into the interval. */
  lemma ShorterBelow(low: int, w: int, high: int, digits: seq<int>, kappa: int, one: int, d: int, k: int, m: nat,
                     t: nat)
    requires Shortest(low, w, high, digits, kappa, one) && one >= 1 && 1 <= d < Pow(10, |digits| - 1) && k + m >= 0
    requires k <= kappa
    requires Unit(kappa) * Pow(10, t) == Pow(10, m) && TenKappa(kappa, one) * Pow(10, t) == Pow(10, kappa + m) * one
    ensures d * (Pow(10, k + m) * one) <= (low - 1) * Pow(10, m)
  {
    hide Pow, TenKappa, Unit, Shortest, Decimal;
    var n := |digits|;
    var tk, unit, s := TenKappa(kappa, one), Unit(kappa), Pow(10, t);
    NextScale(kappa + 1, one);
    PowPositive(10, t);
    ShortestParts(low, w, high, digits, kappa, one);
    assert n >= 2 by { PowStep(10, 0); ShortestDigits(low, w, high, digits, kappa, one); }
    PowStep(10, n - 2);
    PowMono(10, k + m, kappa + m);
    PowPositive(10, k + m);
    PowPositive(10, n - 2);
    var x, p := Pow(10, n - 2), Pow(10, kappa + m);
    CoarserScaled(low, high, tk, unit, x, s, x * ((10 * tk) * s));
    PowerInside(x, d, Pow(10, k + m), p, one, tk, s);
    PowerBelowTop(x, Decimal(digits), tk, unit, s, high);
  }

  lemma PowerBelowTop(x: int, b: int, tk: int, unit: int, s: int, high: int)
    requires 10 * x <= b && tk >= 1 && unit >= 1 && s >= 1 && b * tk <= (high - 1) * unit
    ensures x * ((10 * tk) * s) <= (high + 1) * (unit * s)
  {
    MulMono(tk, 10 * x, b);
    MulMono(unit, high - 1, high + 1);
    MulMono(s, (10 * x) * tk, (high + 1) * unit);
    MulAssoc(high + 1, unit, s);
    MulAssoc(10, x, tk);
    MulAssoc(x, 10 * tk, s);
    MulAssoc(x, 10, tk);
  }

  lemma PowerInside(x: int, d: int, low: int, p: int, one: int, tk: int, s: int)
    requires d <= 10 * x && 1 <= low <= p && one >= 1 && x >= 0 && tk * s == p * one
    ensures d * (low * one) <= x * ((10 * tk) * s)
  {
    MulMono(one, low, p);
    MulMono(one, 0, low);
    MulMono(low * one, d, 10 * x);
    MulMono(10 * x, low * one, p * one);
    MulAssoc(10, tk, s);
    MulAssoc(x, 10, p * one);
  }

  // ---- the whole algorithm ----

  ghost function RoundedProduct(m: int, c: int): int { (m * c + W64 / 2) / W64 }

  lemma RoundedProductBounds(m: int, c: int)
    ensures var r := RoundedProduct(m, c); m * c - W64 / 2 < r * W64 <= m * c + W64 / 2
  {
  }

  /** The rounded product is within one unit of the exact one even if the factor is off by half a unit. */
  lemma ScaledNear(m: int, c: int, t: real)
    requires 0 <= m < W64 && c as real - 0.5 <= t <= c as real + 0.5
    ensures Near(m as real * t / W64 as real, RoundedProduct(m, c))
  {
    RoundedProductBounds(m, c);
    NearProduct(m as real, c as real, t, (m * c) as real, RoundedProduct(m, c));
  }

  lemma NearProduct(m: real, c: real, t: real, p: real, r: int)
    requires 0.0 <= m < W64 as real && c - 0.5 <= t <= c + 0.5 && p == m * c
    requires p - (W64 / 2) as real < (r * W64) as real <= p + (W64 / 2) as real
    ensures Near(m * t / W64 as real, r)
  {
    var x, big := m * t, 18446744073709551616.0;
    RealMul(m, c, t, p, x);
    assert W64 as real == big;
    var y := x / big;
    assert (r * W64) as real == r as real * big;
    assert (W64 / 2) as real == 9223372036854775808.0;
    assert p - 0.5 * m <= x <= p + 0.5 * m;
    var z := r as real * big;
    assert z - big < x < z + big;
    assert (r - 1) as real * big == z - big && (r + 1) as real * big == z + big;
    LessByQuotient((r - 1) as real, y, big);
    LessByQuotient(y, (r + 1) as real, big);
  }

  lemma LessByQuotient(x: real, y: real, z: real)
    requires z > 0.0 && x * z < y * z
    ensures x < y
  {
  }

  lemma RealMul(m: real, c: real, t: real, p: real, x: real)
    requires 0.0 <= m && c - 0.5 <= t <= c + 0.5 && p == m * c && x == m * t
    ensures p - 0.5 * m <= x <= p + 0.5 * m
  {
    var d := t - c;
    RealDist(m, c, d, t);
    RealMono(m, -0.5, d, m * -0.5, m * d);
    RealMono(m, d, 0.5, m * d, m * 0.5);
  }

  lemma RealDist(m: real, c: real, d: real, t: real)
    requires t == c + d
    ensures m * t == m * c + m * d
  {
  }

  lemma RealMono(m: real, x: real, y: real, mx: real, my: real)
    requires 0.0 <= m && x <= y && mx == m * x && my == m * y
    ensures mx <= my
  {
  }

  /** The scaled boundaries are in the range digit generation asks for. */
  lemma ScaledBoundaries(minus: int, w: int, plus: int, c: int)
    requires W64 / 4 <= minus <= w <= plus < W64 && W64 / 2 <= plus && W64 / 2 <= c < W64
    requires plus - minus >= 1536 && (plus - minus) * 10000000000000000 >= plus
    ensures var low, mid, high := RoundedProduct(minus, c), RoundedProduct(w, c), RoundedProduct(plus, c);
      && 1 <= low <= mid <= high < W64 - 1 && low + 1 <= high - 1 && high + 1 >= 0x4000_0000_0000_0000
      && (high - low + 2) * 10000000000000000 >= high + 1
  {
    RoundedProductBounds(minus, c);
    RoundedProductBounds(w, c);
    RoundedProductBounds(plus, c);
    MulMono(c, minus, w);
    MulMono(c, w, plus);
    MulMono(plus, c, W64 - 1);
    MulMono(c, plus, W64 - 1);
    MulMono(c, W64 / 4, minus);
    MulMono(c, W64 / 2, plus);
    Dist(plus, minus, c);
    MulMono(c, 1536, plus - minus);
    MulMono(c, plus, (plus - minus) * 10000000000000000);
    MulAssoc(10000000000000000, plus - minus, c);
    hide RoundedProduct;
    Ordered(minus * c, w * c, plus * c, c, RoundedProduct(minus, c), RoundedProduct(w, c), RoundedProduct(plus, c));
  }

  lemma Ordered(a: int, b: int, d: int, c: int, low: int, mid: int, high: int)
    requires a - W64 / 2 < low * W64 <= a + W64 / 2 && b - W64 / 2 < mid * W64 <= b + W64 / 2
    requires d - W64 / 2 < high * W64 <= d + W64 / 2
    requires W64 / 2 <= c && a <= b <= d <= (W64 - 1) * (W64 - 1) && a >= W64 / 4 * c && d >= W64 / 2 * c
    requires d - a >= 1536 * c && 10000000000000000 * (d - a) >= d
    ensures 1 <= low <= mid <= high < W64 - 1 && low + 1 <= high - 1 && high + 1 >= 0x4000_0000_0000_0000
    ensures (high - low + 2) * 10000000000000000 >= high + 1
  {
  }

  ghost predicate InRange(v: Double, exponent: int)
  {
    forall s: nat :: 0x8000_0000_0000_0000 <= v.f * Pow(2, s) < W64 ==> -60 <= v.e - s + exponent + 64 <= -32
  }

  /** m scaled by the exact power of ten, in last places of the scaled number. */
  ghost function Exact(m: int, t: real): real { m as real * t / W64 as real }

  /**
   * Shortest digits of v. tenMk approximates 10^mk to within half a unit of its last place. If the result is trusted,
   * it is
   * what exact arithmetic gives.
   */
  method Grisu3(v: Double, tenMk: DiyFp, mk: int, buffer: array<int>)
    returns (ok: bool, length: nat, decimalExponent: int)
    requires v.Valid() && 0x8000_0000_0000_0000 <= tenMk.f && InRange(v, tenMk.e) && CachedPower(tenMk.f, tenMk.e, mk)
    requires buffer.Length >= 17
    modifies buffer
    ensures 1 <= length <= 17 && (ok ==> ShortestFor(v, buffer[..length], decimalExponent))
  {
    hide Pow, Decimal, TenKappa, Unit, RoundedProduct, Shortest, ShortestFor, CachedPower;
    var w, mMinus, mPlus;
    ghost var shift;
    w, shift := AsNormalizedDiyFp(v);
    mMinus, mPlus := NormalizedBoundaries(v, shift);
    BoundaryDistance(v, shift);
    ghost var c := tenMk.f;
    var scaledW := Times(w, tenMk);
    var scaledMinus := Times(mMinus, tenMk);
    var scaledPlus := Times(mPlus, tenMk);
    TimesRounds(w.f, c, scaledW.f);
    TimesRounds(mMinus.f, c, scaledMinus.f);
    TimesRounds(mPlus.f, c, scaledPlus.f);
    ScaledBoundaries(mMinus.f, w.f, mPlus.f, c);
    assert -60 <= v.e - shift + tenMk.e + 64 <= -32;
    var kappa;
    ok, length, kappa := DigitGen(scaledMinus, scaledW, scaledPlus, buffer);
    decimalExponent := kappa - mk;
    if ok {
      assert shift - v.e - tenMk.e - 64 == -scaledW.e;
      GrisuShortest(v, c, tenMk.e, mk, shift, buffer[..length], kappa);
    }
  }

  // ---- what this says about the double ----

  /** Positive factors do not change which of two numbers is closer to a third. */
  lemma FarScaled(x: real, y: real, z: real)
    requires z > 0.0
    ensures Far(x * z, y * z) == Far(x, y) * z
  {
    CompareScaled(x, y, z);
  }

  /** The two scales of the digits make up the power of ten, in units of one. */
  lemma ScaleOfDigits(kappa: int, one: int)
    requires one >= 1
    ensures TenKappa(kappa, one) as real == RPow(10, kappa) * one as real * Unit(kappa) as real && Unit(kappa) >= 1
  {
    hide Pow;
    PowPositive(10, if kappa < 0 then -kappa else kappa);
    if kappa >= 0 {
      IntProduct(Pow(10, kappa), one);
    } else {
      var u := Pow(10, -kappa) as real;
      Inverse(u);
      RealAssoc(1.0 / u, one as real, u);
      RealAssoc(one as real, 1.0 / u, u);
    }
  }

  /** A decimal number in last places of the scaled number: x is an integer number of tk. */
  lemma DecimalScaled(x: int, kappa: int, mk: int, one: int, S: real)
    requires one >= 1 && S == RPow(10, mk) * one as real
    ensures DecimalValue(x, kappa - mk) * S * Unit(kappa) as real == (x * TenKappa(kappa, one)) as real
  {
    hide RPow, Unit, TenKappa;
    ScaleOfDigits(kappa, one);
    RPowMul(10, kappa - mk, mk);
    IntProduct(x, TenKappa(kappa, one));
    var y, p, q, o, u := x as real, RPow(10, kappa - mk), RPow(10, mk), one as real, Unit(kappa) as real;
    FourFactors(y, p, q, o, u, TenKappa(kappa, one) as real);
  }

  lemma FourFactors(y: real, p: real, q: real, o: real, u: real, tk: real)
    requires tk == (p * q) * o * u
    ensures (y * p) * (q * o) * u == y * tk
  {
    RealAssoc(y, p, q * o);
    RealAssoc(p, q, o);
    RealAssoc(y, (p * q) * o, u);
  }

  /** m quarters of the last place of v, scaled: the exact product is the quarters times the scale. */
  lemma QuartersScaled(m: int, v: Double, te: int, mk: int, shift: nat, E: nat, S: real)
    requires shift >= 2 && E == shift - v.e - te - 64 && S == RPow(10, mk) * Pow(2, E) as real
    ensures Exact(m * Pow(2, shift - 2), RPow(10, mk) * RPow(2, -te)) == (m as real * RPow(2, v.e - 2)) * S
  {
    hide RPow, Pow, RealPow;
    var p, T := Pow(2, shift - 2), RPow(2, -te);
    RealPowIs(2, shift - 2);
    RealPowIs(2, E);
    RealPowIs(2, 64);
    TwoTo64();
    RPowMul(2, shift - 2, -te);
    RPowMul(2, v.e - 2, E);
    RPowMul(2, v.e - 2 + E, 64);
    IntProduct(m, p);
    var x, y, z, a, b := m as real, p as real, RPow(10, mk), RPow(2, v.e - 2), Pow(2, E) as real;
    assert y * T == a * b * 18446744073709551616.0;
    ExactProduct(x, y, z, T, a, b, 18446744073709551616.0);
  }

  lemma ExactProduct(x: real, y: real, z: real, t: real, a: real, b: real, w: real)
    requires w > 0.0 && y * t == a * b * w
    ensures (x * y) * (z * t) / w == (x * a) * (z * b)
  {
    assert (x * y) * (z * t) == ((x * a) * (z * b)) * w by {
      RealAssoc(x, y, z * t);
      RealAssoc(y, z, t);
      RealAssoc(z, y, t);
      assert y * (z * t) == z * (y * t);
      assert (x * y) * (z * t) == x * (z * (y * t));
      SixFactors(x, z, a, b, w);
    }
    Quotient((x * a) * (z * b), w);
  }

  lemma SixFactors(x: real, z: real, a: real, b: real, w: real)
    ensures x * (z * (a * b * w)) == ((x * a) * (z * b)) * w
  {
    RealAssoc(z, a * b, w);
    RealAssoc(x, z * (a * b), w);
    RealAssoc(z, a, b);
    RealAssoc(a, z, b);
    RealAssoc(x, a, z * b);
  }

  lemma Quotient(n: real, w: real)
    requires w > 0.0
    ensures n * w / w == n
  {
  }

  /** The scale from v to the numbers that digit generation works on. */
  lemma ScalePositive(mk: int, one: int) returns (S: real)
    requires one >= 1
    ensures S == RPow(10, mk) * one as real && S > 0.0
  {
    RPowPositive(10, mk);
    S := RPow(10, mk) * one as real;
    ScaleUp(0.0, one as real, RPow(10, mk));
  }

  /** low, mid and high are the rounding interval and the value of v, scaled; b and the tk are for the digits. */
  ghost predicate ScaledTo(v: Double, exponent: int, z: real, lo: real, mid: real, hi: real, tk: int)
  {
    && z > 0.0 && lo == Lower(v) * z && mid == Value(v) * z && hi == Upper(v) * z
    && forall x: int {:trigger x * tk} :: DecimalValue(x, exponent) * z == (x * tk) as real
  }

  lemma InsideScaled(v: Double, exponent: int, z: real, lo: real, mid: real, hi: real, tk: int, x: int)
    requires ScaledTo(v, exponent, z, lo, mid, hi, tk)
    ensures RoundsTo(DecimalValue(x, exponent), v) ==> lo <= (x * tk) as real <= hi
    ensures lo < (x * tk) as real < hi ==> RoundsTo(DecimalValue(x, exponent), v)
  {
    hide Lower, Upper, Value, DecimalValue;
    var y := DecimalValue(x, exponent);
    assert y * z == (x * tk) as real;
    CompareScaled(Lower(v), y, z);
    CompareScaled(y, Upper(v), z);
  }

  lemma ClosestScaled(v: Double, exponent: int, z: real, lo: real, mid: real, hi: real, tk: int, b: int, x: int)
    requires ScaledTo(v, exponent, z, lo, mid, hi, tk) && ShortestBetween(lo, mid, hi, b, tk)
    requires RoundsTo(DecimalValue(x, exponent), v)
    ensures Far(DecimalValue(b, exponent), Value(v)) <= Far(DecimalValue(x, exponent), Value(v))
  {
    hide Lower, Upper, Value, DecimalValue, Far, RoundsTo;
    InsideScaled(v, exponent, z, lo, mid, hi, tk, x);
    var m, n := b * tk, x * tk;
    assert Far(m as real, mid) <= Far(n as real, mid);
    FarDivided(DecimalValue(b, exponent), DecimalValue(x, exponent), Value(v), z, m as real, n as real, mid);
  }

  lemma FarDivided(x: real, y: real, val: real, z: real, m: real, n: real, mid: real)
    requires z > 0.0 && m == x * z && n == y * z && mid == val * z && Far(m, mid) <= Far(n, mid)
    ensures Far(x, val) <= Far(y, val)
  {
    hide Far;
    FarScaled(x, val, z);
    FarScaled(y, val, z);
    CompareScaled(Far(x, val), Far(y, val), z);
  }

  /** The scaled interval of v, and the digits in it. */
  lemma ExactInterval(v: Double, c: int, te: int, mk: int, shift: nat, digits: seq<int>, kappa: int, one: int, S: real)
    returns (lo: real, mid: real, hi: real)
    requires v.Valid() && shift >= 2 && shift - v.e - te - 64 >= 0 && one == Pow(2, shift - v.e - te - 64)
    requires CachedPower(c, te, mk)
    requires S == RPow(10, mk) * one as real && one >= 1
    requires var p := Pow(2, shift - 2);
      0 <= LowerQuarters(v) * p < W64 && 0 <= 4 * v.f * p < W64 && 0 <= UpperQuarters(v) * p < W64
      && Shortest(RoundedProduct(LowerQuarters(v) * p, c), RoundedProduct(4 * v.f * p, c),
                  RoundedProduct(UpperQuarters(v) * p, c),
                  digits, kappa, one)
    ensures lo == Lower(v) * S && mid == Value(v) * S && hi == Upper(v) * S
    ensures ExactlyShortest(lo, mid, hi, Decimal(digits), TenKappa(kappa, one), Unit(kappa))
  {
    hide RPow, Pow, RealPow, RoundedProduct, Shortest, Unit, TenKappa, Exact, ExactlyShortest, Decimal;
    var p, t, E := Pow(2, shift - 2), RPow(10, mk) * RPow(2, -te), shift - v.e - te - 64;
    ShortestExactly(LowerQuarters(v) * p, 4 * v.f * p, UpperQuarters(v) * p, c, t, digits, kappa, one);
    QuartersScaled(LowerQuarters(v), v, te, mk, shift, E, S);
    QuartersScaled(4 * v.f, v, te, mk, shift, E, S);
    QuartersScaled(UpperQuarters(v), v, te, mk, shift, E, S);
    lo, mid, hi := Exact(LowerQuarters(v) * p, t), Exact(4 * v.f * p, t), Exact(UpperQuarters(v) * p, t);
    FourQuarters(v);
  }

  lemma FourQuarters(v: Double)
    ensures (4 * v.f) as real * RPow(2, v.e - 2) == Value(v)
  {
    hide RPow;
    RPowAdd(2, v.e - 2, 2);
    PowStep(2, 0);
    PowStep(2, 1);
    assert RealPow(2, 2) == 4.0;
    IntProduct(4, v.f);
    RealAssoc(v.f as real, RPow(2, v.e - 2), 4.0);
    RealAssoc(4.0, v.f as real, RPow(2, v.e - 2));
  }

  lemma ExactScaled(v: Double, exponent: int, kappa: int, mk: int, one: int, S: real, lo: real, mid: real, hi: real)
    returns (z: real)
    requires exponent == kappa - mk && one >= 1 && S == RPow(10, mk) * one as real && S > 0.0
    requires lo == Lower(v) * S && mid == Value(v) * S && hi == Upper(v) * S
    ensures var u := Unit(kappa) as real; ScaledTo(v, exponent, z, lo * u, mid * u, hi * u, TenKappa(kappa, one))
  {
    hide RPow, Unit, TenKappa, Lower, Upper, Value, DecimalValue;
    ScaleOfDigits(kappa, one);
    var u := Unit(kappa) as real;
    z := S * u;
    ScaleUp(0.0, S, u);
    forall x: int ensures DecimalValue(x, exponent) * z == (x * TenKappa(kappa, one)) as real {
      DecimalScaled(x, kappa, mk, one, S);
      RealAssoc(DecimalValue(x, exponent), S, u);
    }
    RealAssoc(Lower(v), S, u);
    RealAssoc(Value(v), S, u);
    RealAssoc(Upper(v), S, u);
  }

  /** d * 10^k, scaled from v to the numbers of digit generation, over the common denominator 10^m. */
  lemma CandidateScaled(d: int, k: int, mk: int, one: int, S: real, m: nat)
    requires one >= 1 && S == RPow(10, mk) * one as real && k + mk + m >= 0
    ensures DecimalValue(d, k) * S * Pow(10, m) as real == (d * (Pow(10, k + mk + m) * one)) as real
  {
    hide RPow, Pow, RealPow;
    RPowMul(10, k, mk);
    RPowMul(10, k + mk, m);
    RealPowIs(10, m);
    RealPowIs(10, k + mk + m);
    IntProduct(Pow(10, k + mk + m), one);
    IntProduct(d, Pow(10, k + mk + m) * one);
    var y, p, q, o, u := d as real, RPow(10, k), RPow(10, mk), one as real, Pow(10, m) as real;
    RealAssoc(p * q, u, o);
    RealAssoc(p * q, o, u);
    RealAssoc(u, o, 1.0);
    FourFactors(y, p, q, o, u, (Pow(10, k + mk + m) * one) as real);
  }

  lemma StrictlyBetween(low: int, high: int, lo: real, x: real, hi: real, n: int, q: int)
    requires q >= 1 && Near(lo, low) && Near(hi, high) && lo <= x <= hi && x * q as real == n as real
    ensures (low - 1) * q < n <= (high + 1) * q
  {
    IntProduct(low - 1, q);
    IntProduct(high + 1, q);
    ScaleUp((low - 1) as real, x, q as real);
    ScaleUp(x, (high + 1) as real, q as real);
  }

  /** No decimal number with fewer digits rounds to v. */
  lemma NoneShorterFor(v: Double, mk: int, digits: seq<int>, kappa: int, one: int, S: real, low: int, w: int,
                       high: int, d: int, k: int)
    requires Shortest(low, w, high, digits, kappa, one) && one >= 1 && S == RPow(10, mk) * one as real && S > 0.0
    requires Near(Lower(v) * S, low) && Near(Upper(v) * S, high) && d >= 1 && RoundsTo(DecimalValue(d, k), v)
    ensures d >= Pow(10, |digits| - 1)
  {
    hide RPow, Pow, RealPow, Shortest, Near, Lower, Upper, DecimalValue;
    var n := k + mk;
    var m: nat := (if n < 0 then -n else n) + (if kappa < 0 then -kappa else kappa);
    var x := DecimalValue(d, k);
    CompareScaled(Lower(v), x, S);
    CompareScaled(x, Upper(v), S);
    CandidateScaled(d, k, mk, one, S, m);
    PowPositive(10, m);
    StrictlyBetween(low, high, Lower(v) * S, x * S, Upper(v) * S, d * (Pow(10, k + mk + m) * one), Pow(10, m));
    NoShorterString(low, w, high, digits, kappa, one, d, n, m);
  }

  /** The digits that Grisu3 trusts are the shortest and closest ones for v. */
  lemma GrisuShortest(v: Double, c: int, te: int, mk: int, shift: nat, digits: seq<int>, kappa: int)
    requires v.Valid() && shift >= 2 && shift - v.e - te - 64 >= 0 && CachedPower(c, te, mk)
    requires var p := Pow(2, shift - 2);
      0 <= LowerQuarters(v) * p < W64 && 0 <= 4 * v.f * p < W64 && 0 <= UpperQuarters(v) * p < W64
      && Shortest(RoundedProduct(LowerQuarters(v) * p, c), RoundedProduct(4 * v.f * p, c),
                  RoundedProduct(UpperQuarters(v) * p, c),
                  digits, kappa, Pow(2, shift - v.e - te - 64))
    ensures ShortestFor(v, digits, kappa - mk)
  {
    hide RPow, Pow, RealPow, RoundedProduct, Shortest, Unit, TenKappa, Exact, ShortestBetween, Decimal, Near,
      CachedPower, RoundsTo, Lower,
      Upper, Value, Far, DecimalValue, ScaledTo;
    var E := shift - v.e - te - 64;
    var p, one := Pow(2, shift - 2), Pow(2, E);
    PowPositive(2, E);
    var S := ScalePositive(mk, one);
    var minus, w, plus := LowerQuarters(v) * p, 4 * v.f * p, UpperQuarters(v) * p;
    ShortestDigits(RoundedProduct(minus, c), RoundedProduct(w, c), RoundedProduct(plus, c), digits, kappa, one);
    var lo, mid, hi := ExactInterval(v, c, te, mk, shift, digits, kappa, one, S);
    var z := ExactScaled(v, kappa - mk, kappa, mk, one, S, lo, mid, hi);
    AllClosest(v, kappa - mk, z, lo * Unit(kappa) as real, mid * Unit(kappa) as real, hi * Unit(kappa) as real,
               TenKappa(kappa, one),
               Decimal(digits));
    EndsNear(v, c, te, mk, shift, S);
    forall d: int, k: int | d >= 1 && RoundsTo(DecimalValue(d, k), v) ensures d >= Pow(10, |digits| - 1) {
      NoneShorterFor(v, mk, digits, kappa, one, S, RoundedProduct(minus, c), RoundedProduct(w, c),
                     RoundedProduct(plus, c), d, k);
    }
  }

  lemma AllClosest(v: Double, exponent: int, z: real, lo: real, mid: real, hi: real, tk: int, b: int)
    requires ScaledTo(v, exponent, z, lo, mid, hi, tk) && ShortestBetween(lo, mid, hi, b, tk)
    ensures RoundsTo(DecimalValue(b, exponent), v)
    ensures forall x: int :: RoundsTo(DecimalValue(x, exponent), v) ==>
      Far(DecimalValue(b, exponent), Value(v)) <= Far(DecimalValue(x, exponent), Value(v))
  {
    hide ScaledTo, ShortestBetween, DecimalValue, RoundsTo, Far, Value;
    BestInside(v, exponent, z, lo, mid, hi, tk, b);
    forall x: int | RoundsTo(DecimalValue(x, exponent), v)
      ensures Far(DecimalValue(b, exponent), Value(v)) <= Far(DecimalValue(x, exponent), Value(v))
    {
      ClosestScaled(v, exponent, z, lo, mid, hi, tk, b, x);
    }
  }

  lemma BestInside(v: Double, exponent: int, z: real, lo: real, mid: real, hi: real, tk: int, b: int)
    requires ScaledTo(v, exponent, z, lo, mid, hi, tk) && ShortestBetween(lo, mid, hi, b, tk)
    ensures RoundsTo(DecimalValue(b, exponent), v)
  {
    hide ScaledTo, DecimalValue, RoundsTo;
    InsideScaled(v, exponent, z, lo, mid, hi, tk, b);
  }

  /** The ends of the scaled interval are within one unit of what digit generation was given. */
  lemma EndsNear(v: Double, c: int, te: int, mk: int, shift: nat, S: real)
    requires v.Valid() && shift >= 2 && shift - v.e - te - 64 >= 0 && CachedPower(c, te, mk)
    requires S == RPow(10, mk) * Pow(2, shift - v.e - te - 64) as real
    requires var p := Pow(2, shift - 2); 0 <= LowerQuarters(v) * p < W64 && 0 <= UpperQuarters(v) * p < W64
    ensures var p := Pow(2, shift - 2);
      Near(Lower(v) * S, RoundedProduct(LowerQuarters(v) * p, c))
        && Near(Upper(v) * S, RoundedProduct(UpperQuarters(v) * p, c))
  {
    hide RPow, Pow, RealPow, RoundedProduct, Near, CachedPower, LowerQuarters, UpperQuarters;
    EndNear(LowerQuarters(v), v, c, te, mk, shift, S, Lower(v), Lower(v) * S);
    EndNear(UpperQuarters(v), v, c, te, mk, shift, S, Upper(v), Upper(v) * S);
  }

  lemma EndNear(m: int, v: Double, c: int, te: int, mk: int, shift: nat, S: real, x: real, y: real)
    requires shift >= 2 && shift - v.e - te - 64 >= 0 && CachedPower(c, te, mk)
    requires S == RPow(10, mk) * Pow(2, shift - v.e - te - 64) as real && 0 <= m * Pow(2, shift - 2) < W64
    requires x == m as real * RPow(2, v.e - 2) && y == x * S
    ensures Near(y, RoundedProduct(m * Pow(2, shift - 2), c))
  {
    hide RPow, Pow, RealPow, RoundedProduct, Near, Exact, CachedPower;
    var t := PowerOf(c, te, mk);
    QuartersScaled(m, v, te, mk, shift, shift - v.e - te - 64, S);
    ExactNear(m * Pow(2, shift - 2), c, t, y);
  }

  lemma ExactNear(m: int, c: int, t: real, y: real)
    requires 0 <= m < W64 && c as real - 0.5 <= t <= c as real + 0.5 && y == Exact(m, t)
    ensures Near(y, RoundedProduct(m, c))
  {
    hide Near, RoundedProduct;
    ScaledNear(m, c, t);
  }

  lemma TimesRounds(m: int, c: int, r: int)
    requires r == (m * c + W64 / 2) / W64
    ensures r == RoundedProduct(m, c)
  {
  }

  lemma ShortestDigits(low: int, w: int, high: int, digits: seq<int>, kappa: int, one: int)
    requires Shortest(low, w, high, digits, kappa, one)
    ensures |digits| >= 1 && IsDecimal(digits) && digits[0] >= 1 && digits[|digits| - 1] >= 1
  {
  }

  lemma ShortestExactly(minus: int, w: int, plus: int, c: int, t: real, digits: seq<int>, kappa: int, one: int)
    requires 0 <= minus < W64 && 0 <= w < W64 && 0 <= plus < W64 && c as real - 0.5 <= t <= c as real + 0.5 && one >= 1
    requires Shortest(RoundedProduct(minus, c), RoundedProduct(w, c), RoundedProduct(plus, c), digits, kappa, one)
    ensures ExactlyShortest(Exact(minus, t), Exact(w, t), Exact(plus, t), Decimal(digits), TenKappa(kappa, one),
                            Unit(kappa))
  {
    ScaledNear(minus, c, t);
    ScaledNear(w, c, t);
    ScaledNear(plus, c, t);
    NextScale(kappa + 1, one);
    hide RoundedProduct, Near, Chosen, TenKappa, Unit, ExactlyShortest;
    ChosenExactly(RoundedProduct(minus, c), RoundedProduct(w, c), RoundedProduct(plus, c), Decimal(digits),
                  TenKappa(kappa, one), Unit(kappa), Exact(minus, t), Exact(w, t), Exact(plus, t));
  }

  /** The boundaries of a double are far enough apart for seventeen digits. */
  lemma BoundaryDistance(v: Double, shift: nat)
    requires v.Valid() && 11 <= shift <= 63 && 0x8000_0000_0000_0000 <= v.f * Pow(2, shift) < W64
    ensures var p := Pow(2, shift - 2);
      var minus, w, plus := LowerQuarters(v) * p, 4 * v.f * p, UpperQuarters(v) * p;
      && w == v.f * Pow(2, shift) && W64 / 4 <= minus <= w <= plus < W64 && W64 / 2 <= plus
      && plus - minus >= 1536 && (plus - minus) * 10000000000000000 >= plus
  {
    hide Pow;
    PowStep(2, shift - 1);
    PowStep(2, shift - 2);
    TwoTo52();
    PowMono(2, 9, shift - 2);
    UpperFits(v.f, shift);
    QuarterDistance(v.f, LowerQuarters(v), Pow(2, shift - 2));
  }

  lemma QuarterDistance(f: int, lower: int, p: int)
    requires p >= 512 && 0 < f < 2 * HIDDEN_BIT && lower <= 4 * f && 2 * lower >= 4 * f
    requires lower == 4 * f - 2 || (lower == 4 * f - 1 && f == HIDDEN_BIT)
    requires W64 / 2 <= f * (2 * (2 * p)) && (2 * f + 1) * (2 * p) < W64
    ensures 4 * f * p == f * (2 * (2 * p)) && W64 / 4 <= lower * p <= 4 * f * p <= (4 * f + 2) * p < W64
    ensures W64 / 2 <= (4 * f + 2) * p
    ensures (4 * f + 2) * p - lower * p >= 1536
    ensures ((4 * f + 2) * p - lower * p) * 10000000000000000 >= (4 * f + 2) * p
  {
    var d, x, y := 4 * f + 2 - lower, lower * p, f * p;
    assert 4 * f * p == 4 * y && f * (2 * (2 * p)) == 4 * y by { FourTimes(f, p); }
    assert (4 * f + 2) * p == 4 * y + 2 * p by { Dist(4 * f, 2, p); }
    assert (2 * f + 1) * (2 * p) == 4 * y + 2 * p by { FourTimes(f, p); Dist(2 * f, 1, 2 * p); }
    assert 4 * y <= 2 * x by { MulMono(p, 4 * f, 2 * lower); MulAssoc(2, lower, p); }
    assert x <= 4 * y by { MulMono(p, lower, 4 * f); }
    assert 4 * y + 2 * p - x == d * p by { Dist(4 * f + 2, lower, p); }
    assert d * p >= 3 * p by { MulMono(p, 3, d); }
    assert 4 * y + 2 * p <= d * p * 10000000000000000 by {
      MulMono(p, 4 * f + 2, d * 10000000000000000);
      MulAssoc(d, 10000000000000000, p);
      MulAssoc(d, p, 10000000000000000);
    }
  }

  lemma FourTimes(f: int, p: int)
    ensures f * (2 * (2 * p)) == 4 * (f * p) == 4 * f * p == (2 * f) * (2 * p)
  {
  }
}
