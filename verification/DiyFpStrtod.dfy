/** Reading a decimal number with 64-bit arithmetic and an error estimate: double-conversion/strtod.cc. */
module DiyFpStrtods {
  import opened Arith
  import opened Decimals
  import opened DiyFps
  import opened Ieee
  import opened Rounding
  import opened DecimalReading

  // ---- errors ----

  /** Errors are counted in eighths of the last place of f. */
  ghost predicate Approx(y: real, f: int, error: int)
  {
    (8 * f - error) as real <= 8.0 * y <= (8 * f + error) as real
  }

  ghost predicate Close(y: real, f: int, error: int)
  {
    (8 * f - error) as real < 8.0 * y < (8 * f + error) as real
  }

  lemma ApproxShifted(y: real, f: int, error: int, p: int, y': real, f': int, error': int)
    requires Approx(y, f, error) && p >= 1 && y' == y * p as real && f' == f * p && error' == error * p
    ensures Approx(y', f', error')
  {
    IntProduct(8 * f - error, p);
    IntProduct(8 * f + error, p);
    Dist(8 * f, error, p);
    Dist(8 * f, -error, p);
    CompareScaled((8 * f - error) as real, 8.0 * y, p as real);
    CompareScaled(8.0 * y, (8 * f + error) as real, p as real);
  }

  lemma CloseShifted(y: real, f: int, error: int, p: int, y': real, f': int, error': int)
    requires Close(y, f, error) && p >= 1 && y' == y * p as real && f' == f * p && error' == error * p
    ensures Close(y', f', error')
  {
    IntProduct(8 * f - error, p);
    IntProduct(8 * f + error, p);
    Dist(8 * f, error, p);
    Dist(8 * f, -error, p);
    CompareScaled((8 * f - error) as real, 8.0 * y, p as real);
    CompareScaled(8.0 * y, (8 * f + error) as real, p as real);
  }

  /** x is at most e away from y. */
  ghost predicate Off(x: real, y: real, e: real) { y - e <= x <= y + e }

  lemma OffProduct(y: real, f: real, e: real, t: real)
    requires Off(y, f, e) && t >= 0.0
    ensures Off(y * t, f * t, e * t)
  {
    CompareReals(f - e, y, t);
    CompareReals(y, f + e, t);
  }

  lemma CompareReals(x: real, y: real, t: real)
    requires x <= y && t >= 0.0
    ensures x * t <= y * t
  {
  }

  lemma DividedByWord(x: real, r: int, e: int)
    ensures (8 * r - e) as real * W64 as real <= 8.0 * x <= (8 * r + e) as real * W64 as real ==>
      Approx(x / W64 as real, r, e)
    ensures (8 * r - e) as real * W64 as real < 8.0 * x < (8 * r + e) as real * W64 as real ==>
      Close(x / W64 as real, r, e)
  {
    var w := W64 as real;
    var y := x / w;
    assert y * w == x;
    RealAssoc(8.0, y, w);
    CompareScaled((8 * r - e) as real, 8.0 * y, w);
    CompareScaled(8.0 * y, (8 * r + e) as real, w);
  }

  lemma SumOff(d: real, g: real, p: real, a: real, b: real, f: real, w: real)
    requires Off(d, g, a) && a <= b && Off(g, p, 0.5 * f) && f <= w - 1.0
    ensures Off(d, p, b + w / 2.0 - 0.5)
  {
  }

  /** The product of two approximate factors. */
  lemma ProductOff(y: real, f: real, e: real, t: real, c: real, w: real, d: real, p: real, b: real)
    requires Off(y, f, e) && e >= 0.0 && 0.0 <= t <= w && Off(t, c, 0.5) && 0.0 <= f <= w - 1.0
    requires d == y * t && p == f * c && b == e * w
    ensures Off(d, p, b + w / 2.0 - 0.5)
  {
    var g, a := f * t, e * t;
    assert Off(d, g, a) by { OffProduct(y, f, e, t); }
    assert Off(g, p, 0.5 * f) by { OffProduct(t, c, 0.5, f); RealAssoc(f, t, 1.0); RealAssoc(f, c, 1.0); }
    assert a <= b by { CompareReals(t, w, e); RealAssoc(e, t, 1.0); RealAssoc(e, w, 1.0); }
    SumOff(d, g, p, a, b, f, w);
  }

  lemma OffMore(d: real, p: real, a: real, b: real)
    requires Off(d, p, a) && a <= b
    ensures Off(d, p, b)
  {
  }

  lemma ExactOff(y: real, f: real, e: real, t: real, w: real, d: real, p: real, b: real)
    requires Off(y, f, e) && e >= 0.0 && 0.0 <= t <= w && d == y * t && p == f * t && b == e * w
    ensures Off(d, p, b)
  {
    hide Off;
    var a := e * t;
    OffProduct(y, f, e, t);
    assert a <= b by { CompareReals(t, w, e); RealAssoc(e, t, 1.0); RealAssoc(e, w, 1.0); }
    OffMore(d, p, a, b);
  }

  /** The quotient by a word, in eighths. */
  lemma Eighths(x: real, r: int, e: int, b: real, extra: int)
    requires b == e as real / 8.0 * 18446744073709551616.0 && W64 as real == 18446744073709551616.0
    ensures Off(x, r as real * W64 as real, b + extra as real * 2305843009213693952.0) ==>
      Approx(x / W64 as real, r, e + extra)
    ensures extra >= 8 && Off(x, r as real * W64 as real, b + extra as real * 2305843009213693952.0 - 0.5) ==>
      Close(x / W64 as real, r, e + extra)
  {
    var w := 18446744073709551616.0;
    var n := r as real * w;
    assert (8 * r - (e + extra)) as real * w == 8.0 * (n - b - extra as real * 2305843009213693952.0);
    assert (8 * r + (e + extra)) as real * w == 8.0 * (n + b + extra as real * 2305843009213693952.0);
    DividedByWord(x, r, e + extra);
  }

  lemma ApproxOff(y: real, f: int, error: int)
    ensures Approx(y, f, error) <==> Off(y, f as real, error as real / 8.0)
  {
  }

  lemma RoundedOff(d: real, p: real, n: real, b: real)
    requires Off(d, p, b) && Off(n, p, 9223372036854775808.0)
    ensures Off(d, n, b + 9223372036854775808.0)
  {
  }

  /** The product of y and t, both in last places, when t is within half a place of c. */
  lemma ProductClose(y: real, f: int, error: int, t: real, c: int, r: int)
    requires Approx(y, f, error) && error >= 0 && 0 <= f < W64 && 0 <= c < W64 && 0.0 <= t && Off(t, c as real, 0.5)
    requires f * c - W64 / 2 <= r * W64 <= f * c + W64 / 2
    ensures Close(y * t / W64 as real, r, error + 8)
  {
    hide Approx, Close;
    ApproxOff(y, f, error);
    var w, e := 18446744073709551616.0, error as real / 8.0;
    var d, p, b, n := y * t, f as real * c as real, e * w, r as real * w;
    IntProduct(f, c);
    IntProduct(r, W64);
    ProductOff(y, f as real, e, t, c as real, w, d, p, b);
    ProductInts(f * c, r * W64, p, n);
    RoundedOff(d, p, n, b + w / 2.0 - 0.5);
    Eighths(d, r, error, b, 8);
  }

  lemma ProductInts(x: int, y: int, p: real, n: real)
    requires p == x as real && n == y as real && x - W64 / 2 <= y <= x + W64 / 2
    ensures Off(n, p, 9223372036854775808.0)
  {
  }

  /** The product with an exact factor. */
  lemma ProductApprox(y: real, f: int, error: int, c: int, r: int)
    requires Approx(y, f, error) && error >= 0 && 0 <= c < W64
    requires f * c - W64 / 2 <= r * W64 <= f * c + W64 / 2
    ensures Approx(y * c as real / W64 as real, r, error + 4)
    ensures error == 0 && r * W64 == f * c ==> Approx(y * c as real / W64 as real, r, 0)
  {
    hide Approx, Close;
    ApproxOff(y, f, error);
    var w, e := 18446744073709551616.0, error as real / 8.0;
    var d, p, b, n := y * c as real, f as real * c as real, e * w, r as real * w;
    IntProduct(f, c);
    IntProduct(r, W64);
    ExactOff(y, f as real, e, c as real, w, d, p, b);
    ProductInts(f * c, r * W64, p, n);
    RoundedOff(d, p, n, b);
    Eighths(d, r, error, b, 4);
    if error == 0 && r * W64 == f * c {
      Eighths(d, r, 0, b, 0);
    }
  }

  // ---- reading the digits ----

  const LIMIT: int := 1844674407370955160

  /** Reads as many digits as are sure to fit. */
  method ReadUint64(buffer: seq<int>) returns (result: uint64, read: nat)
    requires IsDecimal(buffer)
    ensures read <= |buffer| && result == Decimal(buffer[..read]) && result < W64 - 1
    ensures (read < |buffer| ==> result > LIMIT) && (buffer != [] ==> read > 0)
  {
    hide Decimal, Pow;
    DecimalEmpty();
    assert buffer[..0] == [];
    result, read := 0, 0;
    while read < |buffer| && result <= LIMIT
      invariant read <= |buffer| && result == Decimal(buffer[..read]) && result < W64 - 1
      invariant read == 0 ==> result == 0
    {
      assert buffer[..read + 1] == buffer[..read] + [buffer[read]];
      DecimalPush(buffer[..read], buffer[read]);
      result := 10 * result + buffer[read];
      read := read + 1;
    }
  }

  /**
   * What was left away: less than one unit of the last digit read, and at least half of one if it starts with 5 or
   * more.
   */
  lemma DroppedDigits(buffer: seq<int>, read: nat) returns (rest: int)
    requires IsDecimal(buffer) && read < |buffer|
    ensures Decimal(buffer) == Decimal(buffer[..read]) * Pow(10, |buffer| - read) + rest
    ensures if buffer[read] >= 5 then Pow(10, |buffer| - read) <= 2 * rest < 2 * Pow(10, |buffer| - read)
            else 0 <= 2 * rest < Pow(10, |buffer| - read)
  {
    DecimalSplit(buffer, read);
    rest := Decimal(buffer[read..]);
    var tail := buffer[read..];
    DecimalSplit(tail, 1);
    DecimalEmpty();
    DecimalPush([], tail[0]);
    assert tail[..1] == [] + [tail[0]];
    var p := Pow(10, |tail| - 1);
    PowStep(10, |tail| - 1);
    PowPositive(10, |tail| - 1);
    if tail[0] >= 5 { MulMono(p, 5, tail[0]); } else { MulMono(p, tail[0], 4); }
  }

  /** The digits before the cut, as a number with a fraction. */
  lemma CutValue(D: int, N: int, p: int, rest: int, roundUp: bool) returns (y: real)
    requires p >= 1 && D == N * p + rest
    requires if roundUp then p <= 2 * rest < 2 * p else 0 <= 2 * rest < p
    ensures y * p as real == D as real && N as real <= y && Approx(y, if roundUp then N + 1 else N, 4)
  {
    hide Approx;
    var z := rest as real / p as real;
    y := N as real + z;
    IntProduct(N, p);
    CutSum(N as real, z, p as real, rest as real, y);
    CutFraction(rest, p, roundUp, z);
    CutApprox(N, z, y, roundUp);
  }

  lemma CutSum(n: real, z: real, q: real, r: real, y: real)
    requires q > 0.0 && z == r / q && y == n + z
    ensures y * q == n * q + r
  {
    assert z * q == r;
  }

  lemma CutFraction(rest: int, p: int, roundUp: bool, z: real)
    requires p >= 1 && z == rest as real / p as real
    requires if roundUp then p <= 2 * rest < 2 * p else 0 <= 2 * rest < p
    ensures if roundUp then 0.5 <= z < 1.0 else 0.0 <= z < 0.5
  {
    var q := p as real;
    assert z * q == rest as real;
    if roundUp { HalfToOne(z, q, rest as real); } else { ZeroToHalf(z, q, rest as real); }
  }

  lemma HalfToOne(z: real, q: real, r: real)
    requires q > 0.0 && z * q == r && q <= 2.0 * r < 2.0 * q
    ensures 0.5 <= z < 1.0
  {
    CompareScaled(z, 1.0, q);
    CompareScaled(0.5, z, q);
  }

  lemma ZeroToHalf(z: real, q: real, r: real)
    requires q > 0.0 && z * q == r && 0.0 <= 2.0 * r < q
    ensures 0.0 <= z < 0.5
  {
    CompareScaled(0.0, z, q);
    CompareScaled(z, 0.5, q);
  }

  lemma CutApprox(N: int, z: real, y: real, roundUp: bool)
    requires y == N as real + z && if roundUp then 0.5 <= z < 1.0 else 0.0 <= z < 0.5
    ensures N as real <= y && Approx(y, if roundUp then N + 1 else N, 4)
  {
  }

  lemma ReadCount(buffer: seq<int>, read: nat)
    requires IsDecimal(buffer) && buffer != [] && buffer[0] != 0 && 0 < read <= |buffer|
    requires Decimal(buffer[..read]) < W64 && (read < |buffer| ==> Decimal(buffer[..read]) > LIMIT)
    ensures read <= 20 && (|buffer| <= 18 ==> read == |buffer|)
  {
    hide Pow, Decimal;
    DecimalBounds(buffer[..read]);
    DecimalBelow(buffer[..read]);
    TenTo20();
    if read > 20 { PowMono(10, 20, read - 1); }
    if read < 18 { PowMono(10, read, 18); }
  }

  lemma TenTo20()
    ensures Pow(10, 18) == 1000000000000000000 && Pow(10, 20) > W64
  {
    PowAdd(10, 9, 9);
    PowAdd(10, 10, 10);
    TenTo10();
  }

  lemma TenTo10()
    ensures Pow(10, 10) == 10000000000 && Pow(10, 9) == 1000000000
  {
    PowStep(10, 0); PowStep(10, 1); PowStep(10, 2); PowStep(10, 3);
    PowStep(10, 4); PowStep(10, 5); PowStep(10, 6); PowStep(10, 7);
    PowStep(10, 8); PowStep(10, 9);
  }

  /** The number itself, as a real, against the digits that were read. */
  lemma DigitsAndRest(buffer: seq<int>, read: nat, N: int) returns (y: real)
    requires IsDecimal(buffer) && read < |buffer| && N == Decimal(buffer[..read])
    ensures y * Pow(10, |buffer| - read) as real == Decimal(buffer) as real
    ensures N as real <= y && Approx(y, if buffer[read] >= 5 then N + 1 else N, 4)
  {
    hide Pow, Decimal, Approx, IsDecimal;
    var rest := DroppedDigits(buffer, read);
    PowPositive(10, |buffer| - read);
    y := CutValue(Decimal(buffer), N, Pow(10, |buffer| - read), rest, buffer[read] >= 5);
  }

  lemma AllDigits(buffer: seq<int>, N: int)
    requires IsDecimal(buffer) && buffer != [] && buffer[0] != 0 && N == Decimal(buffer[..|buffer|])
    ensures N == Decimal(buffer) && N > 0 && Approx(N as real, N, 0) && N as real * Pow(10, 0) as real == N as real
  {
    hide Decimal, Pow;
    assert buffer[..|buffer|] == buffer;
    DecimalBounds(buffer);
    PowPositive(10, |buffer| - 1);
    PowStep(10, 0);
  }

  /** y stands for the digits: the significand read is within half a unit of it. */
  method ReadDiyFp(buffer: seq<int>) returns (input: DiyFp, remaining: nat, ghost y: real)
    requires IsDecimal(buffer) && buffer != [] && buffer[0] != 0
    ensures fresh(input) && input.e == 0 && input.f > 0
    ensures y * Pow(10, remaining) as real == Decimal(buffer) as real
    ensures Approx(y, input.f, if remaining == 0 then 0 else 4)
    ensures remaining == 0 ==> input.f == Decimal(buffer) && y == input.f as real
    ensures remaining > 0 ==> input.f > LIMIT && LIMIT as real < y
    ensures 0.0 <= y && (|buffer| <= 18 ==> remaining == 0) && 0 < |buffer| - remaining <= 20
  {
    hide Pow, Decimal, Approx, IsDecimal;
    var significand: uint64, read := ReadUint64(buffer);
    ReadCount(buffer, read);
    remaining := |buffer| - read;
    if |buffer| == read {
      AllDigits(buffer, significand);
      y := significand as real;
      input := new DiyFp(significand, 0);
    } else {
      y := DigitsAndRest(buffer, read, significand);
      if buffer[read] >= 5 {
        significand := significand + 1;
      }
      input := new DiyFp(significand, 0);
    }
  }

  // ---- scaling ----

  /** x is y * 2^e * 10^k. */
  ghost predicate Stands(x: real, y: real, e: int, k: int)
  {
    x == y * (RPow(2, e) * RPow(10, k))
  }

  lemma ShiftAlgebra(y: real, a: real, p: real, b: real)
    ensures y * ((a * p) * b) == (y * p) * (a * b)
  {
    RealAssoc(p, a, b);
    RealAssoc(a, p, b);
    RealAssoc(y, p, a * b);
  }

  lemma StandsShifted(x: real, y: real, e: int, k: int, n: nat, z: real)
    requires Stands(x, y, e, k) && z == y * Pow(2, n) as real
    ensures Stands(x, z, e - n, k)
  {
    hide RPow, Pow, RealPow;
    RPowMul(2, e - n, n);
    RealPowIs(2, n);
    ShiftAlgebra(y, RPow(2, e - n), Pow(2, n) as real, RPow(10, k));
  }

  /** Taking a power of ten, t * 2^te, out of the exponent. */
  lemma StandsTimes(x: real, y: real, e: int, k: int, t: real, te: int, n: int, z: real)
    requires Stands(x, y, e, k) && t == RPow(10, n) * RPow(2, -te) && z == y * t / W64 as real
    ensures Stands(x, z, e + te + 64, k - n)
  {
    hide RPow, Pow, RealPow;
    RPowMul(10, k - n, n);
    RPowMul(2, e, te);
    RPowMul(2, e + te, 64);
    RPowMul(2, te, -te);
    ZeroPower();
    RealPowIs(2, 64);
    TwoTo64();
    var w := 18446744073709551616.0;
    var a, b, c, d, g := RPow(2, e), RPow(10, k - n), RPow(10, n), RPow(2, te), RPow(2, -te);
    StandsAlgebra(x, y, a, b, c, d, g, t, w);
  }

  lemma StandsAlgebra(x: real, y: real, a: real, b: real, c: real, d: real, g: real, t: real, w: real)
    requires x == y * (a * (b * c)) && t == c * g && d * g == 1.0 && w > 0.0
    ensures x == (y * t / w) * (((a * d) * w) * b)
  {
    var q := y * t / w;
    assert q * w == y * t;
    assert c == t * d by { RealAssoc(c, g, d); RealAssoc(g, d, 1.0); }
    assert q * (((a * d) * w) * b) == (q * w) * ((a * d) * b) by {
      RealAssoc(a * d, w, b);
      RealAssoc(w, a * d, b);
      RealAssoc(w, b, 1.0);
      RealAssoc(a * d, b, w);
      RealAssoc(b, w, 1.0);
      RealAssoc(q, w, (a * d) * b);
      RealAssoc(w, (a * d) * b, 1.0);
    }
    assert (y * t) * ((a * d) * b) == y * (a * (b * (t * d))) by {
      RealAssoc(y, t, (a * d) * b);
      RealAssoc(a, d, b);
      RealAssoc(d, b, 1.0);
      RealAssoc(t, a, b * d);
      RealAssoc(t, b, d);
      RealAssoc(b, t, d);
      RealAssoc(a, t, b * d);
    }
  }

  /** The powers of ten that fit into a word, with the top bit set. */
  function Adjustment(exponent: int): (uint64, int)
    requires 1 <= exponent <= 7
  {
    match exponent
    case 1 => (0xa000_0000_0000_0000, -60)
    case 2 => (0xc800_0000_0000_0000, -57)
    case 3 => (0xfa00_0000_0000_0000, -54)
    case 4 => (0x9c40_0000_0000_0000, -50)
    case 5 => (0xc350_0000_0000_0000, -47)
    case 6 => (0xf424_0000_0000_0000, -44)
    case 7 => (0x9896_8000_0000_0000, -40)
  }

  lemma AdjustmentExact(a: int)
    requires 1 <= a <= 7
    ensures var (f, e) := Adjustment(a);
      && e < 0 && 0x8000_0000_0000_0000 <= f && f == Pow(10, a) * Pow(2, -e) && f as real == RPow(10, a) * RPow(2, -e)
  {
    hide Pow, RPow;
    var (f, e) := Adjustment(a);
    assert f == Pow(10, a) * Pow(2, -e) by { TwosAndTens(); }
    RealPowIs(10, a);
    RealPowIs(2, -e);
    IntProduct(Pow(10, a), Pow(2, -e));
  }

  lemma TwosAndTens()
    ensures Pow(10, 1) == 10 && Pow(10, 2) == 100 && Pow(10, 3) == 1000 && Pow(10, 4) == 10000 && Pow(10, 5) == 100000
    ensures Pow(10, 6) == 1000000 && Pow(10, 7) == 10000000
    ensures Pow(2, 40) == 0x100_0000_0000 && Pow(2, 44) == 0x1000_0000_0000 && Pow(2, 47) == 0x8000_0000_0000
    ensures Pow(2, 50) == 0x4_0000_0000_0000 && Pow(2, 54) == 0x40_0000_0000_0000 && Pow(2, 57) == 0x200_0000_0000_0000
    ensures Pow(2, 60) == 0x1000_0000_0000_0000
  {
    hide Pow;
    PowStep(10, 0); PowStep(10, 1); PowStep(10, 2); PowStep(10, 3); PowStep(10, 4); PowStep(10, 5); PowStep(10, 6);
    PowStep(2, 0); PowStep(2, 1); PowStep(2, 2); PowStep(2, 3);
    TwoTo52();
    PowAdd(2, 10, 10);
    PowAdd(2, 20, 20);
    PowAdd(2, 40, 4);
    PowAdd(2, 44, 3);
    PowAdd(2, 47, 3);
    PowAdd(2, 50, 4);
    PowAdd(2, 54, 3);
    PowAdd(2, 57, 3);
  }

  // ---- the cached powers ----

  datatype Cached = Cached(significand: int, binaryExponent: int, decimalExponent: int)

  const MIN_DECIMAL_EXPONENT: int := -348

  const FIRST_CACHED := Cached(0xfa8f_d5a0_081c_0288, -1220, MIN_DECIMAL_EXPONENT)

  /** Every eighth power of ten, each to within half a unit of its last place. */
  ghost predicate GoodTable(table: seq<Cached>)
  {
    && |table| == 87 && table[0] == FIRST_CACHED
    && forall i :: 0 <= i < |table| ==>
         && 0x8000_0000_0000_0000 <= table[i].significand < W64
         && table[i].decimalExponent == MIN_DECIMAL_EXPONENT + 8 * i
         && CachedPower(table[i].significand, table[i].binaryExponent, table[i].decimalExponent)
  }

  method GetCachedPowerForDecimalExponent(table: seq<Cached>, requested: int) returns (power: DiyFp, found: int)
    requires GoodTable(table) && MIN_DECIMAL_EXPONENT <= requested < 348
    ensures fresh(power) && 0x8000_0000_0000_0000 <= power.f && CachedPower(power.f, power.e, found)
    ensures found <= requested < found + 8
    ensures requested < MIN_DECIMAL_EXPONENT + 8 ==> Cached(power.f, power.e, found) == FIRST_CACHED
  {
    hide CachedPower;
    var cached := table[(requested - MIN_DECIMAL_EXPONENT) / 8];
    power := new DiyFp(cached.significand, cached.binaryExponent);
    found := cached.decimalExponent;
  }

  // ---- multiplying by the power of ten ----

  lemma CloseMore(y: real, f: int, error: int, more: int)
    requires Close(y, f, error) && error <= more
    ensures Close(y, f, more)
  {
  }

  /** A product that fits in a word comes out exactly: ten has a factor of two to spare. */
  lemma ExactProductFits(n: int, s: nat, p: int, a: nat, m: nat, f: int, c: int, r: int)
    requires a >= 1 && p == Pow(10, a) && 0 <= n && n * p < W64 && f == n * Pow(2, s) && c == p * Pow(2, m)
    requires f >= W64 / 2 && c >= W64 / 2 && r == (f * c + W64 / 2) / W64
    ensures r * W64 == f * c
  {
    hide Pow;
    PowStep(10, a - 1);
    PowAdd(2, s, m);
    ProductOfScaled(n, Pow(2, s), p, Pow(2, m));
    EnoughShift(n * p, s + m, f, c);
    PowStep(2, s + m);
    PowAdd(2, 64, s + m + 1 - 64);
    TwoTo64();
    var h, k := n * (5 * Pow(10, a - 1)), Pow(2, s + m + 1 - 64);
    MulAssoc(n, 2, 5 * Pow(10, a - 1));
    MulAssoc(2, n, 5 * Pow(10, a - 1));
    SpareFactor(n * p, h, Pow(2, s + m), k);
    WholeQuotient(h * k, f * c, r);
  }

  lemma ProductOfScaled(n: int, u: int, p: int, v: int)
    ensures (n * u) * (p * v) == (n * p) * (u * v)
  {
    MulAssoc(n, u, p * v);
    MulAssoc(u, p, v);
    MulAssoc(p, u, v);
    MulAssoc(n, p, u * v);
  }

  lemma EnoughShift(x: int, k: nat, f: int, c: int)
    requires 0 <= x < W64 && f >= W64 / 2 && c >= W64 / 2 && f * c == x * Pow(2, k)
    ensures k >= 63
  {
    hide Pow;
    var p, y := Pow(2, k), f * c;
    assert y >= (W64 / 2) * (W64 / 2) by { MulMono(c, W64 / 2, f); MulMono(W64 / 2, W64 / 2, c); }
    PowPositive(2, k);
    assert y <= W64 * p by { MulMono(p, x, W64); }
    if k <= 62 {
      PowMono(2, k, 62);
      SixtyTwo();
    }
  }

  lemma SpareFactor(x: int, h: int, q: int, k: int)
    requires x == 2 * h && 2 * q == W64 * k
    ensures x * q == (h * k) * W64
  {
    MulAssoc(h, 2, q);
    MulAssoc(2, h, q);
    MulAssoc(h, W64, k);
    MulAssoc(h, k, W64);
  }

  lemma SixtyTwo()
    ensures Pow(2, 62) == W64 / 4
  {
    TwoTo64();
    PowStep(2, 62);
    PowStep(2, 63);
  }

  lemma WholeQuotient(q: int, n: int, r: int)
    requires n == q * W64 && r == (n + W64 / 2) / W64
    ensures r * W64 == n
  {
  }

  lemma RoundedWord(n: int, r: int)
    requires r == (n + W64 / 2) / W64
    ensures n - W64 / 2 <= r * W64 <= n + W64 / 2
  {
  }

  lemma ProductLarge(f: int, c: int, r: int, low: int)
    requires low <= f && 0 <= low && W64 / 2 <= c && r == (f * c + W64 / 2) / W64
    ensures low / 2 <= r
  {
    MulMono(c, low, f);
    MulMono(low, W64 / 2, c);
  }

  /** How far a number can be shifted before it overflows. */
  lemma ShiftAtMost(f: int, n: nat, low: int, k: nat)
    requires 0 < low <= f && f * Pow(2, n) < W64 && W64 <= low * Pow(2, k + 1)
    ensures n <= k
  {
    hide Pow;
    if n > k {
      PowMono(2, k + 1, n);
      PowPositive(2, n);
      MulMono(low, Pow(2, k + 1), Pow(2, n));
      MulMono(Pow(2, n), low, f);
    }
  }

  /** The number just above half of the smallest double starts with these digits; see CornerDigits. */
  const CORNER: int := 2470328229206232721

  lemma CornerProducts(f1: int, f2: int, f3: int)
    requires f1 >= 4 * CORNER && RoundedWordProduct(f1, 0xf424_0000_0000_0000, f2)
    requires RoundedWordProduct(f2, FIRST_CACHED.significand, f3)
    ensures f3 >= W64 / 2
  {
    assert f2 >= 9423554341149264225;
  }

  /** Multiplies by an exact power of ten below 10^8. */
  method Adjust(input: DiyFp, a: int, error: nat, length: nat, ghost exponent: int, ghost x: real, ghost y: real,
                ghost n: int,
                ghost s: nat)
    returns (error': nat, ghost y': real)
    requires 1 <= a <= 7 && W64 / 2 <= input.f && Approx(y, input.f, error) && 0.0 <= y
    requires input.f == n * Pow(2, s) && (length <= 18 ==> 0 <= n < Pow(10, length) && error == 0)
    modifies input
    requires Stands(x, y, input.e, exponent)
    ensures input.e == old(input.e) + Adjustment(a).1 + 64 && error' <= error + 4 && W64 / 4 <= input.f && 0.0 <= y'
    ensures Approx(y', input.f, error') && Stands(x, y', input.e, exponent - a)
    ensures RoundedWordProduct(old(input.f), Adjustment(a).0, input.f)
  {
    hide Pow, Approx, RPow, Stands, RoundedWordProduct;
    var (c, e) := Adjustment(a);
    AdjustmentExact(a);
    ghost var f, e0 := input.f, input.e;
    var power := new DiyFp(c, e);
    input.Multiply(power);
    IsRounded(f, c, input.f);
    y' := ExactStep(x, y, e0, f, error, c, e, exponent, a, input.f);
    if 19 - length >= a {
      SmallDigits(n, length, a);
      ExactProductFits(n, s, Pow(10, a), a, -e, f, c, input.f);
      error' := error;
    } else {
      error' := error + 4;
    }
  }

  lemma SmallDigits(n: int, length: nat, a: nat)
    requires 0 <= n < Pow(10, length) && length + a <= 19
    ensures n * Pow(10, a) < W64
  {
    hide Pow;
    PowMono(10, length + a, 19);
    PowAdd(10, length, a);
    TenTo19();
    PowPositive(10, a);
    MulMono(Pow(10, a), n, Pow(10, length) - 1);
    Dist(Pow(10, length), -1, Pow(10, a));
  }

  lemma ExactStep(x: real, y: real, e: int, f: int, error: nat, c: int, ec: int, exponent: int, a: int, r: int)
    returns (z: real)
    requires W64 / 2 <= f && W64 / 2 <= c < W64 && c as real == RPow(10, a) * RPow(2, -ec)
    requires RoundedWordProduct(f, c, r)
    requires Approx(y, f, error) && Stands(x, y, e, exponent) && 0.0 <= y
    ensures Approx(z, r, error + 4) && (error == 0 && r * W64 == f * c ==> Approx(z, r, 0))
    ensures Stands(x, z, e + ec + 64, exponent - a) && 0.0 <= z && W64 / 4 <= r
  {
    hide Pow, Approx, RPow, Stands, RoundedWordProduct;
    RoundedFacts(f, c, r, W64 / 2);
    ProductApprox(y, f, error, c, r);
    z := y * c as real / W64 as real;
    StandsTimes(x, y, e, exponent, c as real, ec, a, z);
    ScaledNotNegative(y, c as real, z);
  }

  lemma TenTo19()
    ensures Pow(10, 19) < W64
  {
    PowAdd(10, 10, 9);
    TenTo10();
  }

  lemma ScaledNotNegative(y: real, t: real, z: real)
    requires 0.0 <= y && 0.0 <= t && z == y * t / W64 as real
    ensures 0.0 <= z
  {
    CompareReals(0.0, y, t);
    var w := W64 as real;
    assert z * w == y * t;
    CompareScaled(0.0, z, w);
  }

  ghost predicate RoundedWordProduct(f: int, c: int, r: int) { r == (f * c + W64 / 2) / W64 }

  lemma RoundedFacts(f: int, c: int, r: int, low: int)
    requires RoundedWordProduct(f, c, r) && 0 <= low <= f && W64 / 2 <= c
    ensures f * c - W64 / 2 <= r * W64 <= f * c + W64 / 2 && low / 2 <= r
  {
    RoundedWord(f * c, r);
    ProductLarge(f, c, r, low);
  }

  lemma CachedStep(x: real, y: real, e: int, f: int, error: nat, c: int, te: int, found: int, r: int, error': nat)
    returns (z: real)
    requires W64 / 4 <= f < W64 && W64 / 2 <= c < W64 && CachedPower(c, te, found) && RoundedWordProduct(f, c, r)
    requires Approx(y, f, error) && Stands(x, y, e, found) && 0.0 <= y && error' >= error + 8
    ensures Close(z, r, error') && Stands(x, z, e + te + 64, 0) && 0.0 <= z && W64 / 8 <= r
  {
    hide Pow, Approx, Close, RPow, Stands, CachedPower, RoundedWordProduct;
    var t := PowerOf(c, te, found);
    WordScale(c, t);
    RoundedFacts(f, c, r, W64 / 4);
    ProductClose(y, f, error, t, c, r);
    z := y * t / W64 as real;
    StandsTimes(x, y, e, found, t, te, found, z);
    ScaledNotNegative(y, t, z);
    CloseMore(z, r, error + 8, error');
  }

  /** Multiplies by a cached power of ten, which is not exact, and rounds. */
  method TimesCached(input: DiyFp, power: DiyFp, found: int, error: nat, ghost x: real, ghost y: real)
    returns (error': nat, ghost y': real)
    requires input != power && W64 / 4 <= input.f && W64 / 2 <= power.f && CachedPower(power.f, power.e, found)
    requires Approx(y, input.f, error) && Stands(x, y, input.e, found) && 0.0 <= y
    modifies input
    ensures input.e == old(input.e) + power.e + 64 && RoundedWordProduct(old(input.f), power.f, input.f)
    ensures Close(y', input.f, error') && Stands(x, y', input.e, 0) && 0.0 <= y' && W64 / 8 <= input.f
    ensures error' <= error + 9
  {
    hide Pow, Approx, Close, RPow, Stands, CachedPower, RoundedWordProduct;
    ghost var e, f := input.e, input.f;
    input.Multiply(power);
    assert RoundedWordProduct(f, power.f, input.f) by { IsRounded(f, power.f, input.f); }
    var errorB, errorAB, fixedError := 4, if error == 0 then 0 else 1, 4;
    error' := error + errorB + errorAB + fixedError;
    y' := CachedStep(x, y, e, f, error, power.f, power.e, found, input.f, error');
  }

  lemma IsRounded(f: int, c: int, r: int)
    requires r == (f * c + W64 / 2) / W64
    ensures RoundedWordProduct(f, c, r)
  {
  }

  method NormalizeWithError(input: DiyFp, error: nat, ghost x: real, ghost y: real)
    returns (error': nat, ghost y': real)
    requires W64 / 8 <= input.f && Close(y, input.f, error) && Stands(x, y, input.e, 0) && 0.0 <= y && error <= 45
    modifies input
    ensures W64 / 2 <= input.f && Close(y', input.f, error') && Stands(x, y', input.e, 0) && error' <= 180 && 0.0 <= y'
    ensures old(input.f) >= W64 / 2 ==> input.e == old(input.e)
  {
    hide Pow, Close, RPow, Stands;
    var oldE := input.e;
    ghost var f := input.f;
    input.Normalize();
    ghost var shift := oldE - input.e;
    SmallPowersOfTwo();
    ShiftAtMost(f, shift, W64 / 8, 2);
    if f >= W64 / 2 { ShiftAtMost(f, shift, W64 / 2, 0); }
    PowPositive(2, shift);
    SmallShift(error, shift);
    y' := y * Pow(2, shift) as real;
    error' := error * Pow(2, oldE - input.e);
    CloseShifted(y, f, error, Pow(2, shift), y', input.f, error');
    StandsShifted(x, y, oldE, 0, shift, y');
    CompareReals(0.0, y, Pow(2, shift) as real);
  }

  /** The input times 10^exponent, normalized, with what is known of its error. */
  method ScaleByPower(input: DiyFp, exponent: int, error: nat, length: nat, table: seq<Cached>, ghost x: real,
                      ghost y: real,
                      ghost n: int, ghost s: nat)
    returns (error': nat, ghost y': real)
    requires GoodTable(table) && MIN_DECIMAL_EXPONENT <= exponent <= 340 && error <= 32 && 0.0 <= y
    requires W64 / 2 <= input.f && Approx(y, input.f, error) && Stands(x, y, input.e, exponent)
    requires input.f == n * Pow(2, s) && (length <= 18 ==> 0 <= n < Pow(10, length) && error == 0)
    modifies input
    ensures W64 / 2 <= input.f && Close(y', input.f, error') && Stands(x, y', input.e, 0) && error' <= 180 && 0.0 <= y'
    ensures exponent == -342 && old(input.e) == -2 && old(input.f) >= 4 * CORNER ==> input.e >= -1138
  {
    hide Pow, Approx, Close, RPow, Stands, GoodTable, CachedPower, Adjustment, RoundedWordProduct;
    ghost var e0, f0 := input.e, input.f;
    var power, found := GetCachedPowerForDecimalExponent(table, exponent);
    error', y' := error, y;
    if found != exponent {
      var a := exponent - found;
      error', y' := Adjust(input, a, error, length, exponent, x, y, n, s);
    }
    ghost var f1 := input.f;
    error', y' := TimesCached(input, power, found, error', x, y');
    if exponent == -342 && e0 == -2 && f0 >= 4 * CORNER {
      AdjustmentSix();
      CornerProducts(f0, f1, input.f);
      assert input.e == -1138;
    }
    error', y' := NormalizeWithError(input, error', x, y');
  }

  lemma SmallPowersOfTwo()
    ensures Pow(2, 0) == 1 && Pow(2, 1) == 2 && Pow(2, 2) == 4 && Pow(2, 3) == 8 && Pow(2, 4) == 16
  {
    PowStep(2, 0); PowStep(2, 1); PowStep(2, 2); PowStep(2, 3);
  }

  lemma SmallShift(error: int, n: nat)
    requires 0 <= error <= 45 && n <= 2
    ensures 0 <= error * Pow(2, n) <= 180
  {
    SmallPowersOfTwo();
  }

  lemma WordScale(c: int, t: real)
    requires W64 / 2 <= c < W64 && c as real - 0.5 <= t <= c as real + 0.5
    ensures Off(t, c as real, 0.5) && 0.0 <= t
  {
  }

  lemma AdjustmentSix()
    ensures Adjustment(6) == (0xf424_0000_0000_0000, -44)
  {
  }

  // ---- rounding to a double ----

  /** The double f * 2^e, for f with at most 53 bits, or 2^53; too small is zero and too large is infinite. */
  function FromDiyFp(f: int, e: int): Read
    requires 0 <= f <= 2 * HIDDEN_BIT
  {
    if f == 2 * HIDDEN_BIT then
      if e + 1 >= 972 then Infinity
      else if e + 1 < DENORMAL_EXPONENT then ZERO
      else Number(Double(HIDDEN_BIT, e + 1))
    else if e >= 972 then Infinity
    else if e < DENORMAL_EXPONENT then ZERO
    else Number(Double(f, e))
  }

  /** v is f * 2^e with the bits moved up. */
  ghost predicate MovedUp(v: Double, f: int, e: int) { v.e <= e && v.f == f * Pow(2, e - v.e) }

  /**
   * Packs a significand and an exponent. If the significand has its top bit or the exponent is the least, it is not
   * moved.
   */
  method DoubleFromDiyFp(f: uint64, e: int) returns (r: Read)
    requires 0 <= f <= 2 * HIDDEN_BIT
    ensures f >= HIDDEN_BIT || e <= DENORMAL_EXPONENT || e >= 972 ==> r == FromDiyFp(f, e)
    ensures f < HIDDEN_BIT && DENORMAL_EXPONENT < e < 972 ==> r.Number? && Finite(r.v) && MovedUp(r.v, f, e)
  {
    hide Pow;
    var significand: uint64, exponent := f, e;
    while significand > 2 * HIDDEN_BIT - 1
      invariant 0 <= significand <= 2 * HIDDEN_BIT
      invariant if significand == f then exponent == e
              else f == 2 * HIDDEN_BIT && significand == HIDDEN_BIT && exponent == e + 1
    {
      significand := significand / 2;
      exponent := exponent + 1;
    }
    if exponent >= 972 {
      return Infinity;
    }
    if exponent < DENORMAL_EXPONENT {
      return ZERO;
    }
    ghost var f0, e0 := significand, exponent;
    PowStep(2, 0);
    while exponent > DENORMAL_EXPONENT && significand < HIDDEN_BIT
      invariant DENORMAL_EXPONENT <= exponent <= e0 && 0 <= significand < 2 * HIDDEN_BIT
      invariant significand == f0 * Pow(2, e0 - exponent)
      invariant f0 >= HIDDEN_BIT || e0 == DENORMAL_EXPONENT ==> significand == f0 && exponent == e0
      decreases exponent - DENORMAL_EXPONENT
    {
      PowStep(2, e0 - exponent);
      MulAssoc(f0, 2, Pow(2, e0 - exponent));
      significand := significand * 2;
      exponent := exponent - 1;
    }
    r := Number(Double(significand, exponent));
  }

  /** What the rounding works on: a significand of 53 bits, or the least exponent. */
  ghost predicate Placed(q: int, k: int)
  {
    0 <= q < 2 * HIDDEN_BIT && ((q >= HIDDEN_BIT && k >= DENORMAL_EXPONENT) || k == DENORMAL_EXPONENT)
  }

  lemma QuartersLess(m: int, n: int, k: int)
    requires m <= n
    ensures BinaryValue(m, k) <= BinaryValue(n, k)
  {
    QuartersOrder(m, n, k);
  }

  /** The largest double is below any number with a larger exponent. */
  lemma AboveAll(q: int, k: int, x: real)
    requires q >= HIDDEN_BIT && k >= 972 && x > BinaryValue(4 * q - 1, k - 2)
    ensures ReadsAs(x, Infinity)
  {
    hide RPow;
    LargestUpper();
    QuartersLess(4 * HIDDEN_BIT - 1, 4 * q - 1, k - 2);
    var n := k - 2 - 969;
    QuartersRescaled(4 * HIDDEN_BIT - 1, 969, n);
    PowPositive(2, n);
    PowStep(2, n - 1);
    PowPositive(2, n - 1);
    MulMono(4 * HIDDEN_BIT - 1, 2, Pow(2, n));
    QuartersLess(8 * HIDDEN_BIT - 2, (4 * HIDDEN_BIT - 1) * Pow(2, n), 969);
  }

  lemma PlacedFinite(q: int, k: int)
    requires Placed(q, k) && k < 972
    ensures FromDiyFp(q, k) == Number(Double(q, k)) && Finite(Double(q, k))
    ensures FromDiyFp(q + 1, k) == NextDouble(Double(q, k))
    ensures Upper(Double(q, k)) == BinaryValue(4 * q + 2, k - 2) && Lower(Double(q, k)) <= BinaryValue(4 * q - 1, k - 2)
  {
    QuartersLess(LowerQuarters(Double(q, k)), 4 * q - 1, k - 2);
  }

  /** Below the boundary. */
  lemma RoundedDown(x: real, q: int, k: int)
    requires Placed(q, k) && BinaryValue(4 * q - 1, k - 2) < x < BinaryValue(4 * q + 2, k - 2)
    ensures ReadsAs(x, FromDiyFp(q, k))
  {
    hide BinaryValue, Lower, Upper;
    if k >= 972 {
      AboveAll(q, k, x);
    } else {
      PlacedFinite(q, k);
    }
  }

  lemma NextReaches(v: Double)
    requires Finite(v) && NextDouble(v).Number?
    ensures BinaryValue(4 * v.f + 5, v.e - 2) <= Upper(NextDouble(v).v)
  {
    hide RPow;
    if v.f + 1 < 2 * HIDDEN_BIT {
      QuartersLess(4 * v.f + 5, 4 * v.f + 6, v.e - 2);
    } else {
      PowStep(2, 0);
      QuartersRescaled(4 * HIDDEN_BIT + 2, v.e - 2, 1);
      QuartersLess(4 * v.f + 5, (4 * HIDDEN_BIT + 2) * Pow(2, 1), v.e - 2);
    }
  }

  /** Above the boundary. */
  lemma RoundedUp(x: real, q: int, k: int)
    requires Placed(q, k) && BinaryValue(4 * q + 2, k - 2) < x < BinaryValue(4 * q + 5, k - 2)
    ensures ReadsAs(x, FromDiyFp(q + 1, k))
  {
    hide BinaryValue, Lower, Upper;
    QuartersLess(4 * q - 1, 4 * q + 2, k - 2);
    if k >= 972 {
      AboveAll(q, k, x);
    } else {
      PlacedFinite(q, k);
      NextMeets(Double(q, k));
      if NextDouble(Double(q, k)).Number? { NextReaches(Double(q, k)); }
    }
  }

  /** Too close to the boundary to tell. */
  lemma NotRounded(x: real, q: int, k: int)
    requires Placed(q, k) && BinaryValue(4 * q - 1, k - 2) < x < BinaryValue(4 * q + 5, k - 2)
    ensures GoodGuess(x, FromDiyFp(q, k), false)
  {
    hide BinaryValue, Lower, Upper;
    if x < BinaryValue(4 * q + 2, k - 2) {
      RoundedDown(x, q, k);
      if k < 972 { PlacedFinite(q, k); }
    } else if x > BinaryValue(4 * q + 2, k - 2) {
      RoundedUp(x, q, k);
      if k >= 972 { QuartersLess(4 * q - 1, 4 * q + 2, k - 2); AboveAll(q, k, x); } else { PlacedFinite(q, k); }
    } else if k >= 972 {
      AboveAll(q, k, x);
    } else {
      PlacedFinite(q, k);
      OnBoundary(x, Double(q, k));
    }
  }

  lemma OnBoundary(x: real, v: Double)
    requires Finite(v) && x == Upper(v)
    ensures ReadsAs(x, Number(v)) || ReadsAs(x, NextDouble(v))
  {
    IntervalNotEmpty(v);
    NextMeets(v);
    match NextDouble(v)
    case Number(w) => IntervalNotEmpty(w);
    case Infinity =>
  }

  /** How many bits a double of this order of magnitude has. */
  function SignificandSizeForOrderOfMagnitude(order: int): (size: nat)
    ensures size <= 53
  {
    if order >= DENORMAL_EXPONENT + 53 then 53
    else if order <= DENORMAL_EXPONENT then 0
    else order - DENORMAL_EXPONENT
  }

  lemma FloorBounds(f: int, error: nat, P: int)
    requires P >= 1
    ensures var n, m := f / P, error / P;
      (8 * n - (m + 9)) * P <= 8 * f - error && 8 * f + error <= (8 * n + (m + 9)) * P
  {
    var n, m := f / P, error / P;
    DivModBounds(f, P);
    DivModBounds(error, P);
    Dist(8 * n, m + 9, P);
    Dist(8 * n, -(m + 9), P);
    Dist(m, 9, P);
    MulAssoc(8, n, P);
    MulMono(P, -(m + 9), 0);
    NegProduct(m + 9, P);
  }

  lemma NegProduct(x: int, y: int)
    ensures (-x) * y == -(x * y)
  {
  }

  lemma ShiftedDown(y: real, f: int, error: nat, P: int, z: real)
    requires Close(y, f, error) && P >= 1 && z == y / P as real
    ensures Close(z, f / P, error / P + 9)
  {
    FloorBounds(f, error, P);
    ShiftedBetween(y, f, error, P, f / P, error / P + 9, z);
  }

  lemma ShiftedBetween(y: real, f: int, error: int, P: int, n: int, e: int, z: real)
    requires Close(y, f, error) && P >= 1 && z == y / P as real
    requires (8 * n - e) * P <= 8 * f - error && 8 * f + error <= (8 * n + e) * P
    ensures Close(z, n, e)
  {
    IntProduct(8 * n - e, P);
    IntProduct(8 * n + e, P);
    Divided(8.0 * y, y, z, (8 * n - e) as real, (8 * n + e) as real, P as real);
  }

  lemma Divided(x: real, y: real, z: real, low: real, high: real, d: real)
    requires d > 0.0 && x == 8.0 * y && z == y / d && low * d < x < high * d
    ensures low < 8.0 * z < high
  {
    assert z * d == y;
    RealAssoc(8.0, z, d);
    CompareScaled(low, 8.0 * z, d);
    CompareScaled(8.0 * z, high, d);
  }

  /** y against m quarters of 2^p, and x against m quarters of the place that is rounded to. */
  lemma QuarterCompare(x: real, y: real, e: int, p: nat, m: int)
    requires Stands(x, y, e, 0) && p >= 2
    ensures y < (m * Pow(2, p - 2)) as real <==> x < BinaryValue(m, e + p - 2)
    ensures y > (m * Pow(2, p - 2)) as real <==> x > BinaryValue(m, e + p - 2)
  {
    hide RPow, Pow, RealPow;
    ZeroPower();
    RPowMul(2, e, p - 2);
    RealPowIs(2, p - 2);
    RPowPositive(2, e);
    IntProduct(m, Pow(2, p - 2));
    var u, q := RPow(2, e), Pow(2, p - 2) as real;
    assert x == y * u;
    assert BinaryValue(m, e + p - 2) == (m as real * q) * u by { RealAssoc(m as real, q, u); RealAssoc(u, q, 1.0); }
    CompareScaled(y, m as real * q, u);
    CompareScaled(m as real * q, y, u);
  }

  /** Where y lies, by the bits that are rounded away. P is 2^p, R a quarter of it. */
  lemma BitsDecide(y: real, f: int, error: nat, P: int, R: int)
    requires Close(y, f, error) && P == 4 * R && R >= 1 && 0 <= f && error <= 2 * P
    ensures var q, bits := f / P, 8 * (f % P);
      && ((4 * q - 1) * R) as real < y < ((4 * q + 5) * R) as real
      && (bits >= 4 * P + error ==> ((4 * q + 2) * R) as real < y)
      && (bits <= 4 * P - error ==> y < ((4 * q + 2) * R) as real)
  {
    var q := f / P;
    DivModBounds(f, P);
    Dist(4 * q, -1, R);
    Dist(4 * q, 2, R);
    Dist(4 * q, 5, R);
    MulAssoc(q, 4, R);
    MulAssoc(4, q, R);
    assert f == 4 * (q * R) + f % P;
  }

  /** f without its lowest bits. */
  ghost function TopBits(f: int, count: nat): int
  {
    PowPositive(2, count);
    f / Pow(2, count)
  }

  /** With no bits to spare, everything is shifted right, at the cost of some precision. */
  method DropExcess(f: uint64, e: int, error: nat, count: nat, ghost x: real, ghost y: real)
    returns (f': uint64, e': int, error': nat, count': nat, ghost y': real)
    requires Close(y, f, error) && Stands(x, y, e, 0) && error <= 180 && 11 <= count <= 64
    ensures Close(y', f', error') && Stands(x, y', e', 0) && error' <= 180 && 11 <= count' <= 60
    ensures e' + count' == e + count
    ensures TopBits(f', count') == TopBits(f, count)
  {
    hide Pow, Close, Stands, RPow;
    f', e', error', count', y' := f, e, error, count, y;
    if count + 3 >= 64 {
      var shift := count + 3 - 64 + 1;
      PowPositive(2, shift);
      SmallPowersOfTwo();
      ghost var P := Pow(2, shift);
      y' := y / P as real;
      ShiftedDown(y, f, error, P, y');
      StandsUnshifted(x, y, e, shift, y');
      DivModBounds(f, P);
      DivModBounds(error, P);
      QuotientSmaller(f, P);
      QuotientSmaller(error, P);
      HalvedAtLeast(error, P);
      f' := f / Pow(2, shift);
      e' := e + shift;
      error' := error / Pow(2, shift) + 1 + 8;
      count' := count - shift;
      PowAdd(2, shift, count');
      PowPositive(2, count');
      DivDiv(f, P, Pow(2, count'));
    }
  }

  lemma HalvedAtLeast(n: nat, P: int)
    requires P >= 2 && n <= 180
    ensures n / P + 9 <= 180
  {
    DivModBounds(n, P);
    if n / P >= 91 { MulMono(n / P, 2, P); }
  }

  lemma QuotientSmaller(n: int, P: int)
    requires 0 <= n && P >= 1
    ensures 0 <= n / P <= n
  {
    DivModBounds(n, P);
    MulMono(n / P, 1, P);
  }

  lemma StandsUnshifted(x: real, y: real, e: int, n: nat, z: real)
    requires Stands(x, y, e, 0) && Pow(2, n) > 0 && z == y / Pow(2, n) as real
    ensures Stands(x, z, e + n, 0)
  {
    hide RPow, Pow, RealPow;
    RPowMul(2, e, n);
    RealPowIs(2, n);
    var p := Pow(2, n) as real;
    assert z * p == y;
    ShiftAlgebra(z, RPow(2, e), p, RPow(10, 0));
  }

  /** The bits of a normalized number that are kept. */
  lemma TopBitsRange(f: int, size: nat)
    requires W64 / 2 <= f < W64 && size <= 53
    ensures size == 53 ==> HIDDEN_BIT <= TopBits(f, 64 - size) < 2 * HIDDEN_BIT
    ensures size < 53 ==> 0 <= TopBits(f, 64 - size) < HIDDEN_BIT
    ensures size == 0 ==> TopBits(f, 64 - size) == 0
  {
    hide Pow;
    var P, S := Pow(2, 64 - size), Pow(2, size);
    PowAdd(2, size, 64 - size);
    PowPositive(2, 64 - size);
    PowPositive(2, size);
    TwoTo64();
    TwoTo52();
    PowStep(2, 0);
    PowStep(2, 52);
    DivModBounds(f, P);
    if f / P >= S { MulMono(P, S, f / P); }
    if size == 53 {
      if f / P < HIDDEN_BIT { MulMono(P, f / P + 1, HIDDEN_BIT); Dist(f / P, 1, P); MulAssoc(2, HIDDEN_BIT, P); }
    } else {
      PowMono(2, size, 52);
    }
  }

  /** What the bits that are rounded away say about the number. */
  ghost predicate BitsSay(x: real, q: int, k: int, bits: int, half: int, error: int)
  {
    && BinaryValue(4 * q - 1, k - 2) < x < BinaryValue(4 * q + 5, k - 2)
    && (bits >= half + error ==> x > BinaryValue(4 * q + 2, k - 2))
    && (bits <= half - error ==> x < BinaryValue(4 * q + 2, k - 2))
  }

  lemma BitsMean(x: real, y: real, f: int, e: int, error: nat, count: nat, q: int, bits: int, half: int)
    requires Close(y, f, error) && Stands(x, y, e, 0) && error <= 180 && 11 <= count && 0 <= f
    requires Pow(2, count) > 0 && q == f / Pow(2, count) && bits == 8 * (f % Pow(2, count))
    requires half == 8 * Pow(2, count - 1)
    ensures BitsSay(x, q, e + count, bits, half, error)
  {
    hide Pow, Close, Stands, BinaryValue;
    var P, R := Pow(2, count), Pow(2, count - 2);
    PowStep(2, count - 1);
    PowStep(2, count - 2);
    PowPositive(2, count - 2);
    TwoTo52();
    PowMono(2, 9, count - 2);
    BitsDecide(y, f, error, P, R);
    QuarterCompare(x, y, e, count, 4 * q - 1);
    QuarterCompare(x, y, e, count, 4 * q + 2);
    QuarterCompare(x, y, e, count, 4 * q + 5);
  }

  /** The rounding is right if the bits are not too close to one half. */
  lemma RoundedRight(x: real, q: int, k: int, bits: int, half: int, error: int)
    requires Placed(q, k) && BitsSay(x, q, k, bits, half, error)
    ensures bits >= half + error ==> ReadsAs(x, FromDiyFp(q + 1, k))
    ensures bits <= half - error ==> ReadsAs(x, FromDiyFp(q, k))
    ensures bits < half + error ==> GoodGuess(x, FromDiyFp(q, k), false)
  {
    hide BinaryValue, ReadsAs, GoodGuess, FromDiyFp;
    if bits >= half + error {
      RoundedUp(x, q, k);
    } else {
      NotRounded(x, q, k);
      if bits <= half - error { RoundedDown(x, q, k); }
    }
  }

  lemma SizePlaces(f: int, e: int, size: nat)
    requires W64 / 2 <= f < W64 && size == SignificandSizeForOrderOfMagnitude(64 + e)
    ensures e >= -1138 ==> Placed(TopBits(f, 64 - size), e + 64 - size)
    ensures e < -1138 ==> TopBits(f, 64 - size) == 0 && e + 64 - size < DENORMAL_EXPONENT
  {
    hide TopBits;
    TopBitsRange(f, size);
  }

  lemma BitsFit(count: nat, f: int)
    requires 11 <= count <= 60 && Pow(2, count) > 0
    ensures 2048 <= Pow(2, count - 1) * 2 == Pow(2, count) <= W64 / 16 && 0 <= f % Pow(2, count) < Pow(2, count)
  {
    hide Pow;
    PowStep(2, count - 1);
    PowMono(2, count, 60);
    PowMono(2, 11, count);
    TwoTo52();
    TwoTo64();
    PowAdd(2, 60, 4);
    SmallPowersOfTwo();
  }

  /** Rounds to a double, and says whether the error leaves any doubt. */
  method RoundOff(f: uint64, e: int, error: nat, ghost x: real, ghost y: real) returns (result: Read, ok: bool)
    requires W64 / 2 <= f && Close(y, f, error) && Stands(x, y, e, 0) && error <= 180 && 0.0 <= x
    requires e >= -1138 || x <= RPow(2, -1075)
    ensures GoodGuess(x, result, ok)
  {
    hide Pow, Close, Stands, RPow, BinaryValue, ReadsAs, GoodGuess, TopBits, FromDiyFp, Placed, BitsSay;
    var orderOfMagnitude := 64 + e;
    var size := SignificandSizeForOrderOfMagnitude(orderOfMagnitude);
    SizePlaces(f, e, size);
    var f', e', error', count;
    ghost var y';
    f', e', error', count, y' := DropExcess(f, e, error, 64 - size, x, y);
    PowPositive(2, count);
    BitsFit(count, f');
    TopBitsAre(f', count);
    QuotientSmaller(f', Pow(2, count));
    var bits: uint64 := f' % Pow(2, count);
    var halfWay: uint64 := Pow(2, count - 1);
    bits := bits * 8;
    halfWay := halfWay * 8;
    ghost var q := TopBits(f', count);
    var rounded: uint64 := f' / Pow(2, count);
    BitsMean(x, y', f', e', error', count, q, bits, halfWay);
    ghost var k := e' + count;
    if e >= -1138 {
      RoundedRight(x, q, k, bits, halfWay, error'); PlacedBounds(q, k);
    } else {
      ZeroInterval(x); TooSmallIsZero(k);
    }
    var upper: uint64 := halfWay + error';
    var lower: uint64 := halfWay - error';
    if bits >= upper {
      rounded := rounded + 1;
    }
    result := DoubleFromDiyFp(rounded, e' + count);
    ok := !(lower < bits < upper);
    GuessIs(x, result, ok);
  }

  lemma PlacedBounds(q: int, k: int)
    requires Placed(q, k)
    ensures 0 <= q < 2 * HIDDEN_BIT && (q >= HIDDEN_BIT || k <= DENORMAL_EXPONENT)
  {
  }

  lemma TooSmallIsZero(k: int)
    requires k < DENORMAL_EXPONENT
    ensures FromDiyFp(0, k) == ZERO == FromDiyFp(1, k)
  {
  }

  lemma TopBitsAre(f: int, count: nat)
    requires Pow(2, count) > 0
    ensures TopBits(f, count) == f / Pow(2, count)
  {
  }

  lemma GuessIs(x: real, r: Read, ok: bool)
    ensures ReadsAs(x, r) ==> GoodGuess(x, r, ok)
  {
  }

  // ---- half of the smallest double ----

  const FIVE_114: int := 48148248609680896326399448564623182963452541205384704880998469889163970947265625

  const TWO_244: int := 0x10_0000_0000_0000_0000_0000_0000_0000_0000_0000_0000_0000_0000_0000_0000_0000

  lemma Powers114()
    ensures Pow(5, 114) == FIVE_114 && Pow(2, 244) == TWO_244
  {
    hide Pow;
    PowStep(5, 0); PowStep(5, 1); PowStep(5, 2); PowStep(5, 3);
    PowAdd(5, 3, 4);
    PowAdd(5, 7, 7);
    PowAdd(5, 14, 14);
    PowAdd(5, 28, 1);
    PowAdd(5, 28, 29);
    PowAdd(5, 57, 57);
    TwosAndTens();
    PowStep(2, 60);
    PowAdd(2, 61, 61);
    PowAdd(2, 122, 122);
  }

  /** 10^342 against half of the smallest double, 2^-1075: the quotient starts with the digits of CORNER. */
  lemma CornerDigits()
    ensures 2 * Pow(5, 342) > (2 * CORNER - 1) * Pow(2, 733)
    ensures (W64 + 22) * Pow(5, 342) < ((CORNER + 5) * W64) * Pow(2, 733)
  {
    hide Pow;
    Powers114();
    PowAdd(5, 114, 114);
    PowAdd(5, 228, 114);
    PowAdd(2, 244, 244);
    PowAdd(2, 488, 244);
    PowStep(2, 732);
  }

  /** A decimal exponent of 342 turns 2^-1075 into a quotient of integers. */
  lemma CornerScale() returns (c: real)
    ensures c == RPow(10, 342) * Pow(2, 733) as real && RPow(2, -1075) * c == Pow(5, 342) as real && c > 0.0
  {
    hide Pow, RPow, RealPow;
    RealPowIs(10, 342);
    FivesAndTwos(342);
    IntProduct(Pow(2, 342), Pow(5, 342));
    RPowMul(2, -1075, 342);
    RPowMul(2, -733, 733);
    RealPowIs(2, 342);
    RealPowIs(2, 733);
    ZeroPower();
    PowPositive(5, 342);
    var a, u, t, p := RPow(2, -1075), Pow(2, 342) as real, Pow(5, 342) as real, Pow(2, 733) as real;
    c := RPow(10, 342) * p;
    ScaleAlgebra(a, u, t, p, c);
    RPowPositive(2, -1075);
    if c <= 0.0 { CompareScaled(c, 0.0, a); }
  }

  lemma ScaleAlgebra(a: real, u: real, t: real, p: real, c: real)
    requires c == (u * t) * p && (a * u) * p == 1.0
    ensures a * c == t
  {
    RealAssoc(u, t, p);
    RealAssoc(t, p, 1.0);
    RealAssoc(u, p, t);
    RealAssoc(a, u * p, t);
    RealAssoc(a, u, p);
  }

  /** What is just above half of the smallest double, times 10^342. */
  lemma CornerWindow(x: real, z: real)
    requires RPow(2, -1075) < x && x * W64 as real < (W64 + 22) as real * RPow(2, -1075) && z == x * RPow(10, 342)
    ensures CORNER as real - 0.5 < z < (CORNER + 5) as real
  {
    hide Pow, RPow;
    CornerDigits();
    PowPositive(2, 733);
    var c := CornerScale();
    var a, t, p, w := RPow(2, -1075), Pow(5, 342), Pow(2, 733), W64 as real;
    RealAssoc(x, RPow(10, 342), p as real);
    assert z * p as real == x * c;
    CompareScaled(a, x, c);
    IntProduct(2 * CORNER - 1, p);
    CornerBelow(z, t, p);
    CompareScaled(x * w, (W64 + 22) as real * a, c);
    RealAssoc(x, w, c);
    RealAssoc(w, x, c);
    RealAssoc((W64 + 22) as real, a, c);
    IntProduct(W64 + 22, t);
    IntProduct((CORNER + 5) * W64, p);
    CornerAbove(z, t, p);
  }

  lemma CornerBelow(z: real, t: int, p: int)
    requires p >= 1 && 2 * t > (2 * CORNER - 1) * p && t as real < z * p as real
    ensures CORNER as real - 0.5 < z
  {
    IntProduct(2 * CORNER - 1, p);
    CompareScaled(CORNER as real - 0.5, z, p as real);
  }

  lemma CornerAbove(z: real, t: int, p: int)
    requires p >= 1 && (W64 + 22) * t < ((CORNER + 5) * W64) * p
    requires W64 as real * (z * p as real) < ((W64 + 22) * t) as real
    ensures z < (CORNER + 5) as real
  {
    IntProduct((CORNER + 5) * W64, p);
    var q := p as real;
    assert W64 as real * (z * q) < ((CORNER + 5) * W64) as real * q;
    assert z * q < (CORNER + 5) as real * q;
    CompareScaled(z, (CORNER + 5) as real, q);
  }

  /** Ten times a digit string is not in the window. */
  lemma NotTenfold(n: int, j: nat)
    requires j >= 1
    ensures !(CORNER <= n * Pow(10, j) < CORNER + 5)
  {
    PowStep(10, j - 1);
    var h := n * Pow(10, j - 1);
    MulAssoc(n, 10, Pow(10, j - 1));
    MulAssoc(10, n, Pow(10, j - 1));
    assert n * Pow(10, j) == 10 * h;
  }

  /** Only digits that start with CORNER get so close to half of the smallest double from above. */
  lemma CornerOnly(x: real, y: real, n: int, k: int, exact: bool)
    requires RPow(2, -1075) < x && x * W64 as real < (W64 + 22) as real * RPow(2, -1075) && x == y * RPow(10, k)
    requires Off(y, n as real, 0.5) && (exact ==> y == n as real) && (!exact ==> LIMIT as real < y) && 0 <= n < W64
    ensures k == -342 && CORNER <= n < CORNER + 6
  {
    hide Pow, RPow;
    var z := x * RPow(10, 342);
    CornerWindow(x, z);
    RPowMul(10, k, 342);
    RealAssoc(y, RPow(10, k), RPow(10, 342));
    var j := k + 342;
    assert z == y * RPow(10, j);
    if j < 0 {
      FarBelow(y, z, -j);
    } else if j > 0 {
      OutOfWindow(y, n, z, j, exact);
    } else {
      ZeroPower();
      AtCorner(z, n);
    }
  }

  lemma AtCorner(z: real, n: int)
    requires Off(z, n as real, 0.5) && CORNER as real - 0.5 < z < (CORNER + 5) as real
    ensures CORNER <= n < CORNER + 6
  {
  }

  lemma OutOfWindow(y: real, n: int, z: real, j: nat, exact: bool)
    requires j >= 1 && z == y * RPow(10, j) && (if exact then y == n as real else LIMIT as real < y)
    ensures !(CORNER as real - 0.5 < z < (CORNER + 5) as real)
  {
    hide Pow, RPow;
    if exact {
      RealPowIs(10, j);
      IntProduct(n, Pow(10, j));
      NotTenfold(n, j);
    } else if z < (CORNER + 5) as real {
      FarAbove(y, z, j);
    }
  }

  lemma FarBelow(y: real, z: real, i: nat)
    requires i >= 1 && z == y * RPow(10, 0 - i) && z > CORNER as real - 0.5
    ensures y > W64 as real
  {
    hide Pow, RPow;
    RPowMul(10, 0 - i, i);
    ZeroPower();
    RealPowIs(10, i);
    PowStep(10, 0);
    PowMono(10, 1, i);
    var v, t := RPow(10, 0 - i), Pow(10, i) as real;
    RealAssoc(y, v, t);
    assert z * t == y;
    CompareReals(10.0, t, z);
    RealAssoc(t, z, 1.0);
  }

  lemma FarAbove(y: real, z: real, i: nat)
    requires i >= 1 && z == y * RPow(10, i) && z < (CORNER + 5) as real
    ensures y < LIMIT as real
  {
    hide Pow, RPow;
    RealPowIs(10, i);
    PowStep(10, 0);
    PowMono(10, 1, i);
    if y > 0.0 {
      CompareReals(10.0, Pow(10, i) as real, y);
      RealAssoc(Pow(10, i) as real, y, 1.0);
    }
  }

  lemma RPowGrows(e: int, e': int)
    requires e <= e'
    ensures RPow(2, e) <= RPow(2, e')
  {
    hide Pow, RPow;
    var n := e' - e;
    RPowMul(2, e, n);
    RealPowIs(2, n);
    PowPositive(2, n);
    RPowPositive(2, e);
    var u, t := RPow(2, e), Pow(2, n) as real;
    assert RPow(2, e') == u * t;
    CompareReals(1.0, t, u);
    RealAssoc(t, u, 1.0);
  }

  /** A number this small is at most a hair above half of the smallest double. */
  lemma TinyUpper(x: real, y: real, f: int, e: int, error: int)
    requires Close(y, f, error) && Stands(x, y, e, 0) && 0.0 <= y && f < W64 && error <= 180 && e <= -1139
    ensures x * W64 as real < (W64 + 22) as real * RPow(2, -1075)
  {
    hide Pow, RPow;
    RPowGrows(e, -1139);
    RPowMul(2, -1139, 64);
    RealPowIs(2, 64);
    TwoTo64();
    ZeroPower();
    RPowPositive(2, -1139);
    TinyAlgebra(x, y, RPow(2, e), RPow(2, -1139), W64 as real, (W64 + 22) as real, RPow(2, -1075));
  }

  lemma TinyAlgebra(x: real, y: real, u: real, v: real, w: real, b: real, a: real)
    requires x == y * u && 0.0 <= y < b && u <= v && v > 0.0 && w > 0.0 && a == v * w
    ensures x * w < b * a
  {
    CompareReals(u, v, y);
    RealAssoc(y, u, 1.0);
    RealAssoc(y, v, 1.0);
    CompareScaled(y, b, v);
    CompareScaled(x, b * v, w);
    RealAssoc(b, v, w);
  }

  lemma InCorner(x: real, y: real, z: real, n: int, k: int, exact: bool, f: int, e: int, error: int)
    requires Close(z, f, error) && Stands(x, z, e, 0) && 0.0 <= z && f < W64 && error <= 180
    requires Stands(x, y, 0, k) && Approx(y, n, if exact then 0 else 4) && 0 <= n < W64
    requires (!exact ==> LIMIT as real < y)
    ensures e < -1138 && RPow(2, -1075) < x ==> k == -342 && CORNER <= n < CORNER + 6
  {
    hide Pow, RPow, Close;
    if e < -1138 && RPow(2, -1075) < x {
      TinyUpper(x, z, f, e, error);
      ZeroPower();
      CornerOnly(x, y, n, k, exact);
    }
  }

  // ---- the whole reading ----

  lemma StandsAtFirst(D: int, exponent: int, y: real, n: nat, x: real)
    requires y * Pow(10, n) as real == D as real && x == DecimalValue(D, exponent)
    ensures Stands(x, y, 0, exponent + n)
  {
    hide Pow, RPow, RealPow;
    RPowMul(10, exponent, n);
    RealPowIs(10, n);
    ZeroPower();
    RealAssoc(y, Pow(10, n) as real, RPow(10, exponent));
    RealAssoc(Pow(10, n) as real, RPow(10, exponent), 1.0);
  }

  lemma FirstShift(f: int, n: nat, error: nat, shifted: int)
    requires shifted == error * Pow(2, n) && f > 0 && W64 / 2 <= f * Pow(2, n) < W64
    requires (error == 0 || (error == 4 && f > LIMIT))
    ensures 0 <= shifted <= 32 && (error == 0 ==> shifted == 0)
    ensures CORNER <= f < CORNER + 6 ==> n == 2 && f * Pow(2, n) == 4 * f
  {
    hide Pow;
    SmallPowersOfTwo();
    if error == 4 { ShiftAtMost(f, n, LIMIT + 1, 3); }
    if CORNER <= f < CORNER + 6 { ShiftAtMost(f, n, CORNER, 2); }
  }

  lemma InputShifted(x: real, y: real, k: int, n: int, s: nat, error: nat, f: int, shifted: int) returns (z: real)
    requires n > 0 && f == n * Pow(2, s) && W64 / 2 <= f < W64 && shifted == error * Pow(2, s)
    requires (error == 0 || (error == 4 && n > LIMIT)) && Approx(y, n, error) && Stands(x, y, 0, k) && 0.0 <= y
    ensures 0 <= shifted <= 32 && (error == 0 ==> shifted == 0) && Approx(z, f, shifted) && Stands(x, z, 0 - s, k)
    ensures 0.0 <= z
    ensures CORNER <= n < CORNER + 6 ==> s == 2 && f == 4 * n
  {
    hide Pow, Approx, Stands;
    FirstShift(n, s, error, shifted);
    PowPositive(2, s);
    z := y * Pow(2, s) as real;
    ApproxShifted(y, n, error, Pow(2, s), z, f, shifted);
    StandsShifted(x, y, 0, k, s, z);
    CompareReals(0.0, y, Pow(2, s) as real);
  }

  /** The number read, normalized; n is what it was before. */
  method NormalizeInput(input: DiyFp, remaining: nat, ghost x: real, ghost y: real, ghost k: int)
    returns (error: nat, ghost y': real, ghost s: nat)
    requires input.f > 0 && input.e == 0 && 0.0 <= y && Stands(x, y, 0, k)
    requires Approx(y, input.f, if remaining == 0 then 0 else 4) && (remaining > 0 ==> input.f > LIMIT)
    modifies input
    ensures input.f == old(input.f) * Pow(2, s) && input.e == 0 - s && W64 / 2 <= input.f
    ensures error <= 32 && (remaining == 0 ==> error == 0) && 0.0 <= y'
    ensures Approx(y', input.f, error) && Stands(x, y', input.e, k)
    ensures CORNER <= old(input.f) < CORNER + 6 ==> input.e == -2 && input.f >= 4 * CORNER
  {
    hide Pow, Approx, Stands;
    var error0 := if remaining == 0 then 0 else 4;
    ghost var n := input.f;
    var oldE := input.e;
    input.Normalize();
    s := oldE - input.e;
    var shifted := error0 * Pow(2, oldE - input.e);
    y' := InputShifted(x, y, k, n, s, error0, input.f, shifted);
    error := shifted;
  }

  /**
   * Reads a decimal number with 64-bit arithmetic. Returning true means that the result is the double the number
   * rounds to;
   * otherwise it may also be the next lower one.
   */
  method DiyFpStrtod(buffer: seq<int>, exponent: int, table: seq<Cached>) returns (result: Read, ok: bool)
    requires IsDecimal(buffer) && buffer != [] && buffer[0] != 0 && exponent + |buffer| <= 340 && GoodTable(table)
    ensures GoodGuess(DecimalValue(Decimal(buffer), exponent), result, ok)
  {
    hide Pow, RPow, Decimal, DecimalValue, Approx, Close, Stands, GoodTable, GoodGuess, ReadsAs;
    var input, remaining;
    ghost var y;
    input, remaining, y := ReadDiyFp(buffer);
    ghost var x, n, k := DecimalValue(Decimal(buffer), exponent), input.f, exponent + remaining;
    StandsAtFirst(Decimal(buffer), exponent, y, remaining, x);
    var exponent' := exponent + remaining;
    var error;
    ghost var y1, s;
    error, y1, s := NormalizeInput(input, remaining, x, y, k);
    if exponent' < MIN_DECIMAL_EXPONENT {
      DecimalBelow(buffer);
      TooSmall(Decimal(buffer), exponent, |buffer|);
      GuessIs(x, ZERO, true);
      return ZERO, true;
    }
    if |buffer| <= 18 { DecimalBelow(buffer); }
    ghost var y2;
    error, y2 := ScaleByPower(input, exponent', error, |buffer|, table, x, y1, n, s);
    InCorner(x, y, y2, n, k, remaining == 0, input.f, input.e, error);
    NotNegative(Decimal(buffer), exponent);
    result, ok := RoundOff(input.f, input.e, error, x, y2);
  }
}
