/** A given number of digits by floating-point arithmetic with an error bound: double-conversion/fast-dtoa.cc. */
module GrisuCounted {
  import opened Arith
  import opened BignumDtoa
  import opened Counted
  import opened Decimals
  import opened DiyFps
  import Grisu
  import opened Ieee
  import opened Rounding

  /** Of every number within one unit of w, n is the nearest multiple of tk. */
  ghost predicate Settled(w: int, n: int, tk: int, unit: int)
  {
    (2 * n - 1) * tk <= 2 * ((w - 1) * unit) && 2 * ((w + 1) * unit) <= (2 * n + 1) * tk
  }

  /** The digits write n in units of 10^place; if all nines were carried over, they end one place earlier. */
  ghost predicate Wrote(digits: seq<int>, kappa: int, n: int, place: int)
  {
    && digits != [] && IsDecimal(digits) && digits[0] >= 1
    && if kappa == place then Decimal(digits) == n
       else kappa == place + 1 && 10 * Decimal(digits) == n == Pow(10, |digits|)
  }

  /** Rounds the digits if the error of the remainder cannot matter. */
  method RoundWeedCounted(buffer: array<int>, length: nat, rest: uint64, tenKappa: uint64, unit: uint64,
                          kappaStart: int)
    returns (ok: bool, kappa: int, ghost n: int)
    requires 1 <= length <= buffer.Length && IsDecimal(buffer[..length]) && buffer[0] >= 1 && rest < tenKappa
    modifies buffer
    ensures ok ==> 2 * unit < tenKappa && Wrote(buffer[..length], kappa, n, kappaStart)
    ensures ok ==> var d := old(Decimal(buffer[..length]));
      (n == d && 2 * (rest + unit) <= tenKappa) || (n == d + 1 && tenKappa <= 2 * (rest - unit))
  {
    hide Pow, Decimal;
    kappa := kappaStart;
    ghost var digits := buffer[..length];
    n := Decimal(digits);
    if unit >= tenKappa {
      return false, kappa, n;
    }
    var spare: uint64 := tenKappa - unit;
    if spare <= unit {
      return false, kappa, n;
    }
    if tenKappa - rest > rest {
      var down: uint64, twice: uint64 := tenKappa - 2 * rest, 2 * unit;
      if down >= twice {
        return true, kappa, n;
      }
    }
    if rest > unit && tenKappa - (rest - unit) <= rest - unit {
      n := n + 1;
      DecimalLast(digits, -1);
      buffer[length - 1] := buffer[length - 1] + 1;
      assert buffer[..length] == digits[length - 1 := digits[length - 1] + 1];
      var over := Carry(buffer, length);
      if over {
        PowStep(10, length - 1);
        kappa := kappa + 1;
      }
      return true, kappa, n;
    }
    ok := false;
  }

  /** The test on the remainder settles it for all numbers within a unit. */
  lemma SettledBy(w: int, d: int, n: int, rest: int, tk: int, unit: int)
    requires w * unit == d * tk + rest && 0 <= rest < tk && 2 * unit < tk
    requires (n == d && 2 * (rest + unit) <= tk) || (n == d + 1 && tk <= 2 * (rest - unit))
    ensures Settled(w, n, tk, unit)
  {
    Dist(w, 1, unit);
    Dist(2 * n, 1, tk);
    MulAssoc(2, n, tk);
    Dist(d, 1, tk);
  }

  // ---- digit generation ----

  /**
   * The outcome of digit generation, for a trusted result: n is settled in the last places, and the number has so many
   * digits there.
   */
  ghost predicate Trusted(w: int, digits: seq<int>, kappa: int, one: int, n: int, place: int)
  {
    var tk, unit := Grisu.TenKappa(place, one), Grisu.Unit(place);
    && Wrote(digits, kappa, n, place) && tk >= 1 && unit >= 1 && Settled(w, n, tk, unit)
    && Pow(10, |digits| - 1) * tk <= w * unit < Pow(10, |digits|) * tk
  }

  /** The digits of w so far, and the remainder. */
  ghost predicate Cut(w: int, digits: seq<int>, kappa: int, rest: int, one: int)
  {
    Grisu.Generated(w, 0, digits, kappa, rest, one)
  }

  lemma CutLength(w: int, digits: seq<int>, kappa: int, rest: int, one: int)
    requires Cut(w, digits, kappa, rest, one) && digits != [] && one >= 1
    ensures IsDecimal(digits) && digits[0] >= 1
    ensures var tk, unit := Grisu.TenKappa(kappa, one), Grisu.Unit(kappa);
      && tk >= 1 && unit >= 1 && 0 <= rest < tk && w * unit == Decimal(digits) * tk + rest
      && Pow(10, |digits| - 1) * tk <= w * unit < Pow(10, |digits|) * tk
  {
    Grisu.NextScale(kappa + 1, one);
    hide Pow, Decimal, Grisu.TenKappa, Grisu.Unit;
    DecimalBounds(digits);
    var tk := Grisu.TenKappa(kappa, one);
    MulMono(tk, Pow(10, |digits| - 1), Decimal(digits));
    MulMono(tk, Decimal(digits) + 1, Pow(10, |digits|));
    Dist(Decimal(digits), 1, tk);
  }

  /** Rounds what has been generated. */
  method RoundCut(w: uint64, buffer: array<int>, length: nat, rest: uint64, tenKappa: uint64, unit: uint64, place: int,
                  ghost one: int)
    returns (ok: bool, kappa: int, ghost n: int)
    requires 1 <= length <= buffer.Length && one >= 1 && Cut(w, buffer[..length], place, rest, one)
    requires tenKappa == Grisu.TenKappa(place, one) && unit == Grisu.Unit(place)
    modifies buffer
    ensures ok ==> Trusted(w, buffer[..length], kappa, one, n, place)
  {
    hide Pow, Decimal, Grisu.TenKappa, Grisu.Unit, Cut, Settled, Wrote;
    ghost var digits := buffer[..length];
    CutLength(w, digits, place, rest, one);
    ok, kappa, n := RoundWeedCounted(buffer, length, rest, tenKappa, unit, place);
    if ok {
      SettledBy(w, Decimal(digits), n, rest, tenKappa, unit);
    }
  }

  /** One pass of the loop over the integral digits. */
  method IntegralDigit(w: uint64, buffer: array<int>, length: nat, kappa: nat, integrals: uint64, fractionals: uint64,
                       divisor: uint64, one: uint64) returns (left: uint64)
    requires 1 <= kappa && length < buffer.Length && 0 <= fractionals < one
    requires divisor == Pow(10, kappa - 1) && (length == 0 ==> divisor <= integrals)
    requires Cut(w, buffer[..length], kappa, integrals * one + fractionals, one)
    modifies buffer
    ensures Cut(w, buffer[..length + 1], kappa - 1, left * one + fractionals, one)
  {
    hide Pow, Decimal;
    ghost var digits := buffer[..length];
    PowPositive(10, kappa - 1);
    Grisu.IntegralRest(integrals, divisor, fractionals, one);
    var digit := integrals / divisor;
    Emit(buffer, length, digit);
    left := integrals % divisor;
    ghost var after := left * one + fractionals;
    Grisu.NextDigit(w, 0, digits, kappa, integrals * one + fractionals, one, after, digit);
  }

  /** One pass of the loop over the fractional digits. */
  method FractionalDigit(w: uint64, buffer: array<int>, length: nat, kappa: int, fractionals: uint64, one: uint64)
    returns (rest: uint64)
    requires kappa <= 0 && 1 <= length < buffer.Length && 0 <= fractionals < one <= 0x1000_0000_0000_0000
    requires Cut(w, buffer[..length], kappa, fractionals, one)
    modifies buffer
    ensures rest < one && Cut(w, buffer[..length + 1], kappa - 1, rest, one)
  {
    hide Pow, Decimal;
    ghost var digits := buffer[..length];
    Grisu.FractionalRest(fractionals, one);
    var ten: uint64 := fractionals * 10;
    var digit := ten / one;
    Emit(buffer, length, digit);
    rest := ten % one;
    Grisu.NextDigit(w, 0, digits, kappa, fractionals, one, rest, digit);
  }

  /** The digits after the binary point, as long as the error has not reached them. */
  method FractionalDigits(w: uint64, requestedStart: nat, buffer: array<int>, start: nat, fractionalsStart: uint64,
                          one: uint64)
    returns (ok: bool, length: nat, kappa: int, ghost n: int, ghost place: int)
    requires 1 <= start && start + requestedStart <= buffer.Length && 1 <= requestedStart
    requires 0 <= fractionalsStart < one <= 0x1000_0000_0000_0000 && Cut(w, buffer[..start], 0, fractionalsStart, one)
    modifies buffer
    ensures ok ==> length == start + requestedStart && Trusted(w, buffer[..length], kappa, one, n, place)
    ensures length <= start + requestedStart
  {
    hide Pow, Decimal, Grisu.TenKappa, Grisu.Unit, Cut, Trusted;
    var requestedDigits, wError: uint64, fractionals := requestedStart, 1, fractionalsStart;
    length, kappa := start, 0;
    Grisu.UnitZero();
    while requestedDigits > 0 && fractionals > wError
      invariant kappa <= 0 && 0 <= requestedDigits && length + requestedDigits == start + requestedStart
      invariant start <= length && 0 <= fractionals < one && wError == Grisu.Unit(kappa)
      invariant requestedDigits > 0 || wError < 10 * one
      invariant Cut(w, buffer[..length], kappa, fractionals, one)
      decreases requestedDigits
    {
      NextError(kappa);
      fractionals := FractionalDigit(w, buffer, length, kappa, fractionals, one);
      wError := wError * 10;
      kappa, length, requestedDigits := kappa - 1, length + 1, requestedDigits - 1;
    }
    if requestedDigits != 0 {
      return false, length, kappa, 0, 0;
    }
    NegativePlace(kappa, one);
    place := kappa;
    ok, kappa, n := RoundCut(w, buffer, length, fractionals, one, wError, kappa, one);
  }

  lemma NextError(kappa: int)
    requires kappa <= 0
    ensures Grisu.Unit(kappa - 1) == 10 * Grisu.Unit(kappa) && Grisu.Unit(kappa) >= 1
  {
    PowStep(10, -kappa);
    PowPositive(10, -kappa);
  }

  lemma NegativePlace(kappa: int, one: int)
    requires kappa <= 0
    ensures Grisu.TenKappa(kappa, one) == one
  {
    PowStep(10, 0);
  }

  lemma PositivePlace(kappa: nat, one: int)
    ensures Grisu.TenKappa(kappa, one) == Pow(10, kappa) * one && Grisu.Unit(kappa) == 1
  {
  }

  /**
   * Generates so many digits of w and rounds them. A trusted result is right for every number within one unit of w; no
   * step overflows.
   */
  method DigitGenCounted(w: DiyFp, requestedStart: nat, buffer: array<int>)
    returns (ok: bool, length: nat, kappa: int, ghost n: int, ghost place: int)
    requires -60 <= w.e <= -32 && w.f >= 0x4000_0000_0000_0000
    requires buffer.Length >= requestedStart && buffer.Length >= 10
    modifies buffer
    ensures length <= buffer.Length
    ensures ok ==> length == requestedStart && Trusted(w.f, buffer[..length], kappa, Pow(2, -w.e), n, place)
  {
    hide Pow, Decimal, Grisu.TenKappa, Grisu.Unit, Cut, Trusted;
    var requestedDigits: int := requestedStart;
    var one := Grisu.OneOf(-w.e);
    Grisu.OneBounds(-w.e, one);
    var integrals: uint64, fractionals: uint64 := w.f / one, w.f % one;
    Grisu.CutInTwo(w.f, -w.e, one, integrals, fractionals);
    var divisor: uint64;
    PowStep(2, 64 + w.e);
    divisor, kappa := Grisu.BiggestPowerTen(integrals, 64 + w.e);
    length := 0;
    Grisu.FirstDivisor(w.f, integrals, fractionals, one, divisor, kappa);
    FirstCut(w.f, kappa, one);
    assert buffer[..0] == [];
    while kappa > 0
      invariant 0 <= kappa <= 10 - length && length + requestedDigits == requestedStart
      invariant if length == 0 then kappa > 0 && divisor <= integrals else requestedDigits != 0
      invariant kappa > 0 ==> divisor == Pow(10, kappa - 1)
      invariant Cut(w.f, buffer[..length], kappa, integrals * one + fractionals, one)
      decreases kappa
    {
      integrals := IntegralDigit(w.f, buffer, length, kappa, integrals, fractionals, divisor, one);
      length, requestedDigits, kappa := length + 1, requestedDigits - 1, kappa - 1;
      if requestedDigits == 0 { break; }
      if kappa > 0 { Grisu.NextDivisor(divisor, kappa); }
      divisor := divisor / 10;
    }
    if requestedDigits == 0 {
      PositivePlace(kappa, one);
      CutRest(w.f, buffer[..length], kappa, integrals * one + fractionals, one);
      place := kappa;
      ok, kappa, n := RoundCut(w.f, buffer, length, integrals * one + fractionals, divisor * one, 1, kappa, one);
      return;
    }
    if requestedDigits < 0 {
      return false, length, kappa, 0, 0;
    }
    NothingLeft(w.f, buffer[..length], integrals, fractionals, one);
    ok, length, kappa, n, place := FractionalDigits(w.f, requestedDigits, buffer, length, fractionals, one);
  }

  lemma FirstCut(w: int, kappa: nat, one: int)
    requires 0 <= w < Pow(10, kappa) * one
    ensures Cut(w, [], kappa, w, one)
  {
    Grisu.FirstGenerated(w, 0, kappa, one);
  }

  /** The remainder and the last place are words. */
  lemma CutRest(w: int, digits: seq<int>, kappa: int, rest: int, one: int)
    requires Cut(w, digits, kappa, rest, one) && digits != [] && one >= 1 && kappa >= 0
    ensures 0 <= rest < Grisu.TenKappa(kappa, one) <= w
  {
    hide Pow, Grisu.TenKappa, Cut;
    PositivePlace(kappa, one);
    CutLength(w, digits, kappa, rest, one);
    PowPositive(10, |digits| - 1);
    MulMono(Grisu.TenKappa(kappa, one), 1, Pow(10, |digits| - 1));
  }

  lemma NothingLeft(w: int, digits: seq<int>, integrals: int, fractionals: int, one: int)
    requires Cut(w, digits, 0, integrals * one + fractionals, one) && 0 <= fractionals < one && 0 <= integrals
    ensures integrals == 0
  {
    Grisu.NothingLeft(w, 0, digits, integrals, fractionals, one);
  }

  // ---- what this says about the double ----

  /** n units of 10^e are nearest to v, and v is not halfway to the next. */
  ghost predicate Nearest(v: Double, n: int, e: int)
  {
    DecimalValue(2 * n - 1, e) < 2.0 * Value(v) < DecimalValue(2 * n + 1, e)
  }

  /** v in units of 10^e. */
  ghost function InPlaces(v: Double, e: int): real { Value(v) * RPow(10, -e) }

  lemma PlacesBack(v: Double, e: int)
    ensures InPlaces(v, e) * RPow(10, e) == Value(v) && RPow(10, -e) > 0.0
  {
    hide RPow, Value;
    RPowPositive(10, -e);
    RPowMul(10, -e, e);
    assert RPow(10, 0) == 1.0 by { RealPowIs(10, 0); PowStep(10, 0); }
    RealAssoc(Value(v), RPow(10, -e), RPow(10, e));
  }

  /** Comparing with a number of units. */
  lemma InUnitsOf(v: Double, e: int, m: int)
    ensures DecimalValue(m, e) < 2.0 * Value(v) <==> m as real < 2.0 * InPlaces(v, e)
    ensures DecimalValue(m, e) > 2.0 * Value(v) <==> m as real > 2.0 * InPlaces(v, e)
  {
    hide RPow, Value, InPlaces;
    PlacesBack(v, e);
    RPowPositive(10, e);
    var y, w := InPlaces(v, e), RPow(10, e);
    RealAssoc(2.0, y, w);
    CompareScaled(m as real, 2.0 * y, w);
    CompareScaled(2.0 * y, m as real, w);
  }

  lemma UnitsNearest(v: Double, n: int, e: int)
    requires Nearest(v, n, e)
    ensures HalfUp(Value(v), -e) == DecimalValue(n, e)
    ensures (2 * n - 1) as real < 2.0 * InPlaces(v, e) < (2 * n + 1) as real
  {
    hide RPow, Value, DecimalValue;
    InUnitsOf(v, e, 2 * n - 1);
    InUnitsOf(v, e, 2 * n + 1);
    FloorIs(InPlaces(v, e) + 0.5, n);
    assert Units(Value(v), -e) == n;
  }

  lemma MagnitudeInPlaces(v: Double, e: int, p: int)
    ensures Magnitude(v, p) <==> RPow(10, p - 1 - e) <= InPlaces(v, e) < RPow(10, p - e)
  {
    hide RPow, Value;
    RPowPositive(10, -e);
    RPowMul(10, p - 1, -e);
    RPowMul(10, p, -e);
    CompareScaled(RPow(10, p - 1), Value(v), RPow(10, -e));
    CompareScaled(Value(v), RPow(10, p), RPow(10, -e));
  }

  /** v is not below a power of ten by more than half a unit of the finer place that it would have there. */
  ghost predicate NotBelow(v: Double, count: nat, decimalPoint: int)
  {
    DecimalValue(2 * Pow(10, count) - 1, decimalPoint - 1 - count) <= 2.0 * Value(v)
  }

  /** What the digits are: n, or a tenth of it if all nines were carried over. */
  ghost predicate Placed(digits: seq<int>, count: nat, decimalPoint: int, n: int, e: int)
  {
    && count >= 1 && |digits| == count && IsDecimal(digits) && digits[0] >= 1
    && Pow(10, count - 1) <= n <= Pow(10, count)
    && if n < Pow(10, count) then Decimal(digits) == n && decimalPoint == count + e
       else Decimal(digits) == Pow(10, count - 1) && decimalPoint == count + e + 1
  }

  lemma PlacedWritten(digits: seq<int>, count: nat, decimalPoint: int, n: int, e: int)
    requires Placed(digits, count, decimalPoint, n, e)
    ensures Written(digits, decimalPoint) == DecimalValue(n, e)
    ensures n == Pow(10, count) ==> Written(digits, decimalPoint) == DecimalValue(Pow(10, count - 1), e + 1)
  {
    hide DecimalValue, Decimal;
    PowStep(10, count - 1);
    if n == Pow(10, count) { CarriedPlace(Decimal(digits), e + 1); }
  }

  lemma CountedAt(v: Double, count: nat, digits: seq<int>, decimalPoint: int, p: int)
    requires |digits| == count && IsDecimal(digits) && (count >= 1 ==> digits[0] >= 1) && Magnitude(v, p)
    requires p <= decimalPoint <= p + 1
    ensures CountedFor(v, count, digits, decimalPoint) <==> Written(digits, decimalPoint) == HalfUp(Value(v), count - p)
  {
    hide Magnitude, Written, HalfUp, Value;
    if CountedFor(v, count, digits, decimalPoint) {
      var q :| Magnitude(v, q) && Written(digits, decimalPoint) == HalfUp(Value(v), count - q);
      MagnitudeOnce(v, p, q);
    }
  }

  lemma CountPowers(count: nat)
    requires count >= 1
    ensures RPow(10, count) == Pow(10, count) as real && RPow(10, count - 1) == Pow(10, count - 1) as real
    ensures Pow(10, count) == 10 * Pow(10, count - 1) && Pow(10, count - 1) >= 1
    ensures 10.0 * RPow(10, count - 2) == Pow(10, count - 1) as real && 10.0 * RPow(10, count) == RPow(10, count + 1)
  {
    hide RPow, RealPow;
    RealPowIs(10, count);
    RealPowIs(10, count - 1);
    PowStep(10, count - 1);
    PowPositive(10, count - 1);
    RPowAdd(10, count - 2, 1);
    RPowAdd(10, count, 1);
    TenOnce();
  }

  /** All nines were carried over. */
  lemma CarriedCounted(v: Double, count: nat, digits: seq<int>, decimalPoint: int, n: int, e: int)
    requires Placed(digits, count, decimalPoint, n, e) && n == Pow(10, count) && Nearest(v, n, e)
    ensures CountedFor(v, count, digits, decimalPoint) && NotBelow(v, count, decimalPoint)
  {
    hide RPow, Pow, Value, DecimalValue, Decimal, HalfUp, Written, InPlaces, Magnitude, CountedFor;
    CountPowers(count);
    PlacedWritten(digits, count, decimalPoint, n, e);
    UnitsNearest(v, n, e);
    var y := InPlaces(v, e);
    MagnitudeInPlaces(v, e, count + e);
    MagnitudeInPlaces(v, e, count + e + 1);
    if y < n as real {
      CountedAt(v, count, digits, decimalPoint, count + e);
    } else {
      CoarserPlace(v, e, Pow(10, count - 1));
      CountedAt(v, count, digits, decimalPoint, count + e + 1);
    }
  }

  lemma CoarserPlace(v: Double, e: int, c: int)
    requires 10.0 * c as real <= InPlaces(v, e) < 10.0 * c as real + 1.0
    ensures HalfUp(Value(v), -(e + 1)) == DecimalValue(c, e + 1)
  {
    hide RPow, Value, DecimalValue;
    RPowAdd(10, -(e + 1), 1);
    TenOnce();
    var x := Value(v) * RPow(10, -(e + 1));
    RealAssoc(Value(v), RPow(10, -(e + 1)), 10.0);
    assert InPlaces(v, e) == x * 10.0;
    FloorIs(x + 0.5, c);
  }

  lemma FinerPlace(v: Double, e: int, c: int)
    requires 2.0 * InPlaces(v, e) < 2.0 * c as real && (2 * c - 1) as real < 2.0 * InPlaces(v, e)
    ensures HalfUp(Value(v), 1 - e) == DecimalValue(10 * c, e - 1) <==> (20 * c - 1) as real <= 20.0 * InPlaces(v, e)
  {
    hide RPow, Value, DecimalValue;
    RPowAdd(10, -e, 1);
    TenOnce();
    var x := Value(v) * RPow(10, 1 - e);
    RealAssoc(Value(v), RPow(10, -e), 10.0);
    assert x == InPlaces(v, e) * 10.0;
    SameUnits(Units(Value(v), 1 - e), 10 * c, e - 1);
    assert (10 * c) as real == 10.0 * c as real;
  }

  lemma SameUnits(m: int, n: int, e: int)
    ensures DecimalValue(m, e) == DecimalValue(n, e) <==> m == n
  {
    hide RPow;
    RPowPositive(10, e);
    CompareScaled(m as real, n as real, RPow(10, e));
  }

  lemma NotBelowInPlaces(v: Double, count: nat, decimalPoint: int, e: int)
    requires decimalPoint == count + e
    ensures NotBelow(v, count, decimalPoint) <==> (2 * Pow(10, count) - 1) as real <= 20.0 * InPlaces(v, e)
  {
    hide RPow, Pow, Value, DecimalValue;
    InUnitsOf(v, e - 1, 2 * Pow(10, count) - 1);
    RPowAdd(10, -e, 1);
    TenOnce();
    RealAssoc(Value(v), RPow(10, -e), 10.0);
    assert InPlaces(v, e - 1) == InPlaces(v, e) * 10.0;
  }

  /** Without a carry. */
  lemma PlainCounted(v: Double, count: nat, digits: seq<int>, decimalPoint: int, n: int, e: int)
    requires Placed(digits, count, decimalPoint, n, e) && n < Pow(10, count) && Nearest(v, n, e)
    ensures CountedFor(v, count, digits, decimalPoint) <==> NotBelow(v, count, decimalPoint)
  {
    hide RPow, Pow, Value, DecimalValue, Decimal, HalfUp, Written, InPlaces, Magnitude, CountedFor, NotBelow;
    CountPowers(count);
    PlacedWritten(digits, count, decimalPoint, n, e);
    UnitsNearest(v, n, e);
    var y, c := InPlaces(v, e), Pow(10, count - 1);
    NotBelowInPlaces(v, count, decimalPoint, e);
    MagnitudeInPlaces(v, e, count + e);
    MagnitudeInPlaces(v, e, count + e - 1);
    if y >= c as real {
      CountedAt(v, count, digits, decimalPoint, count + e);
    } else {
      assert n == c;
      CarriedPlace(c, e);
      FinerPlace(v, e, c);
      CountedAt(v, count, digits, decimalPoint, count + e - 1);
    }
  }

  /** Trusted digits of a scaled number are nearest to the number itself. */
  lemma TrustedNearest(v: Double, mk: int, one: int, S: real, w: int, n: int, place: int)
    requires one >= 1 && S == RPow(10, mk) * one as real && S > 0.0 && Grisu.Near(Value(v) * S, w)
    requires Grisu.Unit(place) >= 1 && Settled(w, n, Grisu.TenKappa(place, one), Grisu.Unit(place))
    ensures Nearest(v, n, place - mk)
  {
    hide RPow, Value, DecimalValue, Grisu.Near, Grisu.Unit, Grisu.TenKappa, Settled;
    var e, u, tk := place - mk, Grisu.Unit(place), Grisu.TenKappa(place, one);
    Grisu.DecimalScaled(2 * n - 1, place, mk, one, S);
    Grisu.DecimalScaled(2 * n + 1, place, mk, one, S);
    SettledReal(Value(v) * S, w, n, tk, u);
    Unscale(DecimalValue(2 * n - 1, e), 2.0 * Value(v), S, u as real);
    Unscale(2.0 * Value(v), DecimalValue(2 * n + 1, e), S, u as real);
    RealAssoc(2.0, Value(v), S);
    RealAssoc(2.0, Value(v) * S, u as real);
  }

  lemma Unscale(x: real, y: real, s: real, u: real)
    requires s > 0.0 && u > 0.0 && x * s * u < y * s * u
    ensures x < y
  {
    CompareScaled(x * s, y * s, u);
    CompareScaled(x, y, s);
  }

  lemma SettledReal(x: real, w: int, n: int, tk: int, unit: int)
    requires Grisu.Near(x, w) && unit >= 1 && Settled(w, n, tk, unit)
    ensures ((2 * n - 1) * tk) as real < 2.0 * (x * unit as real) < ((2 * n + 1) * tk) as real
  {
    Grisu.Scaled(x, w, unit);
    assert (2 * ((w - 1) * unit)) as real == 2.0 * ((w - 1) * unit) as real;
    assert (2 * ((w + 1) * unit)) as real == 2.0 * ((w + 1) * unit) as real;
  }

  /** With no more than seventeen digits the error is too small for another power of ten to matter. */
  lemma FineEnough(v: Double, mk: int, one: int, S: real, w: int, count: nat, n: int, place: int)
    requires one >= 1 && S == RPow(10, mk) * one as real && S > 0.0 && Grisu.Near(Value(v) * S, w)
    requires 1 <= count <= 17 && w >= 0x4000_0000_0000_0000
    requires var tk, u := Grisu.TenKappa(place, one), Grisu.Unit(place);
      tk >= 1 && u >= 1 && Pow(10, count - 1) * tk <= w * u < Pow(10, count) * tk
    ensures NotBelow(v, count, count + place - mk)
  {
    hide RPow, Value, DecimalValue, Grisu.Near, Grisu.Unit, Grisu.TenKappa, Pow, NotBelow, InPlaces;
    var e, u, tk := place - mk, Grisu.Unit(place), Grisu.TenKappa(place, one);
    var y := InPlaces(v, e);
    InPlacesScaled(v, place, mk, one, S, y);
    PowStep(10, count - 1);
    SmallError(w, u, tk, count);
    Grisu.Scaled(Value(v) * S, w, u);
    HalfUnit(y, w, u, tk, Pow(10, count - 1));
    NotBelowInPlaces(v, count, count + e, e);
  }

  lemma InPlacesScaled(v: Double, place: int, mk: int, one: int, S: real, y: real)
    requires one >= 1 && S == RPow(10, mk) * one as real && y == InPlaces(v, place - mk)
    ensures Value(v) * S * Grisu.Unit(place) as real == y * Grisu.TenKappa(place, one) as real
  {
    hide RPow, Value, Grisu.Unit, Grisu.TenKappa, InPlaces;
    Grisu.DecimalScaled(1, place, mk, one, S);
    PlacesBack(v, place - mk);
    var w := RPow(10, place - mk);
    RealAssoc(y, w, S);
    RealAssoc(y, w * S, Grisu.Unit(place) as real);
    assert DecimalValue(1, place - mk) == w;
  }

  lemma SmallError(w: int, u: int, tk: int, count: nat)
    requires 1 <= count <= 17 && w >= 0x4000_0000_0000_0000 && u >= 1 && tk >= 1 && w * u < Pow(10, count) * tk
    ensures 20 * u <= tk
  {
    hide Pow;
    PowMono(10, count, 17);
    PowAdd(10, 8, 9);
    PowAdd(10, 4, 4);
    PowStep(10, 8);
    PowStep(10, 0); PowStep(10, 1); PowStep(10, 2); PowStep(10, 3);
    MulMono(tk, Pow(10, count), 100000000000000000);
    MulMono(u, 0x4000_0000_0000_0000, w);
  }

  lemma HalfUnit(y: real, w: int, u: int, tk: int, c: int)
    requires tk >= 1 && u >= 1 && 20 * u <= tk && c * tk <= w * u && ((w - 1) * u) as real < y * tk as real
    ensures (2 * (10 * c) - 1) as real <= 20.0 * y
  {
    Dist(w, 1, u);
    var T := tk as real;
    assert (w - 1) * u >= c * tk - u;
    assert 20 * ((w - 1) * u) >= 20 * (c * tk) - tk;
    Dist(20 * c, 1, tk);
    MulAssoc(20, c, tk);
    assert ((20 * c - 1) * tk) as real <= 20.0 * (y * T);
    IntProduct(20 * c - 1, tk);
    RealAssoc(20.0, y, T);
    CompareScaled((20 * c - 1) as real, 20.0 * y, T);
  }

  /**
   * So many digits of v. If the result is trusted, v is rounded at the last place that was generated; up to seventeen
   * digits that is the one right answer, and beyond that it is so unless v is below the power of ten that the digits
   * write.
   */
  method Grisu3Counted(v: Double, requestedDigits: nat, tenMk: DiyFp, mk: int, buffer: array<int>)
    returns (ok: bool, length: nat, decimalExponent: int, ghost place: int)
    requires v.Valid() && 0x8000_0000_0000_0000 <= tenMk.f && Grisu.InRange(v, tenMk.e)
    requires CachedPower(tenMk.f, tenMk.e, mk) && buffer.Length >= requestedDigits && buffer.Length >= 10
    modifies buffer
    ensures length <= buffer.Length
    ensures ok ==> length == requestedDigits && decimalExponent - 1 <= -place <= decimalExponent
    ensures ok ==> Written(buffer[..length], length + decimalExponent) == HalfUp(Value(v), place)
    ensures ok ==> (CountedFor(v, requestedDigits, buffer[..length], length + decimalExponent) <==>
                    NotBelow(v, requestedDigits, length + decimalExponent))
    ensures ok && requestedDigits <= 17 ==>
      CountedFor(v, requestedDigits, buffer[..length], length + decimalExponent)
  {
    hide Pow, Decimal, CachedPower, Trusted, CountedFor, NotBelow, HalfUp, Written, RPow, Value;
    ghost var shift;
    var w;
    w, shift := AsNormalizedDiyFp(v);
    ghost var c := tenMk.f;
    var scaledW := Times(w, tenMk);
    Grisu.TimesRounds(w.f, c, scaledW.f);
    LargeProduct(w.f, c, scaledW.f);
    assert -60 <= v.e - shift + tenMk.e + 64 <= -32;
    ghost var n;
    var kappa;
    ok, length, kappa, n, place := DigitGenCounted(scaledW, requestedDigits, buffer);
    decimalExponent := kappa - mk;
    if ok {
      TrustedCounted(v, c, tenMk.e, mk, shift, buffer[..length], kappa, n, place);
    }
    place := mk - place;
  }

  lemma LargeProduct(m: int, c: int, r: int)
    requires m >= W64 / 2 && c >= W64 / 2 && r == (m * c + W64 / 2) / W64
    ensures r >= 0x4000_0000_0000_0000
  {
    MulMono(c, W64 / 2, m);
    MulMono(W64 / 2, W64 / 2, c);
  }

  lemma TrustedCounted(v: Double, c: int, te: int, mk: int, shift: nat, digits: seq<int>, kappa: int, n: int,
                       place: int)
    requires v.Valid() && shift >= 2 && shift - v.e - te - 64 >= 0 && CachedPower(c, te, mk)
    requires 0 <= v.f * Pow(2, shift) < W64 && Grisu.RoundedProduct(v.f * Pow(2, shift), c) >= 0x4000_0000_0000_0000
    requires Trusted(Grisu.RoundedProduct(v.f * Pow(2, shift), c), digits, kappa, Pow(2, shift - v.e - te - 64), n,
                     place)
    ensures var e, p := place - mk, |digits| + kappa - mk;
      && e <= kappa - mk <= e + 1 && Written(digits, p) == HalfUp(Value(v), -e)
      && (CountedFor(v, |digits|, digits, p) <==> NotBelow(v, |digits|, p))
      && (|digits| <= 17 ==> CountedFor(v, |digits|, digits, p))
  {
    hide Pow, RPow, Value, DecimalValue, Decimal, HalfUp, Written, CountedFor, NotBelow, Nearest, CachedPower;
    hide Grisu.RoundedProduct, Settled, Grisu.Unit, Grisu.TenKappa, Grisu.Near;
    var one, count, e, p := Pow(2, shift - v.e - te - 64), |digits|, place - mk, |digits| + kappa - mk;
    PowPositive(2, shift - v.e - te - 64);
    var S := Grisu.ScalePositive(mk, one);
    var w := Grisu.RoundedProduct(v.f * Pow(2, shift), c);
    ScaledValueNear(v, c, te, mk, shift, S, w);
    TrustedNearest(v, mk, one, S, w, n, place);
    TrustedPlaced(w, digits, kappa, one, n, place, p, e, mk);
    PlacedWritten(digits, count, p, n, e);
    UnitsNearest(v, n, e);
    if n == Pow(10, count) {
      CarriedCounted(v, count, digits, p, n, e);
    } else {
      PlainCounted(v, count, digits, p, n, e);
      if count <= 17 { FineEnough(v, mk, one, S, w, count, n, place); }
    }
  }

  lemma ScaledValueNear(v: Double, c: int, te: int, mk: int, shift: nat, S: real, w: int)
    requires v.Valid() && shift >= 2 && shift - v.e - te - 64 >= 0 && CachedPower(c, te, mk)
    requires S == RPow(10, mk) * Pow(2, shift - v.e - te - 64) as real && 0 <= v.f * Pow(2, shift) < W64
    requires w == Grisu.RoundedProduct(v.f * Pow(2, shift), c)
    ensures Grisu.Near(Value(v) * S, w)
  {
    hide Pow, RPow, RealPow, Value, CachedPower, Grisu.RoundedProduct, Grisu.Near;
    PowStep(2, shift - 2);
    PowStep(2, shift - 1);
    assert 4 * v.f * Pow(2, shift - 2) == v.f * Pow(2, shift);
    Grisu.FourQuarters(v);
    Grisu.EndNear(4 * v.f, v, c, te, mk, shift, S, Value(v), Value(v) * S);
  }

  /** How many digits there are, and where the last one is. */
  lemma TrustedPlaced(w: int, digits: seq<int>, kappa: int, one: int, n: int, place: int, decimalPoint: int, e: int,
                      mk: int)
    requires Trusted(w, digits, kappa, one, n, place) && e == place - mk && decimalPoint == |digits| + kappa - mk
    ensures Placed(digits, |digits|, decimalPoint, n, e) && place <= kappa <= place + 1
  {
    hide Pow, Decimal, Grisu.Unit, Grisu.TenKappa, Settled;
    DecimalBounds(digits);
    PowStep(10, |digits| - 1);
    PowPositive(10, |digits| - 1);
  }
}
