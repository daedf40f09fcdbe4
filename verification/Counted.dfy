/** Rounding to a place after the decimal point, halves up, as all printing with a given number of digits does it. */
module Counted {
  import opened Arith
  import opened Decimals
  import opened Rounding

  /** How many units of 10^-count the number is, to the nearest; a half is rounded up. */
  ghost function Units(x: real, count: int): int { (x * RPow(10, count) + 0.5).Floor }

  ghost function HalfUp(x: real, count: int): real { DecimalValue(Units(x, count), -count) }

  /** The number that the digits write, with the decimal point after so many of them. */
  ghost function Written(digits: seq<int>, decimalPoint: int): real
  {
    DecimalValue(Decimal(digits), decimalPoint - |digits|)
  }

  lemma FloorIs(y: real, n: int)
    requires n as real <= y < (n + 1) as real
    ensures y.Floor == n
  {
  }

  /** A quotient and a remainder say how many units there are. */
  lemma UnitsAre(x: real, count: int, n: int, r: int, d: int)
    requires 0 <= r < d && x * RPow(10, count) * d as real == (n * d + r) as real
    ensures Units(x, count) == if 2 * r >= d then n + 1 else n
  {
    hide RPow;
    var y := x * RPow(10, count);
    hide *;
    IntProduct(n, d);
    assert (y - n as real) * d as real == r as real;
    HalfOf(y - n as real, r, d);
    FloorIs(y + 0.5, if 2 * r >= d then n + 1 else n);
  }

  lemma HalfOf(z: real, r: int, d: int)
    requires 0 <= r < d && z * d as real == r as real
    ensures 0.0 <= z < 1.0 && (z >= 0.5 <==> 2 * r >= d)
  {
    assert (2 * r) as real == 2.0 * r as real;
    PartOf(z, d as real, r as real);
  }

  lemma PartOf(z: real, d: real, r: real)
    requires d > 0.0 && z * d == r && 0.0 <= r < d
    ensures 0.0 <= z < 1.0 && (z >= 0.5 <==> 2.0 * r >= d)
  {
    CompareScaled(0.0, z, d);
    CompareScaled(z, 1.0, d);
    var twice := 2.0 * z;
    RealAssoc(2.0, z, d);
    CompareScaled(twice, 1.0, d);
  }

  lemma Exponents(m: int, i: int, n: nat)
    ensures DecimalValue(m * Pow(10, n), i - n) == DecimalValue(m, i)
  {
    hide Pow, RPow;
    RPowAdd(10, i - n, n);
    IntProduct(m, Pow(10, n));
    RealAssoc(m as real, Pow(10, n) as real, RPow(10, i - n));
  }

  /**
   * After i of count digits, n units of 10^-i have been written and r / d is left; only what is left can be rounded,
   * and nothing is left if the digits end early.
   */
  lemma HalfUpIs(x: real, count: int, i: int, n: int, r: int, d: int)
    requires 0 <= r < d && x * RPow(10, i) * d as real == (n * d + r) as real && i <= count && (i < count ==> r == 0)
    ensures HalfUp(x, count) == DecimalValue(if 2 * r >= d then n + 1 else n, -i)
  {
    hide RPow, Pow;
    if i == count {
      UnitsAre(x, count, n, r, d);
    } else {
      var k := count - i;
      RPowAdd(10, i, k);
      IntProduct(n, d);
      CompareScaled(x * RPow(10, i), n as real, d as real);
      RealAssoc(x, RPow(10, i), Pow(10, k) as real);
      IntProduct(n, Pow(10, k));
      assert x * RPow(10, count) == (n * Pow(10, k)) as real;
      UnitsAre(x, count, n * Pow(10, k), 0, 1);
      Exponents(n, -i, k);
    }
  }

  /** An integer is not changed. */
  lemma HalfUpInteger(n: int, count: nat)
    ensures HalfUp(n as real, count) == n as real == DecimalValue(n, 0)
  {
    hide Pow;
    RealPowIs(10, 0);
    PowStep(10, 0);
    assert RPow(10, 0) == 1.0;
    hide RPow;
    HalfUpIs(n as real, count, 0, n, 0, 1);
  }

  /** Less than half of the last place is nothing. */
  lemma HalfUpZero(x: real, count: int)
    requires 0.0 <= x && 2.0 * x < RPow(10, -count)
    ensures HalfUp(x, count) == 0.0
  {
    hide RPow;
    RPowMul(10, -count, count);
    assert RPow(10, 0) == 1.0 by { RealPowIs(10, 0); PowStep(10, 0); }
    RPowPositive(10, count);
    CompareScaled(2.0 * x, RPow(10, -count), RPow(10, count));
    CompareScaled(0.0, x, RPow(10, count));
    RealAssoc(2.0, x, RPow(10, count));
    FloorIs(x * RPow(10, count) + 0.5, 0);
    assert Units(x, count) == 0;
  }

  // ---- one string for one number ----

  lemma {:induction false} DecimalInjective(s: seq<int>, t: seq<int>)
    requires |s| == |t| && IsDecimal(s) && IsDecimal(t) && Decimal(s) == Decimal(t)
    ensures s == t
  {
    hide Decimal;
    if s != [] {
      var k := |s| - 1;
      assert s == s[..k] + [s[k]] && t == t[..k] + [t[k]];
      DecimalPush(s[..k], s[k]);
      DecimalPush(t[..k], t[k]);
      DecimalInjective(s[..k], t[..k]);
    }
  }

  lemma {:induction false} Padded(s: seq<int>, n: nat) returns (t: seq<int>)
    requires IsDecimal(s)
    ensures |t| == |s| + n && IsDecimal(t) && t[..|s|] == s && forall i :: |s| <= i < |t| ==> t[i] == 0
    ensures Decimal(t) == Decimal(s) * Pow(10, n)
    decreases n
  {
    hide Pow, Decimal;
    PowStep(10, 0);
    if n == 0 {
      t := s;
    } else {
      var r := Padded(s, n - 1);
      t := r + [0];
      DecimalPush(r, 0);
      PowStep(10, n - 1);
      MulAssoc(Decimal(s), 10, Pow(10, n - 1));
      assert t[..|s|] == r[..|s|];
    }
  }

  lemma SameLength(s: seq<int>, t: seq<int>)
    requires IsDecimal(s) && IsDecimal(t) && s != [] && t != [] && s[0] >= 1 && t[0] >= 1 && Decimal(s) == Decimal(t)
    ensures |s| == |t|
  {
    hide Pow, Decimal;
    DecimalBounds(s);
    DecimalBounds(t);
    if |s| < |t| { PowMono(10, |s|, |t| - 1); }
    if |t| < |s| { PowMono(10, |t|, |s| - 1); }
  }

  lemma SameNumber(m: int, i: int, n: int, j: int)
    requires DecimalValue(m, i) == DecimalValue(n, j) && i >= j
    ensures n == m * Pow(10, i - j)
  {
    hide Pow, RPow;
    Exponents(m, i, i - j);
    RPowPositive(10, j);
    CompareScaled(n as real, (m * Pow(10, i - j)) as real, RPow(10, j));
  }

  /** Two strings without zeros in front that write the same number differ only in zeros at the end. */
  lemma WrittenOnce(s: seq<int>, p: int, t: seq<int>, q: int)
    requires IsDecimal(s) && IsDecimal(t) && s != [] && t != [] && s[0] >= 1 && t[0] >= 1 && |s| <= |t|
    requires Written(s, p) == Written(t, q)
    ensures p == q && t[..|s|] == s && forall i :: |s| <= i < |t| ==> t[i] == 0
  {
    hide Pow, Decimal, DecimalValue;
    var i, j := p - |s|, q - |t|;
    if i >= j {
      SameNumber(Decimal(s), i, Decimal(t), j);
      var u := Padded(s, i - j);
      assert u[0] == u[..|s|][0];
      SameLength(u, t);
      DecimalInjective(u, t);
    } else {
      SameNumber(Decimal(t), j, Decimal(s), i);
      var u := Padded(t, j - i);
      assert u[0] == u[..|t|][0];
      SameLength(u, s);
    }
  }

  /** No digits stand for zero, and nothing else without a zero in front does. */
  lemma NothingIsZero(s: seq<int>, p: int)
    requires IsDecimal(s) && (s != [] ==> s[0] >= 1)
    ensures Written(s, p) == 0.0 <==> s == []
  {
    hide Pow, RPow;
    if s != [] {
      DecimalBounds(s);
      PowPositive(10, |s| - 1);
      RPowPositive(10, p - |s|);
      CompareScaled(0.0, Decimal(s) as real, RPow(10, p - |s|));
    }
  }

  // ---- carrying ----

  ghost predicate Tens(digits: seq<int>, i: nat)
  {
    && i < |digits| && (forall j :: 0 <= j < |digits| && j != i ==> 0 <= digits[j] <= 9) && 0 <= digits[i] <= 10
  }

  lemma {:induction false} CarryOne(digits: seq<int>, i: nat)
    requires 1 <= i < |digits|
    ensures Decimal(digits[i := digits[i] - 10][i - 1 := digits[i - 1] + 1]) == Decimal(digits)
  {
    hide Pow;
    var carried := digits[i := digits[i] - 10][i - 1 := digits[i - 1] + 1];
    var left, right, both := digits[..i - 1], digits[i + 1..], [digits[i - 1], digits[i]];
    assert digits == left + both + right;
    assert carried == left + [digits[i - 1] + 1, digits[i] - 10] + right;
    DecimalTwo(digits[i - 1], digits[i]);
    DecimalTwo(digits[i - 1] + 1, digits[i] - 10);
    DecimalConcat(left, both);
    DecimalConcat(left, [digits[i - 1] + 1, digits[i] - 10]);
    DecimalConcat(left + both, right);
    DecimalConcat(left + [digits[i - 1] + 1, digits[i] - 10], right);
  }

  lemma DecimalTwo(a: int, b: int)
    ensures Decimal([a, b]) == 10 * a + b
  {
    assert [a, b] == [a] + [b] && [a] == [] + [a];
    DecimalPush([a], b);
    DecimalPush([], a);
  }

  /** A one and zeros. */
  lemma {:induction false} FirstTen(digits: seq<int>)
    requires |digits| >= 1 && digits[0] == 10 && forall j :: 1 <= j < |digits| ==> digits[j] == 0
    ensures Decimal(digits) == Pow(10, |digits|) && Decimal(digits[0 := 1]) == Pow(10, |digits| - 1)
  {
    var k := |digits| - 1;
    PowStep(10, k);
    if k > 0 {
      FirstTen(digits[..k]);
      PowStep(10, k - 1);
      assert digits[0 := 1][..k] == digits[..k][0 := 1];
    }
  }

  /**
   * Passes a ten in the last place on to the left. If the first digit becomes a ten, it is replaced by a one, and the
   * number is a tenth.
   */
  method Carry(buffer: array<int>, length: nat) returns (over: bool)
    requires 1 <= length <= buffer.Length && Tens(buffer[..length], length - 1)
    modifies buffer
    ensures IsDecimal(buffer[..length]) && buffer[length..] == old(buffer[length..])
    ensures old(Decimal(buffer[..length])) == (if over then 10 else 1) * Decimal(buffer[..length])
    ensures over ==> Decimal(buffer[..length]) == Pow(10, length - 1)
    ensures old(buffer[0]) >= 1 || over ==> buffer[0] >= 1
  {
    hide Pow, Decimal;
    var i := length - 1;
    while i > 0 && buffer[i] == 10
      invariant i < length && Tens(buffer[..length], i) && forall j :: i < j < length ==> buffer[j] == 0
      invariant buffer[length..] == old(buffer[length..])
      invariant Decimal(buffer[..length]) == old(Decimal(buffer[..length]))
      invariant old(buffer[0]) >= 1 ==> buffer[0] >= 1
    {
      ghost var before := buffer[..length];
      CarryOne(before, i);
      buffer[i] := 0;
      buffer[i - 1] := buffer[i - 1] + 1;
      assert buffer[..length] == before[i := before[i] - 10][i - 1 := before[i - 1] + 1];
      i := i - 1;
    }
    over := buffer[0] == 10;
    if over {
      FirstTen(buffer[..length]);
      PowStep(10, length - 1);
      ghost var before := buffer[..length];
      buffer[0] := 1;
      assert buffer[..length] == before[0 := 1];
    }
  }
}
