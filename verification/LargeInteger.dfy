/** Sign-magnitude integers of vm/large_integer.cc. The digit base is 2^bits for any bits >= 1. */
module LargeIntegers {
  import opened Arith
  import opened Digits
  import LongDivision

  class LargeInteger {
    var negative: bool
    var digits: array<int>
    var size: nat

    /** Storage for n digits, whose contents are whatever the allocator left there. */
    constructor (n: nat)
      ensures size == n && digits.Length == n && fresh(digits) && !negative
    {
      negative := false;
      digits := new int[n];
      size := n;
    }

    ghost predicate Shaped(B: nat)
      reads this, digits
    {
      size <= digits.Length && IsDigits(digits[..size], B)
    }

    /** The invariant the operations check: no leading zero digit, and zero is not negative. */
    ghost predicate Valid(B: nat)
      reads this, digits
    {
      && Shaped(B)
      && (size > 0 ==> digits[size - 1] != 0)
      && (size == 0 ==> !negative)
    }

    ghost function Abs(B: nat): int
      reads this, digits
      requires size <= digits.Length
    {
      Val(digits[..size], B)
    }

    ghost function Value(B: nat): int
      reads this, digits
      requires size <= digits.Length
    {
      if negative then -Abs(B) else Abs(B)
    }
  }

  lemma AbsRange(x: LargeInteger, B: nat)
    requires B >= 2 && x.Valid(B)
    ensures 0 <= x.Abs(B) < Pow(B, x.size)
    ensures x.size > 0 ==> x.Abs(B) >= Pow(B, x.size - 1)
    ensures x.Abs(B) == 0 <==> x.size == 0
  {
    ValBound(x.digits[..x.size], B);
    if x.size > 0 {
      ValTop(x.digits[..x.size], B);
      PowPositive(B, x.size - 1);
    }
  }

  method Clamp(result: LargeInteger, ghost B: nat)
    requires B >= 1 && result.Shaped(B)
    modifies result
    ensures result.Valid(B) && result.digits == old(result.digits) && result.size <= old(result.size)
    ensures result.Abs(B) == old(result.Abs(B))
    ensures result.negative == (old(result.negative) && result.Abs(B) != 0)
  {
    ghost var s := result.digits[..result.size];
    var used := result.size;
    while used > 0
      invariant 0 <= used <= result.size
      invariant forall i :: used <= i < result.size ==> result.digits[i] == 0
    {
      used := used - 1;
      if result.digits[used] != 0 {
        ZeroTail(s, used + 1, B);
        result.size := used + 1;
        assert result.digits[..result.size] == s[..used + 1];
        ValTop(s[..used + 1], B);
        PowPositive(B, used);
        return;
      }
    }
    ZeroTail(s, 0, B);
    result.negative := false;
    result.size := 0;
    assert result.digits[..0] == s[..0];
  }

  /** Positive when right is larger, negative when left is larger. */
  method AbsCompare(left: LargeInteger, right: LargeInteger, ghost B: nat) returns (c: int)
    requires B >= 2 && left.Valid(B) && right.Valid(B)
    ensures c < 0 <==> left.Abs(B) > right.Abs(B)
    ensures c == 0 <==> left.Abs(B) == right.Abs(B)
  {
    ghost var l, r := left.digits[..left.size], right.digits[..right.size];
    AbsRange(left, B);
    AbsRange(right, B);
    c := right.size - left.size;
    if c != 0 {
      if c < 0 { PowMono(B, right.size, left.size - 1); } else { PowMono(B, left.size, right.size - 1); }
      return;
    }
    for i := left.size downto 0
      invariant l[i..] == r[i..]
    {
      if right.digits[i] != left.digits[i] {
        c := if right.digits[i] < left.digits[i] then -1 else 1;
        if c < 0 { HigherDigitDecides(r, l, i, B); } else { HigherDigitDecides(l, r, i, B); }
        return;
      }
      assert l[i..] == [l[i]] + l[i + 1..] && r[i..] == [r[i]] + r[i + 1..];
    }
    assert l[0..] == l && r[0..] == r;
  }

  lemma HigherDigitDecides(x: seq<int>, y: seq<int>, i: nat, B: nat)
    requires B >= 1 && |x| == |y| && i < |x| && IsDigits(x, B) && IsDigits(y, B)
    requires x[i + 1..] == y[i + 1..] && x[i] < y[i]
    ensures Val(x, B) < Val(y, B)
  {
    hide Val, Pow;
    ValSplit(x, i + 1, B);
    ValSplit(y, i + 1, B);
    ValStep(x, i, B);
    ValStep(y, i, B);
    ValBound(x[..i], B);
    ValBound(y[..i], B);
    MulMono(Pow(B, i), x[i] + 1, y[i]);
    Dist(x[i], 1, Pow(B, i));
  }

  lemma CarryIsBit(t: int, B: nat)
    requires B >= 2
    ensures 0 <= t < 2 * B ==> 0 <= t / B <= 1
    ensures 0 <= t + B < 2 * B ==> -1 <= t / B <= 0
    ensures 0 <= t + B < B ==> t / B == -1
    ensures 0 <= t < B ==> t / B == 0
  {
    DivModBounds(t, B);
    if t / B >= 2 { MulMono(B, 2, t / B); }
    if t / B <= -2 { MulMono(B, t / B, -2); }
  }

  /** The digits above the shorter operand: only the carry, or borrow, is left to add. */
  method CarryThrough(longer: LargeInteger, d: array<int>, from: nat, k: int, ghost X: int, B: nat) returns (carry: int)
    requires B >= 2 && longer.Valid(B) && from <= longer.size <= d.Length && d != longer.digits
    requires -1 <= k <= 1 && IsDigits(d[..from], B)
    requires Val(d[..from] + [k], B) == X + Val(longer.digits[..from], B)
    modifies d
    ensures -1 <= carry <= 1 && (k >= 0 ==> carry >= 0) && (k <= 0 ==> carry <= 0)
    ensures IsDigits(d[..longer.size], B)
    ensures Val(d[..longer.size] + [carry], B) == X + longer.Abs(B)
  {
    hide Val, Pow;
    ghost var l := longer.digits[..longer.size];
    carry := k;
    assert l[..from] == longer.digits[..from];
    for i := from to longer.size
      invariant -1 <= carry <= 1 && (k >= 0 ==> carry >= 0) && (k <= 0 ==> carry <= 0) && IsDigits(d[..i], B)
      invariant Val(d[..i] + [carry], B) == X + Val(l[..i], B)
    {
      CarryIsBit(carry + longer.digits[i], B);
      ValStep(l, i, B);
      carry := EmitDigit(d, i, carry, longer.digits[i], X + Val(l[..i], B), X + Val(l[..i + 1], B), B);
    }
    assert l[..longer.size] == l;
  }

  method AddDigits(longer: LargeInteger, shorter: LargeInteger, d: array<int>, B: nat)
    requires B >= 2 && longer.Valid(B) && shorter.Valid(B) && shorter.size <= longer.size
    requires d.Length == longer.size + 1 && d != longer.digits && d != shorter.digits
    modifies d
    ensures IsDigits(d[..], B) && Val(d[..], B) == longer.Abs(B) + shorter.Abs(B)
  {
    hide Val, Pow;
    ValEmpty(0, B);
    ghost var s, l := shorter.digits[..shorter.size], longer.digits[..longer.size];
    var carry := 0;
    for i := 0 to shorter.size
      invariant 0 <= carry <= 1 && IsDigits(d[..i], B)
      invariant Val(d[..i] + [carry], B) == Val(s[..i], B) + Val(l[..i], B)
    {
      CarryIsBit(carry + (shorter.digits[i] + longer.digits[i]), B);
      SumStep(s, l, i, B);
      carry := EmitDigit(d, i, carry, shorter.digits[i] + longer.digits[i],
        Val(s[..i], B) + Val(l[..i], B), Val(s[..i + 1], B) + Val(l[..i + 1], B), B);
    }
    assert s[..shorter.size] == s && l[..shorter.size] == longer.digits[..shorter.size];
    carry := CarryThrough(longer, d, shorter.size, carry, Val(s, B), B);
    ghost var low := d[..longer.size];
    d[longer.size] := carry;
    assert d[..] == low + [carry];
  }

  method AddAbsolutesWithSign(left: LargeInteger, right: LargeInteger, negative: bool, B: nat)
    returns (result: LargeInteger)
    requires B >= 2 && left.Valid(B) && right.Valid(B)
    ensures fresh(result) && fresh(result.digits) && result.Valid(B)
    ensures result.Value(B) == (if negative then -1 else 1) * (left.Abs(B) + right.Abs(B))
  {
    var shorter, longer := right, left;
    if left.size <= right.size { shorter, longer := left, right; }
    result := new LargeInteger(longer.size + 1);
    result.negative := negative;
    AddDigits(longer, shorter, result.digits, B);
    assert result.digits[..result.size] == result.digits[..];
    Clamp(result, B);
  }

  /**
   * Adds to the carry, stores the low digit at index i and keeps the rest.
   * X is what the digits below and the old carry amount to, Y what they amount to one place further.
   */
  method EmitDigit(d: array<int>, i: nat, k: int, add: int, ghost X: int, ghost Y: int, B: nat) returns (carry: int)
    requires B >= 2 && i < d.Length && IsDigits(d[..i], B) && Val(d[..i] + [k], B) == X
    requires Y == X + add * Pow(B, i)
    modifies d
    ensures carry == (k + add) / B
    ensures d[..i] == old(d[..i]) && d[i + 1..] == old(d[i + 1..]) && IsDigits(d[..i + 1], B)
    ensures Val(d[..i + 1] + [carry], B) == Y
  {
    ghost var low := d[..i];
    var t := k + add;
    d[i] := t % B;
    carry := t / B;
    assert d[..i + 1] == low + [t % B];
    ValPush(low, k, B);
    ValPush(low, t % B, B);
    ValPush(low + [t % B], carry, B);
    CarryStep(Val(low, B), k, Pow(B, i), X, t, B);
  }

  lemma SumStep(s: seq<int>, l: seq<int>, i: nat, B: nat)
    requires i < |s| && i < |l|
    ensures Val(s[..i + 1], B) + Val(l[..i + 1], B) == Val(s[..i], B) + Val(l[..i], B) + (s[i] + l[i]) * Pow(B, i)
    ensures Val(s[..i + 1], B) - Val(l[..i + 1], B) == Val(s[..i], B) - Val(l[..i], B) + (s[i] - l[i]) * Pow(B, i)
  {
    ValStep(s, i, B);
    ValStep(l, i, B);
    Dist(s[i], l[i], Pow(B, i));
  }

  lemma ZeroOnTop(s: seq<int>, k: int, B: nat)
    ensures k == 0 ==> Val(s + [k], B) == Val(s, B)
    ensures B >= 1 && IsDigits(s, B) && k < 0 ==> Val(s + [k], B) < 0
  {
    ValPush(s, k, B);
    if B >= 1 && IsDigits(s, B) && k < 0 {
      ValBound(s, B);
      MulMono(Pow(B, |s|), k, -1);
    }
  }

  method SubtractDigits(left: LargeInteger, right: LargeInteger, d: array<int>, B: nat)
    requires B >= 2 && left.Valid(B) && right.Valid(B) && left.Abs(B) >= right.Abs(B)
    requires d.Length == left.size && d != left.digits && d != right.digits
    modifies d
    ensures IsDigits(d[..], B) && Val(d[..], B) == left.Abs(B) - right.Abs(B)
  {
    hide Val, Pow;
    ValEmpty(0, B);
    ghost var l, r := left.digits[..left.size], right.digits[..right.size];
    SizesOrdered(left, right, B);
    var borrow := 0;
    for i := 0 to right.size
      invariant -1 <= borrow <= 0 && IsDigits(d[..i], B)
      invariant Val(d[..i] + [borrow], B) == Val(l[..i], B) - Val(r[..i], B)
    {
      CarryIsBit(borrow + (left.digits[i] - right.digits[i]), B);
      SumStep(l, r, i, B);
      borrow := EmitDigit(d, i, borrow, left.digits[i] - right.digits[i],
        Val(l[..i], B) - Val(r[..i], B), Val(l[..i + 1], B) - Val(r[..i + 1], B), B);
    }
    assert r[..right.size] == r && l[..right.size] == left.digits[..right.size];
    borrow := CarryThrough(left, d, right.size, borrow, -Val(r, B), B);
    assert d[..left.size] == d[..];
    ZeroOnTop(d[..], borrow, B);
    assert borrow == 0;
  }

  method SubtractAbsolutesWithSign(left: LargeInteger, right: LargeInteger, negative: bool, B: nat)
    returns (result: LargeInteger)
    requires B >= 2 && left.Valid(B) && right.Valid(B) && left.Abs(B) >= right.Abs(B)
    ensures fresh(result) && fresh(result.digits) && result.Valid(B)
    ensures result.Value(B) == (if negative then -1 else 1) * (left.Abs(B) - right.Abs(B))
  {
    result := new LargeInteger(left.size);
    result.negative := negative;
    SubtractDigits(left, right, result.digits, B);
    assert result.digits[..result.size] == result.digits[..];
    Clamp(result, B);
  }

  lemma SizesOrdered(left: LargeInteger, right: LargeInteger, B: nat)
    requires B >= 2 && left.Valid(B) && right.Valid(B) && left.Abs(B) >= right.Abs(B)
    ensures left.size >= right.size
  {
    AbsRange(left, B);
    AbsRange(right, B);
    if left.size < right.size { PowMono(B, left.size, right.size - 1); }
  }

  method Add(left: LargeInteger, right: LargeInteger, B: nat) returns (result: LargeInteger)
    requires B >= 2 && left.Valid(B) && right.Valid(B)
    ensures fresh(result) && fresh(result.digits) && result.Valid(B)
    ensures result.Value(B) == left.Value(B) + right.Value(B)
  {
    if left.negative == right.negative {
      result := AddAbsolutesWithSign(left, right, left.negative, B);
      return;
    }
    var c := AbsCompare(left, right, B);
    if c < 0 {
      result := SubtractAbsolutesWithSign(left, right, left.negative, B);
    } else {
      result := SubtractAbsolutesWithSign(right, left, right.negative, B);
    }
  }

  method Subtract(left: LargeInteger, right: LargeInteger, B: nat) returns (result: LargeInteger)
    requires B >= 2 && left.Valid(B) && right.Valid(B)
    ensures fresh(result) && fresh(result.digits) && result.Valid(B)
    ensures result.Value(B) == left.Value(B) - right.Value(B)
  {
    if left.negative != right.negative {
      result := AddAbsolutesWithSign(left, right, left.negative, B);
      return;
    }
    var c := AbsCompare(left, right, B);
    if c < 0 {
      result := SubtractAbsolutesWithSign(left, right, left.negative, B);
    } else {
      result := SubtractAbsolutesWithSign(right, left, !left.negative, B);
    }
  }

  lemma {:induction false} ValAllTop(s: seq<int>, b: nat)
    requires b >= 1 && IsDigits(s, b)
    ensures Val(s, b) == Pow(b, |s|) - 1 <==> forall i :: 0 <= i < |s| ==> s[i] == b - 1
  {
    if |s| > 0 {
      var k := |s| - 1;
      ValAllTop(s[..k], b);
      ValBound(s[..k], b);
      Dist(b, 1, Pow(b, k));
      if s[k] < b - 1 {
        MulMono(Pow(b, k), s[k], b - 2);
        Dist(b - 1, 1, Pow(b, k));
      }
    }
  }

  /** Adds one to the magnitude without growing it: a carry out of the top digit is lost. */
  method AbsAddOneInPlace(result: LargeInteger, B: nat)
    requires B >= 2 && result.Shaped(B) && (result.size == 0 ==> result.digits.Length > 0)
    modifies result, result.digits
    ensures result.digits == old(result.digits) && result.negative == old(result.negative)
    ensures result.size == (if old(result.size) == 0 then 1 else old(result.size)) && result.Shaped(B)
    ensures result.Abs(B) == (if old(result.size) > 0 && old(result.Abs(B)) + 1 == Pow(B, old(result.size)) then 0
                              else old(result.Abs(B)) + 1)
  {
    hide Val, Pow;
    ValEmpty(1, B);
    PowStep(B, 0);
    var d := result.digits;
    ghost var s := d[..result.size];
    if result.size == 0 {
      result.size := 1;
      d[0] := 1;
      assert d[..1] == [] + [1];
      return;
    }
    var carry := 1;
    for i := 0 to result.size
      invariant 0 <= carry <= 1 && IsDigits(d[..i], B) && result.digits == d && result.negative == old(result.negative)
      invariant result.size == |s| && d[i..] == old(d[i..])
      invariant Val(d[..i] + [carry], B) == Val(s[..i], B) + 1
    {
      assert d[i] == d[i..][0] == s[i];
      CarryIsBit(carry + d[i], B);
      ValStep(s, i, B);
      carry := EmitDigit(d, i, carry, d[i], Val(s[..i], B) + 1, Val(s[..i + 1], B) + 1, B);
    }
    assert s[..|s|] == s;
    ValPush(d[..|s|], carry, B);
    ValBound(s, B);
    ValBound(d[..|s|], B);
  }

  // ---------------------------------------------------------------- division

  datatype DivOperation = Truncated | Floored | Exact
  datatype DivResult = Quotient | Remainder

  ghost function AbsInt(a: int): int { if a < 0 then -a else a }

  /** Quotient rounded toward zero. */
  ghost function TDiv(a: int, b: int): int
    requires b != 0
  {
    var q := AbsInt(a) / AbsInt(b);
    if (a < 0) != (b < 0) then -q else q
  }

  ghost function TMod(a: int, b: int): int
    requires b != 0
  {
    a - TDiv(a, b) * b
  }

  /** Quotient rounded down. */
  ghost function FDiv(a: int, b: int): int
    requires b != 0
  {
    if b > 0 then a / b else -a / -b
  }

  ghost function FMod(a: int, b: int): int
    requires b != 0
  {
    a - FDiv(a, b) * b
  }

  /** q * n + r decomposed with 0 <= r < n, seen through the two signs. */
  lemma SignedDivision(a: int, b: int, q: int, r: int)
    requires b != 0 && AbsInt(a) == q * AbsInt(b) + r && 0 <= r < AbsInt(b)
    ensures AbsInt(a) / AbsInt(b) == q && AbsInt(a) % AbsInt(b) == r
    ensures TDiv(a, b) == (if (a < 0) != (b < 0) then -q else q)
    ensures TMod(a, b) == (if a < 0 then -r else r)
    ensures FDiv(a, b) == (if (a < 0) == (b < 0) then q else if r == 0 then -q else -q - 1)
    ensures FMod(a, b) == (if r == 0 then 0 else if (a < 0) == (b < 0) then (if a < 0 then -r else r)
                           else if b < 0 then r + b else b - r)
  {
    var n := AbsInt(b);
    DivModUnique(AbsInt(a), n, q, r);
    NegMul(q, n);
    Dist(-q, 1, n);
    if (a < 0) != (b < 0) {
      DivModUnique(-AbsInt(a), n, if r == 0 then -q else -q - 1, if r == 0 then 0 else n - r);
    }
    var f := if (a < 0) == (b < 0) then q else if r == 0 then -q else -q - 1;
    assert FDiv(a, b) == f;
    assert f * b == (if b < 0 then -(f * n) else f * n) by { NegMul(f, n); }
    assert TDiv(a, b) * b == (if a < 0 then -(q * n) else q * n) by { NegMul(q, b); NegMul(q, n); }
  }

  lemma NegMul(q: int, b: int)
    ensures (-q) * b == -(q * b) && q * (-b) == -(q * b)
  {}

  /** The two roundings are the ones their names promise, and nothing else is. */
  lemma RoundingLaws(a: int, b: int, q: int)
    requires b != 0
    ensures AbsInt(TMod(a, b)) < AbsInt(b) && (TMod(a, b) != 0 ==> (TMod(a, b) < 0 <==> a < 0))
    ensures TDiv(a, b) * b + TMod(a, b) == a == FDiv(a, b) * b + FMod(a, b)
    ensures q == FDiv(a, b) <==> 0 <= (if b < 0 then q * b - a else a - q * b) < AbsInt(b)
  {
    var n := AbsInt(b);
    DivModBounds(AbsInt(a), n);
    SignedDivision(a, b, AbsInt(a) / n, AbsInt(a) % n);
    if 0 <= (if b < 0 then q * b - a else a - q * b) < n {
      NegMul(q, b);
      DivModUnique(if b < 0 then -a else a, n, q, if b < 0 then q * b - a else a - q * b);
    }
  }

  /**
   * Where the floored quotient comes out right. It is computed by adding one to the magnitude of the truncated
   * quotient in place, which loses the carry out of a quotient whose digits are all maximal, and loses the sign
   * of a zero quotient by a single-digit divisor.
   */
  ghost predicate FlooredQuotientFits(a: int, b: int, B: nat)
    requires b != 0
  {
    var q := AbsInt(a) / AbsInt(b);
    ((a < 0) != (b < 0) && AbsInt(a) % AbsInt(b) != 0) ==>
      if q == 0 then AbsInt(b) >= B else forall k: nat :: q + 1 != Pow(B, k)
  }

  /**
   * What a floored division leaves: the floored quotient where it fits; elsewhere zero, or one if even the sign is
   * lost.
   */
  ghost predicate FloorComputed(a: int, b: int, v: int, B: nat)
    requires b != 0
  {
    && (v == FDiv(a, b) <==> FlooredQuotientFits(a, b, B))
    && (!FlooredQuotientFits(a, b, B) && AbsInt(a) >= AbsInt(b) ==> v == 0)
  }

  /**
   * The truncated quotient of -(2 * B^k - 1) and 2 has k digits, all of them maximal, and growing it loses the carry:
   * zero instead of -B^k.
   */
  lemma FlooredQuotientCanFail(B: nat, k: nat, v: int)
    requires B >= 2 && k >= 1
    ensures var P: int := Pow(B, k);
      && !FlooredQuotientFits(-(2 * P - 1), 2, B) && FDiv(-(2 * P - 1), 2) == -P
      && (FloorComputed(-(2 * P - 1), 2, v, B) <==> v == 0)
  {
    hide Pow;
    var P: int := Pow(B, k);
    PowAtLeast(B, k);
    SignedDivision(-(2 * P - 1), 2, P - 1, 1);
    assert P - 1 + 1 == Pow(B, k);
  }

  lemma PowAtLeast(B: nat, k: nat)
    requires B >= 2 && k >= 1
    ensures Pow(B, k) >= B
  {
    PowStep(B, 0);
    PowMono(B, 1, k);
  }

  /** x shifted left by one digit's worth of bits: the part that stays and the part that moves to the next digit. */
  lemma ShiftDigit(x: int, S: int, T: int, B: nat)
    requires S >= 1 && T >= 1 && S * T == B && 0 <= x < B
    ensures 0 <= x / T < S && (x * S) % B + (x / T) * B == x * S
    ensures 0 <= (x * S) % B <= B - S
  {
    DivModBounds(x, T);
    assert x / T < S by { if x / T >= S { MulMono(T, S, x / T); } }
    Dist((x / T) * T, x % T, S);
    assert (x / T) * T * S == (x / T) * B by { MulAssoc(x / T, T, S); }
    MulMono(S, x % T, T - 1);
    Dist(T, 1, S);
    MulMono(S, 0, x % T);
    DivModUnique(x * S, B, x / T, (x % T) * S);
  }

  /** One digit of a value shifted left by fewer bits than a digit holds; low digits come from the neighbour below. */
  ghost predicate ShiftedUp(u: seq<int>, x: seq<int>, S: int, T: int, B: nat)
    requires B > 0 && T > 0
  {
    |u| >= |x| && forall i :: 0 <= i < |x| ==> u[i] == UpAt(x, i, S, T, B)
  }

  function UpAt(x: seq<int>, i: nat, S: int, T: int, B: nat): int
    requires i < |x| && B > 0 && T > 0
  {
    (x[i] * S) % B + Spill(x, i, T)
  }

  /** What the digit below index i pushes up into it. */
  function Spill(x: seq<int>, i: nat, T: int): int
    requires i <= |x| && T > 0
  {
    if i == 0 then 0 else x[i - 1] / T
  }

  lemma ShiftedUpDigits(u: seq<int>, x: seq<int>, S: int, T: int, B: nat)
    requires S >= 1 && T >= 1 && S * T == B && IsDigits(x, B) && ShiftedUp(u, x, S, T, B)
    ensures IsDigits(u[..|x|], B)
  {
    forall i | 0 <= i < |x| ensures 0 <= u[i] < B {
      ShiftDigit(x[i], S, T, B);
      if i > 0 { ShiftDigit(x[i - 1], S, T, B); }
    }
  }

  lemma {:induction false} ShiftedUpValue(u: seq<int>, x: seq<int>, S: int, T: int, B: nat, i: nat)
    requires S >= 1 && T >= 1 && S * T == B && IsDigits(x, B) && ShiftedUp(u, x, S, T, B) && i <= |x|
    ensures Val(u[..i], B) + Spill(x, i, T) * Pow(B, i) == S * Val(x[..i], B)
  {
    if i == 0 {
      assert S * 0 == 0;
    } else {
      var k := i - 1;
      ShiftedUpValue(u, x, S, T, B, k);
      ShiftDigit(x[k], S, T, B);
      ValStep(u, k, B);
      ValStep(x, k, B);
      ShiftedUpAlgebra(Val(u[..k], B), Spill(x, k, T), (x[k] * S) % B, x[k] / T, Pow(B, k), S, Val(x[..k], B), x[k], B);
    }
  }

  lemma ShiftedUpAlgebra(A: int, c: int, lo: int, hi: int, P: int, S: int, X: int, x: int, B: int)
    requires A + c * P == S * X && lo + hi * B == x * S
    ensures A + (lo + c) * P + hi * (B * P) == S * (X + x * P)
  {
    Dist(lo, c, P);
    MulAssoc(hi, B, P);
    Dist(lo, hi * B, P);
    Dist(X, x * P, S);
    MulAssoc(x, S, P);
    MulAssoc(S, x, P);
  }

  /** Undoing the shift digit by digit drops only what the lowest digit held below the shift. */
  lemma {:induction false} ShiftedDownValue(u: seq<int>, r: seq<int>, S: int, T: int, B: nat, i: nat)
    requires S >= 1 && T >= 1 && S * T == B && IsDigits(u, B) && i < |u| && i <= |r|
    requires forall k :: 0 <= k < i ==> r[k] == u[k] / S + (u[k + 1] * T) % B
    ensures S * Val(r[..i], B) + u[0] % S == Val(u[..i], B) + (u[i] % S) * Pow(B, i)
    ensures IsDigits(r[..i], B)
  {
    if i > 0 {
      var k, P := i - 1, Pow(B, i - 1);
      ShiftedDownValue(u, r, S, T, B, k);
      ValStep(u, k, B);
      ValStep(r, k, B);
      DownDigit(u[k], S, T, B);
      UpDigit(u[k + 1], S, T, B);
      ShiftedDownAlgebra(Val(r[..k], B), u[0] % S, Val(u[..k], B), u[k], u[k] / S, u[k] % S, u[i] % S, T, P, S, B);
      assert r[..i] == r[..k] + [r[k]];
    } else {
      assert S * 0 == 0 && Pow(B, 0) == 1;
    }
  }

  lemma DownDigit(x: int, S: int, T: int, B: nat)
    requires S >= 1 && T >= 1 && S * T == B && 0 <= x < B
    ensures 0 <= x / S < T && x == (x / S) * S + x % S
  {
    DivModBounds(x, S);
    if x / S >= T { MulMono(S, T, x / S); }
  }

  lemma UpDigit(x: int, S: int, T: int, B: nat)
    requires S >= 1 && T >= 1 && S * T == B && 0 <= x < B
    ensures (x * T) % B == (x % S) * T && 0 <= (x * T) % B <= B - T
  {
    DivModBounds(x, S);
    Dist((x / S) * S, x % S, T);
    MulAssoc(x / S, S, T);
    MulMono(T, x % S, S - 1);
    MulMono(T, 0, x % S);
    Dist(S, 1, T);
    DivModUnique(x * T, B, x / S, (x % S) * T);
  }

  lemma ShiftedDownAlgebra(R: int, e: int, U: int, u: int, q: int, m: int, m': int, T: int, P: int, S: int, B: int)
    requires S * R + e == U + m * P && u == q * S + m && S * T == B
    ensures S * (R + (q + m' * T) * P) + e == U + u * P + m' * (B * P)
  {
    Dist(R, (q + m' * T) * P, S);
    Dist(q, m' * T, P);
    Dist(q * P, m' * T * P, S);
    assert S * (q * P) == (q * S) * P by { MulAssoc(S, q, P); }
    assert S * (m' * T * P) == m' * (B * P) by {
      MulAssoc(m', T, P); MulAssoc(S, m', T * P); MulAssoc(m', S, T * P); MulAssoc(S, T, P);
    }
    Dist(q * S, m, P);
  }

  /** The number of zero bits above the leading one bit of a digit. */
  function LeadingZeros(x: nat, bits: nat): (s: nat)
    requires 0 < x < Pow(2, bits)
    ensures s < bits && x * Pow(2, s) < Pow(2, bits) <= 2 * (x * Pow(2, s))
    decreases Pow(2, bits) - x
  {
    if 2 * x >= Pow(2, bits) then
      assert bits > 0;
      0
    else
      var s := LeadingZeros(2 * x, bits);
      assert (2 * x) * Pow(2, s) == x * Pow(2, s + 1) by { MulAssoc(x, 2, Pow(2, s)); }
      assert s + 1 < bits by { if s + 1 >= bits { PowMono(2, bits, s + 1); MulMono(Pow(2, s + 1), 1, x); } }
      s + 1
  }

  ghost predicate DivideSpec(op: DivOperation, kind: DivResult, a: int, b: int, B: nat, exists_: bool, v: int)
    requires b != 0
  {
    match (kind, op)
    case (Quotient, Truncated) => exists_ && v == TDiv(a, b)
    case (Quotient, Floored) => exists_ && FloorComputed(a, b, v, B)
    case (Quotient, Exact) => (exists_ <==> TMod(a, b) == 0) && (exists_ ==> v * b == a)
    case (Remainder, Truncated) => exists_ && v == TMod(a, b)
    case (Remainder, Floored) => exists_ && v == FMod(a, b)
    case (Remainder, Exact) => true
  }

  /** The digits of the quotient have wrapped to zeros. */
  ghost predicate CarryLost(op: DivOperation, kind: DivResult, a: int, b: int, B: nat)
    requires b != 0
  {
    kind == Quotient && op == Floored && !FlooredQuotientFits(a, b, B) && AbsInt(a) >= AbsInt(b)
  }

  ghost predicate DivideResult(op: DivOperation, kind: DivResult, a: int, b: int, B: nat, r: LargeInteger?)
    requires b != 0
    reads r, if r == null then {} else {r.digits}
  {
    && (r != null ==> r.Shaped(B) && (r.Valid(B) <==> !CarryLost(op, kind, a, b, B)))
    && DivideSpec(op, kind, a, b, B, r != null, if r == null then 0 else if r.Shaped(B) then r.Value(B) else 0)
  }

  method Literal(negative: bool, d: int, B: nat) returns (r: LargeInteger)
    requires B >= 2 && 0 < d < B
    ensures fresh(r) && fresh(r.digits) && r.Valid(B) && r.Value(B) == (if negative then -d else d)
  {
    r := new LargeInteger(1);
    r.negative := negative;
    r.digits[0] := d;
    assert r.digits[..1] == [] + [d];
    ValPush([], d, B);
  }

  method ZeroInteger(B: nat) returns (r: LargeInteger)
    requires B >= 2
    ensures fresh(r) && fresh(r.digits) && r.Valid(B) && r.Value(B) == 0
  {
    r := new LargeInteger(0);
  }

  /** What is right when the dividend is smaller than the divisor. */
  lemma SmallResults(op: DivOperation, kind: DivResult, a: int, b: int, B: nat)
    requires B >= 2 && AbsInt(a) < AbsInt(b) && (a != 0 && (a < 0) != (b < 0) ==> AbsInt(b) >= B)
    requires !(kind == Remainder && op == Exact)
    ensures kind == Quotient && op == Floored && a != 0 && (a < 0) != (b < 0) ==>
      DivideSpec(op, kind, a, b, B, true, -1)
    ensures kind == Quotient && op == Floored && (a == 0 || (a < 0) == (b < 0)) ==>
      DivideSpec(op, kind, a, b, B, true, 0)
    ensures kind == Quotient && op == Truncated ==> DivideSpec(op, kind, a, b, B, true, 0)
    ensures kind == Quotient && op == Exact ==> DivideSpec(op, kind, a, b, B, a == 0, 0)
    ensures kind == Remainder && op == Floored && a != 0 && (a < 0) != (b < 0) ==>
      DivideSpec(op, kind, a, b, B, true, a + b)
    ensures kind == Remainder && !(op == Floored && a != 0 && (a < 0) != (b < 0)) ==>
      DivideSpec(op, kind, a, b, B, true, a)
  {
    hide Pow;
    SignedDivision(a, b, 0, AbsInt(a));
  }

  /** The dividend has fewer digits than the divisor. */
  method DivideSmall(op: DivOperation, kind: DivResult, dividend: LargeInteger, divisor: LargeInteger, B: nat)
    returns (r: LargeInteger?)
    requires B >= 2 && dividend.Valid(B) && divisor.Valid(B) && dividend.size < divisor.size
    requires !(kind == Remainder && op == Exact)
    ensures divisor.Value(B) != 0
    ensures DivideResult(op, kind, dividend.Value(B), divisor.Value(B), B, r)
  {
    hide Val, Pow, DivideSpec, FloorComputed;
    ghost var a, b := dividend.Value(B), divisor.Value(B);
    AbsRange(dividend, B);
    AbsRange(divisor, B);
    PowMono(B, dividend.size, divisor.size - 1);
    var sameSign := dividend.size == 0 || dividend.negative == divisor.negative;
    assert a != 0 && !sameSign ==> AbsInt(b) >= B by {
      if a != 0 { PowMono(B, 1, divisor.size - 1); PowStep(B, 0); }
    }
    SmallResults(op, kind, a, b, B);
    if kind == Quotient {
      if op == Floored && !sameSign {
        r := Literal(true, 1, B);
      } else if op == Exact {
        r := if dividend.size == 0 then dividend else null;
      } else {
        r := ZeroInteger(B);
      }
    } else if op == Floored && !sameSign {
      r := Add(dividend, divisor, B);
    } else {
      r := dividend;
    }
  }

  method DivideByDigit(dividend: LargeInteger, d: int, q: array<int>, B: nat) returns (remainder: int)
    requires B >= 2 && dividend.Valid(B) && 0 < d < B && q.Length == dividend.size && q != dividend.digits
    modifies q
    ensures IsDigits(q[..], B) && 0 <= remainder < d
    ensures dividend.Abs(B) == Val(q[..], B) * d + remainder
  {
    hide Val, Pow;
    ghost var x := dividend.digits[..dividend.size];
    remainder := 0;
    ValEmpty(0, B);
    assert q[dividend.size..] == [] && x[dividend.size..] == [];
    for j := dividend.size downto 0
      invariant IsDigits(q[j..], B) && 0 <= remainder < d
      invariant Val(x[j..], B) == Val(q[j..], B) * d + remainder
    {
      ghost var hi, r0 := q[j + 1..], remainder;
      var p := remainder * B + dividend.digits[j];
      QuotientDigit(remainder, dividend.digits[j], d, B);
      q[j] := p / d;
      remainder := p - (p / d) * d;
      assert q[j..] == [p / d] + hi;
      ValFirst(q[j..], B);
      assert q[j..][1..] == hi;
      assert x[j..][1..] == x[j + 1..];
      ValFirst(x[j..], B);
      DivideByDigitStep(Val(hi, B), d, r0, dividend.digits[j], p / d, remainder, Val(x[j + 1..], B), B);
    }
    assert q[0..] == q[..] && x[0..] == x;
  }

  lemma DivideByDigitStep(Q: int, d: int, r0: int, x: int, q: int, r: int, X: int, B: int)
    requires X == Q * d + r0 && r0 * B + x == q * d + r
    ensures x + B * X == (q + B * Q) * d + r
  {
    Dist(Q * d, r0, B);
    Dist(q, B * Q, d);
    MulAssoc(B, Q, d);
  }

  lemma QuotientDigit(r: int, x: int, d: int, B: nat)
    requires 0 <= r < d && 0 <= x < B
    ensures var p := r * B + x; 0 <= p / d < B && 0 <= p - (p / d) * d < d
  {
    var p := r * B + x;
    MulMono(B, 0, r);
    DivModBounds(p, d);
    MulMono(B, r + 1, d);
    Dist(r, 1, B);
    if p / d >= B { MulMono(d, B, p / d); }
  }

  /** Digits are in canonical form exactly if the magnitude needs all of them. */
  lemma NoZeroOnTop(x: LargeInteger, B: nat)
    requires B >= 2 && x.Shaped(B) && x.size > 0
    ensures x.Valid(B) <==> x.Abs(B) >= Pow(B, x.size - 1)
  {
    hide Val, Pow;
    var s := x.digits[..x.size];
    if x.Valid(B) {
      AbsRange(x, B);
    }
    if x.Abs(B) >= Pow(B, x.size - 1) {
      TopNonzero(s, B);
    }
  }

  /** What is lost by growing a quotient of k digits. */
  lemma GrownQuotient(a: int, b: int, m: int, k: nat, B: nat)
    requires B >= 2 && b != 0 && (a < 0) != (b < 0) && AbsInt(a) % AbsInt(b) != 0 && m == AbsInt(a) / AbsInt(b)
    requires 0 <= m < Pow(B, k) && (k > 0 ==> m >= Pow(B, k - 1)) && (k == 0 ==> m == 0)
    ensures FDiv(a, b) == -(m + 1) && (m == 0 <==> AbsInt(a) < AbsInt(b))
    ensures FlooredQuotientFits(a, b, B) <==> if m == 0 then AbsInt(b) >= B else m + 1 != Pow(B, k)
  {
    hide Pow;
    DivModBounds(AbsInt(a), AbsInt(b));
    SignedDivision(a, b, m, AbsInt(a) % AbsInt(b));
    if m >= 1 { MulMono(AbsInt(b), 1, m); }
    if m > 0 && m + 1 != Pow(B, k) {
      forall e: nat ensures m + 1 != Pow(B, e) {
        if e < k { PowMono(B, e, k - 1); }
        if e > k { PowStrictMono(B, k, e); }
      }
    }
  }

  /** Rounds the truncated quotient down by growing its magnitude in place. */
  method AdjustDown(q: LargeInteger, forceNegative: bool, ghost a: int, ghost b: int, B: nat)
    requires B >= 2 && q.Valid(B) && b != 0 && q.digits.Length >= 1
    requires (a < 0) != (b < 0) && AbsInt(a) % AbsInt(b) != 0 && q.Abs(B) == AbsInt(a) / AbsInt(b)
    requires q.Abs(B) > 0 ==> q.negative
    requires forceNegative <==> AbsInt(b) >= B
    modifies q, q.digits
    ensures q.Shaped(B) && FloorComputed(a, b, q.Value(B), B)
    ensures q.Valid(B) <==> !CarryLost(Floored, Quotient, a, b, B)
  {
    hide Pow, Val, FlooredQuotientFits, FDiv;
    ghost var m, k := q.Abs(B), q.size;
    AbsRange(q, B);
    GrownQuotient(a, b, m, k, B);
    PowStep(B, 0);
    AbsAddOneInPlace(q, B);
    if forceNegative { q.negative := true; }
    NoZeroOnTop(q, B);
    PowPositive(B, q.size - 1);
  }

  /** Chooses and rounds the quotient, given the truncated one and whether the remainder is zero. */
  method FinishQuotient(op: DivOperation, q: LargeInteger, exact: bool, mixedSigns: bool, forceNegative: bool,
                        ghost a: int, ghost b: int, B: nat) returns (r: LargeInteger?)
    requires B >= 2 && q.Valid(B) && q.digits.Length >= 1 && b != 0
    requires q.Abs(B) == AbsInt(a) / AbsInt(b) && (exact <==> AbsInt(a) % AbsInt(b) == 0)
    requires mixedSigns <==> (a < 0) != (b < 0)
    requires q.Abs(B) > 0 ==> q.negative == mixedSigns
    requires forceNegative <==> AbsInt(b) >= B
    modifies q, q.digits
    ensures DivideResult(op, Quotient, a, b, B, r)
  {
    DivModBounds(AbsInt(a), AbsInt(b));
    SignedDivision(a, b, q.Abs(B), AbsInt(a) % AbsInt(b));
    AbsRange(q, B);
    if op == Floored && !exact && mixedSigns {
      AdjustDown(q, forceNegative, a, b, B);
      r := q;
    } else if op == Exact && !exact {
      r := null;
    } else {
      r := q;
    }
  }

  method DivideSingle(op: DivOperation, kind: DivResult, dividend: LargeInteger, divisor: LargeInteger, B: nat)
    returns (r: LargeInteger?)
    requires B >= 2 && dividend.Valid(B) && divisor.Valid(B) && divisor.size == 1 <= dividend.size
    requires !(kind == Remainder && op == Exact)
    ensures divisor.Value(B) != 0
    ensures DivideResult(op, kind, dividend.Value(B), divisor.Value(B), B, r)
  {
    var q, rem := SingleTruncated(dividend, divisor, B);
    ghost var a, b := dividend.Value(B), divisor.Value(B);
    AbsRange(q, B);
    SignedDivision(a, b, q.Abs(B), rem);
    if kind == Quotient {
      r := FinishQuotient(op, q, rem == 0, dividend.negative != divisor.negative, false, a, b, B);
    } else {
      r := SingleRemainder(op, dividend.negative, divisor.negative, divisor.digits[0], rem, a, b, B);
    }
  }

  method SingleTruncated(dividend: LargeInteger, divisor: LargeInteger, B: nat) returns (q: LargeInteger, rem: int)
    requires B >= 2 && dividend.Valid(B) && divisor.Valid(B) && divisor.size == 1 <= dividend.size
    ensures divisor.Abs(B) == divisor.digits[0] && dividend.Abs(B) > 0
    ensures fresh(q) && fresh(q.digits) && q.Valid(B) && q.digits.Length >= 1
    ensures 0 <= rem < divisor.Abs(B) && dividend.Abs(B) == q.Abs(B) * divisor.Abs(B) + rem
    ensures q.negative == (dividend.negative != divisor.negative && q.Abs(B) != 0)
  {
    var d := divisor.digits[0];
    assert divisor.digits[..1] == [] + [d];
    ValPush([], d, B);
    AbsRange(dividend, B);
    q := new LargeInteger(dividend.size);
    q.negative := dividend.negative != divisor.negative;
    rem := DivideByDigit(dividend, d, q.digits, B);
    assert q.digits[..q.size] == q.digits[..];
    Clamp(q, B);
  }

  method SingleRemainder(op: DivOperation, dividendNegative: bool, divisorNegative: bool, d: int, rem: int,
                         ghost a: int, ghost b: int, B: nat) returns (r: LargeInteger)
    requires B >= 2 && op != Exact && 0 <= rem < d < B && AbsInt(b) == d && AbsInt(a) % AbsInt(b) == rem
    requires (dividendNegative <==> a < 0) && (divisorNegative <==> b < 0)
    ensures DivideResult(op, Remainder, a, b, B, r)
  {
    DivModBounds(AbsInt(a), d);
    SignedDivision(a, b, AbsInt(a) / d, rem);
    if rem == 0 {
      r := ZeroInteger(B);
    } else if op == Truncated {
      r := Literal(dividendNegative, rem, B);
    } else if dividendNegative != divisorNegative {
      r := Literal(divisorNegative, d - rem, B);
    } else {
      r := Literal(divisorNegative, rem, B);
    }
  }

  /** Writes x shifted left by fewer bits than a digit holds; the bits pushed out of the top digit are not stored. */
  method Normalize(x: LargeInteger, u: array<int>, S: int, T: int, B: nat)
    requires B >= 2 && x.Valid(B) && x.size >= 1 && x.size <= u.Length && u != x.digits
    requires S >= 1 && T >= 1 && S * T == B
    modifies u
    ensures IsDigits(u[..x.size], B) && u[x.size..] == old(u[x.size..])
    ensures Val(u[..x.size], B) + (x.digits[x.size - 1] / T) * Pow(B, x.size) == S * x.Abs(B)
  {
    hide Val, Pow;
    ghost var d := x.digits[..x.size];
    for i := x.size - 1 downto 0
      invariant u[x.size..] == old(u[x.size..])
      invariant forall k :: i < k < x.size ==> u[k] == UpAt(d, k, S, T, B)
    {
      u[i + 1] := (x.digits[i + 1] * S) % B + x.digits[i] / T;
    }
    u[0] := (x.digits[0] * S) % B;
    ghost var w := u[..x.size];
    assert ShiftedUp(w, d, S, T, B);
    ShiftedUpDigits(w, d, S, T, B);
    ShiftedUpValue(w, d, S, T, B, x.size);
    assert w[..|d|] == w && d[..x.size] == d;
  }

  method NormalizeOperands(dividend: LargeInteger, divisor: LargeInteger, bits: nat, B: nat)
    returns (v: array<int>, u: array<int>, S: int, T: int)
    requires bits >= 1 && B == Pow(2, bits) && B >= 2 && dividend.Valid(B) && divisor.Valid(B)
    requires 2 <= divisor.size <= dividend.size
    ensures S >= 1 && T >= 1 && S * T == B && fresh(v) && fresh(u) && u != v
    ensures v.Length == divisor.size && IsDigits(v[..], B) && Val(v[..], B) == S * divisor.Abs(B)
    ensures v[divisor.size - 1] >= 1
    ensures u.Length == dividend.size + 1 && IsDigits(u[..], B) && Val(u[..], B) == S * dividend.Abs(B)
  {
    hide Val, Pow;
    var m, n := dividend.size, divisor.size;
    var shift := LeadingZeros(divisor.digits[n - 1], bits);
    S, T := Pow(2, shift), Pow(2, bits - shift);
    PowAdd(2, shift, bits - shift);
    PowPositive(2, shift);
    PowPositive(2, bits - shift);
    v := new int[n];
    Normalize(divisor, v, S, T, B);
    assert v[..n] == v[..];
    AbsRange(divisor, B);
    NormalizedTop(v[..], divisor.Abs(B), divisor.digits[n - 1], S, T, B);
    u := new int[m + 1];
    u[m] := dividend.digits[m - 1] / T;
    Normalize(dividend, u, S, T, B);
    assert u[m] == u[m..][0];
    ghost var low := u[..m];
    assert u[..] == low + [u[m]];
    ValPush(low, u[m], B);
    DivModBounds(dividend.digits[m - 1], T);
    ShiftDigit(dividend.digits[m - 1], S, T, B);
    MulMono(S, 1, T);
  }

  /** The shift keeps every bit of the divisor. */
  lemma NormalizedTop(v: seq<int>, X: int, d: int, S: int, T: int, B: nat)
    requires B >= 2 && S >= 1 && T >= 1 && S * T == B && |v| >= 1 && IsDigits(v, B)
    requires 0 <= d && d * S < B && X >= Pow(B, |v| - 1)
    requires Val(v, B) + (d / T) * Pow(B, |v|) == S * X
    ensures Val(v, B) == S * X && v[|v| - 1] >= 1
  {
    NoSpill(d, S, T, B);
    assert 0 * Pow(B, |v|) == 0;
    PowPositive(B, |v| - 1);
    MulMono(X, 1, S);
    TopNonzero(v, B);
  }

  lemma NoSpill(d: int, S: int, T: int, B: nat)
    requires S >= 1 && T >= 1 && S * T == B && 0 <= d && d * S < B
    ensures d / T == 0
  {
    DivModBounds(d, T);
    if d / T >= 1 { MulMono(T, 1, d / T); MulMono(S, T, d); }
  }

  lemma TopNonzero(v: seq<int>, B: nat)
    requires B >= 1 && |v| >= 1 && IsDigits(v, B) && Val(v, B) >= Pow(B, |v| - 1)
    ensures v[|v| - 1] >= 1
  {
    var k := |v| - 1;
    ValBound(v[..k], B);
  }

  /**
   * Divides the magnitudes by the schoolbook method after shifting the divisor's leading one bit to the top of its
   * digit.
   */
  method MultiTruncated(dividend: LargeInteger, divisor: LargeInteger, bits: nat, B: nat)
    returns (q: LargeInteger, rem: array<int>, S: int, T: int)
    requires bits >= 1 && B == Pow(2, bits) && B >= 2 && dividend.Valid(B) && divisor.Valid(B)
    requires 2 <= divisor.size <= dividend.size
    ensures fresh(q) && fresh(q.digits) && fresh(rem) && q.Valid(B) && q.digits.Length >= 1
    ensures S >= 1 && T >= 1 && S * T == B && divisor.Abs(B) > 0
    ensures rem.Length == dividend.size + 1 && IsDigits(rem[..], B)
    ensures forall i :: divisor.size <= i < rem.Length ==> rem[i] == 0
    ensures Val(rem[..], B) == S * (dividend.Abs(B) % divisor.Abs(B))
    ensures q.Abs(B) == dividend.Abs(B) / divisor.Abs(B)
    ensures q.negative == (dividend.negative != divisor.negative && q.Abs(B) != 0)
  {
    var m, n := dividend.size, divisor.size;
    var v;
    v, rem, S, T := NormalizeOperands(dividend, divisor, bits, B);
    AbsRange(divisor, B);
    AbsRange(dividend, B);
    q := new LargeInteger(m - n + 1);
    q.negative := dividend.negative != divisor.negative;
    NormalizedFits(dividend, divisor, rem[..], S, B);
    assert rem[..][m - n + 1..] == rem[m - n + 1..];
    LongDivision.DivideDigits(rem, v, q.digits, B);
    assert q.digits[..q.size] == q.digits[..];
    Denormalized(dividend.Abs(B), divisor.Abs(B), Val(q.digits[..], B), Val(rem[..], B), S);
    Clamp(q, B);
  }

  /** The leading window of the shifted dividend is below the shifted divisor. */
  lemma NormalizedFits(dividend: LargeInteger, divisor: LargeInteger, u: seq<int>, S: int, B: nat)
    requires B >= 2 && S >= 1 && dividend.Valid(B) && divisor.Valid(B) && 1 <= divisor.size <= dividend.size
    requires |u| == dividend.size + 1 && IsDigits(u, B) && Val(u, B) == S * dividend.Abs(B)
    ensures Val(u[dividend.size - divisor.size + 1..], B) < S * divisor.Abs(B)
  {
    var m, n := dividend.size, divisor.size;
    var l := m - n + 1;
    AbsRange(dividend, B);
    AbsRange(divisor, B);
    ValSplit(u, l, B);
    ValBound(u[..l], B);
    var P, W := Pow(B, l), Val(u[l..], B);
    assert W * P < (S * divisor.Abs(B)) * P by {
      MulStrictMono(S, dividend.Abs(B), Pow(B, m));
      PowAdd(B, l, n - 1);
      PowPositive(B, l);
      MulMono(P, Pow(B, n - 1), divisor.Abs(B));
      MulMono(S, Pow(B, m), divisor.Abs(B) * P);
      MulAssoc(S, divisor.Abs(B), P);
    }
    MulCancelLt(P, W, S * divisor.Abs(B));
  }

  lemma Denormalized(x: int, y: int, q: int, r: int, S: int)
    requires 0 <= x && 0 < y && S >= 1 && S * x == q * (S * y) + r && 0 <= r < S * y
    ensures q == x / y && r == S * (x % y)
  {
    DivModBounds(x, y);
    var q', r' := x / y, x % y;
    MulStrictMono(S, r', y);
    MulMono(S, 0, r');
    Dist(q' * y, r', S);
    assert S * (q' * y) == q' * (S * y) by { MulAssoc(S, q', y); MulAssoc(q', S, y); }
    DivModUnique(S * x, S * y, q, r);
    DivModUnique(S * x, S * y, q', S * r');
  }

  lemma DenormalizedValue(u: seq<int>, w: seq<int>, n: nat, S: int, T: int, R: int, B: nat)
    requires B >= 2 && 1 <= n == |w| < |u| && S >= 1 && T >= 1 && S * T == B && IsDigits(u, B)
    requires forall i :: n <= i < |u| ==> u[i] == 0
    requires Val(u, B) == S * R
    requires forall k :: 0 <= k < n ==> w[k] == u[k] / S + (u[k + 1] * T) % B
    ensures IsDigits(w, B) && Val(w, B) == R
  {
    ShiftedDownValue(u, w, S, T, B, n);
    ZeroTail(u, n, B);
    assert w[..n] == w;
    DivModUnique(0, S, 0, 0);
    assert u[n] % S == 0;
    DivModBounds(u[0], S);
    RemainderBelow(S, R, Val(w, B), u[0] % S);
  }

  lemma RemainderBelow(S: int, R: int, V: int, e: int)
    requires S >= 1 && S * V + e == S * R && 0 <= e < S
    ensures V == R
  {
    DivModUnique(S * R, S, V, e);
    DivModUnique(S * R, S, R, 0);
  }

  method UnshiftDigits(norm: array<int>, n: nat, d: array<int>, S: int, T: int, ghost R: int, B: nat)
    requires B >= 2 && 1 <= n == d.Length < norm.Length && d != norm && S >= 1 && T >= 1 && S * T == B
    requires IsDigits(norm[..], B) && Val(norm[..], B) == S * R
    requires forall i :: n <= i < norm.Length ==> norm[i] == 0
    modifies d
    ensures IsDigits(d[..], B) && Val(d[..], B) == R
  {
    ghost var u := norm[..];
    for i := 0 to n - 1
      invariant norm[..] == u
      invariant forall k :: 0 <= k < i ==> d[k] == norm[k] / S + (norm[k + 1] * T) % B
    {
      d[i] := norm[i] / S + (norm[i + 1] * T) % B;
    }
    d[n - 1] := norm[n - 1] / S;
    DivModUnique(0, B, 0, 0);
    DenormalizedValue(u, d[..], n, S, T, R, B);
  }

  /** Shifts the remainder back down into a fresh integer. */
  method DenormalizeRemainder(norm: array<int>, n: nat, negative: bool, S: int, T: int, ghost R: int, B: nat)
    returns (r: LargeInteger)
    requires B >= 2 && 1 <= n < norm.Length && S >= 1 && T >= 1 && S * T == B && IsDigits(norm[..], B)
    requires forall i :: n <= i < norm.Length ==> norm[i] == 0
    requires Val(norm[..], B) == S * R
    ensures fresh(r) && fresh(r.digits) && r.Valid(B) && r.Value(B) == (if negative then -R else R)
  {
    r := new LargeInteger(n);
    r.negative := negative;
    UnshiftDigits(norm, n, r.digits, S, T, R, B);
    assert r.digits[..r.size] == r.digits[..];
    Clamp(r, B);
  }

  method DivideMulti(op: DivOperation, kind: DivResult, dividend: LargeInteger, divisor: LargeInteger, bits: nat,
                     B: nat)
    returns (r: LargeInteger?)
    requires bits >= 1 && B == Pow(2, bits) && B >= 2 && dividend.Valid(B) && divisor.Valid(B)
    requires 2 <= divisor.size <= dividend.size
    requires !(kind == Remainder && op == Exact)
    ensures divisor.Value(B) != 0
    ensures DivideResult(op, kind, dividend.Value(B), divisor.Value(B), B, r)
  {
    hide Val, Pow;
    var n := divisor.size;
    var q, rem, S, T := MultiTruncated(dividend, divisor, bits, B);
    ghost var a, b := dividend.Value(B), divisor.Value(B);
    ghost var R := AbsInt(a) % AbsInt(b);
    AbsRange(divisor, B);
    AbsRange(dividend, B);
    assert AbsInt(b) >= B by { PowMono(B, 1, n - 1); PowStep(B, 0); }
    DivModBounds(AbsInt(a), AbsInt(b));
    if kind == Quotient {
      var zero := RemainderIsZero(rem, n, S, R, B);
      AbsRange(q, B);
      r := FinishQuotient(op, q, zero, dividend.negative != divisor.negative, true, a, b, B);
    } else {
      var remainder := DenormalizeRemainder(rem, n, dividend.negative, S, T, R, B);
      r := FinishRemainder(op, remainder, dividend.negative, divisor, a, B);
    }
  }

  method FinishRemainder(op: DivOperation, remainder: LargeInteger, dividendNegative: bool, divisor: LargeInteger,
                         ghost a: int, B: nat) returns (r: LargeInteger)
    requires B >= 2 && op != Exact && remainder.Valid(B) && divisor.Valid(B) && divisor.Abs(B) > 0
    requires (dividendNegative <==> a < 0)
    requires var R := AbsInt(a) % divisor.Abs(B); remainder.Value(B) == (if dividendNegative then -R else R)
    ensures divisor.Value(B) != 0
    ensures DivideResult(op, Remainder, a, divisor.Value(B), B, r)
  {
    ghost var n := divisor.Abs(B);
    DivModBounds(AbsInt(a), n);
    SignedDivision(a, divisor.Value(B), AbsInt(a) / n, AbsInt(a) % n);
    AbsRange(remainder, B);
    AbsRange(divisor, B);
    if op == Floored && remainder.size != 0 && dividendNegative != divisor.negative {
      r := Add(remainder, divisor, B);
    } else {
      r := remainder;
    }
  }

  method RemainderIsZero(norm: array<int>, n: nat, ghost S: int, ghost R: int, ghost B: nat) returns (zero: bool)
    requires B >= 2 && n < norm.Length && IsDigits(norm[..], B) && S >= 1 && R >= 0
    requires forall i :: n <= i < norm.Length ==> norm[i] == 0
    requires Val(norm[..], B) == S * R
    ensures zero <==> R == 0
  {
    ghost var s := norm[..];
    zero := true;
    for i := 0 to n + 1
      invariant zero && forall k :: 0 <= k < i ==> norm[k] == 0
    {
      if norm[i] != 0 {
        zero := false;
        break;
      }
    }
    if R == 0 {
      assert S * 0 == 0;
      ValZeroConv(s, B);
      assert forall i :: 0 <= i < |s| ==> s[i] == norm[i];
    } else {
      MulMono(R, 1, S);
      if zero {
        assert forall i :: 0 <= i < |s| ==> s[i] == 0;
        ValZero(s, B);
      }
    }
  }

  /** Null only for an exact quotient that does not exist. */
  method Divide(op: DivOperation, kind: DivResult, dividend: LargeInteger, divisor: LargeInteger, bits: nat)
    returns (r: LargeInteger?)
    requires bits >= 1 && dividend.Valid(Pow(2, bits)) && divisor.Valid(Pow(2, bits)) && divisor.size != 0
    requires !(kind == Remainder && op == Exact)
    ensures divisor.Value(Pow(2, bits)) != 0
    ensures DivideResult(op, kind, dividend.Value(Pow(2, bits)), divisor.Value(Pow(2, bits)), Pow(2, bits), r)
  {
    PowMono(2, 1, bits);
    assert Pow(2, 1) == 2 * Pow(2, 0);
    if dividend.size < divisor.size {
      r := DivideSmall(op, kind, dividend, divisor, Pow(2, bits));
    } else if divisor.size == 1 {
      r := DivideSingle(op, kind, dividend, divisor, Pow(2, bits));
    } else {
      r := DivideMulti(op, kind, dividend, divisor, bits, Pow(2, bits));
    }
  }
}
