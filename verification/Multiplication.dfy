/** Schoolbook multiplication: vm/large_integer.cc, MultiplyAbsolutesWithSign. */
module Multiplication {
  import opened Arith
  import opened Digits
  import opened LargeIntegers

  /** A product of two digits, a carry and a digit: the next carry is a digit again. */
  lemma CarryIsDigit(x: int, y: int, carry: int, z: int, B: nat)
    requires B >= 2 && 0 <= x < B && 0 <= y < B && 0 <= carry < B && 0 <= z < B
    ensures 0 <= (carry + (x * y + z)) / B < B
  {
    MulMono(y, 0, x);
    MulMono(y, x, B - 1);
    MulMono(B - 1, y, B - 1);
    var t := carry + (x * y + z);
    assert 0 <= t <= B * B - 1 by { Dist(B, -1, B - 1); Dist(B, -1, B); }
    DivModBounds(t, B);
    if t / B >= B { MulMono(B, B, t / B); }
  }

  /** One place of a row: rd times the digit, and the digit that is there. */
  lemma RowStep(l: seq<int>, s: seq<int>, i: nat, j: nat, rd: int, B: nat)
    requires j < |l| && i + j < |s|
    ensures Val(s[..i + j + 1], B) + rd * Val(l[..j + 1], B) * Pow(B, i)
      == Val(s[..i + j], B) + rd * Val(l[..j], B) * Pow(B, i) + (l[j] * rd + s[i + j]) * Pow(B, i + j)
  {
    hide Val, Pow;
    ValStep(s, i + j, B);
    ValStep(l, j, B);
    PowAdd(B, i, j);
    RowAlgebra(rd, Val(l[..j], B), l[j], Pow(B, j), Pow(B, i), Pow(B, i + j), s[i + j]);
  }

  lemma RowAlgebra(rd: int, L: int, x: int, P: int, Q: int, R: int, z: int)
    requires R == Q * P
    ensures rd * (L + x * P) * Q + z * R == rd * L * Q + (x * rd + z) * R
  {
    Dist(L, x * P, rd);
    Dist(rd * L, rd * (x * P), Q);
    Dist(x * rd, z, R);
    assert rd * (x * P) * Q == (x * rd) * R by {
      MulAssoc(rd, x, P);
      MulAssoc(x * rd, P, Q);
    }
  }

  /** Adds rd times the digits of left to the digits from index i on. */
  method MultiplyRow(left: LargeInteger, d: array<int>, i: nat, rd: int, B: nat)
    requires B >= 2 && left.Valid(B) && d != left.digits && i + left.size < d.Length && 0 <= rd < B
    requires IsDigits(d[..i + left.size], B)
    modifies d
    ensures IsDigits(d[..i + left.size + 1], B)
    ensures Val(d[..i + left.size + 1], B) == old(Val(d[..i + left.size], B)) + rd * left.Abs(B) * Pow(B, i)
  {
    hide Val, Pow;
    ghost var l, s := left.digits[..left.size], d[..];
    var carry := 0;
    assert l[..0] == [] && s[..i] == d[..i];
    ValEmpty(0, B);
    ValPush(d[..i], 0, B);
    for j := 0 to left.size
      invariant 0 <= carry < B && IsDigits(d[..i + j], B) && d[i + j..] == s[i + j..]
      invariant Val(d[..i + j] + [carry], B) == Val(s[..i + j], B) + rd * Val(l[..j], B) * Pow(B, i)
    {
      assert d[i + j] == d[i + j..][0] == s[i + j..][0] == s[..i + left.size][i + j];
      CarryIsDigit(left.digits[j], rd, carry, d[i + j], B);
      RowStep(l, s, i, j, rd, B);
      carry := EmitDigit(d, i + j, carry, left.digits[j] * rd + d[i + j],
                         Val(s[..i + j], B) + rd * Val(l[..j], B) * Pow(B, i),
                         Val(s[..i + j + 1], B) + rd * Val(l[..j + 1], B) * Pow(B, i), B);
      assert s[i + j..][1..] == s[i + j + 1..];
    }
    ghost var low := d[..i + left.size];
    d[i + left.size] := carry;
    assert d[..i + left.size + 1] == low + [carry];
    assert l[..left.size] == l;
  }

  method MultiplyDigits(left: LargeInteger, right: LargeInteger, d: array<int>, B: nat)
    requires B >= 2 && left.Valid(B) && right.Valid(B) && d != left.digits && d != right.digits
    requires d.Length == left.size + right.size
    modifies d
    ensures IsDigits(d[..], B) && Val(d[..], B) == left.Abs(B) * right.Abs(B)
  {
    hide Val, Pow;
    var m := left.size;
    for i := 0 to m
      invariant forall k :: 0 <= k < i ==> d[k] == 0
    {
      d[i] := 0;
    }
    ghost var L, r := left.Abs(B), right.digits[..right.size];
    ValZero(d[..m], B);
    ValEmpty(0, B);
    assert r[..0] == [] && L * 0 == 0;
    for i := 0 to right.size
      invariant IsDigits(d[..i + m], B) && Val(d[..i + m], B) == L * Val(r[..i], B)
    {
      MultiplyRow(left, d, i, right.digits[i], B);
      ValStep(r, i, B);
      NextRow(L, Val(r[..i], B), r[i], Pow(B, i));
      assert d[..i + 1 + m] == d[..i + m + 1];
    }
    assert r[..right.size] == r && d[..right.size + m] == d[..];
  }

  /** The product of the magnitudes, with the sign given. */
  method MultiplyAbsolutesWithSign(left: LargeInteger, right: LargeInteger, negative: bool, B: nat)
    returns (result: LargeInteger)
    requires B >= 2 && left.Valid(B) && right.Valid(B)
    ensures fresh(result) && fresh(result.digits) && result.Valid(B)
    ensures result.Value(B) == if negative then -(left.Abs(B) * right.Abs(B)) else left.Abs(B) * right.Abs(B)
  {
    hide Val, Pow;
    result := new LargeInteger(left.size + right.size);
    result.negative := negative;
    MultiplyDigits(left, right, result.digits, B);
    assert result.digits[..result.size] == result.digits[..];
    Clamp(result, B);
  }

  lemma NextRow(L: int, R: int, x: int, P: int)
    ensures L * R + x * L * P == L * (R + x * P)
  {
    Dist(R, x * P, L);
    MulAssoc(x, L, P);
    MulAssoc(L, x, P);
  }

  method Multiply(left: LargeInteger, right: LargeInteger, B: nat) returns (result: LargeInteger)
    requires B >= 2 && left.Valid(B) && right.Valid(B)
    ensures fresh(result) && fresh(result.digits) && result.Valid(B)
    ensures result.Value(B) == left.Value(B) * right.Value(B)
  {
    hide Val, Pow;
    Signs(left.Abs(B), right.Abs(B));
    result := MultiplyAbsolutesWithSign(left, right, left.negative != right.negative, B);
  }

  lemma Signs(x: int, y: int)
    ensures (-x) * y == -(x * y) == x * (-y) && (-x) * (-y) == x * y
  {
  }
}
