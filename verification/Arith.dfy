/** Powers and the few non-linear facts the other modules share. */
module Arith {

  function Pow(b: nat, e: nat): nat
  {
    if e == 0 then 1 else b * Pow(b, e - 1)
  }

  lemma PowStep(b: nat, e: nat)
    ensures Pow(b, 0) == 1 && Pow(b, e + 1) == b * Pow(b, e)
  {
  }

  lemma {:induction false} PowPositive(b: nat, e: nat)
    requires b >= 1
    ensures Pow(b, e) >= 1
  {
    if e > 0 {
      PowPositive(b, e - 1);
      MulAtLeast(b, Pow(b, e - 1));
    }
  }

  lemma MulAtLeast(a: nat, b: nat)
    requires a >= 1 && b >= 1
    ensures a * b >= a && a * b >= b
  {
    MulMono(b, 1, a);
    MulMono(a, 1, b);
  }

  lemma {:induction false} PowAdd(b: nat, x: nat, y: nat)
    ensures Pow(b, x + y) == Pow(b, x) * Pow(b, y)
  {
    if x > 0 {
      PowAdd(b, x - 1, y);
      MulAssoc(b, Pow(b, x - 1), Pow(b, y));
    }
  }

  lemma {:induction false} PowMono(b: nat, x: nat, y: nat)
    requires b >= 1 && x <= y
    ensures Pow(b, x) <= Pow(b, y)
  {
    PowAdd(b, y - x, x);
    PowPositive(b, y - x);
    MulMono(Pow(b, x), 1, Pow(b, y - x));
  }

  lemma {:induction false} PowStrictMono(b: nat, x: nat, y: nat)
    requires b >= 2 && x < y
    ensures Pow(b, x) < Pow(b, y)
  {
    PowMono(b, x + 1, y);
    PowPositive(b, x);
    MulMono(Pow(b, x), 2, b);
  }

  lemma {:induction false} PowPow(b: nat, x: nat, y: nat)
    ensures Pow(b, x * y) == Pow(Pow(b, x), y)
  {
    if y == 0 {
      assert x * y == 0;
    } else {
      PowPow(b, x, y - 1);
      assert x * y == x + x * (y - 1);
      PowAdd(b, x, x * (y - 1));
    }
  }

  lemma {:induction false} PowMulBase(a: nat, b: nat, e: nat)
    ensures Pow(a * b, e) == Pow(a, e) * Pow(b, e)
  {
    if e > 0 {
      PowMulBase(a, b, e - 1);
      var x, y := Pow(a, e - 1), Pow(b, e - 1);
      calc {
        (a * b) * (x * y);
        { MulAssoc(a * b, x, y); }
        ((a * b) * x) * y;
        { MulAssoc(a, b, x); MulAssoc(a, x, b); }
        ((a * x) * b) * y;
        { MulAssoc(a * x, b, y); }
        (a * x) * (b * y);
      }
    }
  }

  lemma {:induction false} PowBaseMono(a: nat, b: nat, e: nat)
    requires a <= b
    ensures Pow(a, e) <= Pow(b, e)
  {
    if e > 0 {
      PowBaseMono(a, b, e - 1);
      MulMono(a, Pow(a, e - 1), Pow(b, e - 1));
      MulMono(Pow(b, e - 1), a, b);
    }
  }

  lemma MulAssoc(a: int, b: int, c: int)
    ensures (a * b) * c == a * (b * c)
  {}

  lemma MulMono(c: int, x: int, y: int)
    requires 0 <= c && x <= y
    ensures x * c <= y * c && c * x <= c * y
  {}

  lemma MulStrictMono(c: int, x: int, y: int)
    requires 0 < c && x < y
    ensures x * c < y * c && c * x < c * y
  {}

  /** Cancelling a positive factor. */
  lemma MulCancelLt(c: int, x: int, y: int)
    requires 0 < c && x * c < y * c
    ensures x < y
  {
    if y <= x { MulMono(c, y, x); }
  }

  lemma Dist(a: int, b: int, c: int)
    ensures (a + b) * c == a * c + b * c
    ensures (a - b) * c == a * c - b * c
    ensures c * (a + b) == c * a + c * b
    ensures c * (a - b) == c * a - c * b
  {}

  /** A quotient and remainder in range are the quotient and remainder. */
  lemma DivModUnique(x: int, d: int, q: int, r: int)
    requires d > 0 && x == q * d + r && 0 <= r < d
    ensures q == x / d && r == x % d
  {
    var q1, r1 := x / d, x % d;
    assert x == q1 * d + r1;
    assert (q - q1) * d == r1 - r by { Dist(q, q1, d); }
    if q < q1 { MulMono(d, q - q1, -1); }
    if q > q1 { MulMono(d, 1, q - q1); }
  }

  lemma DivModBounds(x: int, d: int)
    requires d > 0
    ensures x == (x / d) * d + x % d && 0 <= x % d < d
    ensures x >= 0 ==> x / d >= 0
  {
    if x >= 0 && x / d < 0 { MulMono(d, x / d, -1); }
  }

  lemma DivPos(x: int, d: int)
    requires 0 <= x && 0 < d
    ensures 0 <= x / d
  {
    DivModBounds(x, d);
  }

  /** Floor division by a product is two floor divisions. */
  lemma DivDiv(x: int, a: int, b: int)
    requires a > 0 && b > 0
    ensures a * b > 0
    ensures x / (a * b) == (x / a) / b
    ensures x % (a * b) == (x / a) % b * a + x % a
  {
    MulStrictMono(a, 0, b);
    var q, r := x / a, x % a;
    DivModBounds(x, a);
    var p, s := q / b, q % b;
    DivModBounds(q, b);
    assert x == p * (a * b) + (s * a + r) by {
      assert q * a == (p * b + s) * a;
      Dist(p * b, s, a);
      assert p * b * a == p * (a * b);
    }
    MulMono(a, s + 1, b);
    Dist(s, 1, a);
    MulMono(a, 0, s);
    DivModUnique(x, a * b, p, s * a + r);
  }
}
