/** The multi-digit core of LargeInteger::Divide: one quotient digit at a time from an estimate. */
module LongDivision {
  import opened Arith
  import opened Digits

  /** The estimate never undershoots: the first guess divides only the leading two digits by v1. */
  lemma FirstGuessNotLow(w: int, p: int, v1: int, q: int, V: int, c: int)
    requires 0 < c && 0 < v1 && v1 * c <= V && 0 <= w < (p + 1) * c && q == p / v1
    ensures w < (q + 1) * V
  {
    DivModBounds(p, v1);
    assert p + 1 <= (q + 1) * v1 by { Dist(q, 1, v1); }
    MulMono(c, p + 1, (q + 1) * v1);
    MulAssoc(q + 1, v1, c);
    if q + 1 < 0 { MulMono(v1, q + 1, -1); MulMono(c, p + 1, 0); }
    MulMono(q + 1, v1 * c, V);
  }

  /** A failed two-digit test proves the estimate too large. */
  lemma TestFailedTooHigh(w: int, w3: int, vv: int, q: int, V: int, c: int)
    requires 0 < c && 0 <= q && vv * c <= V && w < (w3 + 1) * c && q * vv > w3
    ensures w < q * V
  {
    MulMono(c, w3 + 1, q * vv);
    MulAssoc(q, vv, c);
    MulMono(q, vv * c, V);
  }

  /** A passed two-digit test bounds the overshoot by one divisor. */
  lemma TestPassedClose(w: int, w3: int, vv: int, vl: int, q: int, V: int, c: int, B: nat)
    requires 0 < c && 0 <= q < B && V == vv * c + vl && 0 <= vl < c && B <= vv
    requires w3 * c <= w && q * vv <= w3
    ensures q * V < w + V
  {
    MulMono(c, q * vv, w3);
    MulAssoc(q, vv, c);
    Dist(vv * c, vl, q);
    MulMono(q, vl, c);
    MulMono(c, q, B);
    MulMono(c, B, vv);
    MulStrictMono(c, q, B);
  }

  /** An estimate of B or more is larger than any quotient digit. */
  lemma QuotientDigitBelowBase(w: int, q: int, V: int, B: nat)
    requires 0 < V && w < V * B && q >= B
    ensures w < q * V
  {
    MulMono(V, B, q);
  }

  ghost predicate Between(top: int, c: int, w: int) { top * c <= w < (top + 1) * c }

  ghost predicate Composed(w: int, top: int, c: int, low: int) { w == top * c + low }

  /** w is the window being divided and V the divisor; c is the weight of the digits below the leading three (two). */
  ghost predicate Window(u0: int, u1: int, u2: int, v1: int, v2: int, B: nat, w: int, V: int, c: int, vl: int)
  {
    && B >= 2 && 0 <= u0 < B && 0 <= u1 < B && 0 <= u2 < B && 0 <= v2 < B && 1 <= v1 < B
    && 0 < c && 0 <= vl < c && Composed(V, v1 * B + v2, c, vl) && Between((u0 * B + u1) * B + u2, c, w)
    && w < V * B && u0 <= v1
  }

  ghost predicate NotLow(w: int, q: int, V: int) { w < (q + 1) * V }

  ghost predicate NotHigh(w: int, q: int, V: int) { q * V < w + V }

  lemma EstimateStart(u0: int, u1: int, u2: int, v1: int, v2: int, B: nat, w: int, V: int, c: int, vl: int)
    requires Window(u0, u1, u2, v1, v2, B, w, V, c, vl)
    ensures var p := u0 * B + u1; p >= 0 && p / v1 >= 0 && NotLow(w, p / v1, V)
    ensures var p := u0 * B + u1; 0 <= p - (p / v1) * v1 < v1
  {
    var p := u0 * B + u1;
    MulMono(B, 0, u0);
    DivModBounds(p, v1);
    assert (p * B + u2 + 1) * c <= (p + 1) * (B * c) by {
      Dist(p, 1, B);
      MulMono(c, p * B + u2 + 1, (p + 1) * B);
      MulAssoc(p + 1, B, c);
    }
    assert v1 * (B * c) <= V by {
      Dist(v1 * B, v2, c);
      MulAssoc(v1, B, c);
      MulMono(c, 0, v2);
    }
    assert 0 <= w by { MulMono(B, 0, p); MulMono(c, 0, p * B + u2); }
    MulStrictMono(c, 0, B);
    FirstGuessNotLow(w, p, v1, p / v1, V, B * c);
  }

  lemma EstimateDown(u0: int, u1: int, u2: int, v1: int, v2: int, B: nat, w: int, V: int, c: int, vl: int, q: int,
                     r: int)
    requires Window(u0, u1, u2, v1, v2, B, w, V, c, vl)
    requires 0 <= q && u0 * B + u1 == q * v1 + r
    requires q >= B || q * v2 > B * r + u2
    ensures q > 0 && NotLow(w, q - 1, V) && u0 * B + u1 == (q - 1) * v1 + (r + v1)
  {
    var p := u0 * B + u1;
    VPositive(v1, v2, vl, c, B);
    if q >= B {
      QuotientDigitBelowBase(w, q, V, B);
    } else {
      WindowSplit(p, q, v1, v2, r, u2, B);
      TestFailedTooHigh(w, p * B + u2, v1 * B + v2, q, V, c);
    }
    Dist(q, 1, v1);
    assert 0 <= w by { MulMono(B, 0, u0); MulMono(B, 0, p); MulMono(c, 0, p * B + u2); }
  }

  lemma EstimateDone(u0: int, u1: int, u2: int, v1: int, v2: int, B: nat, w: int, V: int, c: int, vl: int, q: int,
                     r: int)
    requires Window(u0, u1, u2, v1, v2, B, w, V, c, vl)
    requires 0 <= q < B && u0 * B + u1 == q * v1 + r && q * v2 <= B * r + u2
    ensures NotHigh(w, q, V)
  {
    var p := u0 * B + u1;
    WindowSplit(p, q, v1, v2, r, u2, B);
    MulMono(B, 1, v1);
    TestPassedClose(w, p * B + u2, v1 * B + v2, vl, q, V, c, B);
  }

  /**
   * Corrects a quotient estimate from the three leading digits of the window and the two leading digits of the divisor.
   */
  method Estimate(u0: int, u1: int, u2: int, v1: int, v2: int, B: nat, ghost w: int, ghost V: int, ghost c: int,
                  ghost vl: int)
    returns (q: int)
    requires Window(u0, u1, u2, v1, v2, B, w, V, c, vl)
    ensures 0 <= q < B && NotLow(w, q, V) && NotHigh(w, q, V)
  {
    var p := u0 * B + u1;
    q := p / v1;
    var r := p - q * v1;
    EstimateStart(u0, u1, u2, v1, v2, B, w, V, c, vl);
    while true
      invariant 0 <= q && 0 <= r < B && u0 * B + u1 == q * v1 + r && NotLow(w, q, V)
      decreases q
    {
      if q >= B || q * v2 > B * r + u2 {
        EstimateDown(u0, u1, u2, v1, v2, B, w, V, c, vl, q, r);
        q := q - 1;
        r := r + v1;
        if r < B { continue; }
        LateExit(u0, u1, u2, v1, v2, q, r, B);
      }
      EstimateDone(u0, u1, u2, v1, v2, B, w, V, c, vl, q, r);
      break;
    }
  }

  lemma VPositive(v1: int, v2: int, vl: int, c: int, B: nat)
    requires v1 >= 1 && v2 >= 0 && 0 <= vl && 0 < c && B >= 2
    ensures 0 < (v1 * B + v2) * c + vl
  {
    MulMono(B, 1, v1);
    MulStrictMono(c, 0, v1 * B + v2);
  }

  lemma WindowSplit(p: int, q: int, v1: int, v2: int, r: int, u2: int, B: nat)
    requires p == q * v1 + r
    ensures q * (v1 * B + v2) <= p * B + u2 <==> q * v2 <= B * r + u2
  {
    Dist(q * v1, r, B);
    Dist(v1 * B, v2, q);
    MulAssoc(q, v1, B);
  }

  /** The remainder estimate can reach B only once the quotient estimate is a digit and passes the test. */
  lemma LateExit(u0: int, u1: int, u2: int, v1: int, v2: int, q: int, r: int, B: nat)
    requires 0 <= u0 <= v1 && 0 <= u1 < B && 0 <= u2 && 0 <= v2 < B && 0 <= q && r >= B >= 2
    requires u0 * B + u1 == q * v1 + r
    ensures q < B && q * v2 <= B * r + u2
  {
    MulMono(B, u0, v1);
    if q >= B { MulMono(v1, B, q); }
    MulMono(v2, q, B);
    MulMono(B, v2, r);
  }

  // ---- one step of the outer loop: subtract q times the divisor, add the divisor back if that was too much ----

  /** The borrow stays within one digit, and each place loses exactly its share of the product m. */
  lemma BorrowBounds(q: int, d: int, m: int, a: int, k: int, t: int, B: nat)
    requires B >= 2 && 0 <= k <= B && 0 <= q < B && 0 <= d < B && 0 <= a < B && m == q * d && t == a - k - m % B
    ensures 0 <= m / B - t / B <= B
    ensures t % B - (m / B - t / B) * B == a - k - m
  {
    MulMono(d, 0, q);
    MulMono(B - 1, d, B - 1);
    MulMono(d, q, B - 1);
    DivModBounds(m, B);
    DivModBounds(t, B);
    BorrowParts(m / B, m % B, t / B, t % B, m, a, k, B);
  }

  lemma BorrowParts(x: int, mx: int, y: int, ty: int, m: int, a: int, k: int, B: nat)
    requires B >= 2 && 0 <= k <= B && 0 <= a < B && 0 <= m <= (B - 1) * (B - 1) && m == x * B + mx && 0 <= mx < B
    requires 0 <= ty < B
    requires a - k - mx == y * B + ty
    ensures 0 <= x - y <= B && ty - (x - y) * B == a - k - m
  {
    Dist(B, -1, B - 1);
    Dist(x, -y, B);
    assert x <= B - 2 by { if x > B - 2 { MulMono(B, B - 1, x); Dist(B, -1, B); } }
    assert x >= 0 by { if x < 0 { MulMono(B, x, -1); } }
    assert y >= -2 by { if y < -2 { MulMono(B, y, -3); } }
    assert y <= 0 by { if y > 0 { MulMono(B, 1, y); } }
  }

  lemma BorrowStep(A: int, k: int, P: int, A0: int, q: int, D: int, a: int, d: int, m: int, low: int, k': int, B: nat)
    requires A - k * P == A0 - q * D && m == q * d && low - k' * B == a - k - m
    ensures A + low * P - k' * (B * P) == A0 + a * P - q * (D + d * P)
  {
    assert low * P - (k' * B) * P == (a - k - m) * P by { Dist(low, k' * B, P); }
    MulAssoc(k', B, P);
    assert (a - k - m) * P == a * P - k * P - m * P by { Dist(a - k, m, P); Dist(a, k, P); }
    MulAssoc(q, d, P);
    Dist(D, d * P, q);
  }

  lemma MulSubStep(A: int, k: int, P: int, A0: int, q: int, D: int, a: int, d: int, t: int, k': int, B: nat)
    requires B >= 2 && 0 <= k <= B && 0 <= q < B && 0 <= d < B && 0 <= a < B
    requires A - k * P == A0 - q * D
    requires t == a - k - (q * d) % B && k' == q * d / B - t / B
    ensures 0 <= k' <= B
    ensures A + (t % B) * P - k' * (B * P) == A0 + a * P - q * (D + d * P)
  {
    BorrowBounds(q, d, q * d, a, k, t, B);
    BorrowStep(A, k, P, A0, q, D, a, d, q * d, t % B, k', B);
  }

  lemma MulSubTop(A: int, k: int, P: int, A0: int, q: int, D: int, a: int, t: int, B: nat)
    requires B >= 2 && 0 <= k <= B && 0 <= a < B && A - k * P == A0 - q * D && t == a - k
    ensures A + (t % B) * P == A0 + a * P - q * D + (if t < 0 then B * P else 0)
  {
    DivModBounds(t, B);
    assert t / B == (if t < 0 then -1 else 0) by {
      if t < 0 { DivModUnique(t, B, -1, t + B); } else { DivModUnique(t, B, 0, t); }
    }
    Dist(a, k, P);
    if t < 0 { Dist(t, B, P); }
  }

  lemma ArrayPrefixStep(s: seq<int>, j: nat, i: nat, B: nat)
    requires j + i < |s|
    ensures Val(s[j..j + i + 1], B) == Val(s[j..j + i], B) + s[j + i] * Pow(B, i)
  {
    hide Val, Pow;
    assert s[j..j + i + 1] == s[j..j + i] + [s[j + i]];
    ValPush(s[j..j + i], s[j + i], B);
  }

  /** Subtracts q times the digits of the divisor from the window, all but its top digit. */
  method SubtractProduct(u: array<int>, v: array<int>, j: nat, q: int, B: nat) returns (k: int)
    requires B >= 2 && u != v && j + v.Length < u.Length && 0 <= q < B
    requires IsDigits(u[..], B) && IsDigits(v[..], B)
    modifies u
    ensures IsDigits(u[..], B) && 0 <= k <= B
    ensures Val(u[j..j + v.Length], B) - k * Pow(B, v.Length) == Val(old(u[j..j + v.Length]), B) - q * Val(v[..], B)
    ensures u[..j] == old(u[..j]) && u[j + v.Length..] == old(u[j + v.Length..])
  {
    var n := v.Length;
    ghost var u0, d := u[..], v[..];
    k := 0;
    for i := 0 to n
      invariant v[..] == d && IsDigits(u[..], B) && 0 <= k <= B
      invariant u[..j] == u0[..j] && u[j + i..] == u0[j + i..]
      invariant Val(u[j..j + i], B) - k * Pow(B, i) == Val(u0[j..j + i], B) - q * Val(d[..i], B)
    {
      ghost var was := u[..];
      var p := q * v[i];
      var t := u[i + j] - k - p % B;
      MulSubStep(Val(was[j..j + i], B), k, Pow(B, i), Val(u0[j..j + i], B), q, Val(d[..i], B), u0[i + j], v[i], t,
                 p / B - t / B, B);
      u[i + j] := t % B;
      k := p / B - t / B;
      assert u[..] == was[i + j := t % B] && u[j..j + i] == was[j..j + i];
      ArrayPrefixStep(u[..], j, i, B);
      ArrayPrefixStep(u0, j, i, B);
      assert u[..][j..j + i + 1] == u[j..j + i + 1] && u[..][j..j + i] == u[j..j + i];
      ValStep(d, i, B);
    }
    assert d[..n] == d;
  }

  method MultiplyAndSubtract(u: array<int>, v: array<int>, j: nat, q: int, B: nat) returns (t: int)
    requires B >= 2 && u != v && j + v.Length < u.Length && 0 <= q < B
    requires IsDigits(u[..], B) && IsDigits(v[..], B)
    modifies u
    ensures IsDigits(u[..], B)
    ensures Val(u[j..j + v.Length + 1], B)
         == Val(old(u[j..j + v.Length + 1]), B) - q * Val(v[..], B) + (if t < 0 then Pow(B, v.Length + 1) else 0)
    ensures u[..j] == old(u[..j]) && u[j + v.Length + 1..] == old(u[j + v.Length + 1..])
  {
    hide Val, Pow;
    var n := v.Length;
    ghost var u0, d := u[..], v[..];
    var k := SubtractProduct(u, v, j, q, B);
    ghost var was := u[..];
    assert u[j + n] == u[j + n..][0] == u0[j + n..][0] == u0[j + n];
    t := u[j + n] - k;
    u[j + n] := t % B;
    assert u[..] == was[j + n := t % B] && u[j..j + n] == was[j..j + n] == u[..][j..j + n];
    assert u[j + n + 1..] == was[j + n..][1..] == u0[j + n..][1..];
    ArrayPrefixStep(u[..], j, n, B);
    ArrayPrefixStep(u0, j, n, B);
    assert u[..][j..j + n + 1] == u[j..j + n + 1];
    PowStep(B, n);
    MulSubTop(Val(was[j..j + n], B), k, Pow(B, n), Val(u0[j..j + n], B), q, Val(d, B), u0[j + n], t, B);
  }

  lemma AddBackStep(A: int, k: int, P: int, A0: int, D: int, a: int, d: int, t: int, B: nat)
    requires B >= 2 && 0 <= k <= 1 && 0 <= d < B && 0 <= a < B && A + k * P == A0 + D && t == a + d + k
    ensures 0 <= t / B <= 1
    ensures A + (t % B) * P + (t / B) * (B * P) == A0 + a * P + (D + d * P)
  {
    DivModBounds(t, B);
    if t / B > 1 { MulMono(B, 2, t / B); }
    MulAssoc(t / B, B, P);
    Dist(t % B, (t / B) * B, P);
    Dist(a + d, k, P);
    Dist(a, d, P);
  }

  /** Adds the digits of the divisor to the window, all but its top digit. */
  method AddDivisor(u: array<int>, v: array<int>, j: nat, B: nat) returns (k: int)
    requires B >= 2 && u != v && j + v.Length < u.Length
    requires IsDigits(u[..], B) && IsDigits(v[..], B)
    modifies u
    ensures IsDigits(u[..], B) && 0 <= k <= 1
    ensures Val(u[j..j + v.Length], B) + k * Pow(B, v.Length) == Val(old(u[j..j + v.Length]), B) + Val(v[..], B)
    ensures u[..j] == old(u[..j]) && u[j + v.Length..] == old(u[j + v.Length..])
  {
    var n := v.Length;
    ghost var u0, d := u[..], v[..];
    k := 0;
    for i := 0 to n
      invariant v[..] == d && IsDigits(u[..], B) && 0 <= k <= 1
      invariant u[..j] == u0[..j] && u[j + i..] == u0[j + i..]
      invariant Val(u[j..j + i], B) + k * Pow(B, i) == Val(u0[j..j + i], B) + Val(d[..i], B)
    {
      ghost var was := u[..];
      var t := u[i + j] + v[i] + k;
      AddBackStep(Val(was[j..j + i], B), k, Pow(B, i), Val(u0[j..j + i], B), Val(d[..i], B), u0[i + j], v[i], t, B);
      u[i + j] := t % B;
      k := t / B;
      assert u[..] == was[i + j := t % B] && u[j..j + i] == was[j..j + i];
      ArrayPrefixStep(u[..], j, i, B);
      ArrayPrefixStep(u0, j, i, B);
      assert u[..][j..j + i + 1] == u[j..j + i + 1] && u[..][j..j + i] == u[j..j + i];
      ValStep(d, i, B);
    }
    assert d[..n] == d;
  }

  /** Adds the divisor back into the window; the carry out of the top digit is dropped. */
  method AddBack(u: array<int>, v: array<int>, j: nat, B: nat, ghost r: int)
    requires B >= 2 && u != v && j + v.Length < u.Length
    requires IsDigits(u[..], B) && IsDigits(v[..], B)
    requires 0 <= r < Pow(B, v.Length + 1)
    requires Val(u[j..j + v.Length + 1], B) + Val(v[..], B) == r + Pow(B, v.Length + 1)
    modifies u
    ensures IsDigits(u[..], B)
    ensures Val(u[j..j + v.Length + 1], B) == r
    ensures u[..j] == old(u[..j]) && u[j + v.Length + 1..] == old(u[j + v.Length + 1..])
  {
    hide Val, Pow;
    var n := v.Length;
    ghost var u0, d := u[..], v[..];
    var k := AddDivisor(u, v, j, B);
    ghost var was := u[..];
    var top := u[j + n] + k;
    assert u[j + n] == u[j + n..][0] == u0[j + n..][0] == u0[j + n];
    u[j + n] := top % B;
    assert u[..] == was[j + n := top % B] && u[j..j + n] == was[j..j + n] == u[..][j..j + n];
    assert u[j + n + 1..] == was[j + n..][1..] == u0[j + n..][1..];
    ArrayPrefixStep(u[..], j, n, B);
    ArrayPrefixStep(u0, j, n, B);
    assert u[..][j..j + n + 1] == u[j..j + n + 1];
    ValBound(u[j..j + n + 1], B);
    PowStep(B, n);
    AddBackTop(Val(was[j..j + n], B), k, Pow(B, n), Val(u0[j..j + n], B), Val(d, B), u0[j + n], top,
               Val(u[j..j + n + 1], B), r, B);
  }

  /** Dropping the carry out of the top digit takes the window back below B * P. */
  lemma AddBackTop(A: int, k: int, P: int, A0: int, D: int, a: int, top: int, w: int, r: int, B: nat)
    requires B >= 2 && A + k * P == A0 + D && top == a + k && w == A + (top % B) * P
    requires 0 <= w < B * P && 0 <= r < B * P && A0 + a * P + D == r + B * P
    ensures w == r
  {
    DivModBounds(top, B);
    MulAssoc(top / B, B, P);
    Dist(top % B, (top / B) * B, P);
    Dist(a, k, P);
    assert w + (top / B) * (B * P) == r + B * P;
    DivModUnique(r + B * P, B * P, top / B, w);
    DivModUnique(r + B * P, B * P, 1, r);
  }

  lemma LowThree(a0: int, a1: int, a2: int, B: nat)
    ensures Val([a0, a1, a2], B) == (a2 * B + a1) * B + a0
  {
    var s := [a0, a1, a2];
    ValFirst(s, B);
    assert s[1..] == [a1, a2];
    LowTwo(a1, a2, B);
  }

  lemma LowTwo(a0: int, a1: int, B: nat)
    ensures Val([a0, a1], B) == a1 * B + a0
  {
    var s := [a0, a1];
    ValFirst(s, B);
    assert s[1..] == [] + [a1];
    ValPush([], a1, B);
  }

  ghost predicate Leading3(top: int, a: int, b: int, c: int, B: nat) { top == (a * B + b) * B + c }

  ghost predicate Leading2(top: int, a: int, b: int, B: nat) { top == a * B + b }

  lemma TopThree(s: seq<int>, B: nat) returns (top: int)
    requires |s| >= 3
    ensures var k := |s| - 3;
      Leading3(top, s[k + 2], s[k + 1], s[k], B) && Composed(Val(s, B), top, Pow(B, k), Val(s[..k], B))
  {
    var k := |s| - 3;
    ValSplit(s, k, B);
    assert s[k..] == [s[k], s[k + 1], s[k + 2]];
    top := Val(s[k..], B);
    LowThree(s[k], s[k + 1], s[k + 2], B);
  }

  lemma TopTwo(s: seq<int>, B: nat) returns (top: int)
    requires |s| >= 2
    ensures var k := |s| - 2; Leading2(top, s[k + 1], s[k], B) && Composed(Val(s, B), top, Pow(B, k), Val(s[..k], B))
  {
    var k := |s| - 2;
    ValSplit(s, k, B);
    assert s[k..] == [s[k], s[k + 1]];
    top := Val(s[k..], B);
    LowTwo(s[k], s[k + 1], B);
  }

  lemma TopDigitOrder(x: seq<int>, y: seq<int>, B: nat)
    requires B >= 1 && |x| == |y| > 0 && IsDigits(x, B) && IsDigits(y, B) && Val(x, B) < Val(y, B)
    ensures x[|x| - 1] <= y[|y| - 1]
  {
    var k := |x| - 1;
    ValBound(x[..k], B);
    ValBound(y[..k], B);
    PowPositive(B, k);
    if x[k] > y[k] {
      MulMono(Pow(B, k), y[k] + 1, x[k]);
      Dist(y[k], 1, Pow(B, k));
    }
  }

  lemma Bracket(top: int, c: int, low: int, val: int)
    requires Composed(val, top, c, low) && 0 <= low < c
    ensures Between(top, c, val)
  {
    Dist(top, 1, c);
  }

  lemma WindowOf(u0: int, u1: int, u2: int, v1: int, v2: int, B: nat, w: int, V: int, c: int, ul: int, vl: int, W: int,
                 T: int)
    requires B >= 2 && 0 <= u0 < B && 0 <= u1 < B && 0 <= u2 < B && 0 <= v2 < B && 1 <= v1 < B && u0 <= v1
    requires 0 <= ul < c && 0 <= vl < c && w < V * B
    requires Leading3(W, u0, u1, u2, B) && Composed(w, W, c, ul) && Leading2(T, v1, v2, B) && Composed(V, T, c, vl)
    ensures Window(u0, u1, u2, v1, v2, B, w, V, c, vl)
  {
    Bracket(W, c, ul, w);
  }

  /** The window and divisor meet the estimator's assumptions at every step of the outer loop. */
  lemma WindowHolds(x: seq<int>, y: seq<int>, B: nat)
    requires B >= 2 && |y| >= 2 && |x| == |y| + 1 && IsDigits(x, B) && IsDigits(y, B)
    requires y[|y| - 1] >= 1 && Val(x[1..], B) < Val(y, B)
    ensures var n := |y|;
      Window(x[n], x[n - 1], x[n - 2], y[n - 1], y[n - 2], B, Val(x, B), Val(y, B), Pow(B, n - 2), Val(y[..n - 2], B))
  {
    hide Val, Pow, Between, Composed, Leading3, Leading2, Window;
    var n := |y|;
    var W := TopThree(x, B);
    var T := TopTwo(y, B);
    ValBound(x[..n - 2], B);
    ValBound(y[..n - 2], B);
    TopDigitOrder(x[1..], y, B);
    WindowBelowBase(x, Val(y, B), B);
    WindowOf(x[n], x[n - 1], x[n - 2], y[n - 1], y[n - 2], B, Val(x, B), Val(y, B), Pow(B, n - 2), Val(x[..n - 2], B),
             Val(y[..n - 2], B),
             W, T);
  }

  lemma WindowBelowBase(x: seq<int>, V: int, B: nat)
    requires B >= 2 && |x| >= 1 && IsDigits(x, B) && Val(x[1..], B) < V
    ensures Val(x, B) < V * B
  {
    ValFirst(x, B);
    MulMono(B, Val(x[1..], B), V - 1);
    Dist(V, 1, B);
  }

  lemma OuterStep(U: int, Q: int, q: int, P: int, B: nat, V: int, low: int, w: int, w': int)
    requires U == Q * ((B * P) * V) + (low + P * w) && w == q * V + w'
    ensures U == (q + B * Q) * (P * V) + (low + P * w')
  {
    calc {
      Q * ((B * P) * V);
      { MulAssoc(B, P, V); MulAssoc(Q, B, P * V); MulAssoc(B, Q, P * V); }
      (B * Q) * (P * V);
    }
    Dist(q, B * Q, P * V);
    Dist(q * V, w', P);
    assert P * (q * V) == q * (P * V) by { MulAssoc(P, q, V); MulAssoc(q, P, V); }
  }

  lemma TopDigitVanishes(x: seq<int>, n: nat, B: nat)
    requires B >= 2 && |x| == n + 1 && IsDigits(x, B) && Val(x, B) < Pow(B, n)
    ensures x[n] == 0 && Val(x[..n], B) == Val(x, B)
  {
    ValBound(x[..n], B);
    if x[n] > 0 { MulMono(Pow(B, n), 1, x[n]); }
  }

  /** One quotient digit: reduces the window modulo the divisor and returns the exact digit. */
  method DivideStep(u: array<int>, v: array<int>, j: nat, B: nat) returns (q: int)
    requires B >= 2 && u != v && v.Length >= 2 && j + v.Length < u.Length
    requires IsDigits(u[..], B) && IsDigits(v[..], B) && v[v.Length - 1] >= 1
    requires Val(u[j + 1..j + v.Length + 1], B) < Val(v[..], B)
    modifies u
    ensures IsDigits(u[..], B) && 0 <= q < B
    ensures old(Val(u[j..j + v.Length + 1], B)) == q * Val(v[..], B) + Val(u[j..j + v.Length + 1], B)
    ensures 0 <= Val(u[j..j + v.Length + 1], B) < Val(v[..], B)
    ensures u[..j] == old(u[..j]) && u[j + v.Length + 1..] == old(u[j + v.Length + 1..])
  {
    hide Val, Pow, Window, NotLow, NotHigh;
    var n := v.Length;
    ghost var x, y := u[j..j + n + 1], v[..];
    ghost var w, V := Val(x, B), Val(y, B);
    assert x[1..] == u[j + 1..j + n + 1];
    WindowHolds(x, y, B);
    ValBound(x, B);
    ValBound(y, B);
    q := Estimate(u[j + n], u[j + n - 1], u[j + n - 2], v[n - 1], v[n - 2], B, w, V, Pow(B, n - 2), Val(y[..n - 2], B));
    var t := MultiplyAndSubtract(u, v, j, q, B);
    ValBound(u[j..j + n + 1], B);
    PowStrictMono(B, n, n + 1);
    Settled(w, V, q, Val(u[j..j + n + 1], B), Pow(B, n), Pow(B, n + 1), t < 0);
    if t < 0 {
      q := q - 1;
      AddBack(u, v, j, B, w - q * V);
    }
  }

  /** What is left tells whether the estimate was one too high. */
  lemma Settled(w: int, V: int, q: int, left: int, limit: int, whole: int, high: bool)
    requires NotLow(w, q, V) && NotHigh(w, q, V) && 0 <= V < limit < whole && 0 <= left < whole && 0 <= w < whole
    requires 0 <= q
    requires left == w - q * V + if high then whole else 0
    ensures high ==> 0 <= w - (q - 1) * V < V && left + V == w - (q - 1) * V + whole && q >= 1
    ensures !high ==> 0 <= left < V && w == q * V + left
  {
    Dist(q, 1, V);
    Dist(q, -1, V);
  }

  /** After the digits from index j up: quotient so far, and a remainder below the divisor from B^j up. */
  ghost predicate Partial(U: int, qs: seq<int>, s: seq<int>, j: nat, y: seq<int>, B: nat)
    requires j + |y| <= |s|
  {
    && (forall i :: j + |y| <= i < |s| ==> s[i] == 0)
    && Val(s[j..j + |y|], B) < Val(y, B)
    && U == Val(qs, B) * (Pow(B, j) * Val(y, B)) + (Val(s[..j], B) + Pow(B, j) * Val(s[j..j + |y|], B))
  }

  lemma ShiftWindow(low: int, d: int, P: int, B: int, rest: int)
    ensures (low + d * P) + (B * P) * rest == low + P * (d + B * rest)
  {
    Dist(d, B * rest, P);
    MulAssoc(P, B, rest);
  }

  lemma PartialStep(U: int, hi: seq<int>, q: int, s: seq<int>, s': seq<int>, j: nat, y: seq<int>, B: nat)
    requires B >= 2 && |s'| == |s| && j + |y| < |s| && IsDigits(y, B) && IsDigits(s', B)
    requires Partial(U, hi, s, j + 1, y, B)
    requires s'[..j] == s[..j] && s'[j + |y| + 1..] == s[j + |y| + 1..]
    requires Val(s[j..j + |y| + 1], B) == q * Val(y, B) + Val(s'[j..j + |y| + 1], B)
    requires Val(s'[j..j + |y| + 1], B) < Val(y, B)
    ensures Partial(U, [q] + hi, s', j, y, B)
  {
    hide Val, Pow;
    PartialSum(U, hi, q, s, j, |y|, Val(y, B), Val(s'[j..j + |y| + 1], B), B);
    ZerosAbove(s, s', j, y, B);
  }

  /** One more quotient digit, for a divisor V of n digits and what is left of the window. */
  lemma PartialSum(U: int, hi: seq<int>, q: int, s: seq<int>, j: nat, n: nat, V: int, left: int, B: nat)
    requires B >= 2 && j + n < |s| && Val(s[j..j + n + 1], B) == q * V + left
    requires U == Val(hi, B) * (Pow(B, j + 1) * V) + (Val(s[..j + 1], B) + Pow(B, j + 1) * Val(s[j + 1..j + 1 + n], B))
    ensures U == Val([q] + hi, B) * (Pow(B, j) * V) + (Val(s[..j], B) + Pow(B, j) * left)
  {
    hide Val, Pow;
    var P, x := Pow(B, j), s[j..j + n + 1];
    assert x[1..] == s[j + 1..j + 1 + n];
    ValFirst(x, B);
    ValStep(s, j, B);
    PowStep(B, j);
    ShiftWindow(Val(s[..j], B), s[j], P, B, Val(x[1..], B));
    OuterStep(U, Val(hi, B), q, P, B, V, Val(s[..j], B), Val(x, B), left);
    ValFirst([q] + hi, B);
    assert ([q] + hi)[1..] == hi;
  }

  lemma ZerosAbove(s: seq<int>, s': seq<int>, j: nat, y: seq<int>, B: nat)
    requires B >= 2 && |s'| == |s| && j + |y| < |s| && IsDigits(y, B) && IsDigits(s', B)
    requires forall i :: j + 1 + |y| <= i < |s| ==> s[i] == 0
    requires s'[j + |y| + 1..] == s[j + |y| + 1..]
    requires Val(s'[j..j + |y| + 1], B) < Val(y, B)
    ensures forall i :: j + |y| <= i < |s'| ==> s'[i] == 0
    ensures Val(s'[j..j + |y|], B) == Val(s'[j..j + |y| + 1], B)
  {
    var n, x' := |y|, s'[j..j + |y| + 1];
    ValBound(y, B);
    TopDigitVanishes(x', n, B);
    assert x'[..n] == s'[j..j + n];
    forall i | j + n <= i < |s'| ensures s'[i] == 0 {
      if i > j + n { assert s'[i] == s'[j + n + 1..][i - j - n - 1] == s[i]; }
    }
  }

  lemma PartialStart(s: seq<int>, l: nat, y: seq<int>, B: nat)
    requires |s| == l + |y| && Val(s[l..], B) < Val(y, B)
    ensures Partial(Val(s, B), [], s, l, y, B)
  {
    ValSplit(s, l, B);
    assert s[l..] == s[l..l + |y|];
  }

  lemma UnitWeight(U: int, Q: int, P: int, V: int, e: int, L: int)
    requires P == 1 && e == 0 && U == Q * (P * V) + (e + P * L)
    ensures U == Q * V + L
  {}

  lemma PartialWindow(U: int, qs: seq<int>, s: seq<int>, j: nat, y: seq<int>, B: nat)
    requires j + |y| <= |s| && Partial(U, qs, s, j, y, B)
    ensures Val(s[j..j + |y|], B) < Val(y, B)
  {
  }

  lemma PartialEnd(U: int, qs: seq<int>, s: seq<int>, y: seq<int>, B: nat)
    requires B >= 2 && |y| <= |s| && IsDigits(s, B) && Partial(U, qs, s, 0, y, B)
    ensures U == Val(qs, B) * Val(y, B) + Val(s, B) && 0 <= Val(s, B) < Val(y, B)
    ensures forall i :: |y| <= i < |s| ==> s[i] == 0
  {
    var n := |y|;
    var V, L, Q := Val(y, B), Val(s[0..0 + n], B), Val(qs, B);
    var e, P := Val(s[..0], B), Pow(B, 0);
    UnitWeight(U, Q, P, V, e, L);
    assert s[0..0 + n] == s[..n];
    ZeroTail(s, n, B);
    ValBound(s[..n], B);
  }

  /** Schoolbook division: u becomes the remainder, quotient receives the digits of the quotient. */
  method DivideDigits(u: array<int>, v: array<int>, quotient: array<int>, B: nat)
    requires B >= 2 && u != v && u != quotient && v != quotient
    requires v.Length >= 2 && u.Length == quotient.Length + v.Length && quotient.Length >= 1
    requires IsDigits(u[..], B) && IsDigits(v[..], B) && v[v.Length - 1] >= 1
    requires Val(u[quotient.Length..], B) < Val(v[..], B)
    modifies u, quotient
    ensures v[..] == old(v[..])
    ensures IsDigits(u[..], B) && IsDigits(quotient[..], B)
    ensures old(Val(u[..], B)) == Val(quotient[..], B) * Val(v[..], B) + Val(u[..], B)
    ensures 0 <= Val(u[..], B) < Val(v[..], B)
    ensures forall i :: v.Length <= i < u.Length ==> u[i] == 0
  {
    hide Partial, Val;
    var n, l := v.Length, quotient.Length;
    ghost var y, U := v[..], Val(u[..], B);
    assert u[..][l..] == u[l..];
    PartialStart(u[..], l, y, B);
    assert quotient[l..] == [];
    for j := l downto 0
      invariant v[..] == y && IsDigits(u[..], B) && IsDigits(quotient[j..], B)
      invariant Partial(U, quotient[j..], u[..], j, y, B)
    {
      ghost var was, hi := u[..], quotient[j + 1..];
      assert was[j + 1..j + 1 + n] == u[j + 1..j + n + 1] && was[j..j + n + 1] == u[j..j + n + 1];
      PartialWindow(U, hi, was, j + 1, y, B);
      var q := DivideStep(u, v, j, B);
      quotient[j] := q;
      assert u[..][j..j + n + 1] == u[j..j + n + 1] && quotient[j..] == [q] + hi;
      assert u[..][..j] == was[..j] && u[..][j + n + 1..] == was[j + n + 1..];
      PartialStep(U, hi, q, was, u[..], j, y, B);
    }
    assert quotient[0..] == quotient[..];
    PartialEnd(U, quotient[..], u[..], y, B);
  }
}