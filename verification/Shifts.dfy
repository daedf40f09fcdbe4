/** LargeInteger shifts: sign-magnitude digits, floor rounding. */
module Shifts {
  import opened Arith
  import opened Digits
  import opened LargeIntegers

  /**
   * Where a right shift (P is 2 to the shift) of a negative number comes out rounded down: the magnitude grows by
   * one in place, which is wrong exactly when the grown magnitude is a power of the base and so needs a new digit.
   */
  ghost predicate ShiftRightFits(a: int, P: int, B: nat)
    requires P > 0
  {
    a < 0 && AbsInt(a) % P != 0 ==> GrowsInPlace(AbsInt(a) / P, B)
  }

  /** What a right shift leaves: the floor where it fits, and zero elsewhere. */
  ghost predicate ShiftComputed(a: int, P: int, v: int, B: nat)
    requires P > 0
  {
    (v == a / P <==> ShiftRightFits(a, P, B)) && (!ShiftRightFits(a, P, B) ==> v == 0)
  }

  /**
   * The magnitude of -(2 * B^k - 1) shifted by one bit has k digits, all of them maximal, and growing it loses the
   * carry: zero instead of -B^k.
   */
  lemma ShiftCanFail(B: nat, k: nat, v: int)
    requires B >= 2 && k >= 1
    ensures var P: int := Pow(B, k);
      && !ShiftRightFits(-(2 * P - 1), 2, B) && -(2 * P - 1) / 2 == -P
      && (ShiftComputed(-(2 * P - 1), 2, v, B) <==> v == 0)
  {
    hide Pow;
    PowAtLeast(B, k);
    var P: int := Pow(B, k);
    assert AbsInt(-(2 * P - 1)) / 2 == P - 1;
    assert P - 1 + 1 == Pow(B, k);
    assert !GrowsInPlace(P - 1, B);
  }

  ghost predicate GrowsInPlace(m: int, B: nat)
  {
    forall k: nat :: k >= 1 ==> m + 1 != Pow(B, k)
  }

  lemma ShiftWeights(right: nat, bits: nat)
    requires bits >= 1
    ensures Pow(2, right) == Pow(Pow(2, bits), right / bits) * Pow(2, right % bits)
    ensures Pow(2, right % bits) * Pow(2, bits - right % bits) == Pow(2, bits)
    ensures Pow(2, right % bits) >= 1 && Pow(2, bits - right % bits) >= 2 && Pow(2, bits) >= 2
  {
    var q, e := right / bits, right % bits;
    assert right == bits * q + e;
    PowAdd(2, bits * q, e);
    PowPow(2, bits, q);
    PowAdd(2, e, bits - e);
    PowPositive(2, e);
    PowMono(2, 1, bits - e);
    PowMono(2, 1, bits);
    assert Pow(2, 1) == 2 * Pow(2, 0);
  }

  lemma SplitNumbers(X: int, P: int, S: int, V: int, e: int, L: int)
    requires P >= 1 && S >= 1 && X == L + P * (S * V + e) && 0 <= L < P && 0 <= e < S
    ensures P * S > 0 && X / (P * S) == V && (X % (P * S) == 0 <==> e == 0 && L == 0)
  {
    DivModUnique(X, P, S * V + e, L);
    DivModUnique(S * V + e, S, V, e);
    DivDiv(X, P, S);
    MulMono(P, 0, e);
    if e != 0 { MulAtLeast(e, P); }
  }

  lemma ZeroIff(s: seq<int>, B: nat)
    requires B >= 1 && IsDigits(s, B)
    ensures Val(s, B) == 0 <==> forall i :: 0 <= i < |s| ==> s[i] == 0
  {
    if Val(s, B) == 0 { ValZeroConv(s, B); }
    if forall i :: 0 <= i < |s| ==> s[i] == 0 { ValZero(s, B); }
  }

  /** Splitting a magnitude at the shift distance. */
  lemma ShiftSplit(x: seq<int>, low: seq<int>, ds: nat, S: int, B: nat, V: int, e: int)
    requires B >= 2 && IsDigits(x, B) && ds <= |x| && low == x[..ds] && S >= 1
    requires S * V + e == Val(x[ds..], B) && 0 <= e < S
    ensures Pow(B, ds) * S > 0
    ensures Val(x, B) / (Pow(B, ds) * S) == V
    ensures Val(x, B) % (Pow(B, ds) * S) == 0 <==> e == 0 && Val(low, B) == 0
  {
    PowPositive(B, ds);
    ValSplit(x, ds, B);
    ValBound(low, B);
    SplitNumbers(Val(x, B), Pow(B, ds), S, V, e, Val(low, B));
  }

  method AnyNonZero(x: LargeInteger, n: nat, ghost B: nat) returns (any: bool)
    requires B >= 1 && x.Shaped(B) && n <= x.size
    ensures any <==> exists i :: 0 <= i < n && x.digits[i] != 0
  {
    any := false;
    for i := 0 to n
      invariant !any && forall k :: 0 <= k < i ==> x.digits[k] == 0
    {
      if x.digits[i] != 0 { return true; }
    }
  }

  /** Shifts the digits from ds up down by fewer bits than a digit holds. */
  method ShiftDigitsDown(left: LargeInteger, ds: nat, r: array<int>, S: int, T: int, B: nat) returns (top: int)
    requires B >= 2 && left.Valid(B) && ds < left.size && r.Length == left.size - ds && r != left.digits
    requires S >= 1 && T >= 1 && S * T == B
    modifies r
    ensures IsDigits(r[..], B) && top == r[r.Length - 1]
    ensures S * Val(r[..], B) + left.digits[ds] % S == Val(left.digits[ds..left.size], B)
  {
    ghost var u := left.digits[ds..left.size] + [0];
    var n := r.Length;
    top := left.digits[ds] / S;
    for i := 0 to n - 1
      invariant top == u[i] / S
      invariant forall k :: 0 <= k < i ==> r[k] == u[k] / S + (u[k + 1] * T) % B
    {
      var d := left.digits[i + ds + 1];
      r[i] := (d * T) % B + top;
      top := d / S;
    }
    r[n - 1] := top;
    DivModUnique(0, B, 0, 0);
    ShiftedDownValue(u, r[..], S, T, B, n);
    assert r[..][..n] == r[..] && u[..n] == left.digits[ds..left.size];
    DivModUnique(0, S, 0, 0);
    assert 0 * Pow(B, n) == 0;
  }

  /** P is the weight of the shift; m the shifted magnitude of k digits; v what the rounding step leaves. */
  lemma RoundDownSpec(a: int, P: int, m: int, k: nat, v: int, B: nat)
    requires B >= 2 && P > 0 && m == AbsInt(a) / P
    requires 0 <= m < Pow(B, k) && (k > 0 ==> m >= Pow(B, k - 1))
    requires v == if a >= 0 then m else if AbsInt(a) % P == 0 then -m
                  else if k > 0 && m + 1 == Pow(B, k) then 0 else -(m + 1)
    ensures ShiftComputed(a, P, v, B)
    ensures ShiftRightFits(a, P, B) <==> !(a < 0 && AbsInt(a) % P != 0 && k > 0 && m + 1 == Pow(B, k))
  {
    DivModBounds(AbsInt(a), P);
    SignedDivision(a, P, m, AbsInt(a) % P);
    PowersOfBase(m, k, B);
    assert a / P == FDiv(a, P);
  }

  /** Rounds a shifted negative magnitude away from zero when a one bit was dropped. */
  method RoundDown(r: LargeInteger, dropped: bool, ghost a: int, ghost P: int, B: nat)
    requires B >= 2 && r.Shaped(B) && (r.size > 0 ==> r.digits[r.size - 1] != 0)
    requires (r.size == 0 ==> r.digits.Length > 0)
    requires r.negative <==> a < 0
    requires P > 0 && r.Abs(B) == AbsInt(a) / P && (dropped <==> AbsInt(a) % P != 0)
    modifies r, r.digits
    ensures r.digits == old(r.digits)
    ensures r.Shaped(B) && ShiftComputed(a, P, r.Value(B), B) && (r.Valid(B) <==> ShiftRightFits(a, P, B))
  {
    ghost var m, k := r.Abs(B), r.size;
    ValBound(r.digits[..k], B);
    if k > 0 { ValTop(r.digits[..k], B); PowPositive(B, k - 1); }
    if r.negative && dropped {
      AbsAddOneInPlace(r, B);
    }
    if r.size > 0 { NoZeroOnTop(r, B); }
    RoundDownSpec(a, P, m, k, r.Value(B), B);
  }

  lemma PowersOfBase(m: int, k: nat, B: nat)
    requires B >= 2 && 0 <= m < Pow(B, k) && (k > 0 ==> m >= Pow(B, k - 1))
    ensures GrowsInPlace(m, B) <==> k == 0 || m + 1 != Pow(B, k)
  {
    if k == 0 || m + 1 != Pow(B, k) {
      forall e: nat | e >= 1 ensures m + 1 != Pow(B, e) {
        if e < k { PowMono(B, e, k - 1); }
        if e > k { PowStrictMono(B, k, e); }
      }
    }
  }

  /** left shifted right by fewer bits than it has digits for; the caller answers 0 or -1 beyond that. */
  method ShiftRight(left: LargeInteger, right: nat, bits: nat) returns (r: LargeInteger)
    requires bits >= 1 && left.Valid(Pow(2, bits)) && right / bits < left.size
    ensures fresh(r) && fresh(r.digits) && r.Shaped(Pow(2, bits))
    ensures Pow(2, right) > 0
    ensures r.Valid(Pow(2, bits)) <==> ShiftRightFits(left.Value(Pow(2, bits)), Pow(2, right), Pow(2, bits))
    ensures ShiftComputed(left.Value(Pow(2, bits)), Pow(2, right), r.Value(Pow(2, bits)), Pow(2, bits))
  {
    ShiftWeights(right, bits);
    r := ShiftRightBy(left, right / bits, Pow(2, right % bits), Pow(2, bits - right % bits), Pow(2, right),
                      Pow(2, bits));
    PowPositive(2, right);
  }

  method ShiftRightBy(left: LargeInteger, ds: nat, S: int, T: int, ghost P: int, B: nat) returns (r: LargeInteger)
    requires B >= 2 && left.Valid(B) && ds < left.size && S >= 1 && T >= 2 && S * T == B
    requires P == Pow(B, ds) * S
    ensures fresh(r) && fresh(r.digits) && r.Shaped(B) && P > 0
    ensures ShiftComputed(left.Value(B), P, r.Value(B), B) && (r.Valid(B) <==> ShiftRightFits(left.Value(B), P, B))
  {
    r := ShiftMagnitudeRight(left, ds, S, T, B);
    var low := AnyNonZero(left, ds, B);
    var dropped := (left.digits[ds] * T) % B != 0 || low;
    ghost var x := left.digits[..left.size];
    assert x[ds..] == left.digits[ds..left.size];
    UpDigitZero(left.digits[ds], S, T, B);
    ShiftSplit(x, x[..ds], ds, S, B, r.Abs(B), left.digits[ds] % S);
    ZeroIff(x[..ds], B);
    assert forall i :: 0 <= i < ds ==> x[..ds][i] == left.digits[i];
    AbsRange(left, B);
    RoundDown(r, dropped, left.Value(B), P, B);
  }

  lemma UpDigitZero(x: int, S: int, T: int, B: nat)
    requires S >= 1 && T >= 1 && S * T == B && 0 <= x < B
    ensures (x * T) % B == 0 <==> x % S == 0
    ensures 0 <= x % S < S
  {
    UpDigit(x, S, T, B);
    if x % S != 0 { MulAtLeast(x % S, T); }
  }

  /** Truncates. A shift by whole digits only moves digits. */
  method ShiftMagnitudeRight(left: LargeInteger, ds: nat, S: int, T: int, B: nat) returns (r: LargeInteger)
    requires B >= 2 && left.Valid(B) && ds < left.size && S >= 1 && T >= 2 && S * T == B
    ensures fresh(r) && fresh(r.digits) && r.Shaped(B) && r.negative == left.negative
    ensures (r.size > 0 ==> r.digits[r.size - 1] != 0) && r.digits.Length >= 1
    ensures S * r.Abs(B) + left.digits[ds] % S == Val(left.digits[ds..left.size], B)
  {
    if S == 1 {
      r := new LargeInteger(left.size - ds);
      r.negative := left.negative;
      CopyDigitsDown(left, ds, r.digits);
      ghost var x := left.digits[ds..left.size];
      assert r.digits[..r.size] == x == r.digits[..];
      UnitShift(Val(x, B), left.digits[ds]);
    } else {
      r := ShiftBitsRight(left, ds, S, T, B);
    }
  }

  /** The size drops by one when the top digit vanishes. */
  method ShiftBitsRight(left: LargeInteger, ds: nat, S: int, T: int, B: nat) returns (r: LargeInteger)
    requires B >= 2 && left.Valid(B) && ds < left.size && S > 1 && T >= 2 && S * T == B
    ensures fresh(r) && fresh(r.digits) && r.Shaped(B) && r.negative == left.negative
    ensures (r.size > 0 ==> r.digits[r.size - 1] != 0) && r.digits.Length >= 1
    ensures S * r.Abs(B) + left.digits[ds] % S == Val(left.digits[ds..left.size], B)
  {
    r := new LargeInteger(left.size - ds);
    r.negative := left.negative;
    ghost var x, e := left.digits[ds..left.size], left.digits[ds] % S;
    var top := ShiftDigitsDown(left, ds, r.digits, S, T, B);
    assert r.digits[..r.size] == r.digits[..];
    UpDigitZero(left.digits[ds], S, T, B);
    MulStrictMono(S, 1, T);
    TrimTop(r, top == 0, x, S, e, B);
  }

  lemma UnitShift(V: int, d: int)
    ensures 1 * V + d % 1 == V
  {}

  method TrimTop(r: LargeInteger, topIsZero: bool, ghost x: seq<int>, ghost S: int, ghost e: int, B: nat)
    requires B >= 2 && 1 <= S < B && r.Shaped(B) && r.size == r.digits.Length == |x| >= 1
    requires IsDigits(x, B) && x[|x| - 1] != 0 && 0 <= e < S && S * r.Abs(B) + e == Val(x, B)
    requires topIsZero <==> r.digits[r.size - 1] == 0
    modifies r
    ensures r.digits == old(r.digits) && r.negative == old(r.negative) && r.Shaped(B) && r.Abs(B) == old(r.Abs(B))
    ensures r.size > 0 ==> r.digits[r.size - 1] != 0
  {
    if topIsZero {
      ghost var w := r.digits[..r.size];
      SecondNonZero(x, w, S, e, B);
      ZeroTail(w, r.size - 1, B);
      r.size := r.size - 1;
      assert r.digits[..r.size] == w[..r.size];
    }
  }

  method CopyDigitsDown(left: LargeInteger, ds: nat, r: array<int>)
    requires ds <= left.size <= left.digits.Length && r.Length == left.size - ds && r != left.digits
    modifies r
    ensures r[..] == left.digits[ds..left.size]
  {
    for i := 0 to r.Length
      invariant forall k :: 0 <= k < i ==> r[k] == left.digits[k + ds]
    {
      r[i] := left.digits[i + ds];
    }
  }

  /** When the shift empties the top digit, the digit below it takes its bits. */
  lemma SecondNonZero(x: seq<int>, w: seq<int>, S: int, e: int, B: nat)
    requires B >= 2 && 1 <= S < B && |x| == |w| >= 1 && IsDigits(x, B) && IsDigits(w, B) && x[|x| - 1] != 0
    requires w[|w| - 1] == 0 && S * Val(w, B) + e == Val(x, B) && 0 <= e < S
    ensures |w| >= 2 ==> w[|w| - 2] != 0
  {
    var n := |w|;
    if n >= 2 && w[n - 2] == 0 {
      ZeroTail(w, n - 2, B);
      ValBound(w[..n - 2], B);
      ValTop(x, B);
      var P := Pow(B, n - 2);
      MulMono(S, Val(w, B), P - 1);
      Dist(P, 1, S);
      MulMono(P, S, B);
    }
  }

  lemma TopStaysNonZero(r: LargeInteger, X: int, n: nat, ds: nat, S: int, B: nat)
    requires B >= 2 && r.Shaped(B) && r.size >= 1 && S >= 1 && n >= 1 && X >= Pow(B, n - 1)
    requires r.Abs(B) == Pow(B, ds) * (S * X)
    requires r.size == n + ds || r.digits[r.size - 1] != 0
    ensures r.digits[r.size - 1] != 0
  {
    if r.size == n + ds {
      PowPositive(B, n - 1);
      MulMono(X, 1, S);
      MulMono(Pow(B, ds), Pow(B, n - 1), S * X);
      PowAdd(B, ds, n - 1);
      TopNonzero(r.digits[..r.size], B);
    }
  }

  method ShiftDigitsUp(left: LargeInteger, ds: nat, r: array<int>, S: int, T: int, B: nat) returns (carry: int)
    requires B >= 2 && left.Valid(B) && left.size >= 1 && ds + left.size <= r.Length && r != left.digits
    requires S >= 1 && T >= 1 && S * T == B
    modifies r
    ensures 0 <= carry < S && IsDigits(r[..left.size + ds], B)
    ensures Val(r[..left.size + ds], B) + carry * Pow(B, left.size + ds) == Pow(B, ds) * (S * left.Abs(B))
  {
    ghost var x := left.digits[..left.size];
    for i := 0 to ds
      invariant forall k :: 0 <= k < i ==> r[k] == 0
    {
      r[i] := 0;
    }
    carry := 0;
    for i := 0 to left.size
      invariant forall k :: 0 <= k < ds ==> r[k] == 0
      invariant forall k :: 0 <= k < i ==> r[ds + k] == UpAt(x, k, S, T, B)
      invariant carry == Spill(x, i, T)
    {
      var d := left.digits[i];
      r[i + ds] := (d * S) % B + carry;
      carry := d / T;
    }
    ShiftedUpPlaced(r[..left.size + ds], x, ds, carry, S, T, B);
  }

  lemma ShiftedUpPlaced(w: seq<int>, x: seq<int>, ds: nat, carry: int, S: int, T: int, B: nat)
    requires B >= 2 && |x| >= 1 && |w| == |x| + ds && IsDigits(x, B) && S >= 1 && T >= 1 && S * T == B
    requires forall k :: 0 <= k < ds ==> w[k] == 0
    requires forall k :: 0 <= k < |x| ==> w[ds + k] == UpAt(x, k, S, T, B)
    requires carry == Spill(x, |x|, T)
    ensures 0 <= carry < S && IsDigits(w, B)
    ensures Val(w, B) + carry * Pow(B, |w|) == Pow(B, ds) * (S * Val(x, B))
  {
    var u := w[ds..];
    assert ShiftedUp(u, x, S, T, B);
    ShiftedUpDigits(u, x, S, T, B);
    ShiftedUpValue(u, x, S, T, B, |x|);
    assert u[..|x|] == u && x[..|x|] == x;
    ShiftDigit(x[|x| - 1], S, T, B);
    forall i | 0 <= i < |w| ensures 0 <= w[i] < B { if i >= ds { assert w[i] == u[i - ds]; } }
    ValSplit(w, ds, B);
    ValZero(w[..ds], B);
    PowAdd(B, ds, |x|);
    PlaceValue(Pow(B, ds), Pow(B, |x|), Val(u, B), carry, S * Val(x, B));
  }

  lemma PlaceValue(P: int, R: int, u: int, carry: int, X: int)
    requires u + carry * R == X
    ensures P * u + carry * (P * R) == P * X
  {
    Dist(u, carry * R, P);
    MulAssoc(P, carry, R);
    MulAssoc(carry, P, R);
  }

  /** left * 2^right. */
  method ShiftLeft(left: LargeInteger, right: nat, bits: nat) returns (r: LargeInteger)
    requires bits >= 1 && left.Valid(Pow(2, bits))
    ensures r.Valid(Pow(2, bits)) && r.Value(Pow(2, bits)) == left.Value(Pow(2, bits)) * Pow(2, right)
  {
    ShiftWeights(right, bits);
    if left.size == 0 {
      return left;
    }
    r := ShiftLeftBy(left, right / bits, Pow(2, right % bits), Pow(2, bits - right % bits), Pow(2, bits));
    ghost var X, P := left.Abs(Pow(2, bits)), Pow(Pow(2, bits), right / bits);
    MulAssoc(P, Pow(2, right % bits), X);
    NegMul(X, Pow(2, right));
  }

  method ShiftLeftBy(left: LargeInteger, ds: nat, S: int, T: int, B: nat) returns (r: LargeInteger)
    requires B >= 2 && left.Valid(B) && left.size >= 1 && S >= 1 && T >= 1 && S * T == B
    ensures fresh(r) && fresh(r.digits) && r.Valid(B) && r.negative == left.negative
    ensures r.Abs(B) == Pow(B, ds) * (S * left.Abs(B))
  {
    hide Val, Pow;
    if S == 1 {
      r := new LargeInteger(left.size + ds);
    } else {
      r := new LargeInteger(left.size + ds + 1);
    }
    r.negative := left.negative;
    AbsRange(left, B);
    var carry := ShiftDigitsUp(left, ds, r.digits, S, T, B);
    ghost var low := r.digits[..left.size + ds];
    if S != 1 {
      r.digits[r.size - 1] := carry;
      assert r.digits[..left.size + ds] == low;
      if carry == 0 { r.size := r.size - 1; }
    }
    if r.size == left.size + ds {
      assert r.digits[..r.size] == low;
      assert carry * Pow(B, r.size) == 0;
    } else {
      assert r.digits[..r.size] == low + [carry];
      ValPush(low, carry, B);
    }
    TopStaysNonZero(r, left.Abs(B), left.size, ds, S, B);
  }
}
