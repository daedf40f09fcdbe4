/** Multiplying column by column: the sums that Bignum::Square of double-conversion/bignum.cc accumulates. */
module Columns {
  import opened Arith
  import opened Digits

  /** The digit at an index, which may be beyond the digits. */
  function At(s: seq<int>, i: int): int { if 0 <= i < |s| then s[i] else 0 }

  /** The first k products of column i. */
  ghost function Cross(s: seq<int>, t: seq<int>, i: int, k: nat): int
  {
    if k == 0 then 0 else Cross(s, t, i, k - 1) + At(s, i - (k - 1)) * At(t, k - 1)
  }

  /** The first n columns, each with its weight. */
  ghost function Product(s: seq<int>, t: seq<int>, n: nat, B: nat): int
  {
    if n == 0 then 0 else Product(s, t, n - 1, B) + Cross(s, t, n - 1, n) * Pow(B, n - 1)
  }

  /** The digits of s from index m on, in the first n places. */
  ghost function Shifted(s: seq<int>, m: nat, n: nat, B: nat): int
  {
    if n == 0 then 0 else Shifted(s, m, n - 1, B) + At(s, n - 1 - m) * Pow(B, n - 1)
  }

  lemma {:induction false} CrossMore(s: seq<int>, t: seq<int>, x: int, i: int, k: nat)
    ensures Cross(s, t + [x], i, k) == Cross(s, t, i, k) + (if |t| < k then At(s, i - |t|) * x else 0)
  {
    if k > 0 { CrossMore(s, t, x, i, k - 1); }
  }

  lemma {:induction false} ProductMore(s: seq<int>, t: seq<int>, x: int, n: nat, B: nat)
    ensures Product(s, t + [x], n, B) == Product(s, t, n, B) + x * Shifted(s, |t|, n, B)
  {
    hide Pow, Cross;
    if n > 0 {
      ProductMore(s, t, x, n - 1, B);
      CrossMore(s, t, x, n - 1, n);
      var d, P := At(s, n - 1 - |t|), Pow(B, n - 1);
      Dist(Cross(s, t, n - 1, n), if |t| < n then d * x else 0, P);
      Dist(Shifted(s, |t|, n - 1, B), d * P, x);
      assert d * x * P == x * (d * P) by { MulAssoc(x, d, P); }
    } else {
      assert x * 0 == 0;
    }
  }

  lemma {:induction false} ShiftedIs(s: seq<int>, m: nat, n: nat, B: nat)
    ensures Shifted(s, m, n, B) == if n <= m then 0 else Pow(B, m) * Val(s[..if |s| < n - m then |s| else n - m], B)
  {
    hide Pow, Val;
    if n > 0 {
      ShiftedIs(s, m, n - 1, B);
      if n > m {
        var j := n - 1 - m;
        if j < |s| {
          ValStep(s, j, B);
          PowAdd(B, m, j);
          Dist(Val(s[..j], B), s[j] * Pow(B, j), Pow(B, m));
          MulAssoc(s[j], Pow(B, j), Pow(B, m));
        }
        if j == 0 { NoDigits(s, m, B); }
      }
    }
  }

  lemma NoDigits(s: seq<int>, m: nat, B: nat)
    ensures Pow(B, m) * Val(s[..0], B) == 0
  {
    assert s[..0] == [];
  }

  /** The columns of the product of two numbers. */
  lemma {:induction false} ProductIs(s: seq<int>, t: seq<int>, n: nat, B: nat)
    requires n >= |s| + |t|
    ensures Product(s, t, n, B) == Val(s, B) * Val(t, B)
    decreases |t|
  {
    hide Pow, Val;
    if t == [] {
      NoColumns(s, n, B);
      ValEmpty(0, B);
      assert Val(s, B) * 0 == 0;
    } else {
      var k := |t| - 1;
      var t', x := t[..k], t[k];
      assert t == t' + [x];
      ProductIs(s, t', n, B);
      ProductMore(s, t', x, n, B);
      ShiftedIs(s, k, n, B);
      assert s[..|s|] == s;
      ValPush(t', x, B);
      Dist(Val(t', B), x * Pow(B, k), Val(s, B));
      MulAssoc(x, Pow(B, k), Val(s, B));
    }
  }

  lemma {:induction false} NoColumns(s: seq<int>, n: nat, B: nat)
    ensures Product(s, [], n, B) == 0
  {
    if n > 0 {
      NoColumns(s, n - 1, B);
      NoCross(s, n - 1, n);
    }
  }

  lemma {:induction false} NoCross(s: seq<int>, i: int, k: nat)
    ensures Cross(s, [], i, k) == 0
  {
    if k > 0 { NoCross(s, i, k - 1); }
  }

  /** Products with a digit that is beyond the digits add nothing. */
  lemma {:induction false} CrossSame(s: seq<int>, t: seq<int>, i: int, k: nat, n: nat)
    requires k <= n && forall j :: k <= j < n ==> At(s, i - j) == 0 || At(t, j) == 0
    ensures Cross(s, t, i, n) == Cross(s, t, i, k)
  {
    if k < n { CrossSame(s, t, i, k, n - 1); }
  }

  lemma {:induction false} CrossBound(s: seq<int>, t: seq<int>, i: int, k: nat, B: nat)
    requires B >= 1 && IsDigits(s, B) && IsDigits(t, B)
    ensures 0 <= Cross(s, t, i, k) <= k * ((B - 1) * (B - 1))
  {
    if k > 0 {
      CrossBound(s, t, i, k - 1, B);
      var x, y := At(s, i - (k - 1)), At(t, k - 1);
      MulMono(y, 0, x);
      MulMono(y, x, B - 1);
      MulMono(B - 1, y, B - 1);
      Dist(k - 1, 1, (B - 1) * (B - 1));
    }
  }
}
