/** Little-endian digit sequences in base b and the naturals they denote. */
module Digits {
  import opened Arith

  ghost predicate IsDigits(s: seq<int>, b: nat)
  {
    forall i :: 0 <= i < |s| ==> 0 <= s[i] < b
  }

  ghost function Val(s: seq<int>, b: nat): int
  {
    if |s| == 0 then 0 else Val(s[..|s| - 1], b) + s[|s| - 1] * Pow(b, |s| - 1)
  }

  lemma ValEmpty(d: int, b: nat)
    ensures Val([], b) == 0 && Val([] + [d], b) == d
  {
  }

  lemma ValPush(s: seq<int>, d: int, b: nat)
    ensures Val(s + [d], b) == Val(s, b) + d * Pow(b, |s|)
  {
    assert (s + [d])[..|s|] == s;
  }

  /** One more digit of a prefix. */
  lemma ValStep(s: seq<int>, i: nat, b: nat)
    requires i < |s|
    ensures Val(s[..i + 1], b) == Val(s[..i], b) + s[i] * Pow(b, i)
  {
    assert s[..i + 1] == s[..i] + [s[i]];
    ValPush(s[..i], s[i], b);
  }

  lemma {:induction false} ValConcat(s: seq<int>, t: seq<int>, b: nat)
    ensures Val(s + t, b) == Val(s, b) + Pow(b, |s|) * Val(t, b)
  {
    if |t| == 0 {
      assert s + t == s;
    } else {
      var t', d, k := t[..|t| - 1], t[|t| - 1], |t| - 1;
      ValConcat(s, t', b);
      assert s + t == (s + t') + [d];
      ValPush(s + t', d, b);
      PowAdd(b, |s|, k);
      calc {
        Pow(b, |s|) * Val(t', b) + d * Pow(b, |s| + k);
        { MulAssoc(d, Pow(b, |s|), Pow(b, k)); MulAssoc(Pow(b, |s|), d, Pow(b, k)); }
        Pow(b, |s|) * Val(t', b) + Pow(b, |s|) * (d * Pow(b, k));
        { Dist(Val(t', b), d * Pow(b, k), Pow(b, |s|)); }
        Pow(b, |s|) * Val(t, b);
      }
    }
  }

  lemma ValSplit(s: seq<int>, i: nat, b: nat)
    requires i <= |s|
    ensures Val(s, b) == Val(s[..i], b) + Pow(b, i) * Val(s[i..], b)
  {
    assert s == s[..i] + s[i..];
    ValConcat(s[..i], s[i..], b);
  }

  lemma ValFirst(s: seq<int>, b: nat)
    requires |s| > 0
    ensures Val(s, b) == s[0] + b * Val(s[1..], b)
  {
    ValSplit(s, 1, b);
    assert s[..1] == [] + [s[0]];
    ValPush([], s[0], b);
    assert Pow(b, 1) == b * Pow(b, 0);
  }

  lemma {:induction false} ValBound(s: seq<int>, b: nat)
    requires b >= 1 && IsDigits(s, b)
    ensures 0 <= Val(s, b) < Pow(b, |s|)
  {
    if |s| > 0 {
      var k := |s| - 1;
      ValBound(s[..k], b);
      MulMono(Pow(b, k), 0, s[k]);
      MulMono(Pow(b, k), s[k] + 1, b);
      Dist(s[k], 1, Pow(b, k));
    }
  }

  lemma {:induction false} ValZero(s: seq<int>, b: nat)
    requires forall i :: 0 <= i < |s| ==> s[i] == 0
    ensures Val(s, b) == 0
  {
    if |s| > 0 { ValZero(s[..|s| - 1], b); }
  }

  lemma {:induction false} ValZeroConv(s: seq<int>, b: nat)
    requires b >= 1 && IsDigits(s, b) && Val(s, b) == 0
    ensures forall i :: 0 <= i < |s| ==> s[i] == 0
  {
    if |s| > 0 {
      var k := |s| - 1;
      ValBound(s[..k], b);
      PowPositive(b, k);
      if s[k] > 0 { MulAtLeast(s[k], Pow(b, k)); }
      ValZeroConv(s[..k], b);
    }
  }

  /** Two digit sequences of one length denote the same number only when equal. */
  lemma {:induction false} ValInjective(s: seq<int>, t: seq<int>, b: nat)
    requires b >= 1 && IsDigits(s, b) && IsDigits(t, b) && |s| == |t| && Val(s, b) == Val(t, b)
    ensures s == t
  {
    if |s| > 0 {
      var k := |s| - 1;
      ValBound(s[..k], b);
      ValBound(t[..k], b);
      PowPositive(b, k);
      DivModUnique(Val(s, b), Pow(b, k), s[k], Val(s[..k], b));
      DivModUnique(Val(s, b), Pow(b, k), t[k], Val(t[..k], b));
      ValInjective(s[..k], t[..k], b);
      assert s == s[..k] + [s[k]] && t == t[..k] + [t[k]];
    }
  }

  /** Emitting t % b and carrying t / b (a floor, so borrows are negative carries) loses nothing. */
  lemma CarryStep(A: int, k: int, P: int, X: int, t: int, b: nat)
    requires b > 0 && A + k * P == X
    ensures A + (t % b) * P + (t / b) * (b * P) == X + (t - k) * P
  {
    DivModBounds(t, b);
    MulAssoc(t / b, b, P);
    Dist(t % b, (t / b) * b, P);
    Dist(t, k, P);
  }

  lemma {:induction false} ValTop(s: seq<int>, b: nat)
    requires b >= 1 && |s| > 0 && IsDigits(s, b) && s[|s| - 1] != 0
    ensures Val(s, b) >= Pow(b, |s| - 1)
  {
    var k := |s| - 1;
    ValBound(s[..k], b);
    MulMono(Pow(b, k), 1, s[k]);
  }

  lemma ZeroTail(s: seq<int>, n: nat, b: nat)
    requires n <= |s| && forall i :: n <= i < |s| ==> s[i] == 0
    ensures Val(s, b) == Val(s[..n], b)
  {
    ValSplit(s, n, b);
    ValZero(s[n..], b);
    assert Pow(b, n) * 0 == 0;
  }
}
