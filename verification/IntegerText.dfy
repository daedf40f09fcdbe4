/** Writing a large integer in decimal: vm/large_integer.cc, LargeInteger::PrintString. */
module IntegerText {
  import opened Arith
  import opened Decimals
  import opened DiyFps
  import opened Digits
  import opened Ieee
  import opened LargeIntegers

  // ---- the number of decimal digits ----

  const LOG2_DIVIDEND: nat := 30103
  const LOG2_DIVISOR: nat := 100000

  /** From a lower bound on a power of five to one on about its square. */
  lemma FiveDoubled(n: nat, e: nat, a: int, odd: nat, s: nat, S: int, b: int)
    requires Pow(5, n) >= a * Pow(2, e) && a >= 1 && odd <= 1 && S == Pow(2, s) && 0 <= b
    requires b * S <= (a * a) * (if odd == 1 then 5 else 1)
    ensures Pow(5, 2 * n + odd) >= b * Pow(2, 2 * e + s)
  {
    hide Pow;
    PowAdd(5, n, n);
    PowAdd(2, e, e);
    PowAdd(2, 2 * e, s);
    PowStep(5, 2 * n);
    PowPositive(2, e);
    var P, f := Pow(2, e), if odd == 1 then 5 else 1;
    var x := a * P;
    assert x >= 0 by { MulMono(P, 0, a); }
    assert Pow(5, 2 * n) >= x * x by { MulMono(x, x, Pow(5, n)); MulMono(Pow(5, n), x, Pow(5, n)); }
    assert x * x == (a * a) * (P * P) by { Squares(a, P); }
    assert Pow(5, 2 * n + odd) >= (x * x) * f;
    assert (x * x) * f == ((a * a) * f) * (P * P) by { MulAssoc(a * a, P * P, f); MulAssoc(a * a, f, P * P); }
    assert ((a * a) * f) * (P * P) >= (b * S) * (P * P) by { MulMono(P, 0, P); MulMono(P * P, b * S, (a * a) * f); }
    assert (b * S) * (P * P) == b * ((P * P) * S) by { MulAssoc(b, S, P * P); }
  }

  lemma Squares(a: int, p: int)
    ensures (a * p) * (a * p) == (a * a) * (p * p)
  {
    MulAssoc(a, p, a * p);
    MulAssoc(p, a, p);
    MulAssoc(a, p, p);
    MulAssoc(a, a, p * p);
  }

  lemma ShiftsUsed()
    ensures Pow(2, 0) == 1 && Pow(2, 4) == 16 && Pow(2, 63) == W64 / 2 && Pow(2, 64) == W64 && Pow(2, 65) == 2 * W64
    ensures Pow(2, 66) == 4 * W64
  {
    PowStep(2, 0);
    PowStep(2, 1);
    PowStep(2, 2);
    PowStep(2, 3);
    TwoTo64();
    PowStep(2, 63);
    PowStep(2, 64);
    PowStep(2, 65);
  }

  lemma FiveTo14()
    ensures Pow(5, 14) == 6103515625
  {
    PowAdd(5, 7, 7);
  }

  /** 30103 / 100000 is not below the logarithm of two: 2^100000 does not exceed 10^30103. */
  lemma LogOfTwo()
    ensures Pow(2, LOG2_DIVISOR) <= Pow(10, LOG2_DIVIDEND)
  {
    hide Pow;
    ShiftsUsed();
    FiveTo14();
    FiveDoubled(14, 0, 6103515625, 1, 4, 16, 11641532182693481445);
    FiveDoubled(29, 4, 11641532182693481445, 0, 63, W64 / 2, 14693679385278593848);
    FiveDoubled(58, 71, 14693679385278593848, 1, 66, 4 * W64, 14630238608413119769);
    FiveDoubled(117, 208, 14630238608413119769, 1, 66, 4 * W64, 14504177599297789174);
    FiveDoubled(235, 482, 14504177599297789174, 0, 64, W64, 11404243859586823426);
    FiveDoubled(470, 1028, 11404243859586823426, 0, 63, W64 / 2, 14100784126374012572);
    FiveDoubled(940, 2119, 14100784126374012572, 1, 66, 4 * W64, 13473388053205176156);
    FiveDoubled(1881, 4304, 13473388053205176156, 0, 64, W64, 9840879501926472831);
    FiveDoubled(3762, 8672, 9840879501926472831, 1, 65, 2 * W64, 13124661591291050548);
    FiveDoubled(7525, 17409, 13124661591291050548, 1, 66, 4 * W64, 11672570861123686629);
    FiveDoubled(15051, 34884, 11672570861123686629, 1, 66, 4 * W64, 9232585298219158970);
    PowAdd(2, 63, 69834);
    PowPositive(2, 69834);
    MulMono(Pow(2, 69834), W64 / 2, 9232585298219158970);
    PowMulBase(2, 5, 30103);
    PowAdd(2, 30103, 69897);
    PowPositive(2, 30103);
    MulMono(Pow(2, 30103), Pow(2, 69897), Pow(5, 30103));
  }

  /** A power of ten below a power of two, by their exponents. */
  lemma DecimalEstimate(m: nat, n: nat)
    requires Pow(10, m) < Pow(2, n)
    ensures m <= n * LOG2_DIVIDEND / LOG2_DIVISOR
  {
    hide Pow;
    if m * LOG2_DIVISOR > n * LOG2_DIVIDEND {
      LogOfTwo();
      PowPow(2, LOG2_DIVISOR, n);
      PowPow(10, LOG2_DIVIDEND, n);
      PowPow(10, m, LOG2_DIVISOR);
      PowPow(2, n, LOG2_DIVISOR);
      PowPositive(2, LOG2_DIVISOR);
      PowBaseMono(Pow(2, LOG2_DIVISOR), Pow(10, LOG2_DIVIDEND), n);
      PowPositive(10, m);
      PowBaseMono(Pow(10, m), Pow(2, n), LOG2_DIVISOR);
      PowMono(10, LOG2_DIVIDEND * n, m * LOG2_DIVISOR);
      PowStrictMono(10, LOG2_DIVIDEND * n, m * LOG2_DIVISOR);
    }
  }

  // ---- decimal text ----

  ghost predicate AllDigits(s: string) { forall i :: 0 <= i < |s| ==> '0' <= s[i] <= '9' }

  /** The values of digit characters. */
  ghost function Values(s: string): (r: seq<int>)
    ensures |r| == |s| && (AllDigits(s) ==> IsDecimal(r))
  {
    seq(|s|, i requires 0 <= i < |s| => s[i] as int - '0' as int)
  }

  /** Decimal text: no leading zero, and a minus sign exactly in front of negative numbers. */
  ghost predicate Writes(s: string, v: int)
  {
    if v < 0 then s != [] && s[0] == '-' && Writes(s[1..], -v)
    else s != [] && s[0] != '0' && AllDigits(s) && Decimal(Values(s)) == v
  }

  lemma {:induction false} DecimalPrepend(d: int, s: seq<int>)
    ensures Decimal([d] + s) == d * Pow(10, |s|) + Decimal(s)
  {
    if s == [] {
      assert [d] + s == [] + [d];
      DecimalPush([], d);
      DecimalEmpty();
      PowStep(10, 0);
    } else {
      var k := |s| - 1;
      DecimalPrepend(d, s[..k]);
      assert [d] + s == ([d] + s[..k]) + [s[k]];
      DecimalPush([d] + s[..k], s[k]);
      PowStep(10, k);
      MulAssoc(10, d, Pow(10, k));
      MulAssoc(d, 10, Pow(10, k));
    }
  }

  /** Digits of one length write different numbers. */
  lemma {:induction false} DecimalInjective(s: seq<int>, t: seq<int>)
    requires IsDecimal(s) && IsDecimal(t) && |s| == |t| && Decimal(s) == Decimal(t)
    ensures s == t
  {
    if s != [] {
      var k := |s| - 1;
      DecimalInjective(s[..k], t[..k]);
      assert s == s[..k] + [s[k]] && t == t[..k] + [t[k]];
    }
  }

  /** Every number has at most one decimal text. */
  lemma {:induction false} TextUnique(s: string, t: string, v: int)
    requires Writes(s, v) && Writes(t, v)
    ensures s == t
    decreases v < 0
  {
    if v < 0 {
      TextUnique(s[1..], t[1..], -v);
      assert s == ['-'] + s[1..] && t == ['-'] + t[1..];
    } else {
      var x, y := Values(s), Values(t);
      DecimalBounds(x);
      DecimalBounds(y);
      if |x| < |y| { PowMono(10, |x|, |y| - 1); }
      if |y| < |x| { PowMono(10, |y|, |x| - 1); }
      DecimalInjective(x, y);
      forall i | 0 <= i < |s| ensures s[i] == t[i] {
        assert x[i] == s[i] as int - '0' as int && y[i] == t[i] as int - '0' as int;
      }
    }
  }

  // ---- printing ----

  /** Divides the digits by d in place and returns the remainder. */
  method DivideInPlace(scratch: array<int>, used: nat, d: int, B: nat) returns (remainder: int)
    requires used <= scratch.Length && IsDigits(scratch[..used], B) && 0 < d < B
    modifies scratch
    ensures IsDigits(scratch[..used], B) && 0 <= remainder < d
    ensures old(Val(scratch[..used], B)) == Val(scratch[..used], B) * d + remainder
  {
    hide Val;
    ghost var x := scratch[..used];
    remainder := 0;
    ValEmpty(0, B);
    assert x[used..] == [] && scratch[used..used] == [];
    for i := used downto 0
      invariant scratch[..i] == x[..i] && IsDigits(scratch[i..used], B) && 0 <= remainder < d
      invariant Val(x[i..], B) == Val(scratch[i..used], B) * d + remainder
    {
      ghost var hi, r0 := scratch[i + 1..used], remainder;
      assert scratch[i] == scratch[..i + 1][i] == x[i];
      var dividend := remainder * B + scratch[i];
      QuotientDigit(remainder, x[i], d, B);
      scratch[i] := dividend / d;
      remainder := dividend - (dividend / d) * d;
      assert scratch[i..used] == [dividend / d] + hi;
      ValFirst(scratch[i..used], B);
      assert scratch[i..used][1..] == hi && x[i..][1..] == x[i + 1..];
      ValFirst(x[i..], B);
      DivideByDigitStep(Val(hi, B), d, r0, x[i], dividend / d, remainder, Val(x[i + 1..], B), B);
    }
    assert scratch[0..used] == scratch[..used] && x[0..] == x;
  }

  /** Writes the k digits of the remainder in front of pos. S is what is still to be written, A the whole number. */
  method WriteChunk(chars: array<char>, pos: nat, remainder: int, k: nat, ghost S: int, ghost A: int) returns (p: nat)
    requires k <= pos <= chars.Length && 0 <= remainder < Pow(10, k) && AllDigits(chars[pos..])
    requires A == (S * Pow(10, k) + remainder) * Pow(10, chars.Length - pos) + Decimal(Values(chars[pos..]))
    modifies chars
    ensures p == pos - k && AllDigits(chars[p..])
    ensures A == S * Pow(10, chars.Length - p) + Decimal(Values(chars[p..]))
  {
    hide Pow, Decimal, Values;
    p := pos;
    var r := remainder;
    for i := 0 to k
      invariant p == pos - i && AllDigits(chars[p..]) && 0 <= r < Pow(10, k - i)
      invariant A == (S * Pow(10, k - i) + r) * Pow(10, chars.Length - p) + Decimal(Values(chars[p..]))
    {
      ghost var text := chars[p..];
      PowStep(10, k - i - 1);
      PowStep(10, chars.Length - p);
      p := p - 1;
      chars[p] := ('0' as int + r % 10) as char;
      assert chars[p..] == [chars[p]] + text;
      ValuesPrepend(chars[p], text);
      DecimalPrepend(r % 10, Values(text));
      ChunkStep(S, Pow(10, k - i - 1), r, Pow(10, |text|), Decimal(Values(text)));
      r := r / 10;
    }
    PowStep(10, 0);
  }

  lemma ValuesPrepend(c: char, s: string)
    ensures Values([c] + s) == [c as int - '0' as int] + Values(s)
  {
  }

  lemma ChunkStep(S: int, P: int, r: int, Q: int, W: int)
    ensures (S * (10 * P) + r) * Q + W == (S * P + r / 10) * (10 * Q) + ((r % 10) * Q + W)
  {
    var q, d := r / 10, r % 10;
    MulAssoc(S, 10, P);
    assert S * (10 * P) + r == 10 * (S * P + q) + d by { MulAssoc(10, S, P); }
    Dist(10 * (S * P + q), d, Q);
    MulAssoc(10, S * P + q, Q);
    MulAssoc(S * P + q, 10, Q);
  }

  /** While digits are left, what is written has fewer places than the estimate: the next chunk fits. */
  lemma RoomLeft(S: int, A: int, W: int, len: nat, n: nat)
    requires S >= 1 && W >= 0 && A == S * Pow(10, len) + W && A < Pow(2, n)
    ensures len <= n * LOG2_DIVIDEND / LOG2_DIVISOR
  {
    hide Pow;
    PowPositive(10, len);
    MulMono(Pow(10, len), 1, S);
    DecimalEstimate(len, n);
  }

  /** A chunk split off the number that is left. */
  lemma SplitChunk(S: int, S': int, d: int, r: int, A: int, Q: int, W: int)
    requires S == S' * d + r && A == S * Q + W && 0 <= r < d && d >= 2 && S >= 1
    ensures A == (S' * d + r) * Q + W && S' < S
    ensures S' >= 0
  {
    if S' < 0 { MulMono(d, S', -1); }
    if S' >= S { MulMono(S', 2, d); }
  }

  /** The digits that are left, without zeros on top. */
  method DropZeros(scratch: array<int>, n: nat, ghost B: nat) returns (used: nat)
    requires n <= scratch.Length && IsDigits(scratch[..n], B) && B >= 1
    ensures used <= n && IsDigits(scratch[..used], B) && Val(scratch[..used], B) == Val(scratch[..n], B)
    ensures used > 0 ==> Val(scratch[..used], B) >= 1
    ensures used == 0 ==> Val(scratch[..used], B) == 0
  {
    hide Val, Pow;
    used := n;
    while used > 0 && scratch[used - 1] == 0
      invariant used <= n && forall i :: used <= i < n ==> scratch[i] == 0
    {
      used := used - 1;
    }
    ghost var x := scratch[..n];
    ZeroTail(x, used, B);
    assert x[..used] == scratch[..used];
    if used > 0 {
      ValTop(x[..used], B);
      PowPositive(B, used - 1);
    } else {
      assert scratch[..0] == [];
      ValEmpty(0, B);
    }
  }

  /** Writes all digits in chunks of k, from the end. */
  method WriteDigits(chars: array<char>, scratch: array<int>, k: nat, d: int, room: nat, n: nat, B: nat)
    returns (pos: nat)
    requires k >= 1 && d == Pow(10, k) && 0 < d < B && IsDigits(scratch[..], B)
    requires chars.Length == n * LOG2_DIVIDEND / LOG2_DIVISOR + k + room
    requires Val(scratch[..], B) < Pow(2, n) && (scratch.Length > 0 ==> Val(scratch[..], B) >= 1)
    modifies chars, scratch
    ensures room <= pos <= chars.Length && AllDigits(chars[pos..])
    ensures Decimal(Values(chars[pos..])) == old(Val(scratch[..], B))
  {
    hide Val, Pow, Decimal, Values;
    ghost var A := Val(scratch[..], B);
    pos := chars.Length;
    var used := scratch.Length;
    PowStep(10, 0);
    assert chars[pos..] == [] && scratch[..used] == scratch[..];
    NothingWritten(chars[pos..]);
    PowAtLeastTen(k);
    if used == 0 { assert scratch[..] == []; ValEmpty(0, B); }
    while used > 0
      invariant 0 <= used <= scratch.Length && IsDigits(scratch[..used], B)
      invariant used > 0 ==> Val(scratch[..used], B) >= 1
      invariant used == 0 ==> Val(scratch[..used], B) == 0
      invariant room <= pos <= chars.Length && AllDigits(chars[pos..])
      invariant A == Val(scratch[..used], B) * Pow(10, chars.Length - pos) + Decimal(Values(chars[pos..]))
      decreases Val(scratch[..used], B)
    {
      ghost var S, len, W := Val(scratch[..used], B), chars.Length - pos, Decimal(Values(chars[pos..]));
      DecimalBelow(Values(chars[pos..]));
      RoomLeft(S, A, W, len, n);
      var remainder := DivideInPlace(scratch, used, d, B);
      SplitChunk(S, Val(scratch[..used], B), d, remainder, A, Pow(10, len), W);
      used := DropZeros(scratch, used, B);
      pos := WriteChunk(chars, pos, remainder, k, Val(scratch[..used], B), A);
    }
  }

  lemma NothingWritten(s: string)
    ensures |s| == 0 ==> Decimal(Values(s)) == 0
  {
  }

  lemma PowAtLeastTen(k: nat)
    requires k >= 1
    ensures Pow(10, k) >= 10
  {
    PowStep(10, 0);
    PowMono(10, 1, k);
  }

  /** Skips leading zeros of a number that is not zero. */
  method SkipZeros(chars: array<char>, pos: nat) returns (p: nat)
    requires pos <= chars.Length && AllDigits(chars[pos..]) && Decimal(Values(chars[pos..])) >= 1
    ensures pos <= p < chars.Length && AllDigits(chars[p..]) && chars[p] != '0'
    ensures Decimal(Values(chars[p..])) == Decimal(Values(chars[pos..]))
  {
    hide Pow, Decimal, Values;
    p := pos;
    while p < chars.Length && chars[p] == '0'
      invariant pos <= p <= chars.Length && AllDigits(chars[p..])
      invariant Decimal(Values(chars[p..])) == Decimal(Values(chars[pos..]))
    {
      assert chars[p..] == ['0'] + chars[p + 1..];
      ValuesPrepend('0', chars[p + 1..]);
      DecimalPrepend(0, Values(chars[p + 1..]));
      p := p + 1;
    }
    NothingWritten(chars[p..]);
  }

  lemma SignedText(text: string, v: int)
    requires text != [] && text[0] != '0' && AllDigits(text) && Decimal(Values(text)) == v >= 1
    ensures Writes(text, v) && Writes(['-'] + text, -v)
  {
    assert (['-'] + text)[1..] == text;
  }

  lemma MagnitudeBound(large: LargeInteger, bits: nat, B: nat)
    requires bits >= 1 && B == Pow(2, bits) && B >= 2 && large.Valid(B)
    ensures 0 <= large.Abs(B) < Pow(2, large.size * bits) && (large.size > 0 ==> large.Abs(B) >= 1)
    ensures large.size * bits >= 0
  {
    hide Val;
    AbsRange(large, B);
    PowPow(2, bits, large.size);
  }

  /** The decimal text of a number that is not zero. */
  method PrintString(large: LargeInteger, bits: nat, k: nat, B: nat) returns (result: string)
    requires bits >= 1 && B == Pow(2, bits) && B >= 2 && k >= 1 && Pow(10, k) < B
    requires large.Valid(B) && large.size > 0
    ensures Writes(result, large.Value(B))
  {
    hide Val, Pow, Decimal, Values, Writes;
    MagnitudeBound(large, bits, B);
    PowPositive(10, k);
    var divisor := Pow(10, k);
    var binaryDigits := large.size * bits;
    var room := if large.negative then 2 else 1;
    var chars := new char[binaryDigits * LOG2_DIVIDEND / LOG2_DIVISOR + k + room];
    var scratch := new int[large.size];
    for i := 0 to large.size
      invariant scratch[..i] == large.digits[..i]
    {
      scratch[i] := large.digits[i];
    }
    assert scratch[..] == large.digits[..large.size];
    var pos := WriteDigits(chars, scratch, k, divisor, room, binaryDigits, B);
    pos := SkipZeros(chars, pos);
    ghost var text := chars[pos..];
    SignedText(text, large.Abs(B));
    if large.negative {
      pos := pos - 1;
      chars[pos] := '-';
      assert chars[pos..] == ['-'] + text;
    }
    result := chars[pos..];
  }
}
