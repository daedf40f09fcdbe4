/** Strings of decimal digits and the numbers they write. */
module Decimals {
  import opened Arith

  ghost predicate IsDecimal(s: seq<int>) { forall i :: 0 <= i < |s| ==> 0 <= s[i] <= 9 }

  /** The number written by decimal digits, the most significant first. */
  ghost function Decimal(s: seq<int>): int
  {
    if s == [] then 0 else 10 * Decimal(s[..|s| - 1]) + s[|s| - 1]
  }

  lemma DecimalEmpty()
    ensures Decimal([]) == 0
  {
  }

  lemma DecimalPush(s: seq<int>, d: int)
    ensures Decimal(s + [d]) == 10 * Decimal(s) + d
  {
    assert (s + [d])[..|s|] == s;
  }

  /** Lowering the last digit lowers the number. */
  lemma DecimalLast(s: seq<int>, n: int)
    requires |s| > 0
    ensures Decimal(s[|s| - 1 := s[|s| - 1] - n]) == Decimal(s) - n && (Decimal(s) - s[|s| - 1]) % 10 == 0
    ensures Decimal(s) % 2 == s[|s| - 1] % 2
  {
    var s' := s[|s| - 1 := s[|s| - 1] - n];
    assert s'[..|s| - 1] == s[..|s| - 1];
  }

  /** A string without a leading zero has the magnitude its length says. */
  lemma {:induction false} DecimalBounds(s: seq<int>)
    requires |s| > 0 && IsDecimal(s) && s[0] >= 1
    ensures Pow(10, |s| - 1) <= Decimal(s) < Pow(10, |s|)
  {
    var k := |s| - 1;
    PowStep(10, k);
    if k > 0 {
      DecimalBounds(s[..k]);
      PowStep(10, k - 1);
    } else {
      assert s[..0] == [];
    }
  }

  /** A string of digits is below the power of ten that its length says. */
  lemma {:induction false} DecimalBelow(s: seq<int>)
    requires IsDecimal(s)
    ensures 0 <= Decimal(s) < Pow(10, |s|)
  {
    if s != [] {
      DecimalBelow(s[..|s| - 1]);
      PowStep(10, |s| - 1);
    }
  }

  lemma {:induction false} DecimalConcat(s: seq<int>, t: seq<int>)
    ensures Decimal(s + t) == Decimal(s) * Pow(10, |t|) + Decimal(t)
  {
    if t == [] {
      assert s + t == s;
      PowStep(10, 0);
    } else {
      var k := |t| - 1;
      DecimalConcat(s, t[..k]);
      assert s + t == (s + t[..k]) + [t[k]] && t == t[..k] + [t[k]];
      DecimalPush(s + t[..k], t[k]);
      PowStep(10, k);
      MulAssoc(10, Decimal(s), Pow(10, k));
      MulAssoc(Decimal(s), 10, Pow(10, k));
    }
  }

  /** Writes the next digit of a string. */
  method Emit(buffer: array<int>, length: nat, digit: int)
    requires length < buffer.Length
    modifies buffer
    ensures buffer[..length + 1] == old(buffer[..length]) + [digit]
  {
    buffer[length] := digit;
  }
}
