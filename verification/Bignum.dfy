/** Numbers of up to 128 bigits with an exponent, updated in place: double-conversion/bignum.cc. */
module Bignums {
  import opened Arith
  import opened Columns
  import opened Decimals
  import opened Digits
  import opened DiyFps
  import Ieee
  import L = LargeIntegers

  const BIGIT_SIZE: nat := 28
  const BASE: nat := 0x1000_0000
  const CAPACITY: nat := 128

  class Bignum {
    const bigits: array<int>
    var used: nat
    /** How many zero bigits are below the first one. */
    var exponent: nat

    constructor ()
      ensures Valid() && Value() == 0 && used == 0 && exponent == 0 && fresh(bigits)
    {
      bigits := new int[CAPACITY];
      used := 0;
      exponent := 0;
    }

    ghost predicate Shaped()
      reads this, bigits
    {
      bigits.Length == CAPACITY && used <= CAPACITY && IsDigits(bigits[..used], BASE)
    }

    /** Without zero bigits on top. */
    ghost predicate Valid()
      reads this, bigits
    {
      Shaped() && (used > 0 ==> bigits[used - 1] != 0) && (used == 0 ==> exponent == 0)
    }

    ghost function Bigits(): seq<int>
      reads this, bigits
      requires Shaped()
    {
      bigits[..used]
    }

    ghost function Mantissa(): int
      reads this, bigits
      requires Shaped()
    {
      Val(Bigits(), BASE)
    }

    ghost function Value(): int
      reads this, bigits
      requires Shaped()
    {
      Mantissa() * Pow(BASE, exponent)
    }

    /** The length with the zero bigits of the exponent. */
    function BigitLength(): nat
      reads this
    {
      used + exponent
    }

    // ---- assignments ----

    method Zero()
      modifies this
      requires bigits.Length == CAPACITY
      ensures Valid() && Mantissa() == Value() == 0 && used == 0 && exponent == 0
    {
      used := 0;
      exponent := 0;
      assert Bigits() == [];
    }

    method AssignUInt64(value: uint64)
      requires bigits.Length == CAPACITY
      modifies this, bigits
      ensures Valid() && exponent == 0 && Mantissa() == Value() == value
    {
      hide Val, Pow;
      PowStep(BASE, 0);
      ValEmpty(0, BASE);
      Zero();
      var rest := value;
      assert Bigits() == [];
      while rest > 0
        invariant Shaped() && exponent == 0 && rest >= 0
        invariant value == Mantissa() + rest * Pow(BASE, used)
        invariant used > 0 && rest == 0 ==> bigits[used - 1] != 0
        decreases rest
      {
        ghost var low, r := Bigits(), rest;
        ValBound(low, BASE);
        ThreeBigits(value, Mantissa(), rest, used);
        bigits[used] := rest % BASE;
        rest := rest / BASE;
        used := used + 1;
        assert Bigits() == low + [r % BASE];
        ValPush(low, r % BASE, BASE);
        PowStep(BASE, |low|);
        SplitOff(r, Pow(BASE, |low|));
      }
      ExponentZero(this);
    }

    method AssignBignum(other: Bignum)
      requires other.Valid() && bigits.Length == CAPACITY && other != this && other.bigits != bigits
      modifies this, bigits
      ensures Valid() && Bigits() == other.Bigits() && exponent == other.exponent && Value() == other.Value()
    {
      exponent := other.exponent;
      for i := 0 to other.used
        invariant bigits[..i] == other.bigits[..i] && exponent == other.exponent
      {
        bigits[i] := other.bigits[i];
      }
      used := other.used;
      assert bigits[..used] == other.bigits[..used];
    }

    // ---- multiplication by a word and by powers of two ----

    /** Writes the bigit that is left of k + add once the carry is taken off; X is what the bigits below and k make. */
    method Put(i: nat, bigit: int, ghost k: int, ghost add: int, ghost X: int)
      requires i < bigits.Length && IsDigits(bigits[..i], BASE) && Val(bigits[..i] + [k], BASE) == X
      requires bigit == (k + add) % BASE
      modifies bigits
      ensures bigits[..i] == old(bigits[..i]) && bigits[i + 1..] == old(bigits[i + 1..])
      ensures IsDigits(bigits[..i + 1], BASE) && bigits[i] == bigit
      ensures Val(bigits[..i + 1] + [(k + add) / BASE], BASE) == X + add * Pow(BASE, i)
    {
      hide Val, Pow;
      ghost var low := bigits[..i];
      Emitted(low, k, add, X);
      bigits[i] := bigit;
      assert bigits[..i + 1] == low + [bigit];
    }

    /** Writes the carry above the bigits. */
    method AppendCarry(k: int, ghost M: int)
      requires Shaped() && 0 <= k && Val(Bigits() + [k], BASE) == M && M < Pow(BASE, bigits.Length)
      requires k == 0 ==> used > 0 && bigits[used - 1] != 0
      modifies this, bigits
      ensures Shaped() && Mantissa() == M && exponent == old(exponent) && used > 0 && bigits[used - 1] != 0
    {
      hide Val, Pow;
      var carry := k;
      while carry != 0
        invariant Shaped() && 0 <= carry && Val(Bigits() + [carry], BASE) == M && exponent == old(exponent)
        invariant carry == 0 ==> used > 0 && bigits[used - 1] != 0
        decreases carry
      {
        ghost var low, c := Bigits(), carry;
        RoomForCarry(low, c, M, CAPACITY);
        ValPush(low, 0, BASE);
        ValPush(low, c, BASE);
        Emitted(low, 0, c, Val(low, BASE));
        SplitOff(c, Pow(BASE, |low|));
        bigits[used] := carry % BASE;
        used := used + 1;
        carry := carry / BASE;
        assert Bigits() == low + [c % BASE];
      }
      ValPush(Bigits(), 0, BASE);
    }

    /** One pass over the bigits; the carry is left to be written. */
    method TimesUInt32(factor: int) returns (carry: int)
      requires Shaped() && used > 0 && bigits[used - 1] != 0 && 1 <= factor < W32
      modifies bigits
      ensures Shaped() && 0 <= carry && Val(Bigits() + [carry], BASE) == old(Mantissa()) * factor
      ensures carry == 0 ==> used > 0 && bigits[used - 1] != 0
    {
      hide Val, Pow;
      ghost var s, all := Bigits(), bigits[..];
      carry := 0;
      NothingDone(s, factor);
      assert s[..0] == [] && bigits[..0] == [];
      for i := 0 to used
        invariant bigits[i..] == all[i..] && IsDigits(bigits[..i], BASE)
        invariant 0 <= carry < W32 && Val(bigits[..i] + [carry], BASE) == Val(s[..i], BASE) * factor
      {
        assert bigits[i] == bigits[i..][0] == s[i];
        CarryFitsWord(factor, s[i], carry);
        TimesStep(s, i, factor);
        var product: uint64 := factor * bigits[i] + carry;
        Put(i, product % BASE, carry, factor * s[i], Val(s[..i], BASE) * factor);
        carry := product / BASE;
        assert all[i..][1..] == all[i + 1..];
      }
      assert s[..|s|] == s;
      GrownOnTop(s, Bigits(), carry, factor);
    }

    method MultiplyByUInt32(factor: int)
      requires Valid() && 0 <= factor < W32 && Mantissa() * factor < Pow(BASE, bigits.Length)
      modifies this, bigits
      ensures Valid() && Mantissa() == old(Mantissa()) * factor && Value() == old(Value()) * factor
      ensures exponent == if factor == 0 then 0 else old(exponent)
    {
      hide Val, Pow;
      Scaled(this, factor);
      if factor == 1 {
        return;
      }
      if factor == 0 {
        Zero();
        return;
      }
      if used == 0 {
        return;
      }
      ghost var M := Mantissa();
      var carry := TimesUInt32(factor);
      AppendCarry(carry, M * factor);
      ScaledNow(this, M, factor);
    }

    /** The same for a factor with which there is no wider word to multiply in. */
    method TimesUInt64(factor: uint64) returns (carry: uint64)
      requires Shaped() && used > 0 && bigits[used - 1] != 0 && 1 <= factor
      modifies bigits
      ensures Shaped() && Val(Bigits() + [carry], BASE) == old(Mantissa()) * factor
      ensures carry == 0 ==> used > 0 && bigits[used - 1] != 0
    {
      hide Val, Pow;
      ghost var s, all := Bigits(), bigits[..];
      carry := 0;
      NothingDone(s, factor);
      assert s[..0] == [] && bigits[..0] == [];
      for i := 0 to used
        invariant bigits[i..] == all[i..] && IsDigits(bigits[..i], BASE)
        invariant Val(bigits[..i] + [carry], BASE) == Val(s[..i], BASE) * factor
      {
        assert bigits[i] == bigits[i..][0] == s[i];
        TimesStep(s, i, factor);
        var bigit, next := MultiplyHalves(factor, bigits[i], carry);
        Put(i, bigit, carry, factor * s[i], Val(s[..i], BASE) * factor);
        carry := next;
        assert all[i..][1..] == all[i + 1..];
      }
      assert s[..|s|] == s;
      GrownOnTop(s, Bigits(), carry, factor);
    }

    method MultiplyByUInt64(factor: uint64)
      requires Valid() && Mantissa() * factor < Pow(BASE, bigits.Length)
      modifies this, bigits
      ensures Valid() && Mantissa() == old(Mantissa()) * factor && Value() == old(Value()) * factor
      ensures exponent == if factor == 0 then 0 else old(exponent)
    {
      hide Val, Pow;
      Scaled(this, factor);
      if factor == 1 {
        return;
      }
      if factor == 0 {
        Zero();
        return;
      }
      if used == 0 {
        return;
      }
      ghost var M := Mantissa();
      var carry := TimesUInt64(factor);
      AppendCarry(carry, M * factor);
      ScaledNow(this, M, factor);
    }

    /** One pass over the bigits, for S = 2^amount and S * T = BASE; the carry is left to be written. */
    method ShiftBigits(S: int, T: int) returns (carry: int)
      requires Shaped() && used > 0 && bigits[used - 1] != 0 && S >= 1 && T >= 1 && S * T == BASE
      modifies bigits
      ensures Shaped() && 0 <= carry < S && Val(Bigits() + [carry], BASE) == old(Mantissa()) * S
      ensures carry == 0 ==> used > 0 && bigits[used - 1] != 0
    {
      hide Val, Pow;
      ghost var s, all := Bigits(), bigits[..];
      carry := 0;
      NothingDone(s, S);
      assert s[..0] == [] && bigits[..0] == [];
      for i := 0 to used
        invariant bigits[i..] == all[i..] && IsDigits(bigits[..i], BASE)
        invariant 0 <= carry < S && Val(bigits[..i] + [carry], BASE) == Val(s[..i], BASE) * S
      {
        assert bigits[i] == bigits[i..][0] == s[i];
        ShiftedBigit(s[i], carry, S, T);
        TimesStep(s, i, S);
        var newCarry := bigits[i] / T;
        Put(i, (bigits[i] * S + carry) % BASE, carry, S * s[i], Val(s[..i], BASE) * S);
        carry := newCarry;
        assert all[i..][1..] == all[i + 1..];
      }
      assert s[..|s|] == s;
      GrownOnTop(s, Bigits(), carry, S);
    }

    /** Shifts by less than a bigit. */
    method BigitsShiftLeft(amount: nat)
      requires Valid() && 0 < used < CAPACITY && amount < BIGIT_SIZE
      modifies this, bigits
      ensures Valid() && Mantissa() == old(Mantissa()) * Pow(2, amount) && exponent == old(exponent)
    {
      hide Val, Pow;
      BigitSplit(amount);
      var carry := ShiftBigits(Pow(2, amount), Pow(2, BIGIT_SIZE - amount));
      CarryBelowBase(carry, Pow(2, amount), Pow(2, BIGIT_SIZE - amount));
      ghost var t := Bigits();
      ValPush(t, 0, BASE);
      ValPush(t, carry, BASE);
      if carry != 0 {
        bigits[used] := carry;
        used := used + 1;
        assert Bigits() == t + [carry];
      }
    }

    method ShiftLeft(amount: nat)
      requires Valid() && (used > 0 ==> used < CAPACITY)
      modifies this, bigits
      ensures Valid() && Value() == old(Value()) * Pow(2, amount)
      ensures Mantissa() == old(Mantissa()) * Pow(2, amount % BIGIT_SIZE)
      ensures exponent == if old(used) == 0 then 0 else old(exponent) + amount / BIGIT_SIZE
    {
      hide Val, Pow;
      Scaled(this, Pow(2, amount));
      Scaled(this, Pow(2, amount % BIGIT_SIZE));
      if used == 0 {
        return;
      }
      ghost var M, e := Mantissa(), exponent;
      exponent := exponent + amount / BIGIT_SIZE;
      BigitsShiftLeft(amount % BIGIT_SIZE);
      ShiftedValue(M, e, amount);
    }

    /** Drops zero bigits on top. */
    method Clamp()
      requires Shaped()
      modifies this
      ensures Valid() && Mantissa() == old(Mantissa()) && Value() == old(Value())
      ensures used <= old(used) && exponent == if used == 0 then 0 else old(exponent)
    {
      hide Val, Pow;
      ghost var s := Bigits();
      while used > 0 && bigits[used - 1] == 0
        invariant used <= |s| && exponent == old(exponent) && Bigits() == s[..used]
        invariant forall i :: used <= i < |s| ==> s[i] == 0
      {
        assert bigits[used - 1] == s[used - 1];
        used := used - 1;
      }
      ZeroTail(s, used, BASE);
      if used == 0 {
        Scaled(this, Pow(BASE, exponent));
        exponent := 0;
        Scaled(this, 1);
      }
    }

    /** Moves the bigits up, from the top. */
    method MoveUp(zeroBigits: nat)
      requires used + zeroBigits <= bigits.Length
      modifies bigits
      ensures forall k :: zeroBigits <= k < used + zeroBigits ==> bigits[k] == old(bigits[k - zeroBigits])
    {
      ghost var s := bigits[..used];
      for i := used downto 0
        invariant forall k :: 0 <= k < i ==> bigits[k] == s[k]
        invariant forall k :: i + zeroBigits <= k < used + zeroBigits ==> bigits[k] == s[k - zeroBigits]
      {
        bigits[i + zeroBigits] := bigits[i];
      }
    }

    method InsertZeros(zeroBigits: nat)
      requires Shaped() && used + zeroBigits <= CAPACITY
      modifies this, bigits
      ensures Shaped() && used == old(used) + zeroBigits && exponent == old(exponent)
      ensures Bigits() == Zeros(zeroBigits) + old(Bigits())
    {
      hide Zeros;
      ghost var s := Bigits();
      MoveUp(zeroBigits);
      ghost var high := bigits[zeroBigits..];
      assert high[..|s|] == s;
      for i := 0 to zeroBigits
        invariant used == |s| && exponent == old(exponent) && bigits[zeroBigits..] == high
        invariant forall k :: 0 <= k < i ==> bigits[k] == 0
      {
        bigits[i] := 0;
      }
      used := used + zeroBigits;
      assert bigits[..used] == Zeros(zeroBigits) + s;
    }

    /** Replaces hidden zero bigits by real ones, down to the exponent of the other number. */
    method Align(other: Bignum)
      requires Valid() && (exponent > other.exponent ==> BigitLength() - other.exponent <= CAPACITY)
      requires this != other
      modifies this, bigits
      ensures Valid() && Value() == old(Value()) && BigitLength() == old(BigitLength())
      ensures exponent == if old(exponent) > other.exponent then other.exponent else old(exponent)
    {
      hide Val, Pow;
      if exponent > other.exponent {
        ghost var s, M := Bigits(), Mantissa();
        var zeroBigits := exponent - other.exponent;
        InsertZeros(zeroBigits);
        exponent := exponent - zeroBigits;
        assert bigits[used - 1] == Bigits()[used - 1] == s[|s| - 1];
        ValZero(Zeros(zeroBigits), BASE);
        ValConcat(Zeros(zeroBigits), s, BASE);
        PowAdd(BASE, zeroBigits, exponent);
        MulAssoc(M, Pow(BASE, zeroBigits), Pow(BASE, exponent));
      }
    }

    method Times10()
      requires Valid() && Mantissa() * 10 < Pow(BASE, bigits.Length)
      modifies this, bigits
      ensures Valid() && Mantissa() == old(Mantissa()) * 10 && Value() == old(Value()) * 10
      ensures exponent == old(exponent)
    {
      MultiplyByUInt32(10);
    }

    /** Multiplies by powers of five that fit into a word, and shifts. */
    method MultiplyByPowerOfTen(power: nat)
      requires Valid() && Mantissa() * Pow(5, power) < Pow(BASE, bigits.Length - 1)
      modifies this, bigits
      ensures Valid() && Value() == old(Value()) * Pow(10, power)
      ensures Mantissa() == old(Mantissa()) * Pow(5, power) * Pow(2, power % BIGIT_SIZE)
      ensures exponent == if old(used) == 0 then 0 else old(exponent) + power / BIGIT_SIZE
    {
      hide Val, Pow;
      ghost var V, M, limit := Value(), Mantissa(), Pow(BASE, bigits.Length - 1);
      PowStep(5, 0);
      PowStep(2, 0);
      Scaled(this, Pow(10, power));
      Scaled(this, Pow(5, power));
      if power == 0 || used == 0 {
        NoPower(M, V, power);
        return;
      }
      TimesPowerOfFive(power);
      FitsBelow(this, CAPACITY - 1);
      TenIsTwoFive(V, power);
      ShiftLeft(power);
    }

    method TimesPowerOfFive(power: nat)
      requires Valid() && used > 0 && Mantissa() * Pow(5, power) < Pow(BASE, bigits.Length - 1)
      modifies this, bigits
      ensures Valid() && used > 0 && Mantissa() == old(Mantissa()) * Pow(5, power) && exponent == old(exponent)
      ensures Value() == old(Value()) * Pow(5, power)
    {
      hide Val, Pow;
      ghost var V, M, T := Value(), Mantissa(), Mantissa() * Pow(5, power);
      PowMono(BASE, CAPACITY - 1, CAPACITY);
      var remaining := power;
      while remaining >= 27
        invariant Valid() && used > 0 && exponent == old(exponent) && remaining >= 0
        invariant Mantissa() * Pow(5, remaining) == T && Value() * Pow(5, remaining) == V * Pow(5, power)
      {
        FiveStep(this, remaining, 27, T, V * Pow(5, power));
        FivePowers(1);
        MultiplyByUInt64(0x6765_C793_FA10_079D);
        StaysPositive(this);
        remaining := remaining - 27;
      }
      while remaining >= 13
        invariant Valid() && used > 0 && exponent == old(exponent) && remaining >= 0
        invariant Mantissa() * Pow(5, remaining) == T && Value() * Pow(5, remaining) == V * Pow(5, power)
      {
        FiveStep(this, remaining, 13, T, V * Pow(5, power));
        FivePowers(1);
        MultiplyByUInt32(1220703125);
        StaysPositive(this);
        remaining := remaining - 13;
      }
      PowStep(5, 0);
      if remaining > 0 {
        FiveStep(this, remaining, remaining, T, V * Pow(5, power));
        FivePowers(remaining);
        MultiplyByUInt32(FIVES[remaining - 1]);
        StaysPositive(this);
      }
    }

    // ---- sums and differences ----

    /** Bigits that were not used so far are read as zeros. */
    method ClearUpTo(off: nat)
      requires Shaped() && off <= CAPACITY
      modifies bigits
      ensures Shaped() && Bigits() == old(Bigits()) && bigits[..off] == Extended(Bigits())[..off]
    {
      hide Zeros;
      ghost var s := Bigits();
      var i := used;
      while i < off
        invariant used <= i && (i <= off || i == used) && bigits[..used] == s
        invariant forall k :: used <= k < i ==> bigits[k] == 0
      {
        bigits[i] := 0;
        i := i + 1;
      }
    }

    /** Adds the bigits of the other number from index off on; the carry is left. */
    method AddBigits(other: Bignum, off: nat) returns (carry: int)
      requires Shaped() && other.Shaped() && other != this && other.bigits != bigits
      requires off + other.used <= CAPACITY && bigits[..off] == Extended(Bigits())[..off]
      modifies bigits
      ensures 0 <= carry <= 1 && IsDigits(bigits[..off + other.used], BASE)
      ensures bigits[off + other.used..] == old(bigits[off + other.used..])
      ensures Val(bigits[..off + other.used] + [carry], BASE)
        == Val(Extended(old(Bigits()))[..off + other.used], BASE) + other.Mantissa() * Pow(BASE, off)
    {
      hide Val, Pow, Extended;
      ghost var x, o, all := Extended(Bigits()), other.Bigits(), bigits[..];
      carry := 0;
      ValPush(bigits[..off], 0, BASE);
      NothingDone(o, Pow(BASE, off));
      for i := 0 to other.used
        invariant other.Bigits() == o && 0 <= carry <= 1 && IsDigits(bigits[..off + i], BASE)
        invariant bigits[off + i..] == all[off + i..]
        invariant Val(bigits[..off + i] + [carry], BASE) == Val(x[..off + i], BASE) + Val(o[..i], BASE) * Pow(BASE, off)
      {
        var pos := off + i;
        assert bigits[pos] == bigits[pos..][0] == all[pos];
        ExtendedAt(all[..used], pos);
        var my := if pos < used then bigits[pos] else 0;
        var sum := my + other.bigits[i] + carry;
        assert my == x[pos] && other.bigits[i] == o[i];
        AddStep(x, o, i, off);
        SmallCarry(my + o[i], carry);
        Put(pos, sum % BASE, carry, my + o[i], Val(x[..pos], BASE) + Val(o[..i], BASE) * Pow(BASE, off));
        carry := sum / BASE;
        assert all[pos..][1..] == all[pos + 1..];
      }
      assert o[..|o|] == o;
    }

    /** Carries on above the bigits of the other number; s were the bigits before, and D is what is added to them. */
    method CarryOn(from: nat, k: int, ghost s: seq<int>, ghost D: int) returns (end: nat)
      requires bigits.Length == CAPACITY && used == |s| < CAPACITY && from < CAPACITY && 0 <= k <= 1
      requires IsDigits(bigits[..from], BASE) && IsDigits(s, BASE)
      requires Val(bigits[..from] + [k], BASE) == Val(Extended(s)[..from], BASE) + D
      requires forall i :: from <= i < used ==> bigits[i] == s[i]
      modifies bigits
      ensures from <= end <= CAPACITY && IsDigits(bigits[..end], BASE)
      ensures Val(bigits[..end], BASE) == Val(Extended(s)[..end], BASE) + D
      ensures forall i :: end <= i < used ==> bigits[i] == s[i]
      ensures end > from && end > used ==> bigits[end - 1] != 0
    {
      hide Val, Pow, Extended;
      ghost var x := Extended(s);
      var carry := k;
      end := from;
      while carry != 0
        invariant from <= end <= CAPACITY && 0 <= carry <= 1 && IsDigits(bigits[..end], BASE)
        invariant end == CAPACITY ==> carry == 0
        invariant Val(bigits[..end] + [carry], BASE) == Val(x[..end], BASE) + D
        invariant forall i :: end <= i < used ==> bigits[i] == s[i]
        invariant end > from && end > used && carry == 0 ==> bigits[end - 1] != 0
        invariant end > from && end > used ==> carry == 0
        decreases CAPACITY - end
      {
        ghost var rest := bigits[end + 1..];
        ExtendedAt(s, end);
        ValStep(x, end, BASE);
        var my := if end < used then bigits[end] else 0;
        SmallCarry(my, carry);
        Put(end, (my + carry) % BASE, carry, my, Val(x[..end], BASE) + D);
        forall i | end + 1 <= i < used ensures bigits[i] == s[i] {
          assert bigits[i] == bigits[end + 1..][i - end - 1] == rest[i - end - 1];
        }
        carry := (my + carry) / BASE;
        end := end + 1;
      }
      ValPush(bigits[..end], 0, BASE);
    }

    method AddBignum(other: Bignum)
      requires Valid() && other.Valid() && other != this && other.bigits != bigits
      requires 1 + Max(BigitLength(), other.BigitLength()) - Min(exponent, other.exponent) <= CAPACITY
      modifies this, bigits
      ensures Valid() && Value() == old(Value()) + other.Value()
      ensures exponent == Min(old(exponent), other.exponent)
    {
      hide Val, Pow;
      Align(other);
      ghost var M := Mantissa();
      AddAligned(other, other.exponent - exponent);
      SumValue(M, other.Mantissa(), exponent, other.exponent - exponent);
    }

    method AddAligned(other: Bignum, off: nat)
      requires Valid() && other.Valid() && other != this && other.bigits != bigits
      requires other.exponent == exponent + off && used < CAPACITY && off + other.used < CAPACITY
      modifies this, bigits
      ensures Valid() && Mantissa() == old(Mantissa()) + other.Mantissa() * Pow(BASE, off)
      ensures exponent == old(exponent)
    {
      hide Val, Pow, Extended, IsDigits;
      ghost var s := Bigits();
      var end := AddAll(other, off);
      ghost var t := bigits[..Max(end, used)];
      assert t[..end] == bigits[..end];
      SumComplete(s, t, end, other.Mantissa() * Pow(BASE, off));
      if |t| > 0 && (|t| == |s| || |t| == off + other.used) { SumOnTop(s, other.Bigits(), t, off); }
      used := Max(end, used);
    }

    /** Adds all bigits and carries on; end is the index up to which they have changed. */
    method AddAll(other: Bignum, off: nat) returns (end: nat)
      requires Shaped() && other.Shaped() && other != this && other.bigits != bigits
      requires used < CAPACITY && off + other.used < CAPACITY
      modifies bigits
      ensures off + other.used <= end <= CAPACITY && IsDigits(bigits[..end], BASE)
      ensures Val(bigits[..end], BASE) == Val(Extended(old(Bigits()))[..end], BASE) + other.Mantissa() * Pow(BASE, off)
      ensures forall i :: end <= i < used ==> bigits[i] == old(bigits[i])
      ensures end > off + other.used && end > used ==> bigits[end - 1] != 0
    {
      hide Val, Pow, Extended, IsDigits;
      ghost var s, D := Bigits(), other.Mantissa() * Pow(BASE, off);
      ClearUpTo(off);
      var carry := AddBigits(other, off);
      assert forall i :: off + other.used <= i < used ==> bigits[i] == s[i];
      end := CarryOn(off + other.used, carry, s, D);
    }

    /** Subtracts the bigits of the other number from index off on; the borrow is left. */
    method SubtractBigits(other: Bignum, off: nat) returns (borrow: int)
      requires Shaped() && other.Shaped() && other != this && other.bigits != bigits && off + other.used <= used
      modifies bigits
      ensures 0 <= borrow <= 1 && IsDigits(bigits[..off + other.used], BASE)
      ensures bigits[off + other.used..] == old(bigits[off + other.used..])
      ensures Val(bigits[..off + other.used] + [-borrow], BASE)
        == Val(old(Bigits())[..off + other.used], BASE) - other.Mantissa() * Pow(BASE, off)
    {
      hide Val, Pow;
      ghost var s, o, all := Bigits(), other.Bigits(), bigits[..];
      borrow := 0;
      ValPush(bigits[..off], 0, BASE);
      assert bigits[..off] == s[..off];
      NothingDone(o, Pow(BASE, off));
      for i := 0 to other.used
        invariant other.Bigits() == o && 0 <= borrow <= 1 && IsDigits(bigits[..off + i], BASE)
        invariant bigits[off + i..] == all[off + i..]
        invariant Val(bigits[..off + i] + [-borrow], BASE)
          == Val(s[..off + i], BASE) - Val(o[..i], BASE) * Pow(BASE, off)
      {
        var pos := off + i;
        assert bigits[pos] == bigits[pos..][0] == s[pos] && other.bigits[i] == o[i];
        var difference := bigits[pos] - other.bigits[i] - borrow;
        AddStep(s, o, i, off);
        SmallBorrow(s[pos] - o[i], borrow);
        Put(pos, difference % BASE, -borrow, s[pos] - o[i], Val(s[..pos], BASE) - Val(o[..i], BASE) * Pow(BASE, off));
        borrow := if difference < 0 then 1 else 0;
        assert all[pos..][1..] == all[pos + 1..];
      }
      assert o[..|o|] == o;
    }

    /** Borrows on above the bigits of the other number; D is what is subtracted from the bigits s. */
    method BorrowOn(from: nat, k: int, ghost s: seq<int>, ghost D: int) returns (end: nat)
      requires bigits.Length == CAPACITY && used == |s| <= CAPACITY && from <= used && 0 <= k <= BASE
      requires IsDigits(bigits[..from], BASE) && IsDigits(s, BASE) && Val(s, BASE) >= D
      requires Val(bigits[..from] + [-k], BASE) == Val(s[..from], BASE) - D
      requires forall i :: from <= i < used ==> bigits[i] == s[i]
      modifies bigits
      ensures from <= end <= used && Shaped() && Mantissa() == Val(s, BASE) - D
      ensures end < used ==> bigits[used - 1] == s[used - 1]
    {
      hide Val, Pow;
      var borrow := k;
      end := from;
      while borrow != 0
        invariant from <= end <= used && 0 <= borrow <= BASE && IsDigits(bigits[..end], BASE)
        invariant end > from ==> borrow <= 1
        invariant Val(bigits[..end] + [-borrow], BASE) == Val(s[..end], BASE) - D
        invariant forall i :: end <= i < used ==> bigits[i] == s[i]
        decreases used - end
      {
        EnoughLeft(s, bigits[..end], borrow, D);
        ghost var rest := bigits[end + 1..];
        ValStep(s, end, BASE);
        var difference := bigits[end] - borrow;
        SmallBorrow(s[end], borrow);
        Put(end, difference % BASE, -borrow, s[end], Val(s[..end], BASE) - D);
        forall i | end + 1 <= i < used ensures bigits[i] == s[i] {
          assert bigits[i] == bigits[end + 1..][i - end - 1] == rest[i - end - 1];
        }
        borrow := if difference < 0 then 1 else 0;
        end := end + 1;
      }
      ValPush(bigits[..end], 0, BASE);
      assert bigits[..used][..end] == bigits[..end];
      DifferenceComplete(s, bigits[..used], end, D);
    }

    method SubtractBignum(other: Bignum)
      requires Valid() && other.Valid() && other != this && other.bigits != bigits && other.Value() <= Value()
      requires exponent > other.exponent ==> BigitLength() - other.exponent <= CAPACITY
      modifies this, bigits
      ensures Valid() && Value() == old(Value()) - other.Value()
      ensures exponent == if used == 0 then 0 else Min(old(exponent), other.exponent)
    {
      hide Val, Pow;
      Align(other);
      var off := other.exponent - exponent;
      ghost var M := Mantissa();
      SumValue(M, other.Mantissa(), exponent, off);
      SmallerIsShorter(other, this);
      PowPositive(BASE, exponent);
      NotNegative(M - other.Mantissa() * Pow(BASE, off), Pow(BASE, exponent));
      SubtractAligned(other, off);
    }

    method SubtractAligned(other: Bignum, off: nat)
      requires Valid() && other.Valid() && other != this && other.bigits != bigits
      requires other.exponent == exponent + off && off + other.used <= used
      requires Mantissa() >= other.Mantissa() * Pow(BASE, off)
      modifies this, bigits
      ensures Valid() && exponent == if used == 0 then 0 else old(exponent)
      ensures Value() == (old(Mantissa()) - other.Mantissa() * Pow(BASE, off)) * Pow(BASE, old(exponent))
    {
      hide Val, Pow;
      ghost var s, D := Bigits(), other.Mantissa() * Pow(BASE, off);
      var borrow := SubtractBigits(other, off);
      assert forall i :: off + other.used <= i < used ==> bigits[i] == s[i];
      var end := BorrowOn(off + other.used, borrow, s, D);
      Clamp();
    }

    function BigitOrZero(index: nat): int
      reads this, bigits
      requires used <= bigits.Length
    {
      if index >= used + exponent || index < exponent then 0 else bigits[index - exponent]
    }

    // ---- division ----

    /** Subtracts factor times the bigits of the other number from index off on; the borrow is left. */
    method SubtractScaled(other: Bignum, off: nat, factor: int) returns (borrow: int)
      requires Shaped() && other.Shaped() && other != this && other.bigits != bigits && off + other.used <= used
      requires 0 <= factor < 0x10000
      modifies bigits
      ensures 0 <= borrow <= factor + 1 && IsDigits(bigits[..off + other.used], BASE)
      ensures bigits[off + other.used..] == old(bigits[off + other.used..])
      ensures Val(bigits[..off + other.used] + [-borrow], BASE)
        == Val(old(Bigits())[..off + other.used], BASE) - factor * other.Mantissa() * Pow(BASE, off)
    {
      hide Val, Pow;
      ghost var s, o, all := Bigits(), other.Bigits(), bigits[..];
      borrow := 0;
      ValPush(bigits[..off], 0, BASE);
      assert bigits[..off] == s[..off];
      NothingScaled(o, factor, Pow(BASE, off));
      for i := 0 to other.used
        invariant other.Bigits() == o && 0 <= borrow <= factor + 1 && IsDigits(bigits[..off + i], BASE)
        invariant bigits[off + i..] == all[off + i..]
        invariant Val(bigits[..off + i] + [-borrow], BASE)
          == Val(s[..off + i], BASE) - factor * Val(o[..i], BASE) * Pow(BASE, off)
      {
        var pos := off + i;
        assert bigits[pos] == bigits[pos..][0] == s[pos] && other.bigits[i] == o[i];
        ScaledBorrow(factor, o[i], s[pos], borrow);
        var product: uint64 := factor * other.bigits[i];
        var remove: uint64 := borrow + product;
        var difference := bigits[pos] - remove % BASE;
        SubtractStep(s, o, i, off, factor);
        Put(pos, difference % BASE, -borrow, s[pos] - factor * o[i],
            Val(s[..pos], BASE) - factor * Val(o[..i], BASE) * Pow(BASE, off));
        borrow := (if difference < 0 then 1 else 0) + remove / BASE;
        assert all[pos..][1..] == all[pos + 1..];
      }
      assert o[..|o|] == o;
    }

    method SubtractTimes(other: Bignum, factor: int)
      requires Valid() && other.Valid() && other != this && other.bigits != bigits && exponent <= other.exponent
      requires 0 <= factor < 0x10000 && factor * other.Value() <= Value()
      modifies this, bigits
      ensures Valid() && Value() == old(Value()) - factor * other.Value() && exponent <= old(exponent)
    {
      hide Val, Pow;
      LengthBounds(other);
      if factor < 3 {
        for i := 0 to factor
          invariant Valid() && Value() == old(Value()) - i * other.Value() && exponent <= old(exponent)
        {
          AtLeastOnce(factor - i, other.Value(), old(Value()) - i * other.Value());
          Dist(factor, i, other.Value());
          SubtractBignum(other);
          Dist(i, 1, other.Value());
        }
        return;
      }
      var off := other.exponent - exponent;
      ghost var M, e := Mantissa(), exponent;
      AtLeastOnce(factor, other.Value(), Value());
      SmallerIsShorter(other, this);
      ScaledDifference(M, other.Mantissa(), exponent, off, factor);
      PowPositive(BASE, exponent);
      NotNegative(M - factor * other.Mantissa() * Pow(BASE, off), Pow(BASE, exponent));
      SubtractTimesAligned(other, off, factor);
    }

    method SubtractTimesAligned(other: Bignum, off: nat, factor: int)
      requires Valid() && other.Valid() && other != this && other.bigits != bigits
      requires other.exponent == exponent + off && off + other.used <= used && 0 <= factor < 0x10000
      requires Mantissa() >= factor * other.Mantissa() * Pow(BASE, off)
      modifies this, bigits
      ensures Valid() && exponent <= old(exponent)
      ensures Value() == (old(Mantissa()) - factor * other.Mantissa() * Pow(BASE, off)) * Pow(BASE, old(exponent))
    {
      hide Val, Pow;
      ghost var s, D := Bigits(), factor * other.Mantissa() * Pow(BASE, off);
      var borrow := SubtractScaled(other, off, factor);
      assert forall i :: off + other.used <= i < used ==> bigits[i] == s[i];
      var end := BorrowOn(off + other.used, borrow, s, D);
      if end < used {
        return;
      }
      Clamp();
    }

    /** Removes multiples of the other number while this one is longer. */
    method Shorten(other: Bignum) returns (result: nat)
      requires Valid() && other.Valid() && other != this && other.bigits != bigits && other.used > 0
      requires exponent <= other.exponent && other.BigitLength() <= BigitLength()
      requires Value() < 0x10000 * other.Value()
      modifies this, bigits
      ensures Valid() && exponent <= other.exponent && 0 < used && BigitLength() <= other.BigitLength()
      ensures old(Value()) == result * other.Value() + Value() && other.Value() >= 1
      ensures BigitLength() == other.BigitLength() || (other.Top() == BASE - 1 && other.used > 1)
    {
      hide Val, Pow, IsDigits, Value;
      ghost var O := other.Value();
      result := 0;
      Lengths(this, other);
      while BigitLength() > other.BigitLength()
        invariant Valid() && exponent <= other.exponent && 0 < used && other.Valid() && other.Value() == O
        invariant old(Value()) == result * O + Value() && 0 < Value() < 0x10000 * O
        invariant BigitLength() < other.BigitLength() ==> other.Top() == BASE - 1 && other.used > 1
        decreases Value()
      {
        var top := ShortenOnce(other);
        Dist(result, top, O);
        result := result + top;
      }
    }

    method ShortenOnce(other: Bignum) returns (top: int)
      requires Valid() && other.Valid() && other != this && other.bigits != bigits && other.used > 0
      requires exponent <= other.exponent && other.BigitLength() < BigitLength() && Value() < 0x10000 * other.Value()
      modifies this, bigits
      ensures Valid() && exponent <= other.exponent && 0 < used && top >= 0
      ensures old(Value()) == top * other.Value() + Value() && 0 < Value() < old(Value())
      ensures BigitLength() < other.BigitLength() ==> other.Top() == BASE - 1 && other.used > 1
    {
      hide Val, Pow, Value;
      top := Top();
      TopRemoved(this, other);
      SubtractTimes(other, top);
      LengthBounds(this);
      if other.Top() < BASE - 1 || other.used == 1 { LongEnough(this, other.BigitLength()); }
    }

    /** The bigit on top. */
    function Top(): int
      reads this, bigits
      requires 0 < used <= bigits.Length
    {
      bigits[used - 1]
    }

    /** Divides by the other number, keeps the remainder, and returns the quotient, which fits into 16 bits. */
    method DivideModuloIntBignum(other: Bignum) returns (result: nat)
      requires Valid() && other.Valid() && other != this && other.bigits != bigits && other.used > 0
      requires Value() < 0x10000 * other.Value()
      requires exponent > other.exponent ==> BigitLength() - other.exponent <= CAPACITY
      modifies this, bigits
      ensures Valid() && old(Value()) == result * other.Value() + Value() && 0 <= Value() < other.Value()
      ensures result < 0x10000
    {
      hide Val, Pow, IsDigits, Value;
      LengthBounds(other);
      LengthBounds(this);
      if BigitLength() < other.BigitLength() {
        PowMono(BASE, BigitLength(), other.BigitLength() - 1);
        return 0;
      }
      Align(other);
      result := DivideAligned(other);
    }

    method DivideAligned(other: Bignum) returns (result: nat)
      requires Valid() && other.Valid() && other != this && other.bigits != bigits && other.used > 0
      requires Value() < 0x10000 * other.Value()
      requires exponent <= other.exponent && other.BigitLength() <= BigitLength()
      modifies this, bigits
      ensures Valid() && old(Value()) == result * other.Value() + Value() && 0 <= Value() < other.Value()
      ensures result < 0x10000
    {
      hide Val, Pow, IsDigits, Value;
      ghost var O := other.Value();
      result := Shorten(other);
      NoLarger(result, O, Value(), old(Value()));
      var quotient;
      if other.used == 1 {
        quotient := DivideTop(other);
      } else {
        quotient := DivideSameLength(other);
      }
      Dist(result, quotient, O);
      result := result + quotient;
      QuotientIsShort(result, O, Value(), old(Value()));
    }

    method ReplaceTop(bigit: int)
      requires Shaped() && used > 0 && 0 <= bigit < BASE
      modifies bigits
      ensures Shaped() && Bigits() == old(Bigits())[..used - 1] + [bigit]
    {
      ghost var low := bigits[..used - 1];
      assert Bigits()[..used - 1] == low;
      bigits[used - 1] := bigit;
      assert bigits[..used] == low + [bigit];
    }

    /** The other number has a single bigit. */
    method DivideTop(other: Bignum) returns (quotient: nat)
      requires Valid() && other.Valid() && other != this && other.bigits != bigits && other.used == 1 && used > 0
      requires exponent <= other.exponent && BigitLength() == other.BigitLength()
      modifies this, bigits
      ensures Valid() && old(Value()) == quotient * other.Value() + Value() && 0 <= Value() < other.Value()
    {
      hide Val, Pow, IsDigits;
      var thisBigit, otherBigit := Top(), other.Top();
      ghost var low := Bigits()[..used - 1];
      TopBounds(other);
      TopBounds(this);
      LowDigits(this);
      assert Bigits() == low + [thisBigit];
      OneBigitDivided(low, thisBigit, otherBigit, exponent);
      quotient := thisBigit / otherBigit;
      ReplaceTop(thisBigit - otherBigit * quotient);
      Clamp();
    }

    /** The quotient is estimated from the top bigits, and corrected. */
    method DivideSameLength(other: Bignum) returns (quotient: nat)
      requires Valid() && other.Valid() && other != this && other.bigits != bigits && other.used > 1 && used > 0
      requires exponent <= other.exponent && BigitLength() <= other.BigitLength()
      requires BigitLength() == other.BigitLength() || other.Top() == BASE - 1
      requires Value() < 0x10000 * other.Value()
      modifies this, bigits
      ensures Valid() && old(Value()) == quotient * other.Value() + Value() && 0 <= Value() < other.Value()
    {
      hide Val, Pow;
      var thisBigit, otherBigit := Top(), other.Top();
      ghost var O := other.Value();
      var divisionEstimate := thisBigit / (otherBigit + 1);
      EstimateFits(this, other, divisionEstimate);
      quotient := divisionEstimate;
      SubtractTimes(other, divisionEstimate);
      LengthBounds(this);
      if otherBigit * (divisionEstimate + 1) > thisBigit {
        return;
      }
      var c := Compare(other, this);
      while c <= 0
        invariant Valid() && exponent <= other.exponent && Value() >= 0
        invariant old(Value()) == quotient * O + Value() && (c <= 0 <==> O <= Value())
        decreases Value()
      {
        LengthBounds(other);
        SubtractBignum(other);
        LengthBounds(this);
        Dist(quotient, 1, O);
        quotient := quotient + 1;
        c := Compare(other, this);
      }
    }

    // ---- squares ----

    /** The products of column i < n, from a copy of the bigits s at index n. */
    method LowColumn(n: nat, i: nat, acc: uint64, ghost s: seq<int>) returns (sum: uint64)
      requires i < n == |s| <= 64 && 2 * n <= bigits.Length && IsDigits(s, BASE) && acc <= 64 * BASE
      requires forall k :: 0 <= k < n ==> bigits[n + k] == s[k]
      ensures sum == acc + Cross(s, s, i, i + 1)
    {
      hide Cross;
      var index1, index2 := i, 0;
      sum := acc;
      CrossStart(s, i);
      while index1 >= 0
        invariant index1 + index2 == i && 0 <= index2 <= i + 1 && sum == acc + Cross(s, s, i, index2)
      {
        CrossStep(s, i, index2);
        ColumnFits(s, i, index2 + 1);
        sum := sum + bigits[n + index1] * bigits[n + index2];
        index1 := index1 - 1;
        index2 := index2 + 1;
      }
    }

    /** The products of a column i >= n; what the copy holds below index i - n + 1 is not read. */
    method HighColumn(n: nat, i: nat, acc: uint64, ghost s: seq<int>) returns (sum: uint64)
      requires n == |s| <= 64 && n <= i < 2 * n <= bigits.Length && IsDigits(s, BASE) && acc <= 64 * BASE
      requires forall k :: i - n < k < n ==> bigits[n + k] == s[k]
      ensures sum == acc + Cross(s, s, i, i + 1)
    {
      hide Cross;
      var index1 := n - 1;
      var index2 := i - index1;
      sum := acc;
      CrossStart(s, i);
      CrossSame(s, s, i, 0, index2);
      while index2 < n
        invariant index1 + index2 == i && i - n < index2 <= n && sum == acc + Cross(s, s, i, index2)
      {
        CrossStep(s, i, index2);
        ColumnFits(s, i, index2 + 1);
        sum := sum + bigits[n + index1] * bigits[n + index2];
        index1 := index1 - 1;
        index2 := index2 + 1;
      }
      CrossSame(s, s, i, n, i + 1);
    }

    /** Writes the bigit of a column; the copy of the bigits from index n on is kept above index i. */
    method PutColumn(n: nat, i: nat, sum: uint64, ghost acc: int, ghost s: seq<int>) returns (accumulator: uint64)
      requires n == |s| <= 64 && i < 2 * n <= bigits.Length && IsDigits(s, BASE) && 0 <= acc <= 64 * BASE
      requires IsDigits(bigits[..i], BASE) && Val(bigits[..i] + [acc], BASE) == Product(s, s, i, BASE)
      requires sum == acc + Cross(s, s, i, i + 1)
      requires forall k :: i - n < k < n && k >= 0 ==> bigits[n + k] == s[k]
      modifies bigits
      ensures accumulator <= 64 * BASE && IsDigits(bigits[..i + 1], BASE)
      ensures Val(bigits[..i + 1] + [accumulator], BASE) == Product(s, s, i + 1, BASE)
      ensures forall k :: i - n < k < n && k >= 0 ==> bigits[n + k] == s[k]
    {
      hide Val, Pow, Cross, Product;
      ghost var before := bigits[i + 1..];
      ColumnCarry(s, i, acc);
      ProductStep(s, i);
      Put(i, sum % BASE, acc, Cross(s, s, i, i + 1), Product(s, s, i, BASE));
      forall k | i - n < k < n && k >= 0 ensures bigits[n + k] == s[k] {
        assert bigits[n + k] == bigits[i + 1..][n + k - i - 1] == before[n + k - i - 1];
      }
      accumulator := sum / BASE;
    }

    /** Comba multiplication: each column is computed separately, and written over what is not read any more. */
    method SquareBigits()
      requires Shaped() && 2 * used <= CAPACITY
      modifies bigits
      ensures IsDigits(bigits[..2 * used], BASE) && Val(bigits[..2 * used], BASE) == old(Mantissa()) * old(Mantissa())
    {
      hide Val, Pow, Cross, Product;
      ghost var s := Bigits();
      var n := used;
      var accumulator: uint64 := 0;
      for i := 0 to n
        invariant bigits[..n] == s && forall k :: 0 <= k < i ==> bigits[n + k] == s[k]
      {
        bigits[n + i] := bigits[i];
      }
      NoProduct(s);
      assert bigits[..0] == [];
      for i := 0 to n
        invariant accumulator <= 64 * BASE && IsDigits(bigits[..i], BASE)
        invariant forall k :: 0 <= k < n ==> bigits[n + k] == s[k]
        invariant Val(bigits[..i] + [accumulator], BASE) == Product(s, s, i, BASE)
      {
        var sum := LowColumn(n, i, accumulator, s);
        accumulator := PutColumn(n, i, sum, accumulator, s);
      }
      for i := n to 2 * n
        invariant accumulator <= 64 * BASE && IsDigits(bigits[..i], BASE)
        invariant forall k :: i - n <= k < n ==> bigits[n + k] == s[k]
        invariant Val(bigits[..i] + [accumulator], BASE) == Product(s, s, i, BASE)
      {
        var sum := HighColumn(n, i, accumulator, s);
        accumulator := PutColumn(n, i, sum, accumulator, s);
      }
      SquareDone(s, bigits[..2 * n], accumulator);
    }

    method Square()
      requires Valid() && 2 * used <= CAPACITY
      modifies this, bigits
      ensures Valid() && Value() == old(Value()) * old(Value()) && Mantissa() == old(Mantissa()) * old(Mantissa())
      ensures exponent == if used == 0 then 0 else 2 * old(exponent)
    {
      hide Val, Pow;
      ghost var M, e := Mantissa(), exponent;
      SquareBigits();
      used := 2 * used;
      exponent := exponent * 2;
      SquareValue(M, e);
      Clamp();
    }

    // ---- powers ----

    /**
     * The base is split into an odd part and a power of two. The power of the odd part is squared up from the most
     * significant bit of the exponent, in a word as long as it fits.
     */
    method AssignPowerUInt16(base: nat, power: nat)
      requires bigits.Length == CAPACITY && 0 < base < 0x10000
      requires BitSize(OddPart(base)) * power / BIGIT_SIZE + 2 <= CAPACITY
      modifies this, bigits
      ensures Valid() && Value() == Pow(base, power)
    {
      hide Val, Pow;
      PowStep(base, 0);
      if power == 0 {
        AssignUInt64(1);
        return;
      }
      Zero();
      var odd, shifts := SplitBase(base);
      var bitSize := CountBits(odd);
      var mask := FirstMask(power);
      var thisValue: uint64, delayed;
      thisValue, delayed, mask := PowerInWord(odd, bitSize, power, mask);
      AssignUInt64(thisValue);
      DoneBelow(power, mask);
      RoomBelow(odd, bitSize, power, Done(power, mask), bigits.Length);
      if delayed {
        MultiplyByUInt32(odd);
      }
      PowerOfOdd(odd, bitSize, power, mask);
      FinalShift(this, odd, bitSize, power);
      SplitPower(base, odd, shifts, power);
      ShiftLeft(shifts * power);
    }

    /** The bits of the exponent that are left, on the number itself. */
    method PowerOfOdd(odd: nat, ghost bitSize: nat, power: nat, mask0: nat)
      requires Valid() && exponent == 0 && 1 <= odd < 0x10000 && odd < Pow(2, bitSize) && power >= 1
      requires bitSize * power >= 0 && bitSize * power / BIGIT_SIZE + 2 <= CAPACITY
      requires IsMask(mask0) && Value() == Pow(odd, Done(power, mask0))
      modifies this, bigits
      ensures Valid() && exponent == 0 && Value() == Pow(odd, power)
    {
      hide Val, Pow, IsDigits, IsMask, Value;
      var mask := mask0;
      while mask != 0
        invariant Valid() && exponent == 0 && IsMask(mask) && Value() == Pow(odd, Done(power, mask))
        decreases mask
      {
        NextBit(power, mask);
        SquareAndMultiply(odd, bitSize, power, Done(power, mask), power / mask % 2 != 0);
        mask := mask / 2;
      }
    }

    method SquareAndMultiply(odd: nat, ghost bitSize: nat, ghost power: nat, ghost d: nat, once: bool)
      requires Valid() && exponent == 0 && 1 <= odd < 0x10000 && odd < Pow(2, bitSize) && power >= 1
      requires bitSize * power >= 0 && bitSize * power / BIGIT_SIZE + 2 <= CAPACITY
      requires Value() == Pow(odd, d) && 2 * d + (if once then 1 else 0) <= power
      modifies this, bigits
      ensures Valid() && exponent == 0 && Value() == Pow(odd, 2 * d + if once then 1 else 0)
    {
      hide Val, Pow, IsDigits;
      SquareRoom(this, odd, bitSize, power, d);
      Square();
      PowAdd(odd, d, d);
      ExponentZero(this);
      if once {
        RoomBelow(odd, bitSize, power, 2 * d + 1, bigits.Length);
        PowStep(odd, 2 * d);
        MultiplyByUInt32(odd);
      }
    }

    // ---- decimal strings ----

    method AddUInt64(operand: uint64)
      requires Valid() && 1 + Max(BigitLength(), 3) <= CAPACITY
      modifies this, bigits
      ensures Valid() && Value() == old(Value()) + operand
    {
      hide Val, Pow;
      if operand == 0 {
        return;
      }
      var other := new Bignum();
      other.AssignUInt64(operand);
      WordIsShort(other);
      AddBignum(other);
    }

    /** Nineteen digits at a time, which fit into a word. */
    method AssignDecimalString(value: seq<int>)
      requires bigits.Length == CAPACITY && IsDecimal(value) && Pow(10, |value|) <= Pow(BASE, bigits.Length - 2)
      modifies this, bigits
      ensures Valid() && Value() == Decimal(value)
    {
      hide Val, Pow, Decimal, IsDecimal;
      Zero();
      var length, pos := |value|, 0;
      DecimalEmpty();
      assert value[..0] == [];
      while length >= 19
        invariant 0 <= length && pos + length == |value| && Valid() && Value() == Decimal(value[..pos])
        decreases length
      {
        AppendDigits(value, pos, 19);
        pos, length := pos + 19, length - 19;
      }
      AppendDigits(value, pos, length);
      assert value[..pos + length] == value;
    }

    method AppendDigits(value: seq<int>, pos: nat, count: nat)
      requires Valid() && IsDecimal(value) && pos + count <= |value| && count <= 19
      requires Value() == Decimal(value[..pos]) && Pow(10, |value|) <= Pow(BASE, bigits.Length - 2)
      modifies this, bigits
      ensures Valid() && Value() == Decimal(value[..pos + count])
    {
      hide Val, Pow, Decimal, IsDecimal;
      var digits := ReadUInt64(value, pos, count);
      RoomForDigits(this, value, pos, count);
      MultiplyByPowerOfTen(count);
      LengthBelow(this, CAPACITY - 2);
      AddUInt64(digits);
    }
  }

  /** A power of two, or zero when all bits are used. */
  ghost predicate IsMask(mask: nat) { mask == 0 || exists k: nat :: mask == Pow(2, k) }

  /** The bits of the exponent above twice the mask; all of them when the mask is used up. */
  ghost function Done(power: nat, mask: nat): nat
  {
    if mask == 0 then power
    else
      DivPos(power, 2 * mask);
      power / (2 * mask)
  }

  ghost function OddPart(base: nat): nat
    requires base > 0
  {
    if base % 2 == 0 then OddPart(base / 2) else base
  }

  ghost function BitSize(x: nat): nat { if x == 0 then 0 else 1 + BitSize(x / 2) }

  method SplitBase(base: nat) returns (odd: nat, shifts: nat)
    requires base > 0
    ensures 1 <= odd <= base && odd == OddPart(base) && base == odd * Pow(2, shifts)
  {
    hide Pow;
    PowStep(2, 0);
    odd, shifts := base, 0;
    while odd % 2 == 0
      invariant 1 <= odd <= base && OddPart(odd) == OddPart(base) && base == odd * Pow(2, shifts)
      decreases odd
    {
      PowStep(2, shifts);
      MulAssoc(odd / 2, 2, Pow(2, shifts));
      odd := odd / 2;
      shifts := shifts + 1;
    }
  }

  method CountBits(x: nat) returns (size: nat)
    requires 1 <= x < 0x10000
    ensures size == BitSize(x) && 1 <= size <= 16 && x < Pow(2, size)
  {
    hide Pow;
    size := 0;
    var rest := x;
    PowStep(2, 0);
    BitSizeBound(x);
    while rest != 0
      invariant 0 <= rest && BitSize(x) == size + BitSize(rest) && x < (rest + 1) * Pow(2, size)
      decreases rest
    {
      PowStep(2, size);
      HalfBits(x, rest, Pow(2, size));
      rest := rest / 2;
      size := size + 1;
    }
  }

  lemma HalfBits(x: int, rest: int, P: int)
    requires x < (rest + 1) * P && P >= 1 && rest >= 0
    ensures x < (rest / 2 + 1) * (2 * P)
  {
    MulAssoc(rest / 2 + 1, 2, P);
    MulMono(P, rest + 1, (rest / 2 + 1) * 2);
  }

  lemma BitSizeBound(x: nat)
    requires 1 <= x < 0x10000
    ensures 1 <= BitSize(x) <= 16
  {
    SixteenBitWord();
    BitSizeBelow(x, 16);
  }

  lemma {:induction false} BitSizeBelow(x: nat, n: nat)
    requires x < Pow(2, n)
    ensures BitSize(x) <= n
  {
    if x > 0 { BitSizeBelow(x / 2, n - 1); }
  }

  /** The bit below the most significant one of the exponent. */
  method FirstMask(power: nat) returns (mask: nat)
    requires power >= 1
    ensures IsMask(mask) && Done(power, mask) == 1
  {
    hide Pow;
    ghost var k := 0;
    PowStep(2, 0);
    mask := 1;
    while power >= mask
      invariant mask == Pow(2, k) && mask >= 1 && (k > 0 ==> Pow(2, k - 1) <= power)
      decreases power - mask
    {
      PowStep(2, k);
      mask := mask * 2;
      k := k + 1;
    }
    PowStep(2, k - 1);
    if k >= 2 { PowStep(2, k - 2); }
    FirstBit(power, mask);
    mask := mask / 4;
  }

  lemma FirstBit(power: nat, mask: nat)
    requires mask / 2 <= power < mask && (mask == 2 || mask % 4 == 0) && power >= 1
    ensures Done(power, mask / 4) == 1
  {
    if mask >= 4 { OneTime(power, 2 * (mask / 4)); }
  }

  lemma OneTime(x: int, d: int)
    requires 0 < d <= x < 2 * d
    ensures x / d == 1
  {
    DivModUnique(x, d, 1, x - d);
  }

  /** Squaring doubles the exponent; the next bit decides whether the base comes in once more. */
  lemma NextBit(power: nat, mask: nat)
    requires IsMask(mask) && mask >= 1
    ensures IsMask(mask / 2) && Done(power, mask / 2) == 2 * Done(power, mask) + power / mask % 2
    ensures 2 * Done(power, mask) <= Done(power, mask / 2) <= power
  {
    var k: nat :| mask == Pow(2, k);
    if k > 0 { assert mask / 2 == Pow(2, k - 1); }
    DivDiv(power, mask, 2);
    DivModBounds(power, mask);
    MulMono(power / mask, 1, mask);
    assert mask * 2 == 2 * mask;
    if mask / 2 > 0 { assert 2 * (mask / 2) == mask; }
  }

  /** As long as the power is small, in a word. */
  method PowerInWord(odd: nat, bitSize: nat, power: nat, mask0: nat)
    returns (thisValue: uint64, delayed: bool, mask: nat)
    requires 1 <= odd < Pow(2, bitSize) && 1 <= bitSize <= 16 && IsMask(mask0) && Done(power, mask0) == 1
    ensures IsMask(mask)
    ensures Pow(odd, Done(power, mask)) == if delayed then thisValue * odd else thisValue
  {
    hide Pow, IsMask, Done;
    mask, delayed := mask0, false;
    PowStep(odd, 0);
    SixteenBits(odd, bitSize);
    thisValue := odd;
    while mask != 0 && thisValue <= 0xFFFF_FFFF
      invariant IsMask(mask) && (delayed ==> thisValue > 0xFFFF_FFFF)
      invariant Pow(odd, Done(power, mask)) == if delayed then thisValue * odd else thisValue
      decreases mask
    {
      NextBit(power, mask);
      ghost var d := Done(power, mask);
      PowAdd(odd, d, d);
      PowStep(odd, 2 * d);
      MulMono(thisValue, thisValue, 0xFFFF_FFFF);
      MulMono(0xFFFF_FFFF, thisValue, 0xFFFF_FFFF);
      thisValue := thisValue * thisValue;
      if power / mask % 2 != 0 {
        HighBits(bitSize);
        var highBitsZero := thisValue < Pow(2, 64 - bitSize);
        if highBitsZero {
          FitsAgain(thisValue, odd, bitSize);
          thisValue := thisValue * odd;
        } else {
          delayed := true;
        }
      }
      mask := mask / 2;
    }
  }

  lemma SixteenBits(odd: nat, bitSize: nat)
    requires odd < Pow(2, bitSize) && bitSize <= 16
    ensures odd < 0x10000
  {
    hide Pow;
    SixteenBitWord();
    PowMono(2, bitSize, 16);
  }

  lemma SixteenBitWord()
    ensures Pow(2, 16) == 0x10000
  {
    PowAdd(2, 8, 8);
  }

  lemma HighBits(bitSize: nat)
    requires 1 <= bitSize <= 16
    ensures Pow(2, 64 - bitSize) > 0xFFFF_FFFF
  {
    hide Pow;
    PowMono(2, 48, 64 - bitSize);
    PowAdd(2, 24, 24);
    PowAdd(2, 12, 12);
    PowAdd(2, 6, 6);
    PowStep(2, 0); PowStep(2, 1); PowStep(2, 2); PowStep(2, 3); PowStep(2, 4); PowStep(2, 5);
  }

  lemma FitsAgain(v: int, odd: nat, bitSize: nat)
    requires bitSize <= 16 && 0 <= v < Pow(2, 64 - bitSize) && odd < Pow(2, bitSize)
    ensures 0 <= v * odd < W64
  {
    hide Pow;
    Ieee.TwoTo64();
    PowAdd(2, 64 - bitSize, bitSize);
    PowPositive(2, bitSize);
    MulMono(v, odd, Pow(2, bitSize));
    MulStrictMono(Pow(2, bitSize), v, Pow(2, 64 - bitSize));
    MulMono(odd, 0, v);
  }

  // ---- the capacity that is enough ----

  lemma PowerBelow(odd: nat, bitSize: nat, power: nat)
    requires 1 <= odd < Pow(2, bitSize) && power >= 1
    ensures bitSize * power >= 0 && Pow(odd, power) < Pow(BASE, bitSize * power / BIGIT_SIZE + 1)
  {
    hide Pow;
    MulMono(power, 0, bitSize);
    var n := bitSize * power;
    PowPow(2, bitSize, power);
    PowBaseStrict(odd, Pow(2, bitSize), power);
    BaseIsPower();
    PowPow(2, BIGIT_SIZE, n / BIGIT_SIZE + 1);
    DivModBounds(n, BIGIT_SIZE);
    PowMono(2, n, BIGIT_SIZE * (n / BIGIT_SIZE + 1));
  }

  /** Every power on the way fits. */
  lemma RoomBelow(odd: nat, bitSize: nat, power: nat, d: nat, n: nat)
    requires 1 <= odd < Pow(2, bitSize) && power >= 1 && bitSize * power >= 0 && d <= power
    requires bitSize * power / BIGIT_SIZE + 2 <= n
    ensures Pow(odd, d) < Pow(BASE, n)
  {
    hide Pow;
    PowMono(odd, d, power);
    PowerBelow(odd, bitSize, power);
    PowMono(BASE, bitSize * power / BIGIT_SIZE + 1, n);
  }

  lemma DoneBelow(power: nat, mask: nat)
    ensures Done(power, mask) <= power
  {
    if mask > 0 {
      DivModBounds(power, 2 * mask);
      MulMono(power / (2 * mask), 1, 2 * mask);
    }
  }

  /** A square on the way needs no more bigits than were asked for. */
  lemma SquareRoom(x: Bignum, odd: nat, bitSize: nat, power: nat, d: nat)
    requires x.Valid() && x.exponent == 0 && x.Value() == Pow(odd, d) && 2 * d <= power && power >= 1
    requires 1 <= odd < Pow(2, bitSize) && bitSize * power >= 0 && bitSize * power / BIGIT_SIZE + 2 <= CAPACITY
    ensures 2 * x.used <= CAPACITY
  {
    hide Val, Pow;
    ExponentZero(x);
    StaysPositive(x);
    PowerBelow(odd, bitSize, power);
    PowMono(odd, 2 * d, power);
    PowAdd(odd, d, d);
    if x.used > 0 {
      var k, m := x.used - 1, bitSize * power / BIGIT_SIZE + 1;
      PowAdd(BASE, k, k);
      MulMono(Pow(BASE, k), Pow(BASE, k), Pow(odd, d));
      MulMono(Pow(odd, d), Pow(BASE, k), Pow(odd, d));
      if 2 * k >= m { PowMono(BASE, m, 2 * k); }
    }
  }

  lemma FinalShift(x: Bignum, odd: nat, bitSize: nat, power: nat)
    requires x.Valid() && x.exponent == 0 && x.Value() == Pow(odd, power) && power >= 1
    requires 1 <= odd < Pow(2, bitSize) && bitSize * power >= 0 && bitSize * power / BIGIT_SIZE + 2 <= CAPACITY
    ensures x.used < CAPACITY
  {
    hide Val, Pow;
    ExponentZero(x);
    PowerBelow(odd, bitSize, power);
    FitsBelow(x, bitSize * power / BIGIT_SIZE + 1);
  }

  lemma SplitPower(base: nat, odd: nat, shifts: nat, power: nat)
    requires base == odd * Pow(2, shifts)
    ensures shifts * power >= 0 && Pow(odd, power) * Pow(2, shifts * power) == Pow(base, power)
  {
    hide Pow;
    MulMono(power, 0, shifts);
    PowMulBase(odd, Pow(2, shifts), power);
    PowPow(2, shifts, power);
  }

  lemma {:induction false} PowBaseStrict(a: nat, b: nat, e: nat)
    requires a < b && e >= 1
    ensures Pow(a, e) < Pow(b, e)
  {
    if e == 1 {
      PowStep(a, 0);
      PowStep(b, 0);
    } else {
      PowBaseStrict(a, b, e - 1);
      MulMono(a, Pow(a, e - 1), Pow(b, e - 1));
      MulStrictMono(Pow(b, e - 1), a, b);
    }
  }

  lemma CrossStart(s: seq<int>, i: nat)
    ensures Cross(s, s, i, 0) == 0
  {
  }

  lemma CrossStep(s: seq<int>, i: nat, k: nat)
    requires 0 <= i - k < |s| && k < |s|
    ensures Cross(s, s, i, k + 1) == Cross(s, s, i, k) + s[i - k] * s[k]
  {
  }

  /** A word has room for the sum of 64 products of bigits. */
  lemma ColumnFits(s: seq<int>, i: nat, k: nat)
    requires IsDigits(s, BASE) && k <= 64
    ensures 0 <= Cross(s, s, i, k) < W64 - 64 * BASE
  {
    CrossBound(s, s, i, k, BASE);
    MulMono((BASE - 1) * (BASE - 1), k, 64);
  }

  lemma ColumnCarry(s: seq<int>, i: nat, acc: int)
    requires IsDigits(s, BASE) && |s| <= 64 && 0 <= acc <= 64 * BASE
    ensures 0 <= (acc + Cross(s, s, i, i + 1)) / BASE <= 64 * BASE
  {
    var k := if i + 1 <= |s| then i + 1 else |s|;
    CrossSame(s, s, i, k, i + 1);
    CrossBound(s, s, i, k, BASE);
    MulMono((BASE - 1) * (BASE - 1), k, 64);
  }

  lemma NoProduct(s: seq<int>)
    ensures Product(s, s, 0, BASE) == 0 && Val([] + [0], BASE) == 0
  {
    ValEmpty(0, BASE);
  }

  lemma ProductStep(s: seq<int>, i: nat)
    ensures Product(s, s, i + 1, BASE) == Product(s, s, i, BASE) + Cross(s, s, i, i + 1) * Pow(BASE, i)
  {
  }

  lemma SquareDone(s: seq<int>, t: seq<int>, acc: int)
    requires IsDigits(s, BASE) && IsDigits(t, BASE) && |t| == 2 * |s| && acc >= 0
    requires Val(t + [acc], BASE) == Product(s, s, |t|, BASE)
    ensures acc == 0 && Val(t, BASE) == Val(s, BASE) * Val(s, BASE)
  {
    hide Val, Pow, Product;
    var M, P := Val(s, BASE), Pow(BASE, |s|);
    ProductIs(s, s, |t|, BASE);
    ValPush(t, acc, BASE);
    ValBound(t, BASE);
    ValBound(s, BASE);
    PowAdd(BASE, |s|, |s|);
    MulMono(M, M, P);
    MulStrictMono(P, M, P);
    if acc > 0 { MulMono(Pow(BASE, |t|), 1, acc); }
  }

  lemma SquareValue(M: int, e: nat)
    ensures (M * M) * Pow(BASE, e * 2) == (M * Pow(BASE, e)) * (M * Pow(BASE, e))
  {
    hide Pow;
    var E := Pow(BASE, e);
    PowAdd(BASE, e, e);
    MulAssoc(M, M, E * E);
    MulAssoc(M, E, E);
    MulAssoc(M, E, M * E);
    MulAssoc(E, M, E);
  }

  lemma Lengths(x: Bignum, o: Bignum)
    requires x.Valid() && o.Valid() && o.used > 0 && o.BigitLength() <= x.BigitLength()
    ensures o.Value() >= 1 && x.used > 0 && x.Value() > 0
  {
    LengthBounds(x);
    LengthBounds(o);
  }

  lemma LowDigits(x: Bignum)
    requires x.Valid() && x.used > 0
    ensures IsDigits(x.Bigits()[..x.used - 1], BASE) && x.Bigits()[x.used - 1] == x.Top()
  {
  }

  /** What the top bigit says about a number. */
  lemma TopBounds(x: Bignum)
    requires x.Valid() && x.used > 0
    ensures var P := Pow(BASE, x.BigitLength() - 1);
      P >= 1 && 1 <= x.Top() < BASE && x.Top() * P <= x.Value() < (x.Top() + 1) * P
    ensures x.used == 1 ==> x.Value() == x.Top() * Pow(BASE, x.BigitLength() - 1)
  {
    hide Val, Pow;
    var k := x.used - 1;
    var low := x.Bigits()[..k];
    ValStep(x.Bigits(), k, BASE);
    assert x.Bigits()[..k + 1] == x.Bigits();
    ValBound(low, BASE);
    PowAdd(BASE, k, x.exponent);
    PowPositive(BASE, x.exponent);
    PowPositive(BASE, k + x.exponent);
    var E := Pow(BASE, x.exponent);
    Dist(Val(low, BASE), x.Top() * Pow(BASE, k), E);
    MulAssoc(x.Top(), Pow(BASE, k), E);
    MulMono(E, 0, Val(low, BASE));
    MulStrictMono(E, Val(low, BASE), Pow(BASE, k));
    Dist(x.Top(), 1, Pow(BASE, k + x.exponent));
    if k == 0 {
      assert low == [];
      ValEmpty(0, BASE);
    }
  }

  /** Taking the top bigit times off leaves something, and enough of it unless the top bigit of the other is maximal. */
  lemma TopRemoved(x: Bignum, o: Bignum)
    requires x.Valid() && o.Valid() && o.used > 0 && x.BigitLength() > o.BigitLength()
    requires x.Value() < 0x10000 * o.Value()
    ensures 1 <= x.Top() < 0x10000 && 0 < x.Value() - x.Top() * o.Value() < x.Value() && 0 <= x.Top() * o.Value()
    ensures o.Top() < BASE - 1 || o.used == 1 ==>
      x.Value() - x.Top() * o.Value() >= Pow(BASE, o.BigitLength() - 1)
  {
    hide Val, Pow;
    TopBounds(x);
    TopBounds(o);
    PowMono(BASE, o.BigitLength(), x.BigitLength() - 1);
    PowStep(BASE, o.BigitLength() - 1);
    TopRemovedBy(x.Value(), x.Top(), Pow(BASE, x.BigitLength() - 1), o.Value(), o.Top(), Pow(BASE, o.BigitLength() - 1),
                 o.used == 1);
  }

  lemma TopRemovedBy(V: int, top: int, Q: int, O: int, otop: int, P: int, single: bool)
    requires P >= 1 && Q >= BASE * P && top >= 1 && top * Q <= V < 0x10000 * O
    requires 1 <= otop < BASE && otop * P <= O < (otop + 1) * P && (single ==> O == otop * P)
    ensures top < 0x10000 && 0 < V - top * O < V && 0 <= top * O
    ensures otop < BASE - 1 || single ==> V - top * O >= P
  {
    MulMono(P, otop + 1, BASE);
    MulMono(P, 1, otop);
    MulMono(top, BASE * P, Q);
    Dist(BASE * P, O, top);
    MulAtLeast(top, O);
    MulAtLeast(top, BASE * P - O);
    if top >= 0x10000 { MulMono(BASE * P, 0x10000, top); }
    if otop < BASE - 1 {
      MulMono(P, otop + 1, BASE - 1);
      Dist(BASE - 1, 1, P);
    }
    if single {
      MulMono(P, otop, BASE - 1);
      Dist(BASE - 1, 1, P);
    }
  }

  lemma LongEnough(x: Bignum, n: nat)
    requires x.Valid() && n >= 1 && x.Value() >= Pow(BASE, n - 1)
    ensures x.BigitLength() >= n
  {
    hide Val, Pow;
    LengthBounds(x);
    if x.BigitLength() < n { PowMono(BASE, x.BigitLength(), n - 1); }
  }

  lemma QuotientIsShort(q: int, O: int, r: int, V: int)
    requires V == q * O + r && r >= 0 && O >= 1 && V < 0x10000 * O
    ensures q < 0x10000
  {
    if q >= 0x10000 { MulMono(O, 0x10000, q); }
  }

  lemma NoLarger(q: int, O: int, r: int, V: int)
    requires V == q * O + r && q >= 0 && O >= 0
    ensures r <= V
  {
    MulMono(O, 0, q);
  }

  lemma OneBigitDivided(low: seq<int>, t: int, o: int, e: nat)
    requires IsDigits(low, BASE) && 1 <= o < BASE && 0 <= t < BASE
    ensures var q, P := t / o, Pow(BASE, |low| + e);
      && 0 <= q && 0 <= t - o * q < o
      && Val(low + [t], BASE) * Pow(BASE, e) == q * (o * P) + Val(low + [t - o * q], BASE) * Pow(BASE, e)
      && 0 <= Val(low + [t - o * q], BASE) * Pow(BASE, e) < o * P
  {
    hide Val, Pow;
    var q, r := t / o, t - o * (t / o);
    DivModBounds(t, o);
    ValPush(low, t, BASE);
    ValPush(low, r, BASE);
    ValBound(low, BASE);
    PowAdd(BASE, |low|, e);
    PowPositive(BASE, e);
    var L, P, E := Val(low, BASE), Pow(BASE, |low|), Pow(BASE, e);
    assert t * P == q * o * P + r * P by { Dist(q * o, r, P); }
    assert (L + t * P) * E == q * (o * (P * E)) + (L + r * P) * E by {
      Dist(L + r * P, q * o * P, E);
      MulAssoc(q * o, P, E);
      MulAssoc(q, o, P * E);
    }
    MulMono(P, r + 1, o);
    Dist(r, 1, P);
    MulMono(P, 0, r);
    MulMono(E, 0, L + r * P);
    MulStrictMono(E, L + r * P, o * P);
    MulAssoc(o, P, E);
  }

  /** The estimate is not too large, and right if the test says so. */
  lemma EstimateFits(x: Bignum, o: Bignum, est: int)
    requires x.Valid() && o.Valid() && x.used > 0 && o.used > 0 && x.BigitLength() <= o.BigitLength()
    requires x.BigitLength() == o.BigitLength() || o.Top() == BASE - 1
    requires est == x.Top() / (o.Top() + 1) && x.Value() < 0x10000 * o.Value()
    ensures 0 <= est < 0x10000 && est * o.Value() <= x.Value()
    ensures o.Top() * (est + 1) > x.Top() ==> x.Value() - est * o.Value() < o.Value()
  {
    hide Val, Pow, IsDigits, Bignum.Value;
    TopBounds(x);
    TopBounds(o);
    LengthBounds(x);
    LengthBounds(o);
    var V, O := x.Value(), o.Value();
    if x.BigitLength() == o.BigitLength() {
      EstimateBounds(V, x.Top(), O, o.Top(), Pow(BASE, o.BigitLength() - 1), est);
    } else {
      PowMono(BASE, x.BigitLength(), o.BigitLength() - 1);
      EstimateZero(V, x.Top(), O, est);
    }
    QuotientIsShort(est, O, V - est * O, V);
  }

  lemma EstimateZero(V: int, t: int, O: int, est: int)
    requires 0 <= V < O && 0 <= t < BASE && est == t / BASE
    ensures est == 0 && est * O <= V && V < (est + 1) * O && V - est * O < O
  {
  }

  lemma EstimateBounds(V: int, t: int, O: int, o: int, P: int, est: int)
    requires P >= 1 && 1 <= t && 1 <= o && t * P <= V < (t + 1) * P && o * P <= O < (o + 1) * P && est == t / (o + 1)
    ensures 0 <= est && est * O <= V
    ensures o * (est + 1) > t ==> V - est * O < O
  {
    DivModBounds(t, o + 1);
    Dist(est, 1, O);
    MulMono(est, O, (o + 1) * P);
    MulAssoc(est, o + 1, P);
    MulMono(P, est * (o + 1), t);
    if o * (est + 1) > t {
      MulMono(P, t + 1, o * (est + 1));
      MulMono(est + 1, o * P, O);
      MulAssoc(est + 1, o, P);
    }
  }

  lemma NothingScaled(o: seq<int>, factor: int, Q: int)
    ensures factor * Val(o[..0], BASE) * Q == 0 && Val([] + [0], BASE) == 0
  {
    ValEmpty(0, BASE);
    assert factor * 0 == 0 && 0 * Q == 0;
  }

  /** Taking the product off in two parts borrows what taking it off at once would. */
  lemma ScaledBorrow(factor: int, x: int, my: int, borrow: int)
    requires 0 <= factor < 0x10000 && 0 <= x < BASE && 0 <= my < BASE && 0 <= borrow <= factor + 1
    ensures 0 <= factor * x && borrow + factor * x < W64
    ensures var remove := borrow + factor * x;
      var difference := my - remove % BASE;
      var next := (if difference < 0 then 1 else 0) + remove / BASE;
      && difference % BASE == (-borrow + (my - factor * x)) % BASE
      && -next == (-borrow + (my - factor * x)) / BASE && 0 <= next <= factor + 1
  {
    var remove := borrow + factor * x;
    MulMono(x, 0, factor);
    MulMono(x, factor, 0xFFFF);
    MulMono(factor, x, BASE - 1);
    MulMono(0xFFFF, x, BASE - 1);
    var difference := my - remove % BASE;
    var next := (if difference < 0 then 1 else 0) + remove / BASE;
    DivModUnique(my - remove, BASE, -next, if difference < 0 then difference + BASE else difference);
    assert remove <= factor * BASE + 1;
    assert remove / BASE <= factor;
  }

  lemma SubtractStep(s: seq<int>, o: seq<int>, i: nat, off: nat, factor: int)
    requires i < |o| && off + i < |s|
    ensures Val(s[..off + i + 1], BASE) - factor * Val(o[..i + 1], BASE) * Pow(BASE, off)
      == Val(s[..off + i], BASE) - factor * Val(o[..i], BASE) * Pow(BASE, off)
         + (s[off + i] - factor * o[i]) * Pow(BASE, off + i)
  {
    hide Val, Pow;
    ValStep(s, off + i, BASE);
    ValStep(o, i, BASE);
    PowAdd(BASE, i, off);
    var v, d, P, Q, R := Val(o[..i], BASE), o[i], Pow(BASE, i), Pow(BASE, off), Pow(BASE, off + i);
    Dist(v, d * P, factor);
    Dist(factor * v, factor * (d * P), Q);
    assert factor * (d * P) * Q == factor * d * R by {
      MulAssoc(factor, d, P);
      MulAssoc(factor * d, P, Q);
    }
    Dist(s[off + i], factor * d, R);
  }

  lemma AtLeastOnce(n: int, O: int, V: int)
    requires n >= 1 && O >= 0 && n * O <= V
    ensures O <= V
  {
    MulMono(O, 1, n);
  }

  lemma ScaledDifference(M: int, O: int, e: nat, off: nat, factor: int)
    ensures (M - factor * O * Pow(BASE, off)) * Pow(BASE, e) == M * Pow(BASE, e) - factor * (O * Pow(BASE, off + e))
  {
    hide Pow;
    SumValue(M, factor * O, e, off);
    MulAssoc(factor, O, Pow(BASE, off + e));
  }

  // ---- comparing ----

  /** The number without its lowest bigits. */
  ghost function High(V: int, i: nat): int
  {
    PowPositive(BASE, i);
    V / Pow(BASE, i)
  }

  lemma HighIs(V: int, i: nat)
    requires V >= 0
    ensures Pow(BASE, i) >= 1 && High(V, i) >= 0 && High(V, i) * Pow(BASE, i) <= V < (High(V, i) + 1) * Pow(BASE, i)
  {
    hide Pow;
    PowPositive(BASE, i);
    DivModBounds(V, Pow(BASE, i));
    Dist(High(V, i), 1, Pow(BASE, i));
  }

  lemma HighStep(V: int, i: nat)
    requires V >= 0
    ensures High(V, i) == High(V, i + 1) * BASE + High(V, i) % BASE
  {
    hide Pow;
    PowPositive(BASE, i);
    PowStep(BASE, i);
    DivDiv(V, Pow(BASE, i), BASE);
    DivModBounds(High(V, i), BASE);
  }

  /** A bigit is what the next higher part leaves out. */
  lemma BigitAt(x: Bignum, i: nat)
    requires x.Valid()
    ensures High(x.Value(), i) == High(x.Value(), i + 1) * BASE + x.BigitOrZero(i) && 0 <= x.BigitOrZero(i) < BASE
  {
    hide Val, Pow, High;
    LengthBounds(x);
    HighStep(x.Value(), i);
    if i < x.exponent {
      HighOfHidden(x, i);
    } else if i >= x.BigitLength() {
      HighOfAll(x, i);
    } else {
      assert x.bigits[i - x.exponent] == x.Bigits()[i - x.exponent];
      HighOfMiddle(x.Bigits(), i - x.exponent, x.exponent);
    }
  }

  lemma HighOfHidden(x: Bignum, i: nat)
    requires x.Valid() && i < x.exponent
    ensures High(x.Value(), i) % BASE == 0
  {
    hide Val, Pow;
    var n := x.exponent - i - 1;
    PowAdd(BASE, n + 1, i);
    PowStep(BASE, n);
    PowPositive(BASE, i);
    MulAssoc(x.Mantissa(), Pow(BASE, n + 1), Pow(BASE, i));
    DivModUnique(x.Value(), Pow(BASE, i), x.Mantissa() * Pow(BASE, n + 1), 0);
    MulAssoc(x.Mantissa(), Pow(BASE, n), BASE);
    DivModUnique(x.Mantissa() * Pow(BASE, n + 1), BASE, x.Mantissa() * Pow(BASE, n), 0);
  }

  lemma HighOfAll(x: Bignum, i: nat)
    requires x.Valid() && i >= x.BigitLength()
    ensures High(x.Value(), i) == 0
  {
    hide Val, Pow;
    LengthBounds(x);
    PowMono(BASE, x.BigitLength(), i);
    DivModUnique(x.Value(), Pow(BASE, i), 0, x.Value());
  }

  lemma HighOfMiddle(s: seq<int>, j: nat, e: nat)
    requires j < |s| && IsDigits(s, BASE)
    ensures High(Val(s, BASE) * Pow(BASE, e), j + e) % BASE == s[j]
  {
    hide Val, Pow;
    var low, rest := Val(s[..j], BASE), Val(s[j + 1..], BASE);
    ValSplit(s, j, BASE);
    ValFirst(s[j..], BASE);
    assert s[j..][1..] == s[j + 1..];
    ValBound(s[..j], BASE);
    PowAdd(BASE, j, e);
    PowPositive(BASE, e);
    PowPositive(BASE, j + e);
    var top := s[j] + BASE * rest;
    Dist(low, Pow(BASE, j) * top, Pow(BASE, e));
    assert Pow(BASE, j) * top * Pow(BASE, e) == top * Pow(BASE, j + e) by {
      MulAssoc(top, Pow(BASE, j), Pow(BASE, e));
    }
    MulMono(Pow(BASE, e), 0, low);
    MulStrictMono(Pow(BASE, e), low, Pow(BASE, j));
    DivModUnique(Val(s, BASE) * Pow(BASE, e), Pow(BASE, j + e), top, low * Pow(BASE, e));
    DivModUnique(top, BASE, rest, s[j]);
  }

  /** Hidden bigits are zero. */
  lemma HighestOf(x: Bignum, i: nat)
    requires x.Valid() && i <= x.exponent
    ensures x.Value() == High(x.Value(), i) * Pow(BASE, i)
  {
    hide Val, Pow;
    PowPositive(BASE, i);
    PowAdd(BASE, x.exponent - i, i);
    MulAssoc(x.Mantissa(), Pow(BASE, x.exponent - i), Pow(BASE, i));
    DivModUnique(x.Value(), Pow(BASE, i), x.Mantissa() * Pow(BASE, x.exponent - i), 0);
  }

  lemma HigherIsLarger(V: int, W: int, i: nat)
    requires V >= 0 && W >= 0 && High(V, i) < High(W, i)
    ensures V < W
  {
    hide Pow, High;
    HighIs(V, i);
    HighIs(W, i);
    MulMono(Pow(BASE, i), High(V, i) + 1, High(W, i));
  }

  /** Negative, zero or positive. */
  method Compare(a: Bignum, b: Bignum) returns (c: int)
    requires a.Valid() && b.Valid()
    ensures c < 0 <==> a.Value() < b.Value()
    ensures c > 0 <==> a.Value() > b.Value()
  {
    hide Val, Pow, High;
    LengthBounds(a);
    LengthBounds(b);
    if a.BigitLength() < b.BigitLength() {
      PowMono(BASE, a.BigitLength(), b.BigitLength() - 1);
      return -1;
    }
    if a.BigitLength() > b.BigitLength() {
      PowMono(BASE, b.BigitLength(), a.BigitLength() - 1);
      return 1;
    }
    var low, i := Min(a.exponent, b.exponent), a.BigitLength();
    HighOfAll(a, i);
    HighOfAll(b, i);
    while i > low
      invariant low <= i && High(a.Value(), i) == High(b.Value(), i)
    {
      i := i - 1;
      BigitAt(a, i);
      BigitAt(b, i);
      var bigitA, bigitB := a.BigitOrZero(i), b.BigitOrZero(i);
      if bigitA < bigitB {
        HigherIsLarger(a.Value(), b.Value(), i);
        return -1;
      }
      if bigitA > bigitB {
        HigherIsLarger(b.Value(), a.Value(), i);
        return 1;
      }
    }
    HighestOf(a, low);
    HighestOf(b, low);
    c := 0;
  }

  /** The sum of two numbers without their lowest bigits decides, if it is not exactly as large or one less. */
  lemma PlusDecided(A: int, B: int, C: int, i: nat)
    requires A >= 0 && B >= 0 && C >= 0
    ensures High(A, i) + High(B, i) > High(C, i) ==> A + B > C
    ensures High(A, i) + High(B, i) + 2 <= High(C, i) ==> A + B < C
  {
    hide Pow, High;
    HighIs(A, i);
    HighIs(B, i);
    HighIs(C, i);
    var P, a, b, c := Pow(BASE, i), High(A, i), High(B, i), High(C, i);
    Dist(a, b, P);
    Dist(a, 1, P);
    Dist(b, 1, P);
    if a + b > c { MulMono(P, c + 1, a + b); }
    if a + b + 2 <= c {
      MulMono(P, a + b + 2, c);
      Dist(a + b, 2, P);
    }
  }

  /** Compares a + b with c: negative, zero or positive. */
  method PlusCompare(a: Bignum, b: Bignum, c: Bignum) returns (r: int)
    requires a.Valid() && b.Valid() && c.Valid()
    ensures r < 0 <==> a.Value() + b.Value() < c.Value()
    ensures r > 0 <==> a.Value() + b.Value() > c.Value()
    decreases a.BigitLength() < b.BigitLength()
  {
    hide Val, Pow, High;
    if a.BigitLength() < b.BigitLength() {
      r := PlusCompare(b, a, c);
      return;
    }
    LengthBounds(a);
    LengthBounds(b);
    LengthBounds(c);
    if a.BigitLength() + 1 < c.BigitLength() {
      OneLonger(a, b, c);
      return -1;
    }
    if a.BigitLength() > c.BigitLength() {
      PowMono(BASE, c.BigitLength(), a.BigitLength() - 1);
      return 1;
    }
    if a.exponent >= b.BigitLength() && a.BigitLength() < c.BigitLength() {
      NoOverlap(a, b, c);
      return -1;
    }
    r := PlusCompareBigits(a, b, c);
  }

  /** The same from the bigits: the borrow is what c has left over so far. */
  method PlusCompareBigits(a: Bignum, b: Bignum, c: Bignum) returns (r: int)
    requires a.Valid() && b.Valid() && c.Valid() && b.BigitLength() <= a.BigitLength() <= c.BigitLength()
    ensures r < 0 <==> a.Value() + b.Value() < c.Value()
    ensures r > 0 <==> a.Value() + b.Value() > c.Value()
  {
    hide Val, Pow, High;
    LengthBounds(a);
    LengthBounds(b);
    LengthBounds(c);
    var borrow := 0;
    var low, i := Min(Min(a.exponent, b.exponent), c.exponent), c.BigitLength();
    HighOfAll(a, i);
    HighOfAll(b, i);
    HighOfAll(c, i);
    while i > low
      invariant low <= i && 0 <= borrow <= 1
      invariant High(c.Value(), i) - High(a.Value(), i) - High(b.Value(), i) == borrow
    {
      i := i - 1;
      BigitAt(a, i);
      BigitAt(b, i);
      BigitAt(c, i);
      PlusDecided(a.Value(), b.Value(), c.Value(), i);
      var chunkA, chunkB, chunkC := a.BigitOrZero(i), b.BigitOrZero(i), c.BigitOrZero(i);
      var sum := chunkA + chunkB;
      if sum > chunkC + borrow * BASE {
        return 1;
      }
      borrow := chunkC + borrow * BASE - sum;
      if borrow > 1 {
        return -1;
      }
    }
    HighestOf(a, low);
    HighestOf(b, low);
    HighestOf(c, low);
    PlusAtLast(a.Value(), b.Value(), c.Value(), low, borrow);
    r := if borrow == 0 then 0 else -1;
  }

  lemma PlusAtLast(A: int, B: int, C: int, i: nat, borrow: int)
    requires A == High(A, i) * Pow(BASE, i) && B == High(B, i) * Pow(BASE, i) && C == High(C, i) * Pow(BASE, i)
    requires High(C, i) - High(A, i) - High(B, i) == borrow && 0 <= borrow <= 1
    ensures borrow == 0 ==> A + B == C
    ensures borrow == 1 ==> A + B < C
  {
    hide Pow, High;
    PowPositive(BASE, i);
    Dist(High(A, i), High(B, i), Pow(BASE, i));
    Dist(High(A, i) + High(B, i), borrow, Pow(BASE, i));
  }

  lemma OneLonger(a: Bignum, b: Bignum, c: Bignum)
    requires a.Valid() && b.Valid() && c.Valid() && b.BigitLength() <= a.BigitLength()
    requires a.BigitLength() + 1 < c.BigitLength()
    ensures a.Value() + b.Value() < c.Value()
  {
    hide Val, Pow;
    LengthBounds(a);
    LengthBounds(b);
    LengthBounds(c);
    PowMono(BASE, b.BigitLength(), a.BigitLength());
    PowMono(BASE, a.BigitLength() + 1, c.BigitLength() - 1);
    PowStep(BASE, a.BigitLength());
  }

  /** If b fits below the bigits of a, the sum is no longer than a. */
  lemma NoOverlap(a: Bignum, b: Bignum, c: Bignum)
    requires a.Valid() && b.Valid() && c.Valid() && a.exponent >= b.BigitLength()
    requires a.BigitLength() < c.BigitLength()
    ensures a.Value() + b.Value() < c.Value()
  {
    hide Val, Pow;
    LengthBounds(b);
    LengthBounds(c);
    ValBound(a.Bigits(), BASE);
    PowMono(BASE, b.BigitLength(), a.exponent);
    PowAdd(BASE, a.used, a.exponent);
    MulMono(Pow(BASE, a.exponent), a.Mantissa() + 1, Pow(BASE, a.used));
    Dist(a.Mantissa(), 1, Pow(BASE, a.exponent));
    PowMono(BASE, a.BigitLength(), c.BigitLength() - 1);
  }

  lemma NotNegative(x: int, P: int)
    requires P >= 1 && x * P >= 0
    ensures x >= 0
  {
    if x < 0 { MulMono(P, x, -1); }
  }

  /** Something is left to borrow from. */
  lemma EnoughLeft(s: seq<int>, low: seq<int>, borrow: int, D: int)
    requires |low| <= |s| && IsDigits(low, BASE) && borrow >= 1 && Val(s, BASE) >= D
    requires Val(low + [-borrow], BASE) == Val(s[..|low|], BASE) - D
    ensures |low| < |s|
  {
    hide Val, Pow;
    ValPush(low, -borrow, BASE);
    ValBound(low, BASE);
    if |low| == |s| {
      assert s[..|low|] == s;
      MulMono(Pow(BASE, |low|), -borrow, -1);
    }
  }

  lemma SmallBorrow(difference: int, borrow: int)
    requires difference < BASE && 0 <= borrow && 0 <= difference - borrow + BASE
    ensures (-borrow + difference) / BASE == if difference - borrow < 0 then -1 else 0
  {
  }

  lemma DifferenceComplete(s: seq<int>, t: seq<int>, end: nat, D: int)
    requires |t| == |s| && end <= |s| && IsDigits(s, BASE) && IsDigits(t[..end], BASE)
    requires forall i :: end <= i < |s| ==> t[i] == s[i]
    requires Val(t[..end], BASE) == Val(s[..end], BASE) - D
    ensures IsDigits(t, BASE) && Val(t, BASE) == Val(s, BASE) - D
  {
    hide Val, Pow;
    RestSame(s, t, end, -D);
    forall i | 0 <= i < |t| ensures 0 <= t[i] < BASE {
      if i < end { assert t[i] == t[..end][i]; }
    }
  }

  /** What a length says about a number. */
  lemma LengthBounds(x: Bignum)
    requires x.Valid()
    ensures 0 <= x.Value() < Pow(BASE, x.BigitLength())
    ensures x.used > 0 ==> x.Value() >= Pow(BASE, x.BigitLength() - 1) >= 1
    ensures x.used == 0 <==> x.Value() == 0
  {
    hide Val, Pow;
    ValBound(x.Bigits(), BASE);
    PowPositive(BASE, x.exponent);
    PowAdd(BASE, x.used, x.exponent);
    MulStrictMono(Pow(BASE, x.exponent), x.Mantissa(), Pow(BASE, x.used));
    MulMono(Pow(BASE, x.exponent), 0, x.Mantissa());
    StaysPositive(x);
    if x.used > 0 {
      PowAdd(BASE, x.used - 1, x.exponent);
      PowPositive(BASE, x.BigitLength() - 1);
      MulMono(Pow(BASE, x.exponent), Pow(BASE, x.used - 1), x.Mantissa());
    }
  }

  lemma SmallerIsShorter(x: Bignum, y: Bignum)
    requires x.Valid() && y.Valid() && x.Value() <= y.Value()
    ensures x.BigitLength() <= y.BigitLength()
  {
    hide Val, Pow;
    LengthBounds(x);
    LengthBounds(y);
    if x.BigitLength() > y.BigitLength() { PowMono(BASE, y.BigitLength(), x.BigitLength() - 1); }
  }

  function Max(a: nat, b: nat): nat { if a < b then b else a }

  function Min(a: nat, b: nat): nat { if a < b then a else b }

  /** The bigits of a sum, from those that changed. */
  lemma SumComplete(s: seq<int>, t: seq<int>, end: nat, D: int)
    requires |s| < CAPACITY && end <= CAPACITY && |t| == Max(end, |s|)
    requires IsDigits(s, BASE) && IsDigits(t[..end], BASE)
    requires Val(t[..end], BASE) == Val(Extended(s)[..end], BASE) + D
    requires forall i :: end <= i < |s| ==> t[i] == s[i]
    ensures IsDigits(t, BASE) && Val(t, BASE) == Val(s, BASE) + D
  {
    hide Val, Pow, Extended;
    var x := Extended(s);
    if end < |s| {
      assert x[..end] == s[..end] by { assert x[..|s|][..end] == x[..end]; }
      RestSame(s, t, end, D);
      forall i | 0 <= i < |t| ensures 0 <= t[i] < BASE {
        if i < end { assert t[i] == t[..end][i]; }
      }
    } else {
      ZeroTail(x[..end], |s|, BASE);
      assert x[..end][..|s|] == s && t[..end] == t;
    }
  }

  /** A sum has no zero bigit on top: it is as large as the longer operand. */
  lemma SumOnTop(s: seq<int>, o: seq<int>, t: seq<int>, off: nat)
    requires IsDigits(s, BASE) && IsDigits(o, BASE) && IsDigits(t, BASE)
    requires |s| > 0 ==> s[|s| - 1] != 0
    requires |o| > 0 ==> o[|o| - 1] != 0
    requires Val(t, BASE) == Val(s, BASE) + Val(o, BASE) * Pow(BASE, off)
    requires |t| > 0 && (|t| == |s| || (|o| > 0 && |t| == off + |o|))
    ensures t[|t| - 1] != 0
  {
    hide Val, Pow;
    OtherAtLeast(o, off);
    ValBound(s, BASE);
    if |t| == |s| { ValTop(s, BASE); }
    TopNotZero(t);
  }

  lemma OtherAtLeast(o: seq<int>, off: nat)
    requires IsDigits(o, BASE) && (|o| > 0 ==> o[|o| - 1] != 0)
    ensures Val(o, BASE) * Pow(BASE, off) >= 0
    ensures |o| > 0 ==> Val(o, BASE) * Pow(BASE, off) >= Pow(BASE, off + |o| - 1)
  {
    hide Val, Pow;
    ValBound(o, BASE);
    PowPositive(BASE, off);
    MulMono(Pow(BASE, off), 0, Val(o, BASE));
    if |o| > 0 {
      ValTop(o, BASE);
      PowAdd(BASE, |o| - 1, off);
      MulMono(Pow(BASE, off), Pow(BASE, |o| - 1), Val(o, BASE));
    }
  }

  lemma RestSame(s: seq<int>, t: seq<int>, end: nat, D: int)
    requires |t| == |s| && end <= |s| && forall i :: end <= i < |s| ==> t[i] == s[i]
    requires Val(t[..end], BASE) == Val(s[..end], BASE) + D
    ensures Val(t, BASE) == Val(s, BASE) + D
  {
    hide Val, Pow;
    assert t[end..] == s[end..];
    ValSplit(t, end, BASE);
    ValSplit(s, end, BASE);
  }

  lemma SumValue(M: int, O: int, e: nat, off: nat)
    ensures (M + O * Pow(BASE, off)) * Pow(BASE, e) == M * Pow(BASE, e) + O * Pow(BASE, off + e)
    ensures (M - O * Pow(BASE, off)) * Pow(BASE, e) == M * Pow(BASE, e) - O * Pow(BASE, off + e)
  {
    hide Pow;
    Dist(M, O * Pow(BASE, off), Pow(BASE, e));
    PowAdd(BASE, off, e);
    MulAssoc(O, Pow(BASE, off), Pow(BASE, e));
  }

  /** The bigits with zeros up to the capacity. */
  ghost function Extended(s: seq<int>): (x: seq<int>)
    requires |s| <= CAPACITY
    ensures |x| == CAPACITY && x[..|s|] == s && forall i :: |s| <= i < CAPACITY ==> x[i] == 0
  {
    s + Zeros(CAPACITY - |s|)
  }

  lemma ExtendedAt(s: seq<int>, i: nat)
    requires |s| <= CAPACITY && i < CAPACITY
    ensures Extended(s)[i] == if i < |s| then s[i] else 0
  {
    if i < |s| { assert Extended(s)[..|s|][i] == s[i]; }
  }

  lemma AddStep(x: seq<int>, o: seq<int>, i: nat, off: nat)
    requires i < |o| && off + i < |x|
    ensures Val(x[..off + i + 1], BASE) + Val(o[..i + 1], BASE) * Pow(BASE, off)
      == Val(x[..off + i], BASE) + Val(o[..i], BASE) * Pow(BASE, off) + (x[off + i] + o[i]) * Pow(BASE, off + i)
    ensures Val(x[..off + i + 1], BASE) - Val(o[..i + 1], BASE) * Pow(BASE, off)
      == Val(x[..off + i], BASE) - Val(o[..i], BASE) * Pow(BASE, off) + (x[off + i] - o[i]) * Pow(BASE, off + i)
  {
    hide Val, Pow;
    ValStep(x, off + i, BASE);
    ValStep(o, i, BASE);
    PowAdd(BASE, i, off);
    Dist(Val(o[..i], BASE), o[i] * Pow(BASE, i), Pow(BASE, off));
    MulAssoc(o[i], Pow(BASE, i), Pow(BASE, off));
    Dist(x[off + i], o[i], Pow(BASE, off + i));
  }

  lemma SmallCarry(sum: int, carry: int)
    requires 0 <= sum <= 2 * BASE - 2 && 0 <= carry <= 1
    ensures 0 <= (carry + sum) / BASE <= 1
  {
  }

  const FIVES: seq<int> := [5, 25, 125, 625, 3125, 15625, 78125, 390625, 1953125, 9765625, 48828125, 244140625]

  lemma FivePowers(i: nat)
    requires 1 <= i <= 12
    ensures FIVES[i - 1] == Pow(5, i) && Pow(5, 13) == 1220703125 && Pow(5, 27) == 0x6765_C793_FA10_079D
  {
    hide Pow;
    PowStep(5, 0); PowStep(5, 1); PowStep(5, 2); PowStep(5, 3); PowStep(5, 4); PowStep(5, 5); PowStep(5, 6);
    PowStep(5, 7); PowStep(5, 8); PowStep(5, 9); PowStep(5, 10); PowStep(5, 11); PowStep(5, 12); PowStep(5, 13);
    PowAdd(5, 14, 13);
  }

  /** Taking n of the fives that remain. */
  lemma FiveStep(x: Bignum, remaining: nat, n: nat, T: int, W: int)
    requires x.Valid() && n <= remaining && x.Mantissa() * Pow(5, remaining) == T && x.Value() * Pow(5, remaining) == W
    ensures (x.Mantissa() * Pow(5, n)) * Pow(5, remaining - n) == T
    ensures (x.Value() * Pow(5, n)) * Pow(5, remaining - n) == W
    ensures x.Mantissa() * Pow(5, n) <= T && (x.used > 0 ==> x.Mantissa() >= 1)
  {
    hide Val, Pow;
    StaysPositive(x);
    ValBound(x.Bigits(), BASE);
    PowAdd(5, n, remaining - n);
    PowPositive(5, n);
    PowPositive(5, remaining - n);
    MulAssoc(x.Mantissa(), Pow(5, n), Pow(5, remaining - n));
    MulAssoc(x.Value(), Pow(5, n), Pow(5, remaining - n));
    MulMono(Pow(5, n), 0, x.Mantissa());
    MulMono(x.Mantissa() * Pow(5, n), 1, Pow(5, remaining - n));
  }

  /** A number that is not zero has bigits. */
  lemma StaysPositive(x: Bignum)
    requires x.Valid()
    ensures x.used == 0 <==> x.Mantissa() == 0
    ensures x.used > 0 ==> x.Mantissa() >= Pow(BASE, x.used - 1) >= 1
  {
    if x.used == 0 {
      assert x.Bigits() == [];
    } else {
      ValTop(x.Bigits(), BASE);
      PowPositive(BASE, x.used - 1);
    }
  }

  lemma FitsBelow(x: Bignum, n: nat)
    requires x.Valid() && x.Mantissa() < Pow(BASE, n)
    ensures x.used <= n
  {
    hide Val, Pow;
    StaysPositive(x);
    if x.used > n { PowMono(BASE, n, x.used - 1); }
  }

  lemma NoPower(M: int, V: int, power: nat)
    ensures power == 0 ==> V == V * Pow(10, power) && M == M * Pow(5, power) * Pow(2, power % BIGIT_SIZE)
    ensures M == 0 && V == 0 ==> V * Pow(10, power) == 0 && M * Pow(5, power) * Pow(2, power % BIGIT_SIZE) == 0
  {
  }

  lemma TenIsTwoFive(V: int, power: nat)
    ensures (V * Pow(5, power)) * Pow(2, power) == V * Pow(10, power)
  {
    PowMulBase(5, 2, power);
    MulAssoc(V, Pow(5, power), Pow(2, power));
  }

  function Zeros(n: nat): (s: seq<int>)
    ensures |s| == n && forall i :: 0 <= i < n ==> s[i] == 0
  {
    if n == 0 then [] else Zeros(n - 1) + [0]
  }

  lemma CarryBelowBase(carry: int, S: int, T: int)
    requires 0 <= carry < S && T >= 1 && S * T == BASE
    ensures carry < BASE
  {
    MulMono(S, 1, T);
  }

  lemma ExponentZero(x: Bignum)
    requires x.Shaped() && x.exponent == 0
    ensures x.Value() == x.Mantissa()
  {
    PowStep(BASE, 0);
  }

  /** A word has at most three bigits. */
  lemma ThreeBigits(value: int, low: int, rest: int, used: nat)
    requires value == low + rest * Pow(BASE, used) && low >= 0 && rest >= 1 && value < W64
    ensures used < CAPACITY
  {
    if used >= CAPACITY {
      PowMono(BASE, 3, used);
      PowStep(BASE, 0);
      PowStep(BASE, 1);
      PowStep(BASE, 2);
      MulMono(Pow(BASE, used), 1, rest);
    }
  }

  /** Splitting the lowest bigit off what is left. */
  lemma SplitOff(r: int, P: int)
    requires r >= 1
    ensures r * P == (r % BASE) * P + (r / BASE) * (BASE * P)
    ensures 0 <= r / BASE < r && (r / BASE == 0 ==> r % BASE != 0)
  {
    DivModBounds(r, BASE);
    MulAssoc(r / BASE, BASE, P);
    Dist((r / BASE) * BASE, r % BASE, P);
  }

  /** Writing t % BASE and carrying t / BASE on top of the bigits low. */
  lemma Emitted(low: seq<int>, k: int, add: int, X: int)
    requires IsDigits(low, BASE) && Val(low + [k], BASE) == X
    ensures var t := k + add;
      && IsDigits(low + [t % BASE], BASE)
      && Val(low + [t % BASE] + [t / BASE], BASE) == X + add * Pow(BASE, |low|)
  {
    hide Val, Pow;
    var t := k + add;
    ValPush(low, k, BASE);
    ValPush(low, t % BASE, BASE);
    ValPush(low + [t % BASE], t / BASE, BASE);
    PowStep(BASE, |low|);
    CarryStep(Val(low, BASE), k, Pow(BASE, |low|), X, t, BASE);
  }

  lemma RoomForCarry(low: seq<int>, c: int, M: int, n: nat)
    requires IsDigits(low, BASE) && c >= 1 && Val(low + [c], BASE) == M && M < Pow(BASE, n)
    ensures |low| < n
  {
    hide Val, Pow;
    ValPush(low, c, BASE);
    ValBound(low, BASE);
    if |low| >= n {
      PowMono(BASE, n, |low|);
      MulMono(Pow(BASE, |low|), 1, c);
    }
  }

  /** What a product is, given the factor of the mantissa. */
  lemma Scaled(x: Bignum, factor: int)
    requires x.Shaped()
    ensures factor == 1 ==> x.Value() == x.Value() * factor && x.Mantissa() == x.Mantissa() * factor
    ensures factor == 0 ==> x.Value() * factor == 0 && x.Mantissa() * factor == 0
    ensures x.used == 0 ==> x.Mantissa() == 0 && x.Value() == 0
    ensures x.used == 0 ==> x.Value() * factor == 0 && x.Mantissa() * factor == 0
  {
    if x.used == 0 { assert x.Bigits() == []; }
  }

  lemma ScaledNow(x: Bignum, M: int, factor: int)
    requires x.Shaped() && x.Mantissa() == M * factor
    ensures x.Value() == (M * Pow(BASE, x.exponent)) * factor
  {
    var P := Pow(BASE, x.exponent);
    MulAssoc(M, factor, P);
    MulAssoc(M, P, factor);
  }

  lemma NothingDone(s: seq<int>, factor: int)
    ensures Val(s[..0], BASE) * factor == 0 && Val([] + [0], BASE) == 0
  {
    ValEmpty(0, BASE);
  }

  lemma CarryFitsWord(factor: int, x: int, carry: int)
    requires 0 <= factor < W32 && 0 <= x < BASE && 0 <= carry < W32
    ensures 0 <= factor * x + carry < W64 && (factor * x + carry) / BASE < W32
  {
    MulMono(x, 0, factor);
    MulMono(x, factor, W32 - 1);
    MulMono(W32 - 1, x, BASE - 1);
  }

  lemma TimesStep(s: seq<int>, i: nat, factor: int)
    requires i < |s|
    ensures Val(s[..i + 1], BASE) * factor == Val(s[..i], BASE) * factor + (factor * s[i]) * Pow(BASE, i)
  {
    ValStep(s, i, BASE);
    Dist(Val(s[..i], BASE), s[i] * Pow(BASE, i), factor);
    MulAssoc(factor, s[i], Pow(BASE, i));
  }

  /** A number that has not become smaller still has no zero bigit on top, unless there is a carry. */
  lemma GrownOnTop(s: seq<int>, t: seq<int>, carry: int, factor: int)
    requires IsDigits(s, BASE) && IsDigits(t, BASE) && |s| == |t| > 0 && s[|s| - 1] != 0 && factor >= 1
    requires Val(t + [carry], BASE) == Val(s, BASE) * factor
    ensures carry == 0 ==> t[|t| - 1] != 0
  {
    hide Val, Pow;
    ValTop(s, BASE);
    ValPush(t, carry, BASE);
    ValBound(s, BASE);
    MulMono(Val(s, BASE), 1, factor);
    if carry == 0 { TopNotZero(t); }
  }

  lemma TopNotZero(x: seq<int>)
    requires IsDigits(x, BASE) && |x| > 0 && Val(x, BASE) >= Pow(BASE, |x| - 1)
    ensures x[|x| - 1] != 0
  {
    ValBound(x[..|x| - 1], BASE);
  }

  /** Two products, with the halves of the factor, carry on what one wide product would. */
  method MultiplyHalves(factor: uint64, x: int, carry: uint64) returns (bigit: int, next: uint64)
    requires 0 <= x < BASE
    ensures bigit == (carry + factor * x) % BASE && next == (carry + factor * x) / BASE
  {
    HalvesFit(factor, x, carry);
    var low: uint64, high: uint64 := factor % W32, factor / W32;
    var productLow: uint64, productHigh: uint64 := low * x, high * x;
    var tmp: uint64 := carry % BASE + productLow;
    bigit := tmp % BASE;
    next := carry / BASE + tmp / BASE + productHigh * 16;
  }

  lemma HalvesFit(factor: int, x: int, carry: int)
    requires 0 <= factor < W64 && 0 <= x < BASE && 0 <= carry < W64
    ensures var low, high := factor % W32, factor / W32;
      var tmp := carry % BASE + low * x;
      && 0 <= low * x < W64 && 0 <= high * x && high * x * 16 < W64 && 0 <= tmp < W64
      && tmp % BASE == (carry + factor * x) % BASE
      && 0 <= carry / BASE + tmp / BASE + high * x * 16 == (carry + factor * x) / BASE < W64
  {
    var low, high := factor % W32, factor / W32;
    var tmp := carry % BASE + low * x;
    MulMono(x, 0, low);
    MulMono(x, low, W32 - 1);
    MulMono(W32 - 1, x, BASE - 1);
    MulMono(x, 0, high);
    MulMono(x, high, W32 - 1);
    MulMono(x, factor, W64 - 1);
    MulMono(W64 - 1, x, BASE - 1);
    assert factor * x == low * x + W32 * (high * x) by { Dist(high * W32, low, x); MulAssoc(W32, high, x); }
    DivModUnique(carry + factor * x, BASE, carry / BASE + tmp / BASE + high * x * 16, tmp % BASE);
  }

  /** A bigit is cut in two by a shift. */
  lemma BigitSplit(amount: nat)
    requires amount < BIGIT_SIZE
    ensures Pow(2, amount) >= 1 && Pow(2, BIGIT_SIZE - amount) >= 1
    ensures Pow(2, amount) * Pow(2, BIGIT_SIZE - amount) == BASE
  {
    hide Pow;
    PowPositive(2, amount);
    PowPositive(2, BIGIT_SIZE - amount);
    PowAdd(2, amount, BIGIT_SIZE - amount);
    BaseIsPower();
  }

  lemma BaseIsPower()
    ensures Pow(2, BIGIT_SIZE) == BASE
  {
    PowAdd(2, 14, 14);
    PowAdd(2, 7, 7);
  }

  /** Ten bits hold three digits. */
  lemma ThreeDigits(n: nat)
    ensures Pow(10, 3 * n) <= Pow(2, 10 * n)
  {
    hide Pow;
    PowStep(10, 0); PowStep(10, 1); PowStep(10, 2);
    PowAdd(2, 5, 5);
    PowStep(2, 0); PowStep(2, 1); PowStep(2, 2); PowStep(2, 3); PowStep(2, 4);
    PowPow(10, 3, n);
    PowPow(2, 10, n);
    PowBaseMono(1000, 1024, n);
  }

  lemma ShiftedBigit(x: int, carry: int, S: int, T: int)
    requires S >= 1 && T >= 1 && S * T == BASE && 0 <= x < BASE && 0 <= carry < S
    ensures (carry + S * x) % BASE == (x * S + carry) % BASE && (carry + S * x) / BASE == x / T < S
  {
    L.ShiftDigit(x, S, T, BASE);
    CarryOver(x * S, S * x, carry, x / T, S);
  }

  lemma CarryOver(p: int, p': int, carry: int, q: int, S: int)
    requires p == p' && p % BASE + q * BASE == p && 0 <= p % BASE <= BASE - S && 0 <= carry < S
    ensures (carry + p') % BASE == (p + carry) % BASE && (carry + p') / BASE == q
  {
    DivModUnique(carry + p, BASE, q, p % BASE + carry);
  }

  lemma ShiftedValue(M: int, e: nat, amount: nat)
    ensures (M * Pow(2, amount % BIGIT_SIZE)) * Pow(BASE, e + amount / BIGIT_SIZE)
      == (M * Pow(BASE, e)) * Pow(2, amount)
  {
    hide Pow;
    var q, r := amount / BIGIT_SIZE, amount % BIGIT_SIZE;
    BaseIsPower();
    PowPow(2, BIGIT_SIZE, q);
    PowAdd(2, r, BIGIT_SIZE * q);
    PowAdd(BASE, e, q);
    var R, Q, E := Pow(2, r), Pow(BASE, q), Pow(BASE, e);
    assert (M * R) * (E * Q) == (M * E) * (R * Q) by {
      MulAssoc(M, R, E * Q);
      MulAssoc(R, E, Q);
      MulAssoc(E, R, Q);
      MulAssoc(M, E, R * Q);
    }
  }

  method ReadUInt64(buffer: seq<int>, from: nat, digitsToRead: nat) returns (result: uint64)
    requires IsDecimal(buffer) && from + digitsToRead <= |buffer| && digitsToRead <= 19
    ensures result == Decimal(buffer[from..from + digitsToRead])
  {
    hide Pow, Decimal;
    result := 0;
    DecimalEmpty();
    assert buffer[from..from] == [];
    for i := from to from + digitsToRead
      invariant result == Decimal(buffer[from..i])
    {
      assert buffer[from..i + 1] == buffer[from..i] + [buffer[i]];
      DecimalPush(buffer[from..i], buffer[i]);
      DecimalBelow(buffer[from..i + 1]);
      PowMono(10, i + 1 - from, 19);
      NineteenDigits();
      result := result * 10 + buffer[i];
    }
  }

  lemma NineteenDigits()
    ensures Pow(10, 19) < W64
  {
    hide Pow;
    PowStep(10, 0); PowStep(10, 1); PowStep(10, 2); PowStep(10, 3); PowStep(10, 4);
    PowAdd(10, 5, 5);
    PowAdd(10, 5, 4);
    PowAdd(10, 10, 9);
  }

  lemma WordIsShort(x: Bignum)
    requires x.Valid() && x.Value() < W64
    ensures x.BigitLength() <= 3
  {
    hide Val, Pow;
    PowStep(BASE, 0);
    PowStep(BASE, 1);
    PowStep(BASE, 2);
    LengthBelow(x, 3);
  }

  lemma LengthBelow(x: Bignum, n: nat)
    requires x.Valid() && x.Value() < Pow(BASE, n)
    ensures x.BigitLength() <= n
  {
    hide Val, Pow;
    LengthBounds(x);
    if x.BigitLength() > n { PowMono(BASE, n, x.BigitLength() - 1); }
  }

  /** Appending digits to what is there stays within the power of ten of all digits. */
  lemma RoomForDigits(x: Bignum, value: seq<int>, pos: nat, count: nat)
    requires x.Valid() && IsDecimal(value) && pos + count <= |value|
    requires x.Value() == Decimal(value[..pos]) && Pow(10, |value|) <= Pow(BASE, x.bigits.Length - 2)
    ensures x.Mantissa() * Pow(5, count) < Pow(BASE, x.bigits.Length - 1)
    ensures x.Value() * Pow(10, count) < Pow(BASE, x.bigits.Length - 2)
    ensures Decimal(value[..pos + count]) == x.Value() * Pow(10, count) + Decimal(value[pos..pos + count])
  {
    hide Val, Pow, Decimal, IsDecimal;
    var limit := Pow(BASE, x.bigits.Length - 2);
    assert value[..pos + count] == value[..pos] + value[pos..pos + count];
    DecimalConcat(value[..pos], value[pos..pos + count]);
    StillDecimal(value, pos);
    DecimalBelow(value[..pos]);
    PowAdd(10, pos, count);
    PowPositive(10, count);
    MulStrictMono(Pow(10, count), Decimal(value[..pos]), Pow(10, pos));
    PowMono(10, pos + count, |value|);
    PowMono(BASE, x.bigits.Length - 2, x.bigits.Length - 1);
    MantissaBelow(x);
    FivesBelow(x.Mantissa(), x.Value(), count);
  }

  lemma StillDecimal(s: seq<int>, n: nat)
    requires IsDecimal(s) && n <= |s|
    ensures IsDecimal(s[..n])
  {
  }

  lemma MantissaBelow(x: Bignum)
    requires x.Valid()
    ensures 0 <= x.Mantissa() <= x.Value()
  {
    hide Val, Pow;
    ValBound(x.Bigits(), BASE);
    PowPositive(BASE, x.exponent);
    MulMono(x.Mantissa(), 1, Pow(BASE, x.exponent));
  }

  lemma FivesBelow(M: int, V: int, n: nat)
    requires 0 <= M <= V
    ensures M * Pow(5, n) <= V * Pow(10, n)
  {
    hide Pow;
    PowMulBase(5, 2, n);
    PowPositive(2, n);
    PowPositive(5, n);
    MulMono(Pow(5, n), 1, Pow(2, n));
    MulMono(Pow(5, n), M, V);
    MulMono(V, Pow(5, n), Pow(10, n));
  }
}
