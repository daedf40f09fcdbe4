/** The parts of an IEEE double and the boundaries of its rounding interval: double-conversion/ieee.h. */
module Ieee {
  import opened Arith
  import opened DiyFps

  const HIDDEN_BIT: int := 0x10_0000_0000_0000
  const DENORMAL_EXPONENT: int := -1074

  /** A positive finite double f * 2^e. Denormals have the least exponent and no hidden bit. */
  datatype Double = Double(f: int, e: int)
  {
    ghost predicate Valid() {
      && 0 < f < 2 * HIDDEN_BIT && DENORMAL_EXPONENT <= e <= 971
      && (f < HIDDEN_BIT ==> e == DENORMAL_EXPONENT)
    }

    /** The next smaller double is only half as far as the next larger one. */
    predicate LowerBoundaryIsCloser() { f == HIDDEN_BIT && e != DENORMAL_EXPONENT }
  }

  /** The boundaries in quarters of the last place of v: halfway to the neighbours. */
  ghost function LowerQuarters(v: Double): int { if v.LowerBoundaryIsCloser() then 4 * v.f - 1 else 4 * v.f - 2 }

  ghost function UpperQuarters(v: Double): int { 4 * v.f + 2 }

  /** Shifts the significand up until its top bit is set; shift says by how much. */
  method AsNormalizedDiyFp(v: Double) returns (w: DiyFp, ghost shift: nat)
    requires v.Valid()
    ensures fresh(w) && 11 <= shift <= 63 && w.e == v.e - shift
    ensures w.f == v.f * Pow(2, shift) && 0x8000_0000_0000_0000 <= w.f
  {
    hide Pow;
    TwoTo52();
    PowStep(2, 0);
    var f, e := v.f, v.e;
    shift := 0;
    while f < HIDDEN_BIT
      invariant 0 < f < 2 * HIDDEN_BIT && f == v.f * Pow(2, shift) && e == v.e - shift
      invariant shift <= 52 && f >= Pow(2, shift)
      decreases 2 * HIDDEN_BIT - f
    {
      PowStep(2, shift);
      MulAssoc(v.f, 2, Pow(2, shift));
      f := f * 2;
      e := e - 1;
      shift := shift + 1;
    }
    PowAdd(2, shift, 11);
    MulAssoc(v.f, Pow(2, shift), Pow(2, 11));
    shift := shift + 11;
    w := new DiyFp(f * 2048, e - 11);
  }

  lemma TwoTo52()
    ensures Pow(2, 52) == HIDDEN_BIT && Pow(2, 11) == 2048 && Pow(2, 10) == 1024 && Pow(2, 9) == 512
  {
    PowAdd(2, 26, 26);
    PowAdd(2, 13, 13);
  }

  /** A number with its top bit at the top determines how far it was shifted. */
  lemma SameShift(n: int, s: nat, t: nat)
    requires n > 0 && W64 <= 2 * (n * Pow(2, s)) && n * Pow(2, s) < W64 && W64 <= 2 * (n * Pow(2, t))
    requires n * Pow(2, t) < W64
    ensures s == t
  {
    if s < t {
      HigherShift(n, s, t);
    } else if t < s {
      HigherShift(n, t, s);
    }
  }

  lemma HigherShift(n: int, s: nat, t: nat)
    requires n > 0 && s < t
    ensures n * Pow(2, t) >= 2 * (n * Pow(2, s))
  {
    PowMono(2, s + 1, t);
    PowStep(2, s);
    MulMono(n, 2 * Pow(2, s), Pow(2, t));
    MulAssoc(n, 2, Pow(2, s));
  }

  /** The boundaries, shifted as far as the double itself when it is normalized. */
  method NormalizedBoundaries(v: Double, ghost shift: nat) returns (mMinus: DiyFp, mPlus: DiyFp)
    requires v.Valid() && 11 <= shift <= 63 && 0x8000_0000_0000_0000 <= v.f * Pow(2, shift) < W64
    ensures fresh(mMinus) && fresh(mPlus) && mMinus.e == mPlus.e == v.e - shift
    ensures mPlus.f == UpperQuarters(v) * Pow(2, shift - 2) && mMinus.f == LowerQuarters(v) * Pow(2, shift - 2)
  {
    mPlus := new DiyFp(2 * v.f + 1, v.e - 1);
    mPlus.Normalize();
    UpperFits(v.f, shift);
    SameShift(2 * v.f + 1, v.e - 1 - mPlus.e, shift - 1);
    PowStep(2, shift - 2);
    MulAssoc(2 * v.f + 1, 2, Pow(2, shift - 2));
    ghost var p := Pow(2, shift - 2);
    LowerFits(v.f, shift, LowerQuarters(v));
    if v.LowerBoundaryIsCloser() {
      var f := ShiftLeft(4 * v.f - 1, v.e - 2 - mPlus.e);
      mMinus := new DiyFp(f, mPlus.e);
    } else {
      MulAssoc(2 * v.f - 1, 2, p);
      var f := ShiftLeft(2 * v.f - 1, v.e - 1 - mPlus.e);
      mMinus := new DiyFp(f, mPlus.e);
    }
  }

  method ShiftLeft(x: int, n: nat) returns (r: uint64)
    requires 0 <= x && x * Pow(2, n) < W64
    ensures r == x * Pow(2, n)
  {
    PowStep(2, 0);
    PowPositive(2, n);
    MulMono(x, 1, Pow(2, n));
    r := x;
    var i := 0;
    while i < n
      invariant i <= n && r == x * Pow(2, i)
    {
      PowStep(2, i);
      PowMono(2, i + 1, n);
      MulAssoc(x, 2, Pow(2, i));
      MulMono(x, 2 * Pow(2, i), Pow(2, n));
      r := r * 2;
      i := i + 1;
    }
  }

  /** Half a place above a number below 2^64 is still below it. */
  lemma UpperFits(f: int, shift: nat)
    requires f > 0 && 11 <= shift <= 63 && 0x8000_0000_0000_0000 <= f * Pow(2, shift) < W64
    ensures 0x8000_0000_0000_0000 <= (2 * f + 1) * Pow(2, shift - 1) < W64
  {
    hide Pow;
    PowAdd(2, shift, 64 - shift);
    TwoTo64();
    PowStep(2, shift - 1);
    PowPositive(2, shift - 1);
    HalfPlaceUp(f, Pow(2, shift - 1), Pow(2, 64 - shift));
  }

  lemma TwoTo64()
    ensures Pow(2, 64) == W64
  {
    PowAdd(2, 32, 32);
    PowAdd(2, 16, 16);
    PowAdd(2, 8, 8);
  }

  lemma HalfPlaceUp(f: int, p: int, q: int)
    requires f > 0 && p >= 1 && (2 * p) * q == W64 && 0x8000_0000_0000_0000 <= f * (2 * p) < W64
    ensures 0x8000_0000_0000_0000 <= (2 * f + 1) * p < W64
  {
    if f >= q { MulMono(2 * p, q, f); }
    MulMono(p, 2 * f + 1, 2 * q - 1);
    Dist(2 * f, 1, p);
    Dist(2 * q, 1, p);
  }

  lemma LowerFits(f: int, shift: nat, quarters: int)
    requires f > 0 && 11 <= shift && f * Pow(2, shift) < W64 && 0 <= quarters <= 4 * f
    ensures 0 <= quarters * Pow(2, shift - 2) < W64
  {
    PowStep(2, shift - 1);
    PowStep(2, shift - 2);
    var p := Pow(2, shift - 2);
    MulAssoc(f, 4, p);
    MulMono(p, 0, quarters);
    MulMono(p, quarters, 4 * f);
  }
}
