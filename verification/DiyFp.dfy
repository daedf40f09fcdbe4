/** Floating-point numbers with a 64-bit significand: double-conversion/diy-fp.h. */
module DiyFps {
  import opened Arith

  const W32: int := 0x1_0000_0000
  const W64: int := 0x1_0000_0000_0000_0000

  type uint64 = x: int | 0 <= x < 0x1_0000_0000_0000_0000

  /** The product of two halves fits in a word. */
  lemma HalfProduct(x: int, y: int)
    requires 0 <= x < W32 && 0 <= y < W32
    ensures 0 <= x * y <= (W32 - 1) * (W32 - 1)
  {
    MulMono(y, 0, x);
    MulMono(y, x, W32 - 1);
    MulMono(W32 - 1, y, W32 - 1);
  }

  /** The four partial products make up the whole product. */
  lemma FourProducts(f: int, g: int)
    requires 0 <= f && 0 <= g
    ensures var a, b, c, d := f / W32, f % W32, g / W32, g % W32;
      f * g == (a * c) * W64 + (a * d + b * c) * W32 + b * d
  {
    var a, b, c, d := f / W32, f % W32, g / W32, g % W32;
    Dist(a * W32, b, g);
    Dist(c * W32, d, a * W32);
    Dist(c * W32, d, b);
  }

  /** Splitting the middle products does not change the rounded quotient. */
  lemma RoundedSplit(p: int, ac: int, ad: int, bc: int, bd: int, tmp: int)
    requires p == ac * W64 + (ad + bc) * W32 + bd && 0 <= ad && 0 <= bc && 0 <= bd
    requires tmp == bd / W32 + ad % W32 + bc % W32 + 0x8000_0000
    ensures (p + W64 / 2) / W64 == ac + ad / W32 + bc / W32 + tmp / W32
  {
  }

  /** A floating-point number f * 2^e whose operations work in place. */
  class DiyFp {
    var f: uint64
    var e: int

    constructor (significand: uint64, exponent: int)
      ensures f == significand && e == exponent
    {
      f := significand;
      e := exponent;
    }

    /** Subtracts a number of the same exponent. */
    method Subtract(other: DiyFp)
      requires e == other.e && f >= other.f
      modifies `f
      ensures f == old(f) - old(other.f)
    {
      f := f - other.f;
    }

    /** The upper half of the product, rounded to nearest, halves up. */
    method Multiply(other: DiyFp)
      modifies this
      ensures e == old(e) + old(other.e) + 64
      ensures f == (old(f) * old(other.f) + W64 / 2) / W64
    {
      var a: uint64, b: uint64 := f / W32, f % W32;
      var c: uint64, d: uint64 := other.f / W32, other.f % W32;
      HalfProduct(a, c);
      HalfProduct(b, c);
      HalfProduct(a, d);
      HalfProduct(b, d);
      var ac: uint64 := a * c;
      var bc: uint64 := b * c;
      var ad: uint64 := a * d;
      var bd: uint64 := b * d;
      var tmp: uint64 := bd / W32 + ad % W32 + bc % W32 + 0x8000_0000;
      FourProducts(f, other.f);
      RoundedSplit(f * other.f, ac, ad, bc, bd, tmp);
      e := e + other.e + 64;
      f := ac + ad / W32 + bc / W32 + tmp / W32;
    }

    /** Moves the most significant one bit to the top without changing the value. */
    method Normalize()
      requires f != 0
      modifies this
      ensures 0x8000_0000_0000_0000 <= f && e <= old(e) && f == old(f) * Pow(2, old(e) - e)
    {
      var significand: uint64, exponent := f, e;
      while significand < 0x40_0000_0000_0000
        invariant f == old(f) && e == old(e) && 0 < significand && exponent <= e
        invariant significand == f * Pow(2, e - exponent)
        decreases W64 - significand
      {
        PowAdd(2, e - exponent, 10);
        MulAssoc(f, Pow(2, e - exponent), Pow(2, 10));
        significand := significand * 1024;
        exponent := exponent - 10;
      }
      while significand < 0x8000_0000_0000_0000
        invariant f == old(f) && e == old(e) && 0 < significand && exponent <= e
        invariant significand == f * Pow(2, e - exponent)
        decreases W64 - significand
      {
        PowAdd(2, e - exponent, 1);
        MulAssoc(f, Pow(2, e - exponent), Pow(2, 1));
        significand := significand * 2;
        exponent := exponent - 1;
      }
      f := significand;
      e := exponent;
    }
  }

  method Times(a: DiyFp, b: DiyFp) returns (result: DiyFp)
    ensures fresh(result) && result.e == a.e + b.e + 64
    ensures result.f == (a.f * b.f + W64 / 2) / W64
  {
    result := new DiyFp(a.f, a.e);
    result.Multiply(b);
  }
}
