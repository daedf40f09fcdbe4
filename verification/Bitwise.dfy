/** LargeInteger And, Or and Xor: two's-complement results computed on sign-magnitude digits. */
module Bitwise {
  import opened Arith
  import opened Digits
  import opened LargeIntegers

  datatype BitOp = AndOp | OrOp | XorOp | AndNotOp | NotAndOp

  predicate Apply(op: BitOp, p: bool, q: bool)
  {
    match op
    case AndOp => p && q
    case OrOp => p || q
    case XorOp => p != q
    case AndNotOp => p && !q
    case NotAndOp => !p && q
  }

  /** Bit j of the infinite two's-complement representation of x; halving rounds down. */
  ghost predicate Bit(x: int, j: nat)
    decreases j
  {
    if j == 0 then x % 2 == 1 else Bit(x / 2, j - 1)
  }

  lemma {:induction false} BitMeaning(x: int, j: nat)
    ensures Pow(2, j) > 0 && (Bit(x, j) <==> (x / Pow(2, j)) % 2 == 1)
    decreases j
  {
    PowPositive(2, j);
    if j > 0 {
      BitMeaning(x / 2, j - 1);
      DivDiv(x, 2, Pow(2, j - 1));
    }
  }

  lemma {:induction false} BitOfZero(j: nat)
    ensures !Bit(0, j)
  {
    if j > 0 { BitOfZero(j - 1); }
  }

  /** Complement flips every bit. */
  lemma {:induction false} BitComplement(m: int, j: nat)
    ensures Bit(-m - 1, j) == !Bit(m, j)
    decreases j
  {
    if j > 0 {
      assert (-m - 1) / 2 == -(m / 2) - 1;
      BitComplement(m / 2, j - 1);
    }
  }

  /** Adding a multiple of 2^k leaves the bits below k alone. */
  lemma {:induction false} BitLow(x: int, q: int, k: nat, j: nat)
    requires j < k
    ensures Bit(x + Pow(2, k) * q, j) == Bit(x, j)
    decreases k
  {
    var p := Pow(2, k - 1) * q;
    MulAssoc(2, Pow(2, k - 1), q);
    assert x + Pow(2, k) * q == x + 2 * p;
    if j > 0 {
      assert (x + 2 * p) / 2 == x / 2 + p;
      BitLow(x / 2, q, k - 1, j - 1);
    }
  }

  lemma {:induction false} BitShifted(x: int, q: int, k: nat, j: nat)
    requires 0 <= x < Pow(2, k) && j >= k
    ensures Bit(x + Pow(2, k) * q, j) == Bit(q, j - k)
  {
    if k == 0 {
      assert Pow(2, 0) * q == q;
    } else {
      var p := Pow(2, k - 1) * q;
      MulAssoc(2, Pow(2, k - 1), q);
      assert (x + 2 * p) / 2 == x / 2 + p;
      BitShifted(x / 2, q, k - 1, j - 1);
    }
  }

  ghost predicate AllSet(m: int, k: nat)
  {
    forall j: nat :: j < k ==> Bit(m, j)
  }

  lemma {:induction false} OnesBit(k: nat, j: nat)
    requires j < k
    ensures Bit(Pow(2, k) - 1, j)
    decreases k
  {
    assert (Pow(2, k) - 1) / 2 == Pow(2, k - 1) - 1;
    if j > 0 { OnesBit(k - 1, j - 1); }
  }

  lemma {:induction false} OnesValue(m: int, k: nat)
    requires 0 <= m < Pow(2, k) && AllSet(m, k)
    ensures m == Pow(2, k) - 1
    decreases k
  {
    if k > 0 {
      assert Bit(m, 0);
      forall j: nat | j < k - 1 ensures Bit(m / 2, j) { assert Bit(m, j + 1); }
      OnesValue(m / 2, k - 1);
    }
  }

  /** k one bits below 2^k are worth 2^k - 1, and nothing else is. */
  lemma AllOnes(m: int, k: nat)
    requires 0 <= m < Pow(2, k)
    ensures m == Pow(2, k) - 1 <==> AllSet(m, k)
  {
    if m == Pow(2, k) - 1 {
      forall j: nat | j < k ensures Bit(m, j) { OnesBit(k, j); }
    } else if AllSet(m, k) {
      OnesValue(m, k);
    }
  }

  // ---- digit operations ----

  function BitsOp(op: BitOp, a: int, b: int, k: nat): int
    decreases k
  {
    if k == 0 then 0 else 2 * BitsOp(op, a / 2, b / 2, k - 1) + (if Apply(op, a % 2 == 1, b % 2 == 1) then 1 else 0)
  }

  function DigitNot(a: int, bits: nat): int { Pow(2, bits) - 1 - a }

  /** The digit expressions of the operations, built from and, or, exclusive or and complement. */
  function DigitApply(op: BitOp, x: int, y: int, bits: nat): int
  {
    match op
    case AndOp => BitsOp(AndOp, x, y, bits)
    case OrOp => BitsOp(OrOp, x, y, bits)
    case XorOp => BitsOp(XorOp, x, y, bits)
    case AndNotOp => BitsOp(AndOp, x, DigitNot(y, bits), bits)
    case NotAndOp => BitsOp(AndOp, DigitNot(x, bits), y, bits)
  }

  lemma {:induction false} BitsOpBit(op: BitOp, a: int, b: int, k: nat, j: nat)
    requires j < k
    ensures Bit(BitsOp(op, a, b, k), j) == Apply(op, Bit(a, j), Bit(b, j))
    decreases k
  {
    var r := BitsOp(op, a, b, k);
    assert r / 2 == BitsOp(op, a / 2, b / 2, k - 1);
    if j > 0 { BitsOpBit(op, a / 2, b / 2, k - 1, j - 1); }
  }

  lemma {:induction false} BitsOpRange(op: BitOp, a: int, b: int, k: nat)
    ensures 0 <= BitsOp(op, a, b, k) < Pow(2, k)
    decreases k
  {
    if k > 0 { BitsOpRange(op, a / 2, b / 2, k - 1); }
  }

  lemma NotBit(a: int, bits: nat, j: nat)
    requires j < bits
    ensures Bit(DigitNot(a, bits), j) == !Bit(a, j)
  {
    BitLow(-a - 1, 1, bits, j);
    BitComplement(a, j);
  }

  lemma DigitApplyBit(op: BitOp, x: int, y: int, bits: nat, j: nat)
    requires j < bits
    ensures Bit(DigitApply(op, x, y, bits), j) == Apply(op, Bit(x, j), Bit(y, j))
  {
    NotBit(x, bits, j);
    NotBit(y, bits, j);
    BitsOpBit(if op.AndNotOp? || op.NotAndOp? then AndOp else op, if op.NotAndOp? then DigitNot(x, bits) else x,
      if op.AndNotOp? then DigitNot(y, bits) else y, bits, j);
  }

  lemma DigitApplyRange(op: BitOp, x: int, y: int, bits: nat)
    ensures 0 <= DigitApply(op, x, y, bits) < Pow(2, bits)
  {
    BitsOpRange(if op.AndNotOp? || op.NotAndOp? then AndOp else op, if op.NotAndOp? then DigitNot(x, bits) else x,
      if op.AndNotOp? then DigitNot(y, bits) else y, bits);
  }

  /** A bit of a number is a bit of one of its digits. */
  lemma {:induction false} BitOfDigits(s: seq<int>, bits: nat, i: nat, j: nat)
    requires bits >= 1 && IsDigits(s, Pow(2, bits)) && j < bits
    ensures Bit(Val(s, Pow(2, bits)), i * bits + j) == (if i < |s| then Bit(s[i], j) else false)
    decreases |s|
  {
    var B := Pow(2, bits);
    PowPositive(2, bits);
    if |s| == 0 {
      BitOfZero(i * bits + j);
    } else {
      ValFirst(s, B);
      ValBound(s[1..], B);
      if i == 0 {
        BitLow(s[0], Val(s[1..], B), bits, j);
      } else {
        assert i * bits + j - bits == (i - 1) * bits + j >= 0 by { Dist(i, 1, bits); MulMono(bits, 1, i); }
        BitShifted(s[0], Val(s[1..], B), bits, i * bits + j);
        BitOfDigits(s[1..], bits, i - 1, j);
      }
    }
  }

  /** r is op applied to the digits of x and y. */
  ghost predicate Pointwise(x: seq<int>, y: seq<int>, r: seq<int>, op: BitOp, bits: nat)
  {
    |x| == |y| == |r| && forall i :: 0 <= i < |r| ==> r[i] == DigitApply(op, x[i], y[i], bits)
  }

  /** Applying op to matching digits applies it to every bit of the numbers. */
  lemma CombinedBit(x: seq<int>, y: seq<int>, r: seq<int>, op: BitOp, bits: nat, j: nat)
    requires bits >= 1 && |x| == |y| == |r|
    requires IsDigits(x, Pow(2, bits)) && IsDigits(y, Pow(2, bits)) && IsDigits(r, Pow(2, bits))
    requires Pointwise(x, y, r, op, bits)
    ensures var B := Pow(2, bits); Bit(Val(r, B), j) == Apply(op, Bit(Val(x, B), j), Bit(Val(y, B), j))
  {
    var i, e := j / bits, j % bits;
    DivModBounds(j, bits);
    assert j == i * bits + e;
    BitOfDigits(x, bits, i, e);
    BitOfDigits(y, bits, i, e);
    BitOfDigits(r, bits, i, e);
    if i < |r| { DigitApplyBit(op, x[i], y[i], bits, e); }
  }

  // ---- the operations ----

  /** Whether every bit of r is op of the matching bits of a and b. */
  ghost predicate IsBitwise(op: BitOp, a: int, b: int, r: int)
  {
    forall j: nat :: Bit(r, j) == Apply(op, Bit(a, j), Bit(b, j))
  }

  /**
   * Room for the result in as many bits as the longer operand has: a negative result must have a one bit
   * below them, or its magnitude needs a digit that the result does not have.
   */
  ghost predicate BitwiseFits(op: BitOp, a: int, b: int, width: nat)
  {
    Apply(op, a < 0, b < 0) ==> exists j: nat :: j < width && Apply(op, Bit(a, j), Bit(b, j))
  }

  /** What the digit loop leaves for operands with so many bits: the right result where it fits, and zero elsewhere. */
  ghost predicate BitwiseComputed(op: BitOp, a: int, b: int, v: int, width: nat)
  {
    && (IsBitwise(op, a, b, v) <==> BitwiseFits(op, a, b, width))
    && (!BitwiseFits(op, a, b, width) ==> v == 0)
  }

  /** A magnitude, less one when the number is negative: its bits are those of the number or their complements. */
  ghost function Plain(a: int): int { if a < 0 then -a - 1 else a }

  lemma PlainBit(a: int, j: nat)
    ensures Plain(a) >= 0 && Bit(Plain(a), j) == (Bit(a, j) != (a < 0))
  {
    if a < 0 { BitComplement(Plain(a), j); }
  }

  /**
   * Writes the digits of |x| - 1 for a negative x and of x otherwise, one digit per call, borrow carried between calls.
   */
  ghost predicate Decremented(done: seq<int>, x: seq<int>, borrow: int, negative: bool, B: nat)
    requires |done| <= |x|
  {
    && IsDigits(done, B) && -1 <= borrow <= 0
    && Val(done + [borrow], B) == Val(x[..|done|], B) - (if negative then 1 else 0)
  }

  lemma DecrementStep(done: seq<int>, x: seq<int>, borrow: int, negative: bool, B: nat)
    requires B >= 2 && |done| < |x| && IsDigits(x, B) && Decremented(done, x, borrow, negative, B)
    ensures var t := borrow + x[|done|]; Decremented(done + [t % B], x, t / B, negative, B)
  {
    var i := |done|;
    var t := borrow + x[i];
    CarryIsBit(t, B);
    ValPush(done, borrow, B);
    ValPush(done, t % B, B);
    ValPush(done + [t % B], t / B, B);
    CarryStep(Val(done, B), borrow, Pow(B, i), Val(done + [borrow], B), t, B);
    ValStep(x, i, B);
    assert x[..|done + [t % B]|] == x[..i + 1];
  }

  method BorrowStep(ghost done: seq<int>, ghost x: seq<int>, borrow: int, digit: int, ghost negative: bool, B: nat)
    returns (e: int, borrow': int)
    requires B >= 2 && |done| < |x| && IsDigits(x, B) && Decremented(done, x, borrow, negative, B) && digit == x[|done|]
    ensures 0 <= e < B && Decremented(done + [e], x, borrow', negative, B)
  {
    DecrementStep(done, x, borrow, negative, B);
    e, borrow' := (borrow + digit) % B, (borrow + digit) / B;
  }

  /** Adds digit e to the carry and stores it at index i. */
  method CarryStepInto(d: array<int>, i: nat, carry: int, e: int, ghost r: seq<int>, ghost one: int, B: nat)
    returns (carry': int)
    requires B >= 2 && i == |r| < d.Length && IsDigits(d[..i], B) && 0 <= carry <= 1 && 0 <= e < B
    requires Val(d[..i] + [carry], B) == Val(r, B) + one
    modifies d
    ensures 0 <= carry' <= 1 && IsDigits(d[..i + 1], B)
    ensures Val(d[..i + 1] + [carry'], B) == Val(r + [e], B) + one
  {
    ValPush(r, e, B);
    CarryIsBit(carry + e, B);
    carry' := EmitDigit(d, i, carry, e, Val(r, B) + one, Val(r + [e], B) + one, B);
  }

  lemma DecrementDone(done: seq<int>, x: seq<int>, borrow: int, negative: bool, B: nat)
    requires B >= 2 && |done| == |x| && IsDigits(x, B) && Decremented(done, x, borrow, negative, B)
    requires negative ==> Val(x, B) > 0
    ensures Val(done, B) == Val(x, B) - (if negative then 1 else 0)
  {
    assert x[..|x|] == x;
    ValBound(x, B);
    ZeroOnTop(done, borrow, B);
  }

  /** What the loop has written so far, digit by digit. */
  ghost predicate Combined(x: seq<int>, y: seq<int>, r: seq<int>, s: seq<int>, l: seq<int>, sb: int, lb: int,
                           sn: bool, ln: bool, g: BitOp, bits: nat, B: nat)
  {
    && |x| == |y| == |r| <= |s| == |l| && IsDigits(r, B)
    && Decremented(x, s, sb, sn, B) && Decremented(y, l, lb, ln, B)
    && Pointwise(x, y, r, g, bits)
  }

  ghost function Padded(s: seq<int>, n: nat): (t: seq<int>)
    requires |s| <= n
    ensures |t| == n && t[..|s|] == s && forall i :: |s| <= i < n ==> t[i] == 0
  {
    s + seq(n - |s|, _ => 0)
  }

  lemma CombineStart(s: seq<int>, l: seq<int>, sb: int, lb: int, sn: bool, ln: bool, B: nat)
    requires B >= 2 && sb == (if sn then -1 else 0) && lb == (if ln then -1 else 0)
    ensures Decremented([], s, sb, sn, B) && Decremented([], l, lb, ln, B)
  {
    ValPush([], sb, B);
    ValPush([], lb, B);
  }

  lemma DecrementIsPlain(done: seq<int>, digits: seq<int>, n: nat, borrow: int, negative: bool, B: nat)
    requires B >= 2 && |digits| <= n == |done| && IsDigits(digits, B)
    requires Decremented(done, Padded(digits, n), borrow, negative, B)
    requires negative ==> Val(digits, B) > 0
    ensures Val(done, B) == Plain(Signed(negative, digits, B))
  {
    var s := Padded(digits, n);
    ZeroTail(s, |digits|, B);
    ValBound(digits, B);
    DecrementDone(done, s, borrow, negative, B);
  }

  lemma DropCarry(d: seq<int>, carry: int, r: seq<int>, one: int, B: nat, R: int, limit: int)
    requires B >= 2 && IsDigits(d, B) && IsDigits(r, B) && |r| == |d| && 0 <= carry <= 1 && 0 <= one <= 1
    requires R == Val(r, B) && limit == Pow(B, |r|) && Val(d + [carry], B) == R + one
    ensures Val(d, B) == DroppedCarry(R + one, limit)
  {
    ValPush(d, carry, B);
    ValBound(d, B);
    ValBound(r, B);
  }

  ghost function DroppedCarry(v: int, limit: int): int
  {
    if v == limit then 0 else v
  }

  method CombineOne(ghost x: seq<int>, ghost y: seq<int>, ghost r: seq<int>, ghost s: seq<int>, ghost l: seq<int>,
                    sb: int, lb: int, ghost sn: bool, ghost ln: bool, sd: int, ld: int, k: int, g: BitOp,
                    d: array<int>, i: nat, ghost one: int, B: nat, bits: nat)
    returns (ghost x': seq<int>, ghost y': seq<int>, ghost r': seq<int>, sb': int, lb': int, k': int)
    requires bits >= 1 && B == Pow(2, bits) && B >= 2
    requires Combined(x, y, r, s, l, sb, lb, sn, ln, g, bits, B) && IsDigits(s, B) && IsDigits(l, B)
    requires |r| == i < |s| && i < d.Length && sd == s[i] && ld == l[i]
    requires 0 <= k <= 1 && IsDigits(d[..i], B) && Val(d[..i] + [k], B) == Val(r, B) + one
    modifies d
    ensures |r'| == i + 1 && Combined(x', y', r', s, l, sb', lb', sn, ln, g, bits, B)
    ensures 0 <= k' <= 1 && IsDigits(d[..i + 1], B) && Val(d[..i + 1] + [k'], B) == Val(r', B) + one
  {
    var s1, l1;
    s1, sb' := BorrowStep(x, s, sb, sd, sn, B);
    l1, lb' := BorrowStep(y, l, lb, ld, ln, B);
    var e := DigitApply(g, s1, l1, bits);
    DigitApplyRange(g, s1, l1, bits);
    k' := CarryStepInto(d, i, k, e, r, one, B);
    x', y', r' := x + [s1], y + [l1], r + [e];
  }

  /**
   * The digit loop shared by the sign cases: a negative operand has one subtracted on the fly, matching digits go
   * through g, and a negative result has one added on the fly. The carry out of the top digit is dropped.
   */
  method CombineDigits(shorter: LargeInteger, longer: LargeInteger, g: BitOp, negative: bool, d: array<int>, B: nat,
                       bits: nat, ghost s: seq<int>, ghost l: seq<int>)
    returns (ghost x: seq<int>, ghost y: seq<int>, ghost r: seq<int>, ghost sb: int, ghost lb: int, ghost k: int)
    requires bits >= 1 && B == Pow(2, bits) && B >= 2 && shorter.size <= longer.size
    requires shorter.size <= shorter.digits.Length && longer.size <= longer.digits.Length
    requires |s| == |l| == longer.size && IsDigits(s, B) && IsDigits(l, B)
    requires forall i :: 0 <= i < longer.size ==> s[i] == if i < shorter.size then shorter.digits[i] else 0
    requires forall i :: 0 <= i < longer.size ==> l[i] == longer.digits[i]
    requires d.Length == longer.size && d != shorter.digits && d != longer.digits
    modifies d
    ensures |r| == longer.size && Combined(x, y, r, s, l, sb, lb, shorter.negative, longer.negative, g, bits, B)
    ensures 0 <= k <= 1 && IsDigits(d[..], B) && Val(d[..] + [k], B) == Val(r, B) + (if negative then 1 else 0)
  {
    x, y, r := [], [], [];
    var sBorrow := if shorter.negative then -1 else 0;
    var lBorrow := if longer.negative then -1 else 0;
    var carry := if negative then 1 else 0;
    ghost var one := carry;
    CombineStart(s, l, sBorrow, lBorrow, shorter.negative, longer.negative, B);
    assert d[..0] + [carry] == [] + [carry];
    ValPush([], carry, B);
    for i := 0 to longer.size
      invariant |r| == i && Combined(x, y, r, s, l, sBorrow, lBorrow, shorter.negative, longer.negative, g, bits, B)
      invariant 0 <= carry <= 1 && IsDigits(d[..i], B) && Val(d[..i] + [carry], B) == Val(r, B) + one
    {
      x, y, r, sBorrow, lBorrow, carry := CombineOne(x, y, r, s, l, sBorrow, lBorrow, shorter.negative, longer.negative,
        if i < shorter.size then shorter.digits[i] else 0, longer.digits[i], carry, g, d, i, one, B, bits);
    }
    assert d[..longer.size] == d[..];
    sb, lb, k := sBorrow, lBorrow, carry;
  }

  lemma BitwiseBits(op: BitOp, g: BitOp, a: int, b: int, x: seq<int>, y: seq<int>, r: seq<int>, bits: nat, j: nat)
    requires bits >= 1 && |x| == |y| == |r|
    requires IsDigits(x, Pow(2, bits)) && IsDigits(y, Pow(2, bits)) && IsDigits(r, Pow(2, bits))
    requires Pointwise(x, y, r, g, bits)
    requires Val(x, Pow(2, bits)) == Plain(a) && Val(y, Pow(2, bits)) == Plain(b)
    requires Apply(g, Bit(a, j) != (a < 0), Bit(b, j) != (b < 0))
      == (Apply(op, Bit(a, j), Bit(b, j)) != Apply(op, a < 0, b < 0))
    ensures Bit(Val(r, Pow(2, bits)), j) == (Apply(op, Bit(a, j), Bit(b, j)) != Apply(op, a < 0, b < 0))
  {
    CombinedBit(x, y, r, g, bits, j);
    PlainBit(a, j);
    PlainBit(b, j);
  }

  /** g is op seen through the complements that negative operands and a negative result stand for. */
  ghost predicate Through(g: BitOp, op: BitOp, a: bool, b: bool)
  {
    && Apply(g, false, false) == (Apply(op, a, b) != Apply(op, a, b))
    && Apply(g, false, true) == (Apply(op, a, !b) != Apply(op, a, b))
    && Apply(g, true, false) == (Apply(op, !a, b) != Apply(op, a, b))
    && Apply(g, true, true) == (Apply(op, !a, !b) != Apply(op, a, b))
  }

  /** R is the plain (complement-corrected) result of op. */
  ghost predicate PlainResult(op: BitOp, a: int, b: int, R: int)
  {
    forall j: nat :: Bit(R, j) == (Apply(op, Bit(a, j), Bit(b, j)) != Apply(op, a < 0, b < 0))
  }

  lemma RoomMeansBitwise(op: BitOp, a: int, b: int, R: int, width: nat)
    requires 0 <= R < Pow(2, width) && PlainResult(op, a, b, R)
    requires Apply(op, a < 0, b < 0) ==> R + 1 != Pow(2, width)
    ensures IsBitwise(op, a, b, if Apply(op, a < 0, b < 0) then -(R + 1) else R) && BitwiseFits(op, a, b, width)
  {
    var v := if Apply(op, a < 0, b < 0) then -(R + 1) else R;
    forall j: nat ensures Bit(v, j) == Apply(op, Bit(a, j), Bit(b, j)) {
      assert Bit(R, j) == (Apply(op, Bit(a, j), Bit(b, j)) != Apply(op, a < 0, b < 0));
      if Apply(op, a < 0, b < 0) { BitComplement(R, j); }
    }
    if Apply(op, a < 0, b < 0) {
      AllOnes(R, width);
      var j: nat :| j < width && !Bit(R, j);
      assert Apply(op, Bit(a, j), Bit(b, j));
    }
  }

  lemma NoRoomMeansWrong(op: BitOp, a: int, b: int, R: int, width: nat)
    requires 0 <= R && R + 1 == Pow(2, width) && PlainResult(op, a, b, R) && Apply(op, a < 0, b < 0) && !Bit(R, width)
    ensures !IsBitwise(op, a, b, 0) && !BitwiseFits(op, a, b, width)
  {
    AllOnes(R, width);
    BitOfZero(width);
    assert Apply(op, Bit(a, width), Bit(b, width));
    forall j: nat | j < width ensures !Apply(op, Bit(a, j), Bit(b, j)) { assert Bit(R, j); }
  }

  /** -1 and 2^width - 1 agree below width: their exclusive or, -2^width, has a magnitude that does not fit. */
  lemma XorCanFail(width: nat)
    ensures !BitwiseFits(XorOp, -1, Pow(2, width) - 1, width)
    ensures IsBitwise(XorOp, -1, Pow(2, width) - 1, 0 - Pow(2, width))
  {
    var b := Pow(2, width) - 1;
    PowPositive(2, width);
    forall j: nat ensures Bit(-1, j) && Bit(-b - 1, j) == !Bit(b, j) {
      BitOfZero(j);
      BitComplement(0, j);
      BitComplement(b, j);
    }
    forall j: nat | j < width ensures Bit(b, j) { OnesBit(width, j); }
  }

  /** -2 and 1 - 2^width have no common one bit below width: the same happens to their conjunction. */
  lemma AndCanFail(width: nat)
    requires width > 0
    ensures !BitwiseFits(AndOp, -2, 1 - Pow(2, width), width)
    ensures IsBitwise(AndOp, -2, 1 - Pow(2, width), 0 - Pow(2, width))
  {
    var b, half: int := 1 - Pow(2, width), Pow(2, width - 1);
    PowPositive(2, width - 1);
    PowStep(2, width - 1);
    assert b / 2 == -half && (0 - Pow(2, width)) / 2 == -half;
    forall j: nat
      ensures Apply(AndOp, Bit(-2, j), Bit(b, j)) == Bit(-2 * half, j) && (j < width ==> !Bit(-2 * half, j))
    {
      if j > 0 {
        BitOfZero(j - 1);
        BitComplement(0, j - 1);
        BitComplement(half - 1, j - 1);
        if j < width { OnesBit(width - 1, j - 1); }
      }
    }
  }

  lemma PlainResultHolds(op: BitOp, g: BitOp, a: int, b: int, x: seq<int>, y: seq<int>, r: seq<int>, bits: nat, B: nat)
    requires bits >= 1 && B == Pow(2, bits) && Pointwise(x, y, r, g, bits)
    requires IsDigits(x, B) && IsDigits(y, B) && IsDigits(r, B) && Val(x, B) == Plain(a) && Val(y, B) == Plain(b)
    requires Through(g, op, a < 0, b < 0)
    ensures PlainResult(op, a, b, Val(r, B))
  {
    forall j: nat ensures Bit(Val(r, B), j) == (Apply(op, Bit(a, j), Bit(b, j)) != Apply(op, a < 0, b < 0)) {
      BitwiseBits(op, g, a, b, x, y, r, bits, j);
    }
  }

  /** The bits the digits of r can hold. */
  lemma DigitWidth(r: seq<int>, bits: nat, B: nat, limit: int, width: nat)
    requires bits >= 1 && B == Pow(2, bits) && IsDigits(r, B) && width == bits * |r| && limit == Pow(B, |r|)
    ensures limit == Pow(2, width)
    ensures 0 <= Val(r, B) < limit && !Bit(Val(r, B), width)
  {
    PowPositive(2, bits);
    ValBound(r, B);
    PowPow(2, bits, |r|);
    BitOfDigits(r, bits, |r|, 0);
    assert |r| * bits + 0 == width;
  }

  /** The digit loop computes the bitwise operation exactly when the result fits. */
  lemma BitwiseCorrect(op: BitOp, a: int, b: int, R: int, v: int, width: nat)
    requires 0 <= R < Pow(2, width) && PlainResult(op, a, b, R) && !Bit(R, width)
    requires v == if Apply(op, a < 0, b < 0) then -DroppedCarry(R + 1, Pow(2, width)) else R
    ensures BitwiseComputed(op, a, b, v, width)
  {
    if Apply(op, a < 0, b < 0) && R + 1 == Pow(2, width) {
      NoRoomMeansWrong(op, a, b, R, width);
    } else {
      RoomMeansBitwise(op, a, b, R, width);
    }
  }

  method CombineInto(left: LargeInteger, right: LargeInteger, d: array<int>, g: BitOp, negative: bool, bits: nat,
                     B: nat,
                     ghost op: BitOp)
    requires bits >= 1 && B == Pow(2, bits) && B >= 2 && left.Valid(B) && right.Valid(B) && left.size <= right.size
    requires negative == Apply(op, left.negative, right.negative) && Through(g, op, left.negative, right.negative)
    requires d.Length == right.size && d != left.digits && d != right.digits
    modifies d
    ensures IsDigits(d[..], B)
    ensures BitwiseComputed(op, left.Value(B), right.Value(B), Signed(negative, d[..], B), bits * right.size)
  {
    ghost var ld, rd, a, b := left.digits[..left.size], right.digits[..right.size], left.Value(B), right.Value(B);
    assert (a < 0 <==> left.negative) && (b < 0 <==> right.negative) by {
      AbsRange(left, B);
      AbsRange(right, B);
    }
    assert a == Signed(a < 0, ld, B) && b == Signed(b < 0, rd, B);
    ghost var x, y, r, lb, rb, k := CombineDigits(left, right, g, negative, d, B, bits,
      Padded(ld, right.size), Padded(rd, right.size));
    assert left.Value(B) == a && right.Value(B) == b;
    MulMono(right.size, 0, bits);
    CombineValue(x, y, r, ld, rd, lb, rb, k, g, d[..], op, a, b, Signed(negative, d[..], B), B, bits,
      Val(r, B), Pow(B, right.size), bits * right.size);
  }

  /** One of And, Or and Xor: g is chosen by the signs of the operands. */
  method Combine(left: LargeInteger, right: LargeInteger, g: BitOp, negative: bool, bits: nat, B: nat, ghost op: BitOp)
    returns (result: LargeInteger)
    requires bits >= 1 && B == Pow(2, bits) && B >= 2 && left.Valid(B) && right.Valid(B) && left.size <= right.size
    requires negative == Apply(op, left.negative, right.negative) && Through(g, op, left.negative, right.negative)
    ensures fresh(result) && fresh(result.digits) && result.Valid(B)
    ensures BitwiseComputed(op, left.Value(B), right.Value(B), result.Value(B), bits * right.size)
  {
    result := new LargeInteger(right.size);
    result.negative := negative;
    CombineInto(left, right, result.digits, g, negative, bits, B, op);
    assert result.digits[..result.size] == result.digits[..];
    Clamp(result, B);
  }

  /** The number v the digit loop leaves for operands a and b, and when it is the right one. */
  lemma CombineValue(x: seq<int>, y: seq<int>, r: seq<int>, ld: seq<int>, rd: seq<int>, lb: int, rb: int, k: int,
                     g: BitOp, d: seq<int>, op: BitOp, a: int, b: int, v: int, B: nat, bits: nat, R: int, limit: int,
                     width: nat)
    requires bits >= 1 && B == Pow(2, bits) && B >= 2 && |ld| <= |rd| == |r| == |d| && IsDigits(ld, B)
    requires IsDigits(rd, B)
    requires Combined(x, y, r, Padded(ld, |rd|), Padded(rd, |rd|), lb, rb, a < 0, b < 0, g, bits, B)
    requires a == Signed(a < 0, ld, B) && b == Signed(b < 0, rd, B) && v == Signed(Apply(op, a < 0, b < 0), d, B)
    requires R == Val(r, B) && limit == Pow(B, |r|) && width == bits * |r|
    requires 0 <= k <= 1 && IsDigits(d, B) && Val(d + [k], B) == R + (if Apply(op, a < 0, b < 0) then 1 else 0)
    requires Through(g, op, a < 0, b < 0)
    ensures BitwiseComputed(op, a, b, v, width)
  {
    var m := Val(d, B);
    assert Val(x, B) == Plain(a) by { DecrementIsPlain(x, ld, |rd|, lb, a < 0, B); }
    assert Val(y, B) == Plain(b) by { DecrementIsPlain(y, rd, |rd|, rb, b < 0, B); }
    DropCarry(d, k, r, if Apply(op, a < 0, b < 0) then 1 else 0, B, R, limit);
    CombineSpec(x, y, r, a, b, g, m, v, op, B, bits, R, limit, width);
  }

  lemma CombineSpec(x: seq<int>, y: seq<int>, r: seq<int>, a: int, b: int, g: BitOp, m: int, v: int, op: BitOp, B: nat,
                    bits: nat, R: int, limit: int, width: nat)
    requires bits >= 1 && B == Pow(2, bits) && B >= 2 && Pointwise(x, y, r, g, bits)
    requires IsDigits(x, B) && IsDigits(y, B) && IsDigits(r, B) && Val(x, B) == Plain(a) && Val(y, B) == Plain(b)
    requires Through(g, op, a < 0, b < 0)
    requires limit == Pow(B, |r|) && width == bits * |r| && R == Val(r, B)
    requires m == DroppedCarry(R + (if Apply(op, a < 0, b < 0) then 1 else 0), limit)
    requires v == if Apply(op, a < 0, b < 0) then -m else m
    ensures BitwiseComputed(op, a, b, v, width)
  {
    PlainResultHolds(op, g, a, b, x, y, r, bits, B);
    DigitWidth(r, bits, B, limit, width);
    FinishSpec(a, b, m, v, op, R, limit, width);
  }

  lemma FinishSpec(a: int, b: int, m: int, v: int, op: BitOp, R: int, limit: int, width: nat)
    requires 0 <= R < limit == Pow(2, width) && PlainResult(op, a, b, R) && !Bit(R, width)
    requires m == DroppedCarry(R + (if Apply(op, a < 0, b < 0) then 1 else 0), limit)
    requires v == if Apply(op, a < 0, b < 0) then -m else m
    ensures BitwiseComputed(op, a, b, v, width)
  {
    SignedDrop(Apply(op, a < 0, b < 0), R, m, limit);
    BitwiseCorrect(op, a, b, R, v, width);
  }

  lemma SignedDrop(negative: bool, R: int, v: int, limit: int)
    requires 0 <= R < limit && v == DroppedCarry(R + (if negative then 1 else 0), limit)
    ensures (if negative then -v else v) == (if negative then -DroppedCarry(R + 1, limit) else R)
  {}

  ghost function Signed(negative: bool, d: seq<int>, B: nat): int
  {
    if negative then -Val(d, B) else Val(d, B)
  }

  ghost function MaxSize(a: LargeInteger, b: LargeInteger): nat
    reads a, b
  {
    if a.size > b.size then a.size else b.size
  }

  lemma BitwiseSymmetric(op: BitOp, a: int, b: int, r: int, width: nat)
    requires op.AndOp? || op.OrOp? || op.XorOp?
    ensures IsBitwise(op, a, b, r) <==> IsBitwise(op, b, a, r)
    ensures BitwiseComputed(op, a, b, r, width) <==> BitwiseComputed(op, b, a, r, width)
  {}

  lemma ComputedWhenFits(op: BitOp, a: int, b: int, r: int, width: nat)
    requires BitwiseComputed(op, a, b, r, width) && BitwiseFits(op, a, b, width)
    ensures IsBitwise(op, a, b, r)
  {
  }

  method And(left: LargeInteger, right: LargeInteger, bits: nat, B: nat) returns (result: LargeInteger)
    requires bits >= 1 && B == Pow(2, bits) && B >= 2 && left.Valid(B) && right.Valid(B)
    ensures fresh(result) && fresh(result.digits) && result.Valid(B)
    ensures BitwiseComputed(AndOp, left.Value(B), right.Value(B), result.Value(B), bits * MaxSize(left, right))
  {
    hide Pow, Val, IsBitwise, BitwiseFits, BitwiseComputed;
    var shorter, longer := left, right;
    if left.size > right.size { shorter, longer := right, left; }
    MulMono(longer.size, 0, bits);
    ghost var a, b, width := left.Value(B), right.Value(B), bits * longer.size;
    if !shorter.negative && !longer.negative {
      result := Combine(shorter, longer, AndOp, false, bits, B, AndOp);
    } else if !shorter.negative && longer.negative {
      result := Combine(shorter, longer, AndNotOp, false, bits, B, AndOp);
    } else if shorter.negative && !longer.negative {
      result := Combine(shorter, longer, NotAndOp, false, bits, B, AndOp);
    } else {
      result := Combine(shorter, longer, OrOp, true, bits, B, AndOp);
    }
    BitwiseSymmetric(AndOp, a, b, result.Value(B), width);
  }

  method Or(left: LargeInteger, right: LargeInteger, bits: nat, B: nat) returns (result: LargeInteger)
    requires bits >= 1 && B == Pow(2, bits) && B >= 2 && left.Valid(B) && right.Valid(B)
    ensures fresh(result) && fresh(result.digits) && result.Valid(B)
    ensures IsBitwise(OrOp, left.Value(B), right.Value(B), result.Value(B))
  {
    hide Pow, Val, IsBitwise, BitwiseFits, BitwiseComputed;
    var shorter, longer := left, right;
    if left.size > right.size { shorter, longer := right, left; }
    OrFits(shorter, longer, bits, B);
    MulMono(longer.size, 0, bits);
    ghost var a, b, width := left.Value(B), right.Value(B), bits * longer.size;
    if !shorter.negative && !longer.negative {
      result := Combine(shorter, longer, OrOp, false, bits, B, OrOp);
    } else if !shorter.negative && longer.negative {
      result := Combine(shorter, longer, NotAndOp, true, bits, B, OrOp);
    } else if shorter.negative && !longer.negative {
      result := Combine(shorter, longer, AndNotOp, true, bits, B, OrOp);
    } else {
      result := Combine(shorter, longer, AndOp, true, bits, B, OrOp);
    }
    ComputedWhenFits(OrOp, shorter.Value(B), longer.Value(B), result.Value(B), width);
    BitwiseSymmetric(OrOp, a, b, result.Value(B), width);
  }

  method Xor(left: LargeInteger, right: LargeInteger, bits: nat, B: nat) returns (result: LargeInteger)
    requires bits >= 1 && B == Pow(2, bits) && B >= 2 && left.Valid(B) && right.Valid(B)
    ensures fresh(result) && fresh(result.digits) && result.Valid(B)
    ensures BitwiseComputed(XorOp, left.Value(B), right.Value(B), result.Value(B), bits * MaxSize(left, right))
  {
    hide Pow, Val, IsBitwise, BitwiseFits, BitwiseComputed;
    var shorter, longer := left, right;
    if left.size > right.size { shorter, longer := right, left; }
    MulMono(longer.size, 0, bits);
    ghost var a, b, width := left.Value(B), right.Value(B), bits * longer.size;
    result := Combine(shorter, longer, XorOp, shorter.negative != longer.negative, bits, B, XorOp);
    BitwiseSymmetric(XorOp, a, b, result.Value(B), width);
  }

  /** A negative disjunction always has room: a negative operand keeps a one bit inside its own width. */
  lemma OrFits(a: LargeInteger, b: LargeInteger, bits: nat, B: nat)
    requires bits >= 1 && B == Pow(2, bits) && B >= 2 && a.Valid(B) && b.Valid(B) && a.size <= b.size
    ensures BitwiseFits(OrOp, a.Value(B), b.Value(B), bits * b.size)
  {
    AbsRange(a, B);
    AbsRange(b, B);
    PowPow(2, bits, b.size);
    PowMono(B, a.size, b.size);
    OrLeavesBit(a.Value(B), b.Value(B), bits * b.size);
  }

  lemma OrLeavesBit(a: int, b: int, width: nat)
    requires 0 < a + Pow(2, width) && 0 < b + Pow(2, width)
    ensures BitwiseFits(OrOp, a, b, width)
  {
    var v := if a < 0 then a else b;
    if v < 0 {
      AllOnes(Plain(v), width);
      var j: nat :| j < width && !Bit(Plain(v), j);
      PlainBit(v, j);
      assert Apply(OrOp, Bit(a, j), Bit(b, j));
    }
  }
}
