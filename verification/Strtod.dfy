/** Reading decimal numbers from the first guess to the last correction: double-conversion/strtod.cc. */
module Strtods {
  import opened Arith
  import opened DecimalComparison
  import opened DecimalReading
  import opened Decimals
  import opened DiyFpStrtods
  import opened Rounding

  datatype Option<T> = None | Some(value: T)

  /** Reading with the arithmetic of doubles, where it is available: what it answers is right. */
  ghost predicate RightIfAny(doubleStrtod: (seq<int>, int) -> Option<Read>)
  {
    forall t: seq<int>, e: int :: IsDecimal(t) && t != [] && t[0] != 0 && doubleStrtod(t, e).Some? ==>
      ReadsAs(DecimalValue(Decimal(t), e), doubleStrtod(t, e).value)
  }

  /** A guess that is right, or the next lower double; what is out of range is settled at once. */
  method ComputeGuess(trimmed: seq<int>, exponent: int, doubleStrtod: (seq<int>, int) -> Option<Read>,
                      table: seq<Cached>)
    returns (guess: Read, isCorrect: bool)
    requires IsDecimal(trimmed) && (trimmed != [] ==> trimmed[0] != 0) && RightIfAny(doubleStrtod) && GoodTable(table)
    ensures GoodGuess(DecimalValue(Decimal(trimmed), exponent), guess, isCorrect)
    ensures !isCorrect ==> guess.Number? && trimmed != [] && -324 < |trimmed| + exponent <= 309
  {
    hide Pow, RPow, DecimalValue, Decimal, GoodTable;
    if |trimmed| == 0 {
      DecimalEmpty();
      PowStep(10, 0);
      if exponent <= -324 { TooSmall(0, exponent, 0); } else { ZeroAnywhere(exponent); }
      return ZERO, true;
    }
    DecimalBounds(trimmed);
    if exponent + |trimmed| - 1 >= 309 {
      TooLarge(Decimal(trimmed), exponent, |trimmed| - 1);
      return Infinity, true;
    }
    if exponent + |trimmed| <= -324 {
      PowPositive(10, |trimmed| - 1);
      TooSmall(Decimal(trimmed), exponent, |trimmed|);
      return ZERO, true;
    }
    var exact := doubleStrtod(trimmed, exponent);
    if exact.Some? {
      return exact.value, true;
    }
    guess, isCorrect := DiyFpStrtod(trimmed, exponent, table);
    if guess.Infinity? {
      isCorrect := true;
    }
  }

  /** Reads a decimal number: the guess, compared with its upper boundary if it may be one too low. */
  method StrtodTrimmed(trimmed: seq<int>, exponent: int, doubleStrtod: (seq<int>, int) -> Option<Read>,
                       table: seq<Cached>)
    returns (r: Read)
    requires IsDecimal(trimmed) && |trimmed| <= MAX_SIGNIFICANT_DIGITS && (trimmed != [] ==> trimmed[0] != 0)
    requires RightIfAny(doubleStrtod) && GoodTable(table)
    ensures ReadsAs(DecimalValue(Decimal(trimmed), exponent), r)
  {
    hide RPow, Pow, DecimalValue, BinaryValue, Decimal, Upper, Lower, ReadsAs, NextDouble, GoodTable, RightIfAny;
    var guess, isCorrect := ComputeGuess(trimmed, exponent, doubleStrtod, table);
    if isCorrect || guess.Infinity? {
      return guess;
    }
    var v := guess.v;
    var comparison := CompareBufferWithDiyFp(trimmed, exponent, 2 * v.f + 1, v.e - 1);
    HalfIsTwoQuarters(v);
    AtBoundary(DecimalValue(Decimal(trimmed), exponent), v);
    if comparison < 0 {
      return guess;
    } else if comparison > 0 {
      return NextDouble(v);
    } else if v.f % 2 == 0 {
      return guess;
    } else {
      return NextDouble(v);
    }
  }

  /** Reads any string of digits as the double it rounds to. */
  method Strtod(buffer: seq<int>, exponent: int, doubleStrtod: (seq<int>, int) -> Option<Read>, table: seq<Cached>)
    returns (r: Read)
    requires IsDecimal(buffer) && RightIfAny(doubleStrtod) && GoodTable(table)
    ensures ReadsAs(DecimalValue(Decimal(buffer), exponent), r)
  {
    hide DecimalValue, Decimal, ReadsAs, RightIfAny, GoodTable;
    var trimmed, updatedExponent := TrimAndCut(buffer, exponent);
    r := StrtodTrimmed(trimmed, updatedExponent, doubleStrtod, table);
  }
}
