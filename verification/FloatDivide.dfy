/** SoftFloat's 128-by-64-bit quotient estimate: never below the true quotient and at most two above it. */
module FloatDivide {
  import opened Arith
  import opened FloatSpec
  import opened FloatMacros

  /** z is the quotient of num by b, or one or two more. */
  ghost predicate EstimatesQuotient(num: nat, b: nat, z: int) {
    (z - 2) * b <= num < (z + 1) * b
  }

  /** The next quotient digit as SoftFloat guesses it: all ones when the leading digits would give too much. */
  function GuessDigit(top: nat, b0: nat): (z: nat)
    requires b0 > 0
  {
    if b0 * B32 <= top then B32 - 1 else top / b0
  }

  /** A digit z of the quotient of num by d, guessed from the leading digits top of num and b0 of d. */
  lemma GuessedDigit(num: nat, top: nat, d: nat, unit: nat, b0: nat, low: nat, z: nat)
    requires b0 >= B32 / 2 && low < B32 && unit > 0
    requires d == (b0 * B32 + low) * unit
    requires top * (B32 * unit) <= num < (top + 1) * (B32 * unit)
    requires num < B32 * d
    requires z == GuessDigit(top, b0)
    ensures num < (z + 1) * d && (z - 2) * d <= num
  {
    hide *;
    DigitBounds(top, b0, z);
    if top < b0 * B32 {
      UpperDigit(num, top, d, unit, b0, low, z);
    }
    LowerDigit(num, top, d, unit, b0, low, z);
  }

  lemma DigitBounds(top: nat, b0: nat, z: nat)
    requires b0 >= B32 / 2
    requires z == GuessDigit(top, b0)
    ensures z < B32 && z * b0 <= top
    ensures if top < b0 * B32 then (z + 1) * b0 >= top + 1 else z + 1 == B32
  {
    if b0 * B32 <= top {
      ScaleMonotone(b0, B32 - 1, B32);
    } else {
      DivMod(top, b0);
      if z >= B32 {
        ScaleMonotone(b0, B32, z);
      }
    }
  }

  lemma DivisorParts(d: nat, unit: nat, b0: nat, low: nat)
    requires d == (b0 * B32 + low) * unit
    ensures d == b0 * (B32 * unit) + low * unit
  {
    Associate(b0, B32, unit);
  }

  lemma ProductNonNegative(x: nat, y: nat, z: nat)
    ensures x * (y * z) >= 0
  {
  }

  lemma UpperDigit(num: nat, top: nat, d: nat, unit: nat, b0: nat, low: nat, z: nat)
    requires unit > 0 && d == (b0 * B32 + low) * unit
    requires num < (top + 1) * (B32 * unit)
    requires (z + 1) * b0 >= top + 1
    ensures num < (z + 1) * d
  {
    var u := B32 * unit;
    DivisorParts(d, unit, b0, low);
    ScaleMonotone(u, top + 1, (z + 1) * b0);
    SumTimes(z + 1, b0 * u, low * unit);
    Associate(z + 1, b0, u);
    ProductNonNegative(z + 1, low, unit);
  }

  lemma LowerDigit(num: nat, top: nat, d: nat, unit: nat, b0: nat, low: nat, z: nat)
    requires unit > 0 && b0 >= B32 / 2 && low < B32 && z < B32 && d == (b0 * B32 + low) * unit
    requires top * (B32 * unit) <= num
    requires z * b0 <= top
    ensures (z - 2) * d <= num
  {
    var u := B32 * unit;
    DivisorParts(d, unit, b0, low);
    assert d == Times(b0, u) + Times(low, unit) && Times(top, u) <= num && Times(z, b0) <= top;
    TimesLess(z, 2, d);
    assert (z - 2) * d == Times(z - 2, d);
    LowerParts(num, top, d, unit, u, b0, low, z);
  }

  lemma LowerParts(num: nat, top: nat, d: nat, unit: nat, u: nat, b0: nat, low: nat, z: nat)
    requires u == B32 * unit && b0 >= B32 / 2 && low < B32 && z < B32 && d == Times(b0, u) + Times(low, unit)
    requires Times(top, u) <= num && Times(z, b0) <= top
    ensures Times(z, d) - 2 * d <= num
  {
    TimesOfConstant(unit);
    hide Times;
    TimesSplit(z, Times(b0, u), Times(low, unit));
    TimesAssociate(z, b0, u);
    TimesGrows(u, Times(z, b0), top);
    TimesGrows(unit, 0, low);
    TimesGrows(unit, low, B32);
    LowPart(z, Times(low, unit), u);
    TimesGrows(u, B32, 2 * b0);
    TimesDouble(b0, u);
  }

  lemma TimesOfConstant(x: int)
    ensures Times(B32, x) == B32 * x && Times(0, x) == 0
  {
  }

  lemma TimesDouble(b: nat, u: nat)
    ensures Times(2 * b, u) == 2 * Times(b, u)
  {
  }

  lemma TimesLess(z: int, k: int, d: int)
    ensures Times(z - k, d) == Times(z, d) - Times(k, d) && Times(2, d) == 2 * d
  {
  }

  lemma TimesSplit(z: int, x: int, y: int)
    ensures Times(z, x + y) == Times(z, x) + Times(z, y)
  {
  }

  lemma LowPart(z: nat, x: nat, u: nat)
    requires z < B32 && x <= u
    ensures Times(z, x) <= Times(B32, u)
  {
    hide Times;
    TimesCommute(z, x);
    TimesCommute(z, u);
    TimesGrows(z, x, u);
    TimesGrows(u, z, B32);
  }

  lemma TimesSign(x: int, y: nat)
    ensures x <= 0 ==> Times(x, y) <= 0
  {
    if x <= 0 {
      ScaleMonotone(y + 1, 0, -x);
      assert x * y == -((-x) * y);
    }
  }

  lemma TimesStep(x: int, y: int)
    ensures Times(x - 1, y) == Times(x, y) - y
  {
  }

  /** The remainder after the first guess, which may be negative by up to twice the divisor. */
  lemma FirstGuess(a0: bits64, a1: bits64, b: bits64, high: nat)
    requires SIGN <= b && a0 < b
    requires high == GuessDigit(a0, b / B32)
    ensures high < B32
    ensures -2 * (b * B32) <= Wide(a0, a1) - Times(high, b * B32) < b * B32
    ensures Product(b, high * B32) == Times(high, b * B32)
  {
    hide GuessDigit;
    var b0, low, d := b / B32, b % B32, b * B32;
    DigitBounds(a0, b0, high);
    GuessedDigit(Wide(a0, a1), a0, d, B32, b0, low, high);
    assert (high - 2) * d == high * d - 2 * d && (high + 1) * d == high * d + d;
    assert b * (high * B32) == high * (b * B32);
  }

  /** A 128-bit remainder whose value is known to within 2^97 of zero shows its sign in the top bit. */
  lemma RemainderSign(r: int, d: int, rem0: bits64, rem1: bits64)
    requires d <= B32 * B64 && -2 * d <= r < d
    requires Wide(rem0, rem1) == Wrap128(r)
    ensures SignBit(rem0) <==> r < 0
    ensures r >= 0 ==> Wide(rem0, rem1) == r
  {
  }

  /** num is high * d plus a remainder r, which the words rem0, rem1 hold in two's complement. */
  ghost predicate Remaining(num: nat, d: nat, high: nat, r: int, rem0: bits64, rem1: bits64) {
    && d <= B32 * B64 && -2 * d <= r < d
    && num == Times(high, d) + r
    && Wide(rem0, rem1) == Wrap128(r)
  }

  lemma FirstRemainder(a0: bits64, a1: bits64, b: bits64, high: nat, term: nat, rem0: bits64, rem1: bits64)
    requires SIGN <= b && a0 < b
    requires high == GuessDigit(a0, b / B32) && high < B32
    requires term == Product(b, high * B32)
    requires Wide(rem0, rem1) == Wrap128(Wide(a0, a1) - term)
    ensures Remaining(Wide(a0, a1), b * B32, high, Wide(a0, a1) - term, rem0, rem1)
    ensures high < B32
  {
    hide GuessDigit, Product, Times, Wrap128, Wide;
    FirstGuess(a0, a1, b, high);
  }

  lemma NextRemainder(num: nat, d: nat, high: nat, r: int, rem0: bits64, rem1: bits64, new0: bits64, new1: bits64)
    requires Remaining(num, d, high, r, rem0, rem1) && SignBit(rem0)
    requires Wide(new0, new1) == Wrap128(Wide(rem0, rem1) + d)
    ensures high > 0 && r < 0
    ensures Remaining(num, d, high - 1, r + d, new0, new1)
  {
    hide Wrap128, Times, Wide, SignBit;
    RemainderSign(r, d, rem0, rem1);
    TimesStep(high, d);
    WrapAgain(r, d);
    TimesSign(high, d);
  }

  lemma LastRemainder(num: nat, d: nat, high: nat, r: int, rem0: bits64, rem1: bits64)
    requires Remaining(num, d, high, r, rem0, rem1) && !SignBit(rem0)
    ensures 0 <= r < d && num == Times(high, d) + Wide(rem0, rem1) && Wide(rem0, rem1) == r
  {
    RemainderSign(r, d, rem0, rem1);
  }

  /** The divisor shifted by 32 bits, in two words. */
  lemma ShiftedDivisor(b: bits64)
    ensures Wide(b / B32, b * B32 % B64) == b * B32
  {
    var q, r := b / B32, b % B32;
    assert b == q * B32 + r;
    DivModUnique(b * B32, B64, q, r * B32);
  }

  /** The upper 32 bits of the quotient, exactly, with the remainder that is left. */
  method HighDigit(a0: bits64, a1: bits64, b: bits64) returns (z: bits64, rem0: bits64, rem1: bits64, ghost high: nat)
    requires SIGN <= b && a0 < b
    ensures high < B32 && z == high * B32
    ensures Wide(rem0, rem1) < b * B32
    ensures Wide(a0, a1) == Times(high, b * B32) + Wide(rem0, rem1)
  {
    hide Product, SignBit, Times, GuessDigit, Remaining, Wrap128;
    var b0 := b / B32;
    ghost var num, d := Wide(a0, a1), b * B32;
    var guess := GuessDigit(a0, b0);
    DigitBounds(a0, b0, guess);
    z := guess * B32;
    var term0, term1 := Mul64To128(b, z);
    rem0, rem1 := Sub128(a0, a1, term0, term1);
    ghost var r := num - Wide(term0, term1);
    high := guess;
    FirstRemainder(a0, a1, b, high, Wide(term0, term1), rem0, rem1);
    while SignBit(rem0)
      invariant high < B32 && z == high * B32
      invariant Remaining(num, d, high, r, rem0, rem1)
      decreases high
    {
      var b1 := b * B32 % B64;
      var new0, new1 := Add128(rem0, rem1, b0, b1);
      ShiftedDivisor(b);
      NextRemainder(num, d, high, r, rem0, rem1, new0, new1);
      z := z - B32;
      rem0, rem1 := new0, new1;
      high := high - 1;
      r := r + d;
    }
    LastRemainder(num, d, high, r, rem0, rem1);
  }

  /** The quotient (a0 * 2^64 + a1) / b, or up to two more. */
  method EstimateDiv128To64(a0: bits64, a1: bits64, b: bits64) returns (z: bits64)
    requires SIGN <= b
    ensures b <= a0 ==> z == B64 - 1
    ensures a0 < b ==> EstimatesQuotient(Wide(a0, a1), b, z)
  {
    hide Times, GuessDigit, EstimatesQuotient;
    if b <= a0 {
      return B64 - 1;
    }
    var b0 := b / B32;
    var rem0, rem1;
    ghost var high;
    z, rem0, rem1, high := HighDigit(a0, a1, b);
    ghost var r := Wide(rem0, rem1);
    rem0 := rem0 * B32 % B64 + rem1 / B32;
    assert rem0 == r / B32;
    var digit := GuessDigit(rem0, b0);
    DigitBounds(rem0, b0, digit);
    LowDigit(Wide(a0, a1), b, high, r, digit);
    z := z + digit;
  }

  lemma LowDigit(num: nat, b: bits64, high: nat, r: nat, digit: nat)
    requires SIGN <= b && r < b * B32
    requires num == Times(high, b * B32) + r
    requires digit == GuessDigit(r / B32, b / B32)
    ensures EstimatesQuotient(num, b, high * B32 + digit)
  {
    GuessedDigit(r, r / B32, b, 1, b / B32, b % B32, digit);
    var hb := high * B32 * b;
    assert high * (b * B32) == hb;
    assert (high * B32 + digit - 2) * b == hb + (digit - 2) * b;
    assert (high * B32 + digit + 1) * b == hb + (digit + 1) * b;
  }
}
