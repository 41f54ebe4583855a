/** SoftFloat's addition, subtraction and comparison. */
module SoftFloatAdd {
  import opened Arith
  import opened FloatSpec
  import opened FloatRounding
  import opened FloatMacros
  import opened FloatScale
  import opened SoftFloat

  /** A finite magnitude as significand and exponent field, the field of a subnormal counted as 1. */
  ghost predicate Aligned(m: nat, exp: int, sig: nat) {
    1 <= exp <= 0x7FE && sig < 2 * HIDDEN && Units(m) == sig * P2(exp - 1)
  }

  lemma AlignedOperand(a: bits64)
    requires ExtractExp(a) < 0x7FF
    ensures var exp := ExtractExp(a);
      if exp == 0 then Aligned(Magnitude(a), 1, ExtractFrac(a)) else Aligned(Magnitude(a), exp, ExtractFrac(a) + HIDDEN)
  {
    FieldsOf(a);
  }

  lemma AlignedProducts(u: nat, v: nat, eb: int, es: int, sb: nat, ss: nat)
    requires 1 <= es <= eb && u == sb * P2(eb - 1) && v == ss * P2(es - 1)
    ensures u + v == (sb * P2(eb - es) + ss) * P2(es - 1)
    ensures u - v == (sb * P2(eb - es) - ss) * P2(es - 1)
    ensures u >= v <==> sb * P2(eb - es) >= ss
    ensures u == v <==> sb * P2(eb - es) == ss
  {
    hide P2;
    ShiftShift(sb, eb - es, es - 1);
    var x, low := sb * P2(eb - es), P2(es - 1);
    CancelFactor(low, x, ss);
    assert (x + ss) * low == x * low + ss * low && (x - ss) * low == x * low - ss * low;
  }

  /** Sum or difference, n, of two aligned operands over the common denominator 2^(eb - es). */
  lemma AlignedCombination(n: nat, x: nat, num: nat, eb: int, es: int, f: nat)
    requires 1 <= es <= eb && n == x * P2(es - 1) && num == x * P2(f)
    ensures Shifted(n * P2(eb - es), num, eb - 1 - f)
  {
    hide P2;
    assert Shifted(n, x, es - 1);
    ShiftedRescale(n, x, es - 1, eb - es, f);
  }

  /** n is the exact value of the words that the significand s was jammed from, divided by 2^(10 - zExp). */
  lemma SumRepresented(n: nat, num: nat, den: nat, e: int, s: nat, g: nat)
    requires den > 0 && Sticky(num, den, s, g)
    requires Shifted(n * den, num, e)
    ensures Represents(n, 1, e + 10, s)
  {
    hide Agrees, Shifted, Represents, Sticky;
    StickyAgrees(num, den, s, g);
    assert 1 * num == num;
    RepresentsScaled(n, 1, num, den, e + 10, s);
  }

  lemma DoubledRepresented(n: nat, num: nat, den: nat, e: int, s: nat)
    requires den > 0 && Sticky(num, den, s, 1)
    requires Shifted(n * den, num, e)
    ensures Represents(n, 1, e + 9, 2 * s)
  {
    hide Agrees, Shifted, Represents, Sticky;
    StickyDouble(num, den, s);
    ShiftedRescale(n * den, num, e, 0, 1);
    assert P2(0) == 1 && P2(1) == 2;
    SumRepresented(n, 2 * num, den, e - 1, 2 * s, 2);
  }

  /** The aligned and jammed sum, brought to 63 bits, rounds as the exact sum does. */
  lemma SumRounds(mb: nat, ms: nat, eb: int, es: int, sb: nat, ss: nat, s: nat)
    requires Aligned(mb, eb, sb) && Aligned(ms, es, ss) && es <= eb && HIDDEN <= sb
    requires s == sb * 0x200 + Jam(ss * 0x200, eb - es)
    ensures SIGN / 4 <= s < SIGN
    ensures var m := if s < SIGN / 2 then RoundedMagnitude(eb - 1, 2 * s) else RoundedMagnitude(eb, s);
            RoundsToNearestEven(Units(mb) + Units(ms), 1, m)
  {
    hide Units, P2, Jam, Shifted, Represents, Sticky, RoundedMagnitude, RoundsToNearestEven;
    var n, p := Units(mb) + Units(ms), P2(eb - es);
    JamBelow(ss * 0x200, eb - es);
    AlignedProducts(Units(mb), Units(ms), eb, es, sb, ss);
    var num := sb * 0x200 * p + ss * 0x200;
    GuardedSum(sb, ss, p);
    AlignedCombination(n, sb * p + ss, num, eb, es, 9);
    JamIsSticky(ss * 0x200, eb - es);
    StickyAdd(ss * 0x200, p, Jam(ss * 0x200, eb - es), 1, sb * 0x200);
    SumSignificandRounds(n, num, p, eb, s);
  }

  /** Nine guard bits behind the sum of two aligned significands. */
  lemma GuardedSum(sb: nat, ss: nat, p: nat)
    ensures sb * 0x200 * p + ss * 0x200 == (sb * p + ss) * P2(9)
  {
    P2Nine();
    hide P2;
    assert sb * 0x200 * p == 0x200 * (sb * p);
  }

  lemma SumSignificandRounds(n: nat, num: nat, den: nat, e: int, s: nat)
    requires den > 0 && SIGN / 4 <= s < SIGN && Sticky(num, den, s, 1) && Shifted(n * den, num, e - 10)
    ensures var m := if s < SIGN / 2 then RoundedMagnitude(e - 1, 2 * s) else RoundedMagnitude(e, s);
            RoundsToNearestEven(n, 1, m)
  {
    hide Shifted, Represents, Sticky, RoundedMagnitude, RoundsToNearestEven;
    if s < SIGN / 2 {
      DoubledRepresented(n, num, den, e - 10, s);
      RoundedMagnitudeIsCorrect(n, 1, e - 1, 2 * s);
    } else {
      SumRepresented(n, num, den, e - 10, s, 1);
      RoundedMagnitudeIsCorrect(n, 1, e, s);
    }
  }

  lemma P2Nine()
    ensures P2(9) == 0x200 && P2(10) == 0x400
  {
  }

  lemma JamBelow(a: nat, k: nat)
    ensures Jam(a, k) <= a
  {
    hide P2;
    var p := P2(k);
    var q, r := a / p, a % p;
    DivMod(a, p);
    JamIs(a, k, q, r);
    if p > 1 && q > 0 {
      ScaleMonotone(q, 2, p);
    }
  }

  lemma ShiftedExactly(n: nat, num: nat, den: nat, e: int, s: nat, shift: nat)
    requires den > 0 && num == s * den && Shifted(n * den, num, e)
    ensures Represents(n, 1, e - shift + 10, s * P2(shift))
  {
    hide P2, Shifted, Represents;
    ShiftedRescale(n * den, num, e, 0, shift);
    P2Zero();
    assert num * P2(shift) == s * P2(shift) * den;
    SumRepresented(n, num * P2(shift), den, e - shift, s * P2(shift), 1);
  }

  /** Bits are lost in the alignment only when more than ten are shifted out, and then the difference is large. */
  lemma LostBitsMeanLarge(sb: nat, ss: nat, diff: nat, s: nat, shift: nat)
    requires ss < 2 * HIDDEN && (diff > 0 ==> HIDDEN <= sb)
    requires s == sb * 0x400 - Jam(ss * 0x400, diff)
    requires ss * 0x400 != Jam(ss * 0x400, diff) * P2(diff)
    requires s * P2(shift) < SIGN
    ensures shift <= 1
  {
    hide P2;
    var a, p := ss * 0x400, P2(diff);
    DivMod(a, p);
    JamIs(a, diff, a / p, a % p);
    if diff <= 10 {
      P2Add(diff, 10 - diff);
      P2Nine();
      NoBitsLost(a, p, P2(10 - diff), ss);
      assert false;
    }
    P2Monotone(11, diff);
    P2Eleven();
    SmallQuotient(a, p);
    if shift > 1 {
      P2Monotone(2, shift);
      P2Eleven();
      ScaleMonotone(s, 4, P2(shift));
    }
  }

  lemma P2Eleven()
    ensures P2(11) == 0x800 && P2(2) == 4
  {
  }

  lemma NoBitsLost(a: nat, p: nat, q: nat, ss: nat)
    requires p > 0 && p * q == 0x400 && a == ss * 0x400
    ensures a % p == 0 && a / p * p == a
  {
    assert a == (ss * q) * p;
    DivModUnique(a, p, ss * q, 0);
  }

  lemma SmallQuotient(a: nat, p: nat)
    requires p >= 0x800 && a < SIGN
    ensures a / p <= HIDDEN
  {
    DivMod(a, p);
    if a / p > 0 {
      ScaleMonotone(a / p, 0x800, p);
    }
  }

  lemma DifferenceRepresented(n: nat, num: nat, den: nat, e: int, s: nat, shift: nat)
    requires den > 0 && Sticky(num, den, s, 1) && Shifted(n * den, num, e - 11)
    requires num != s * den ==> shift <= 1
    ensures Represents(n, 1, e - 1 - shift, s * P2(shift))
  {
    hide Shifted, Represents, Sticky;
    if num == s * den {
      ShiftedExactly(n, num, den, e - 11, s, shift);
    } else if shift == 0 {
      SumRepresented(n, num, den, e - 11, s, 1);
    } else {
      DoubledRepresented(n, num, den, e - 11, s);
    }
  }

  /** The jammed subtrahend is below the minuend exactly when the exact one is. */
  lemma DifferencePositive(a: nat, b: nat, p: nat, j: nat)
    requires p > 0 && j < a && Sticky(b, p, j, 1)
    ensures b < a * p
  {
    ScaleMonotone(p, j + 1, a);
    assert (j + 1) * p == j * p + p;
  }

  lemma DifferenceNumerator(sb: nat, p: nat, ss: nat, s: nat, j: nat)
    requires ss <= sb * p && s == sb * 0x400 - j
    ensures sb * 0x400 * p - ss * 0x400 == (sb * p - ss) * 0x400
    ensures ss * 0x400 == j * p <==> (sb * p - ss) * 0x400 == s * p
  {
    var q := sb * p;
    assert sb * 0x400 * p == q * 0x400;
    assert s * p == sb * 0x400 * p - j * p;
  }

  lemma DifferenceSticky(sb: nat, ss: nat, p: nat, j: nat, s: nat)
    requires p > 0 && j < sb * 0x400 && s == sb * 0x400 - j
    requires Sticky(ss * 0x400, p, j, 1)
    ensures ss < sb * p
    ensures Sticky((sb * p - ss) * 0x400, p, s, 1)
    ensures ss * 0x400 == j * p <==> (sb * p - ss) * 0x400 == s * p
  {
    hide Sticky;
    DifferencePositive(sb * 0x400, ss * 0x400, p, j);
    assert sb * 0x400 * p == sb * p * 0x400;
    DifferenceNumerator(sb, p, ss, s, j);
    StickySubtract(ss * 0x400, p, j, 1, sb * 0x400);
  }

  /** The aligned and jammed difference, normalised by a left shift, rounds as the exact difference does. */
  lemma DifferenceRounds(mb: nat, ms: nat, eb: int, es: int, sb: nat, ss: nat, s: nat, shift: nat)
    requires Aligned(mb, eb, sb) && Aligned(ms, es, ss) && es <= eb && (es < eb ==> HIDDEN <= sb)
    requires 0 < s == sb * 0x400 - Jam(ss * 0x400, eb - es)
    requires SIGN / 2 <= s * P2(shift) < SIGN
    ensures Units(mb) > Units(ms)
    ensures RoundsToNearestEven(Units(mb) - Units(ms), 1, RoundedMagnitude(eb - 1 - shift, s * P2(shift)))
  {
    hide Units, P2, Jam, Shifted, Represents, Sticky, RoundedMagnitude, RoundsToNearestEven;
    var p, j := P2(eb - es), Jam(ss * 0x400, eb - es);
    AlignedProducts(Units(mb), Units(ms), eb, es, sb, ss);
    JamIsSticky(ss * 0x400, eb - es);
    DifferenceSticky(sb, ss, p, j, s);
    var x := sb * p - ss;
    P2Nine();
    AlignedCombination(Units(mb) - Units(ms), x, x * 0x400, eb, es, 10);
    if x * 0x400 != s * p {
      LostBitsMeanLarge(sb, ss, eb - es, s, shift);
    }
    DifferenceRepresented(Units(mb) - Units(ms), x * 0x400, p, eb, s, shift);
    RoundedMagnitudeIsCorrect(Units(mb) - Units(ms), 1, eb - 1 - shift, s * P2(shift));
  }

  /** m is the exact sum of the magnitudes ma and mb, correctly rounded. */
  ghost predicate CorrectMagnitudeSum(ma: nat, mb: nat, m: nat) {
    RoundsToNearestEven(Units(ma) + Units(mb), 1, m)
  }

  /** m is the exact difference of the magnitudes ma > mb, correctly rounded. */
  ghost predicate CorrectMagnitudeDifference(ma: nat, mb: nat, m: nat) {
    Units(ma) > Units(mb) && RoundsToNearestEven(Units(ma) - Units(mb), 1, m)
  }

  lemma SubnormalSum(ma: nat, mb: nat)
    requires ma < HIDDEN && mb < HIDDEN
    ensures CorrectMagnitudeSum(ma, mb, ma + mb)
  {
    UnitsOfPacked(0, ma);
    UnitsOfPacked(0, mb);
    UnitsOfPacked(0, ma + mb);
    P2Zero();
    ExactRounds(ma + mb, 1, ma + mb);
  }

  lemma SumSymmetric(ma: nat, mb: nat, m: nat)
    ensures CorrectMagnitudeSum(ma, mb, m) == CorrectMagnitudeSum(mb, ma, m)
  {
  }

  /** The sum of two aligned significands, the larger exponent first. */
  method AddAligned(zSign: bool, ghost mb: nat, ghost ms: nat, zExp0: int, ghost es: int, ghost sb: nat, ghost ss: nat,
                    bigSig: bits64, smallSig: bits64) returns (z: bits64)
    requires Aligned(mb, zExp0, sb) && Aligned(ms, es, ss) && es <= zExp0 && HIDDEN <= sb
    requires bigSig == sb * 0x200 && smallSig == Jam(ss * 0x200, zExp0 - es)
    ensures Negative(z) == zSign && CorrectMagnitudeSum(mb, ms, Magnitude(z))
  {
    hide Units, P2, Jam, RoundedMagnitude, RoundsToNearestEven;
    var zExp := zExp0;
    SumRounds(mb, ms, zExp, es, sb, ss, bigSig + smallSig);
    var zSig: bits64 := (bigSig + smallSig) * 2 % B64;
    zExp := zExp - 1;
    if SignBit(zSig) {
      zSig := bigSig + smallSig;
      zExp := zExp + 1;
    }
    z := RoundAndPackFloat64(zSign, zExp, zSig);
  }

  /** The sum of two normal operands of the same exponent, their hidden bits still to be added. */
  method AddSameExponent(zSign: bool, ghost ma: nat, ghost mb: nat, exp: int, ghost sa: nat, ghost sb: nat,
                         aSig: bits64, bSig: bits64) returns (z: bits64)
    requires 0 < exp < 0x7FF && Aligned(ma, exp, sa) && Aligned(mb, exp, sb)
    requires HIDDEN <= sa < 2 * HIDDEN && HIDDEN <= sb < 2 * HIDDEN
    requires aSig == (sa - HIDDEN) * 0x200 && bSig == (sb - HIDDEN) * 0x200
    ensures Negative(z) == zSign && CorrectMagnitudeSum(ma, mb, Magnitude(z))
  {
    hide Aligned, Units, Jam, P2, RoundedMagnitude, RoundsToNearestEven, Magnitude;
    JamByZero(sb * 0x200);
    SumRounds(ma, mb, exp, exp, sa, sb, sa * 0x200 + sb * 0x200);
    var zSig := 0x4000_0000_0000_0000 + aSig + bSig;
    z := RoundAndPackFloat64(zSign, exp, zSig);
    SumIs(ma, mb, Magnitude(z));
  }

  /** The hidden bit of a significand shifted left by 9 or by 10. */
  lemma SetGuarded(sig: nat)
    requires sig < HIDDEN
    ensures SetBit(sig * 0x200, 0x2000_0000_0000_0000) == (sig + HIDDEN) * 0x200
    ensures SetBit(sig * 0x400, 0x4000_0000_0000_0000) == (sig + HIDDEN) * 0x400
  {
  }

  /** The sum for finite operands of different exponents, the larger one first. */
  method AddUnequal(big: bits64, small: bits64, zSign: bool) returns (z: bits64)
    requires ExtractExp(small) < ExtractExp(big) < 0x7FF
    ensures Negative(z) == zSign && CorrectMagnitudeSum(Magnitude(big), Magnitude(small), Magnitude(z))
  {
    hide CorrectMagnitudeSum, Aligned, Jam, SetBit, P2, ExtractFrac, ExtractExp, Magnitude;
    var bigSig, bigExp := ExtractFrac(big), ExtractExp(big);
    var smallSig, smallExp := ExtractFrac(small), ExtractExp(small);
    FieldsOf(big);
    FieldsOf(small);
    SetGuarded(bigSig);
    SetGuarded(smallSig);
    AlignedOperand(big);
    AlignedOperand(small);
    ghost var sb, ss := bigSig + HIDDEN, if smallExp == 0 then smallSig else smallSig + HIDDEN;
    var expDiff: int := bigExp - smallExp;
    bigSig := bigSig * 0x200;
    smallSig := smallSig * 0x200;
    if smallExp == 0 {
      expDiff := expDiff - 1;
    } else {
      smallSig := SetBit(smallSig, 0x2000_0000_0000_0000);
    }
    smallSig := ShiftRight64Jamming(smallSig, expDiff);
    bigSig := SetBit(bigSig, 0x2000_0000_0000_0000);
    z := AddAligned(zSign, Magnitude(big), Magnitude(small), bigExp, if smallExp == 0 then 1 else smallExp, sb, ss,
                    bigSig, smallSig);
  }

  /** The sum for finite operands of the same exponent. */
  method AddEqual(a: bits64, b: bits64, zSign: bool) returns (z: bits64)
    requires ExtractExp(a) == ExtractExp(b) < 0x7FF
    ensures Negative(z) == zSign && CorrectMagnitudeSum(Magnitude(a), Magnitude(b), Magnitude(z))
  {
    hide CorrectMagnitudeSum, Aligned, P2, ExtractFrac, ExtractExp, Magnitude;
    var aSig, bSig := ExtractFrac(a), ExtractFrac(b);
    FieldsOf(a);
    FieldsOf(b);
    AlignedOperand(a);
    AlignedOperand(b);
    ghost var sa, sb := aSig + HIDDEN, bSig + HIDDEN;
    aSig := aSig * 0x200;
    bSig := bSig * 0x200;
    if ExtractExp(a) == 0 {
      z := PackFloat64(zSign, 0, (aSig + bSig) / 0x200);
      PackedFields(zSign, Magnitude(a) + Magnitude(b), z);
      SubnormalSum(Magnitude(a), Magnitude(b));
    } else {
      z := AddSameExponent(zSign, Magnitude(a), Magnitude(b), ExtractExp(a), sa, sb, aSig, bSig);
    }
  }

  /** The sum of the absolute values of a and b, with the sign zSign. */
  method AddFloat64Sigs(a: bits64, b: bits64, zSign: bool) returns (z: bits64)
    ensures IsNaN(a) || IsNaN(b) ==> z == PropagateNaN(a, b)
    ensures IsInfinite(a) && !IsNaN(b) ==> z == a
    ensures IsInfinite(b) && IsFinite(a) ==> IsInfinite(z) && Negative(z) == zSign
    ensures IsFinite(a) && IsFinite(b) ==>
              Negative(z) == zSign && CorrectMagnitudeSum(Magnitude(a), Magnitude(b), Magnitude(z))
  {
    hide CorrectMagnitudeSum, PropagateNaN, ExtractFrac, ExtractExp, Magnitude;
    var aSig, aExp := ExtractFrac(a), ExtractExp(a);
    var bSig, bExp := ExtractFrac(b), ExtractExp(b);
    FieldsOf(a);
    FieldsOf(b);
    var expDiff: int := aExp - bExp;
    if 0 < expDiff {
      if aExp == 0x7FF {
        if aSig != 0 {
          return PropagateNaN(a, b);
        }
        return a;
      }
      z := AddUnequal(a, b, zSign);
    } else if expDiff < 0 {
      if bExp == 0x7FF {
        if bSig != 0 {
          return PropagateNaN(a, b);
        }
        z := PackFloat64(zSign, 0x7FF, 0);
        PackedFields(zSign, INF, z);
        return;
      }
      z := AddUnequal(b, a, zSign);
      SumSymmetric(Magnitude(a), Magnitude(b), Magnitude(z));
    } else {
      if aExp == 0x7FF {
        if aSig != 0 || bSig != 0 {
          return PropagateNaN(a, b);
        }
        return a;
      }
      z := AddEqual(a, b, zSign);
    }
  }

  lemma SumIs(ma: nat, mb: nat, m: nat)
    ensures RoundsToNearestEven(Units(ma) + Units(mb), 1, m) ==> CorrectMagnitudeSum(ma, mb, m)
  {
  }

  lemma DifferenceIs(ma: nat, mb: nat, m: nat)
    requires Units(ma) > Units(mb) && RoundsToNearestEven(Units(ma) - Units(mb), 1, m)
    ensures CorrectMagnitudeDifference(ma, mb, m)
  {
  }

  method NormalizeRoundAndPackFloat64(zSign: bool, zExp: int, zSig: bits64) returns (z: bits64, ghost shift: nat)
    requires -1 <= zExp <= 0x7FF && 0 < zSig < SIGN
    ensures SIGN / 2 <= zSig * P2(shift) < SIGN
    ensures Negative(z) == zSign && Magnitude(z) == RoundedMagnitude(zExp - shift, zSig * P2(shift))
  {
    hide P2, RoundedMagnitude;
    var clz := CountLeadingZeros64(zSig);
    NormalShift(zSig, clz);
    var shiftCount := clz - 1;
    shift := shiftCount;
    z := RoundAndPackFloat64(zSign, zExp - shiftCount, zSig * P2(shiftCount) % B64);
  }

  lemma NormalShift(zSig: nat, clz: nat)
    requires 0 < zSig < SIGN && SIGN <= zSig * P2(clz) < B64
    ensures clz >= 1 && SIGN / 2 <= zSig * P2(clz - 1) < SIGN
  {
    if clz == 0 {
      P2Zero();
    } else {
      assert zSig * P2(clz) == 2 * (zSig * P2(clz - 1));
    }
  }

  lemma JamSmall(a: nat, k: nat)
    requires a < SIGN && (k == 0 ==> a < SIGN / 2)
    ensures Jam(a, k) < SIGN / 2
  {
    hide P2, Jam;
    if k == 0 {
      JamByZero(a);
    } else {
      var p := P2(k);
      P2Monotone(1, k);
      P2Zero();
      assert P2(1) == 2 by { P2One(); }
      var q := a / p;
      DivMod(a, p);
      JamIs(a, k, q, a % p);
      if q > 0 {
        ScaleMonotone(q, 2, p);
      }
    }
  }

  lemma P2One()
    ensures P2(1) == 2
  {
  }

  /** The difference of two aligned significands, the larger value first. */
  method SubtractAligned(zSign: bool, ghost mb: nat, ghost ms: nat, zExp: int, ghost es: int, ghost sb: nat,
                         ghost ss: nat, bigSig: bits64, smallSig: bits64) returns (z: bits64)
    requires Aligned(mb, zExp, sb) && Aligned(ms, es, ss) && es <= zExp && (es < zExp ==> HIDDEN <= sb)
    requires smallSig < bigSig && bigSig - smallSig == sb * 0x400 - Jam(ss * 0x400, zExp - es)
    ensures Negative(z) == zSign && CorrectMagnitudeDifference(mb, ms, Magnitude(z))
  {
    hide Units, P2, Jam, RoundedMagnitude, RoundsToNearestEven, CorrectMagnitudeDifference;
    var zSig: bits64 := bigSig - smallSig;
    ghost var shift;
    z, shift := NormalizeRoundAndPackFloat64(zSign, zExp - 1, zSig);
    DifferenceRounds(mb, ms, zExp, es, sb, ss, zSig, shift);
    DifferenceIs(mb, ms, Magnitude(z));
  }

  /** The difference of the absolute values of a and b, negated when zSign is set. */
  method SubFloat64Sigs(a: bits64, b: bits64, zSign: bool) returns (z: bits64)
    ensures IsNaN(a) || IsNaN(b) ==> z == PropagateNaN(a, b)
    ensures IsInfinite(a) && IsInfinite(b) ==> z == DEFAULT_NAN && IsNaN(z)
    ensures IsInfinite(a) && IsFinite(b) ==> z == a
    ensures IsInfinite(b) && IsFinite(a) ==> IsInfinite(z) && Negative(z) == !zSign
    ensures IsFinite(a) && IsFinite(b) ==>
              var ma, mb := Magnitude(a), Magnitude(b);
              || (ma == mb && z == 0)
              || (Negative(z) == zSign && CorrectMagnitudeDifference(ma, mb, Magnitude(z)))
              || (Negative(z) == !zSign && CorrectMagnitudeDifference(mb, ma, Magnitude(z)))
  {
    hide CorrectMagnitudeDifference, Aligned, PropagateNaN, Units, Jam, SetBit;
    var aSig, aExp := ExtractFrac(a), ExtractExp(a);
    var bSig, bExp := ExtractFrac(b), ExtractExp(b);
    FieldsOf(a);
    FieldsOf(b);
    SetGuarded(aSig);
    SetGuarded(bSig);
    ghost var ma, mb := Magnitude(a), Magnitude(b);
    if aExp < 0x7FF {
      AlignedOperand(a);
    }
    if bExp < 0x7FF {
      AlignedOperand(b);
    }
    ghost var sa, sb := if aExp == 0 then aSig else aSig + HIDDEN, if bExp == 0 then bSig else bSig + HIDDEN;
    ghost var ea, eb := if aExp == 0 then 1 else aExp, if bExp == 0 then 1 else bExp;
    var expDiff := aExp - bExp;
    aSig := aSig * 0x400;
    bSig := bSig * 0x400;
    if 0 < expDiff {
      if aExp == 0x7FF {
        if aSig != 0 {
          return PropagateNaN(a, b);
        }
        return a;
      }
      if bExp == 0 {
        expDiff := expDiff - 1;
      } else {
        bSig := SetBit(bSig, 0x4000_0000_0000_0000);
      }
      JamSmall(bSig, expDiff);
      bSig := ShiftRight64Jamming(bSig, expDiff);
      aSig := SetBit(aSig, 0x4000_0000_0000_0000);
      z := SubtractAligned(zSign, ma, mb, aExp, eb, sa, sb, aSig, bSig);
    } else if expDiff < 0 {
      if bExp == 0x7FF {
        if bSig != 0 {
          return PropagateNaN(a, b);
        }
        z := PackFloat64(!zSign, 0x7FF, 0);
        PackedFields(!zSign, INF, z);
        return;
      }
      if aExp == 0 {
        expDiff := expDiff + 1;
      } else {
        aSig := SetBit(aSig, 0x4000_0000_0000_0000);
      }
      JamSmall(aSig, -expDiff);
      aSig := ShiftRight64Jamming(aSig, -expDiff);
      bSig := SetBit(bSig, 0x4000_0000_0000_0000);
      z := SubtractAligned(!zSign, mb, ma, bExp, ea, sb, sa, bSig, aSig);
    } else {
      if aExp == 0x7FF {
        if aSig != 0 || bSig != 0 {
          return PropagateNaN(a, b);
        }
        return DEFAULT_NAN;
      }
      if aExp == 0 {
        aExp := 1;
        bExp := 1;
      }
      JamByZero(sa * 0x400);
      JamByZero(sb * 0x400);
      if bSig < aSig {
        z := SubtractAligned(zSign, ma, mb, aExp, eb, sa, sb, aSig, bSig);
      } else if aSig < bSig {
        z := SubtractAligned(!zSign, mb, ma, bExp, ea, sb, sa, bSig, aSig);
      } else {
        z := PackFloat64(false, 0, 0);
      }
    }
  }

  /** The exact sum of two finite doubles, correctly rounded; a zero sum is -0 only when both operands are negative. */
  ghost predicate CorrectSum(a: bits64, b: bits64, z: bits64) {
    && CorrectlyRounded(Value(a) + Value(b), 1, z)
    && (Value(a) + Value(b) == 0 ==> (Negative(z) <==> Negative(a) && Negative(b)))
  }

  /** Addition: correctly rounded for finite operands, subnormals, cancellation and overflow included. */
  method Float64Add(a: bits64, b: bits64) returns (z: bits64)
    ensures IsNaN(a) || IsNaN(b) ==> z == PropagateNaN(a, b)
    ensures IsInfinite(a) && IsInfinite(b) && Negative(a) != Negative(b) ==> z == DEFAULT_NAN && IsNaN(z)
    ensures IsInfinite(a) && !IsNaN(b) && (IsInfinite(b) ==> Negative(a) == Negative(b)) ==> z == a
    ensures IsFinite(a) && IsInfinite(b) ==> z == b
    ensures IsFinite(a) && IsFinite(b) ==> CorrectSum(a, b, z)
  {
    hide CorrectSum, CorrectMagnitudeSum, CorrectMagnitudeDifference, PropagateNaN;
    var aSign, bSign := ExtractSign(a), ExtractSign(b);
    FieldsOf(a);
    FieldsOf(b);
    if aSign == bSign {
      z := AddFloat64Sigs(a, b, aSign);
      if IsFinite(a) && IsFinite(b) {
        SumOfSameSign(a, b, z);
      }
    } else {
      z := SubFloat64Sigs(a, b, aSign);
      if IsFinite(a) && IsFinite(b) {
        SumOfOppositeSigns(a, b, z);
      }
    }
  }

  lemma SumOfSameSign(a: bits64, b: bits64, z: bits64)
    requires Negative(a) == Negative(b) == Negative(z)
    requires CorrectMagnitudeSum(Magnitude(a), Magnitude(b), Magnitude(z))
    ensures CorrectSum(a, b, z)
  {
    hide Units, RoundsToNearestEven;
  }

  lemma SumOfOppositeSigns(a: bits64, b: bits64, z: bits64)
    requires Negative(a) != Negative(b)
    requires var ma, mb := Magnitude(a), Magnitude(b);
      || (ma == mb && z == 0)
      || (Negative(z) == Negative(a) && CorrectMagnitudeDifference(ma, mb, Magnitude(z)))
      || (Negative(z) == !Negative(a) && CorrectMagnitudeDifference(mb, ma, Magnitude(z)))
    ensures CorrectSum(a, b, z)
  {
    hide Units, RoundsToNearestEven;
    if z == 0 && Magnitude(a) == Magnitude(b) {
      UnitsZero();
      ExactRounds(0, 1, 0);
    }
  }

  /** Less-or-equal: false on NaN, otherwise the order of the values with infinities at the ends. */
  method Float64Le(a: bits64, b: bits64) returns (r: bool)
    ensures r <==> !IsNaN(a) && !IsNaN(b) && Value(a) <= Value(b)
  {
    hide Units;
    FieldsOf(a);
    FieldsOf(b);
    if (ExtractExp(a) == 0x7FF && ExtractFrac(a) != 0) || (ExtractExp(b) == 0x7FF && ExtractFrac(b) != 0) {
      return false;
    }
    var aSign, bSign := ExtractSign(a), ExtractSign(b);
    OrderOfMagnitudes(Magnitude(a), Magnitude(b));
    UnitsZero();
    if Magnitude(a) > 0 {
      UnitsMonotone(0, Magnitude(a));
    }
    if Magnitude(b) > 0 {
      UnitsMonotone(0, Magnitude(b));
    }
    if aSign != bSign {
      // ((a | b) << 1) == 0: both are zeros.
      return aSign || (a * 2 % B64 == 0 && b * 2 % B64 == 0);
    }
    return a == b || aSign != (a < b);
  }

  lemma OrderOfMagnitudes(ma: nat, mb: nat)
    ensures ma < mb <==> Units(ma) < Units(mb)
    ensures ma == mb <==> Units(ma) == Units(mb)
  {
    hide Units;
    if ma < mb {
      UnitsMonotone(ma, mb);
    } else if mb < ma {
      UnitsMonotone(mb, ma);
    }
  }
}
