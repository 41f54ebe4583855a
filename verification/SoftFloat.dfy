/** SoftFloat's double-precision add, subtract, multiply, divide and compare on bit patterns. */
module SoftFloat {
  import opened Arith
  import opened FloatSpec
  import opened FloatRounding
  import opened FloatMacros
  import opened FloatDivide
  import opened FloatScale

  /** The range of SoftFloat's 16-bit exponents. */
  predicate IsInt16(x: int) {
    -0x8000 <= x < 0x8000
  }

  const DEFAULT_NAN: bits64 := 0x7FFF_FFFF_FFFF_FFFF

  function ExtractFrac(a: bits64): (frac: nat)
    ensures frac < HIDDEN
  {
    a % HIDDEN
  }

  function ExtractExp(a: bits64): (exp: int)
    ensures 0 <= exp <= 0x7FF
  {
    a / HIDDEN % 0x800
  }

  function ExtractSign(a: bits64): bool {
    a / SIGN == 1
  }

  /** The three fields are added, so an integer part of zSig carries into the exponent. */
  function PackFloat64(zSign: bool, zExp: int, zSig: bits64): bits64 {
    ((if zSign then SIGN else 0) + zExp * HIDDEN + zSig) % B64
  }

  /** A NaN with the quiet bit set. */
  function Quiet(a: bits64): (z: bits64)
    ensures IsNaN(a) ==> IsNaN(z)
  {
    SetBit(a, 0x8_0000_0000_0000)
  }

  /** The NaN operand that is returned, made quiet. */
  function PropagateNaN(a: bits64, b: bits64): (z: bits64)
    requires IsNaN(a) || IsNaN(b)
    ensures IsNaN(z)
  {
    if IsSignalingNaN(b) then Quiet(b)
    else if IsSignalingNaN(a) then Quiet(a)
    else if IsNaN(b) then Quiet(b) else Quiet(a)
  }

  predicate IsSignalingNaN(a: bits64) {
    a / 0x8_0000_0000_0000 % 0x1000 == 0xFFE && a % 0x8_0000_0000_0000 != 0
  }

  lemma SignalingIsNaN(a: bits64)
    ensures IsSignalingNaN(a) ==> IsNaN(a)
  {
  }

  lemma QuietKeeps(a: bits64)
    requires IsNaN(a)
    ensures !IsSignalingNaN(Quiet(a)) && Negative(Quiet(a)) == Negative(a)
    ensures Quiet(a) % 0x8_0000_0000_0000 == a % 0x8_0000_0000_0000
  {
  }

  /** The NaN returned is one of the NaN operands with its sign and its payload kept, and it is quiet; of two NaN
    * operands it is the second one, unless only the first one signals. */
  lemma NaNIsPropagated(a: bits64, b: bits64)
    requires IsNaN(a) || IsNaN(b)
    ensures var z := PropagateNaN(a, b);
            var x := if IsNaN(b) && (IsSignalingNaN(b) || !IsSignalingNaN(a)) then b else a;
            && IsNaN(x) && IsNaN(z) && !IsSignalingNaN(z)
            && Negative(z) == Negative(x) && z % 0x8_0000_0000_0000 == x % 0x8_0000_0000_0000
  {
    SignalingIsNaN(a);
    SignalingIsNaN(b);
    hide Quiet, IsSignalingNaN, IsNaN, Negative;
    QuietKeeps(if IsNaN(b) && (IsSignalingNaN(b) || !IsSignalingNaN(a)) then b else a);
  }

  /** The exact value n/d, with the sign of n, correctly rounded. */
  ghost predicate CorrectlyRounded(n: int, d: nat, z: bits64)
    requires d > 0
  {
    && RoundsToNearestEven(if n < 0 then -n else n, d, Magnitude(z))
    && (n != 0 ==> (Negative(z) <==> n < 0))
  }

  lemma FieldsOf(a: bits64)
    ensures ExtractFrac(a) == Magnitude(a) % HIDDEN && ExtractExp(a) == Magnitude(a) / HIDDEN
    ensures ExtractSign(a) == Negative(a)
    ensures Magnitude(a) == ExtractExp(a) * HIDDEN + ExtractFrac(a)
    ensures IsNaN(a) <==> ExtractExp(a) == 0x7FF && ExtractFrac(a) != 0
    ensures IsInfinite(a) <==> ExtractExp(a) == 0x7FF && ExtractFrac(a) == 0
  {
    MagnitudeFields(a);
    DivMod(Magnitude(a), HIDDEN);
    hide ExtractFrac, ExtractExp, Magnitude;
    FieldsCompare(ExtractExp(a), ExtractFrac(a));
  }

  lemma MagnitudeFields(a: bits64)
    ensures ExtractFrac(a) == Magnitude(a) % HIDDEN && ExtractExp(a) == Magnitude(a) / HIDDEN
    ensures ExtractSign(a) == Negative(a)
  {
    ModOfMod(a, HIDDEN, 0x800);
  }

  lemma FieldsCompare(e: nat, f: nat)
    requires e <= 0x7FF && f < HIDDEN
    ensures e * HIDDEN + f > INF <==> e == 0x7FF && f != 0
    ensures e * HIDDEN + f == INF <==> e == 0x7FF && f == 0
  {
  }

  lemma PackedFields(zSign: bool, m: nat, z: bits64)
    requires m < SIGN && z == ((if zSign then SIGN else 0) + m) % B64
    ensures Magnitude(z) == m && Negative(z) == zSign
  {
  }

  /** Rounding and packing, with the jamming shift for results too small for a normal number. */
  method RoundAndPackFloat64(zSign: bool, zExp0: int, zSig0: bits64) returns (z: bits64)
    requires IsInt16(zExp0) && zSig0 < SIGN && (SIGN / 2 <= zSig0 || zExp0 == 0)
    ensures Magnitude(z) == RoundedMagnitude(zExp0, zSig0)
    ensures Negative(z) == zSign
  {
    hide RoundQuotient, Jam, P2, Low64;
    var zExp: int, zSig: bits64 := zExp0, zSig0;
    NoWrap(zSig0, 0x200, 0);
    var roundIncrement := 0x200;
    var roundBits := zSig % 0x400;
    if 0x7FD <= zExp % 0x10000 {
      if 0x7FD < zExp || (zExp == 0x7FD && SignBit(Low64(zSig + roundIncrement))) {
        z := PackFloat64(zSign, 0x7FF, 0);
        PackedFields(zSign, INF, z);
        return;
      }
      if zExp < 0 {
        zSig := ShiftRight64Jamming(zSig, -zExp);
        JamShrinks(zSig0, -zExp);
        zExp := 0;
        roundBits := zSig % 0x400;
        NoWrap(zSig, 0x200, 0);
      }
    }
    ghost var jammed := zSig;
    zSig := Low64(zSig + roundIncrement) / 0x400;
    if roundBits == 0x200 {
      zSig := zSig - zSig % 2;
    }
    RoundByAdding(jammed, zSig);
    JamByZero(zSig0);
    JamThenRound(zSig0, NonNegative(-zExp0));
    if zSig == 0 {
      zExp := 0;
    }
    z := PackFloat64(zSign, zExp, zSig);
    PackedFields(zSign, zExp * HIDDEN + zSig, z);
  }

  lemma JamShrinks(s: nat, k: nat)
    requires s < SIGN && k > 0
    ensures Jam(s, k) < SIGN / 2 + 1
  {
  }

  lemma RoundByAdding(s: nat, z: nat)
    requires s < SIGN
    requires z == (var h := (s + 0x200) / 0x400; if s % 0x400 == 0x200 then h - h % 2 else h)
    ensures z == RoundQuotient(s, 1024) && z <= 2 * HIDDEN
  {
  }

  lemma NestedQuotient(s: nat, p: nat)
    requires p > 0
    ensures s / (1024 * p) == s / p / 1024
    ensures s % (1024 * p) == s / p % 1024 * p + s % p
  {
    ModOfMod(s, p, 1024);
    DivMod(s % (1024 * p), p);
  }

  lemma CompareWithHalf(low: nat, p: nat, r: nat)
    requires r < p
    ensures 2 * (low * p + r) > 1024 * p <==> low > 512 || (low == 512 && r > 0)
    ensures 2 * (low * p + r) == 1024 * p <==> low == 512 && r == 0
  {
    if low < 512 {
      ScaleMonotone(p, low + 1, 512);
    } else {
      ScaleMonotone(p, 512, low);
      ScaleMonotone(p, 513, low);
    }
  }

  lemma RoundQuotientIs(s: nat, den: nat, q: nat, r: nat)
    requires den > 0 && q == s / den && r == s % den
    ensures RoundQuotient(s, den) == if 2 * r > den || (2 * r == den && q % 2 == 1) then q + 1 else q
  {
  }

  lemma JamIs(s: nat, k: nat, q: nat, r: nat)
    requires q == s / P2(k) && r == s % P2(k)
    ensures Jam(s, k) == if r != 0 && q % 2 == 0 then q + 1 else q
  {
  }

  lemma RoundJammed(q: nat, r: nat, z: nat)
    requires z == if r != 0 && q % 2 == 0 then q + 1 else q
    ensures RoundQuotient(z, 1024)
         == (var high, low := q / 1024, q % 1024;
             if low > 512 || (low == 512 && (r > 0 || high % 2 == 1)) then high + 1 else high)
  {
    hide RoundQuotient;
    var high, low := q / 1024, q % 1024;
    EvenSuccessor(q, high, low);
    RoundQuotientIs(z, 1024, high, if z == q then low else low + 1);
  }

  lemma EvenSuccessor(q: nat, high: nat, low: nat)
    requires high == q / 1024 && low == q % 1024
    ensures q == high * 1024 + low && low < 1024
    ensures low % 2 == q % 2 && (q % 2 == 0 ==> low < 1023)
  {
    DivMod(q, 1024);
    ModOfMod(q, 2, 512);
  }

  /** A bit jammed into the last place before rounding leaves the rounding of the whole value unchanged. */
  lemma JamThenRound(s: nat, k: nat)
    ensures RoundQuotient(Jam(s, k), 1024) == RoundQuotient(s, 1024 * P2(k))
  {
    hide P2, RoundQuotient, Jam;
    var p := P2(k);
    var q, r := s / p, s % p;
    DivMod(s, p);
    NestedQuotient(s, p);
    CompareWithHalf(q % 1024, p, r);
    JamIs(s, k, q, r);
    RoundJammed(q, r, Jam(s, k));
    RoundQuotientIs(s, 1024 * p, q / 1024, q % 1024 * p + r);
  }

  const ONE: nat := 0x3FF0_0000_0000_0000

  /** A nonzero finite magnitude as a 53-bit significand with its exponent field, made up for a subnormal. */
  ghost predicate Normalised(m: nat, exp: int, sig: nat) {
    && HIDDEN <= sig < 2 * HIDDEN && -51 <= exp <= 0x7FE
    && Shifted(Units(m), sig, exp - 1)
  }

  method NormalizeFloat64Subnormal(aSig: bits64) returns (zExp: int, zSig: bits64)
    requires 0 < aSig < HIDDEN
    ensures HIDDEN <= zSig < 2 * HIDDEN && Normalised(aSig, zExp, zSig)
  {
    hide P2, Units;
    var clz := CountLeadingZeros64(aSig);
    SubnormalShift(aSig, clz);
    var shiftCount := clz - 11;
    zSig := aSig * P2(shiftCount) % B64;
    zExp := 1 - (shiftCount as int);
  }

  lemma SubnormalShift(aSig: nat, clz: nat)
    requires 0 < aSig < HIDDEN && clz < 64 && SIGN <= aSig * P2(clz) < B64
    ensures 12 <= clz
    ensures HIDDEN <= aSig * P2(clz - 11) < 2 * HIDDEN
    ensures Units(aSig) == aSig
  {
    assert P2(11) == 2048;
    hide P2;
    if clz < 12 {
      P2Monotone(clz, 11);
      ScaleMonotone(aSig, P2(clz), 2048);
    } else {
      ShiftShift(aSig, clz - 11, 11);
    }
  }

  lemma SetHidden(sig: nat)
    requires sig < 2 * HIDDEN
    ensures SetBit(sig, HIDDEN) == if sig < HIDDEN then sig + HIDDEN else sig
  {
  }

  lemma NormalOperand(a: bits64)
    requires 0 < ExtractExp(a) < 0x7FF
    ensures Normalised(Magnitude(a), ExtractExp(a), ExtractFrac(a) + HIDDEN)
  {
    FieldsOf(a);
  }

  /** The value of 1.0, in units of 2^-1074: the unit of the scale on which products and quotients are compared. */
  lemma UnitsOfOne()
    ensures Units(ONE) > 0 && Shifted(Units(ONE), HIDDEN, 1022) && Shifted(Units(ONE), 1, 1074)
  {
    hide P2;
    UnitsOfParts(1023, 0);
    P2Add(52, 1022);
    P2FiftyTwo();
  }

  lemma P2FiftyTwo()
    ensures P2(52) == HIDDEN
  {
    P2Words();
    P2Add(32, 20);
    assert P2(20) == 0x10_0000;
  }

  /** Both words of the scaled product, jammed, stand for the exact product of the operands. */
  lemma ProductRepresented(ma: nat, mb: nat, ea: int, eb: int, sa: nat, sb: nat, up: nat, num: nat, zExp: int,
                           zSig: nat)
    requires Normalised(ma, ea, sa) && Normalised(mb, eb, sb)
    requires num == sa * sb * P2(up) && zExp == ea + eb - 0x3FF + 21 - up
    requires Agrees(num, B64, zSig)
    ensures Units(ONE) > 0
    ensures Represents(Units(ma) * Units(mb), Units(ONE), zExp, zSig)
  {
    hide Units, P2, Shifted, Agrees, Represents;
    var n, d, s := Units(ma) * Units(mb), Units(ONE), sa * sb;
    UnitsOfOne();
    ShiftedProduct(Units(ma), sa, ea - 1, Units(mb), sb, eb - 1);
    ShiftedQuotient(n, s, ea + eb - 2, d, HIDDEN, 1022);
    ShiftedRescale(n * HIDDEN, d * s, ea + eb - 1024, 12, up);
    assert n * HIDDEN * P2(12) == n * B64 by { P2Small(); }
    assert d * s * P2(up) == d * num;
    RepresentsScaled(n, d, num, B64, zExp, zSig);
  }

  lemma P2Small()
    ensures P2(10) == 0x400 && P2(11) == 0x800 && P2(12) == 0x1000 && P2(21) == 0x20_0000 && P2(22) == 2 * P2(21)
  {
  }

  /** m is the exact product of the magnitudes ma and mb, correctly rounded. */
  ghost predicate CorrectProduct(ma: nat, mb: nat, m: nat) {
    Units(ONE) > 0 && RoundsToNearestEven(Units(ma) * Units(mb), Units(ONE), m)
  }

  /** The significand and exponent left after multiplying, with the bit shifted in when the product is below 2. */
  ghost predicate ProductSignificand(ea: int, eb: int, sticky: bits64, zExp: int, zSig: nat) {
    && SIGN / 4 <= sticky < SIGN
    && zSig == (if sticky < SIGN / 2 then 2 * sticky else sticky)
    && zExp == ea + eb - (if sticky < SIGN / 2 then 0x400 else 0x3FF)
  }

  lemma ProductRounds(ma: nat, mb: nat, ea: int, eb: int, sa: nat, sb: nat, high: bits64, low: bits64, sticky: nat,
                      zExp: int, zSig: nat)
    requires Normalised(ma, ea, sa) && Normalised(mb, eb, sb)
    requires Wide(high, low) == sa * sb * P2(21)
    requires sticky == (if low != 0 then SetBit(high, 1) else high)
    requires ProductSignificand(ea, eb, sticky, zExp, zSig)
    ensures CorrectProduct(ma, mb, RoundedMagnitude(zExp, zSig))
  {
    hide Units, P2, Represents, Agrees, RoundsToNearestEven, RoundedMagnitude, Normalised, Sticky;
    var p := Wide(high, low);
    StickyWord(p, high, low, sticky);
    if sticky < SIGN / 2 {
      StickyDouble(p, B64, sticky);
      StickyAgrees(2 * p, B64, zSig, 2);
      assert 2 * p == sa * sb * P2(22) by { P2Small(); Distribute(2, sa * sb, P2(21)); }
      ProductRepresented(ma, mb, ea, eb, sa, sb, 22, 2 * p, zExp, zSig);
    } else {
      StickyAgrees(p, B64, zSig, 1);
      ProductRepresented(ma, mb, ea, eb, sa, sb, 21, p, zExp, zSig);
    }
    RoundedMagnitudeIsCorrect(Units(ma) * Units(mb), Units(ONE), zExp, zSig);
  }

  /** The product of two finite nonzero operands, as SoftFloat multiplies their significands. */
  method MultiplySignificands(zSign: bool, ghost ma: nat, ghost mb: nat, aExp: int, bExp: int, sa: nat, sb: nat)
    returns (z: bits64)
    requires Normalised(ma, aExp, sa) && Normalised(mb, bExp, sb)
    ensures Negative(z) == zSign && CorrectProduct(ma, mb, Magnitude(z))
  {
    hide Product, RoundedMagnitude, CorrectProduct, Shifted, P2, Units, Low64;
    var zExp := aExp + bExp - 0x3FF;
    var aSig: bits64, bSig: bits64 := sa * 0x400, sb * 0x800;
    var zSig0, zSig1 := Mul64To128(aSig, bSig);
    ghost var high := zSig0;
    ProductRange(sa, sb, Wide(zSig0, zSig1));
    if zSig1 != 0 {
      zSig0 := SetBit(zSig0, 1);
    }
    ghost var sticky := zSig0;
    ProductWord(high, zSig1, sticky);
    NoWrap(sticky, sticky, 0);
    if !SignBit(Low64(zSig0 + zSig0)) {
      zSig0 := Low64(zSig0 + zSig0);
      zExp := zExp - 1;
    }
    assert ProductSignificand(aExp, bExp, sticky, zExp, zSig0);
    ProductRounds(ma, mb, aExp, bExp, sa, sb, high, zSig1, sticky, zExp, zSig0);
    z := RoundAndPackFloat64(zSign, zExp, zSig0);
  }

  /** The upper word of a significand product, sticky bit included, lies between 2^61 and 2^63. */
  lemma ProductWord(high: bits64, low: bits64, sticky: nat)
    requires B128 / 8 <= Wide(high, low) < B128 / 2
    requires sticky == if low != 0 then SetBit(high, 1) else high
    ensures SIGN / 4 <= sticky < SIGN
  {
  }

  lemma ProductRange(sa: nat, sb: nat, p: nat)
    requires HIDDEN <= sa < 2 * HIDDEN && HIDDEN <= sb < 2 * HIDDEN
    requires p == Product(sa * 0x400, sb * 0x800)
    ensures B128 / 8 <= p < B128 / 2
    ensures p == sa * sb * P2(21)
  {
    P2Small();
    assert p == sa * sb * 0x20_0000;
    ScaleMonotone(sb, HIDDEN, sa);
    ScaleMonotone(sb, sa, 2 * HIDDEN);
  }

  /** The upper word with a sticky bit for the lower one. */
  lemma StickyWord(p: nat, high: bits64, low: bits64, z: nat)
    requires p == Wide(high, low)
    requires z == if low != 0 then SetBit(high, 1) else high
    ensures Sticky(p, B64, z, 1)
  {
  }

  lemma ExactRounds(n: nat, d: nat, m: nat)
    requires d > 0 && m <= INF && n == d * Units(m)
    ensures RoundsToNearestEven(n, d, m)
  {
    hide Units;
    forall w: nat | w <= INF && w != m
      ensures Distance(n, d, w) > 0
    {
      if w < m {
        UnitsMonotone(w, m);
        ScaleMonotone(d, Units(w), Units(m));
      } else {
        UnitsMonotone(m, w);
        ScaleMonotone(d, Units(m), Units(w));
      }
    }
  }

  lemma ZeroProduct(ma: nat, mb: nat)
    requires ma == 0 || mb == 0
    ensures CorrectProduct(ma, mb, 0)
  {
    hide Units, Shifted, RoundsToNearestEven;
    UnitsZero();
    UnitsOfOne();
    var d := Units(ONE);
    assert d * 0 == 0;
    ExactRounds(0, d, 0);
    ZeroTimes(Units(ma), Units(mb));
  }

  lemma UnitsZero()
    ensures Units(0) == 0
  {
  }

  lemma ZeroTimes(x: nat, y: nat)
    requires x == 0 || y == 0
    ensures x * y == 0
  {
  }

  function InvalidProduct(a: bits64, b: bits64): bool {
    (IsInfinite(a) && Magnitude(b) == 0) || (IsInfinite(b) && Magnitude(a) == 0)
  }

  /** Multiplication: correctly rounded for finite operands, subnormals and overflow included. */
  method Float64Mul(a: bits64, b: bits64) returns (z: bits64)
    ensures IsNaN(a) || IsNaN(b) ==> z == PropagateNaN(a, b)
    ensures InvalidProduct(a, b) ==> z == DEFAULT_NAN && IsNaN(z)
    ensures !IsNaN(a) && !IsNaN(b) && !InvalidProduct(a, b) ==>
              && (Negative(z) <==> Negative(a) != Negative(b))
              && (IsInfinite(a) || IsInfinite(b) ==> IsInfinite(z))
              && (IsFinite(a) && IsFinite(b) ==> CorrectProduct(Magnitude(a), Magnitude(b), Magnitude(z)))
  {
    hide CorrectProduct, Normalised, PropagateNaN, Units;
    var aSig, aExp, aSign := ExtractFrac(a), ExtractExp(a), ExtractSign(a);
    var bSig, bExp, bSign := ExtractFrac(b), ExtractExp(b), ExtractSign(b);
    FieldsOf(a);
    FieldsOf(b);
    var zSign := aSign != bSign;
    if aExp == 0x7FF {
      if aSig != 0 || (bExp == 0x7FF && bSig != 0) {
        return PropagateNaN(a, b);
      }
      if bExp == 0 && bSig == 0 {
        return DEFAULT_NAN;
      }
      z := PackFloat64(zSign, 0x7FF, 0);
      PackedFields(zSign, INF, z);
      return;
    }
    if bExp == 0x7FF {
      if bSig != 0 {
        return PropagateNaN(a, b);
      }
      if aExp == 0 && aSig == 0 {
        return DEFAULT_NAN;
      }
      z := PackFloat64(zSign, 0x7FF, 0);
      PackedFields(zSign, INF, z);
      return;
    }
    if aExp == 0 {
      if aSig == 0 {
        z := PackFloat64(zSign, 0, 0);
        PackedFields(zSign, 0, z);
        ZeroProduct(Magnitude(a), Magnitude(b));
        return;
      }
      aExp, aSig := NormalizeFloat64Subnormal(aSig);
    } else {
      NormalOperand(a);
    }
    if bExp == 0 {
      if bSig == 0 {
        z := PackFloat64(zSign, 0, 0);
        PackedFields(zSign, 0, z);
        ZeroProduct(Magnitude(a), Magnitude(b));
        return;
      }
      bExp, bSig := NormalizeFloat64Subnormal(bSig);
    } else {
      NormalOperand(b);
    }
    SetHidden(aSig);
    SetHidden(bSig);
    z := MultiplySignificands(zSign, Magnitude(a), Magnitude(b), aExp, bExp, SetBit(aSig, HIDDEN),
                              SetBit(bSig, HIDDEN));
  }

  /** m is the exact quotient of the magnitudes ma and mb, correctly rounded. */
  ghost predicate CorrectQuotient(ma: nat, mb: nat, m: nat) {
    Units(mb) > 0 && RoundsToNearestEven(Units(ma) * Units(ONE), Units(mb), m)
  }

  lemma PositiveOperand(m: nat, exp: int, sig: nat)
    requires Normalised(m, exp, sig)
    ensures Units(m) > 0
  {
  }

  lemma QuotientRepresented(ma: nat, mb: nat, ea: int, eb: int, sa: nat, sb: nat, up: nat, num: nat, den: nat,
                            zExp: int, zSig: nat)
    requires Normalised(ma, ea, sa) && Normalised(mb, eb, sb)
    requires num == sa * P2(up) && den == sb * P2(11) && den > 0 && zExp == ea - eb + 0x3FD + 74 - up
    requires Agrees(num, den, zSig)
    ensures Units(mb) > 0
    ensures Represents(Units(ma) * Units(ONE), Units(mb), zExp, zSig)
  {
    hide Units, P2, Shifted, Agrees, Represents;
    var n, d := Units(ma) * Units(ONE), Units(mb);
    UnitsOfOne();
    PositiveOperand(mb, eb, sb);
    ShiftedProduct(Units(ma), sa, ea - 1, Units(ONE), 1, 1074);
    ShiftedQuotient(n, sa, ea + 1073, d, sb, eb - 1);
    ShiftedRescale(n * sb, d * sa, ea - eb + 1074, 11, up);
    assert n * sb * P2(11) == n * den;
    assert d * sa * P2(up) == d * num;
    RepresentsScaled(n, d, num, den, zExp, zSig);
  }

  /** The significands are scaled so that the quotient has 63 bits. */
  ghost predicate DivideScaled(sa: nat, sb: nat, aSig: nat, bSig: nat, up: nat) {
    && bSig == sb * 0x800
    && (if sb * 0x800 <= sa * 0x800 then aSig == sa * 0x200 && up == 73 else aSig == sa * 0x400 && up == 74)
  }

  lemma QuotientRange(sa: nat, sb: nat, aSig: nat, bSig: nat, up: nat)
    requires HIDDEN <= sa < 2 * HIDDEN && HIDDEN <= sb < 2 * HIDDEN
    requires DivideScaled(sa, sb, aSig, bSig, up)
    ensures SIGN <= bSig < B64 && aSig < bSig
    ensures bSig <= 4 * aSig && 2 * aSig < bSig
    ensures aSig * B64 == sa * P2(up) && bSig == sb * P2(11)
  {
    P2Small();
    P2Words();
    P2Add(64, 9);
    P2Add(64, 10);
    assert P2(9) == 0x200;
  }

  /** The estimate, before and after correction: the exact quotient lies in the same 2^9-wide interval. */
  lemma UncorrectedAgrees(num: nat, den: nat, z: nat)
    requires den > 0 && EstimatesQuotient(num, den, z) && z % 0x200 > 2
    ensures Agrees(num, den, z)
  {
    ScaleMonotone(den, z / 512 * 512, z - 2);
    ScaleMonotone(den, z + 1, (z / 512 + 1) * 512);
  }

  lemma CorrectedIsSticky(num: nat, den: nat, q: nat, rem: nat, z: nat)
    requires num == q * den + rem && rem < den
    requires z == if rem != 0 then SetBit(q, 1) else q
    ensures Sticky(num, den, z, 1)
  {
    assert (q + 1) * den == q * den + den;
  }

  lemma QuotientMagnitude(num: nat, den: nat, z: nat, top: nat)
    requires den > 0 && Agrees(num, den, z)
    requires top * B64 == num && den <= 4 * top && 2 * top < den
    ensures SIGN / 2 <= z < SIGN
  {
    AgreesCompares(num, den, z, SIGN / 2);
    AgreesCompares(num, den, z, SIGN);
  }

  lemma QuotientRounds(ma: nat, mb: nat, ea: int, eb: int, sa: nat, sb: nat, aSig: nat, bSig: nat, up: nat,
                       zExp: int, zSig: nat)
    requires Normalised(ma, ea, sa) && Normalised(mb, eb, sb)
    requires DivideScaled(sa, sb, aSig, bSig, up) && zExp == ea - eb + 0x3FD + 74 - up
    requires bSig > 0 && Agrees(aSig * B64, bSig, zSig)
    ensures SIGN / 2 <= zSig < SIGN
    ensures CorrectQuotient(ma, mb, RoundedMagnitude(zExp, zSig))
  {
    hide Units, P2, Shifted, Represents, Agrees, RoundsToNearestEven, RoundedMagnitude;
    QuotientRange(sa, sb, aSig, bSig, up);
    QuotientMagnitude(aSig * B64, bSig, zSig, aSig);
    QuotientRepresented(ma, mb, ea, eb, sa, sb, up, aSig * B64, bSig, zExp, zSig);
    RoundedMagnitudeIsCorrect(Units(ma) * Units(ONE), Units(mb), zExp, zSig);
  }

  /** The exact quotient with a sticky bit, or an estimate that cannot round differently. */
  method QuotientSignificand(aSig: bits64, bSig: bits64) returns (zSig: bits64)
    requires SIGN <= bSig && 2 * aSig < bSig
    ensures Agrees(aSig * B64, bSig, zSig)
  {
    hide Product, Agrees, EstimatesQuotient, Sticky, Remaining, SignBit, Times;
    ghost var num := Wide(aSig, 0);
    zSig := EstimateDiv128To64(aSig, 0, bSig);
    if zSig % 0x200 <= 2 {
      var term0, term1 := Mul64To128(bSig, zSig);
      var rem0, rem1 := Sub128(aSig, 0, term0, term1);
      ghost var r := num - Wide(term0, term1);
      EstimateRemaining(num, bSig, zSig, r, rem0, rem1);
      while SignBit(rem0)
        invariant Remaining(num, bSig, zSig, r, rem0, rem1)
        decreases zSig
      {
        var new0, new1 := Add128(rem0, rem1, 0, bSig);
        NextRemainder(num, bSig, zSig, r, rem0, rem1, new0, new1);
        zSig := zSig - 1;
        rem0, rem1 := new0, new1;
        r := r + bSig;
      }
      LastRemainder(num, bSig, zSig, r, rem0, rem1);
      ghost var q := zSig;
      if rem1 != 0 {
        zSig := SetBit(zSig, 1);
      }
      SignificandAgrees(num, bSig, q, rem1, zSig);
    } else {
      UncorrectedAgrees(num, bSig, zSig);
    }
  }

  lemma EstimateRemaining(num: nat, b: bits64, z: bits64, r: int, rem0: bits64, rem1: bits64)
    requires num < B128 && EstimatesQuotient(num, b, z)
    requires r == num - Product(b, z)
    requires Wide(rem0, rem1) == Wrap128(r)
    ensures Remaining(num, b, z, r, rem0, rem1)
  {
    assert (z - 2) * b == z * b - 2 * b && (z + 1) * b == z * b + b;
  }

  lemma SignificandAgrees(num: nat, b: bits64, q: nat, rem: bits64, z: nat)
    requires num == Times(q, b) + rem && rem < b
    requires z == if rem != 0 then SetBit(q, 1) else q
    ensures Agrees(num, b, z)
  {
    hide Agrees, Sticky;
    CorrectedIsSticky(num, b, q, rem, z);
    StickyAgrees(num, b, z, 1);
  }

  method DivideSignificands(zSign: bool, ghost ma: nat, ghost mb: nat, aExp: int, bExp: int, sa: nat, sb: nat)
    returns (z: bits64)
    requires Normalised(ma, aExp, sa) && Normalised(mb, bExp, sb)
    ensures Negative(z) == zSign && CorrectQuotient(ma, mb, Magnitude(z))
  {
    hide Agrees, RoundedMagnitude, CorrectQuotient, Shifted, P2, Units;
    var zExp := aExp - bExp + 0x3FD;
    var aSig: bits64, bSig: bits64 := sa * 0x400, sb * 0x800;
    ghost var up := 74;
    if bSig <= aSig + aSig {
      aSig := aSig / 2;
      zExp := zExp + 1;
      up := 73;
    }
    QuotientRange(sa, sb, aSig, bSig, up);
    var zSig := QuotientSignificand(aSig, bSig);
    QuotientRounds(ma, mb, aExp, bExp, sa, sb, aSig, bSig, up, zExp, zSig);
    z := RoundAndPackFloat64(zSign, zExp, zSig);
  }

  lemma ZeroQuotient(mb: nat)
    requires mb > 0
    ensures CorrectQuotient(0, mb, 0)
  {
    hide Units, RoundsToNearestEven;
    UnitsZero();
    UnitsMonotone(0, mb);
    var d := Units(mb);
    assert d * 0 == 0;
    ExactRounds(0, d, 0);
    ZeroTimes(0, Units(ONE));
  }

  function InvalidQuotient(a: bits64, b: bits64): bool {
    (IsInfinite(a) && IsInfinite(b)) || (Magnitude(a) == 0 && Magnitude(b) == 0)
  }

  /** Division: correctly rounded for finite operands with a nonzero divisor, subnormals included. */
  method Float64Div(a: bits64, b: bits64) returns (z: bits64)
    ensures IsNaN(a) || IsNaN(b) ==> z == PropagateNaN(a, b)
    ensures InvalidQuotient(a, b) ==> z == DEFAULT_NAN && IsNaN(z)
    ensures !IsNaN(a) && !IsNaN(b) && !InvalidQuotient(a, b) ==>
              && (Negative(z) <==> Negative(a) != Negative(b))
              && (IsInfinite(a) || Magnitude(b) == 0 ==> IsInfinite(z))
              && (IsFinite(a) && IsInfinite(b) ==> Magnitude(z) == 0)
              && (IsFinite(a) && IsFinite(b) && Magnitude(b) > 0 ==>
                    CorrectQuotient(Magnitude(a), Magnitude(b), Magnitude(z)))
  {
    hide CorrectQuotient, Normalised, PropagateNaN, Units;
    var aSig, aExp, aSign := ExtractFrac(a), ExtractExp(a), ExtractSign(a);
    var bSig, bExp, bSign := ExtractFrac(b), ExtractExp(b), ExtractSign(b);
    FieldsOf(a);
    FieldsOf(b);
    var zSign := aSign != bSign;
    if aExp == 0x7FF {
      if aSig != 0 {
        return PropagateNaN(a, b);
      }
      if bExp == 0x7FF {
        if bSig != 0 {
          return PropagateNaN(a, b);
        }
        return DEFAULT_NAN;
      }
      z := PackFloat64(zSign, 0x7FF, 0);
      PackedFields(zSign, INF, z);
      return;
    }
    if bExp == 0x7FF {
      if bSig != 0 {
        return PropagateNaN(a, b);
      }
      z := PackFloat64(zSign, 0, 0);
      PackedFields(zSign, 0, z);
      return;
    }
    if bExp == 0 {
      if bSig == 0 {
        if aExp == 0 && aSig == 0 {
          return DEFAULT_NAN;
        }
        z := PackFloat64(zSign, 0x7FF, 0);
        PackedFields(zSign, INF, z);
        return;
      }
      bExp, bSig := NormalizeFloat64Subnormal(bSig);
    } else {
      NormalOperand(b);
    }
    if aExp == 0 {
      if aSig == 0 {
        z := PackFloat64(zSign, 0, 0);
        PackedFields(zSign, 0, z);
        ZeroQuotient(Magnitude(b));
        return;
      }
      aExp, aSig := NormalizeFloat64Subnormal(aSig);
    } else {
      NormalOperand(a);
    }
    SetHidden(aSig);
    SetHidden(bSig);
    z := DivideSignificands(zSign, Magnitude(a), Magnitude(b), aExp, bExp, SetBit(aSig, HIDDEN), SetBit(bSig, HIDDEN));
  }
}
