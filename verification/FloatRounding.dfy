/** Why SoftFloat's shared rounding step is correct: the significand handed to it only has to fall on the
  * same side as the exact value of every multiple of 2^9 (half a unit in the last place). */
module FloatRounding {
  import opened Arith
  import opened FloatSpec

  /** s/den rounded to an integer, to nearest, ties to even. */
  function RoundQuotient(s: nat, den: nat): (q: nat)
    requires den > 0
  {
    var q, r := s / den, s % den;
    if 2 * r > den || (2 * r == den && q % 2 == 1) then q + 1 else q
  }

  function NonNegative(x: int): nat {
    if x < 0 then 0 else x
  }

  /** The magnitude that an abstract value zSig * 2^(zExp - 10) units rounds to: one rounding at full width,
    * with no preliminary jamming shift. */
  function RoundedMagnitude(zExp: int, zSig: nat): nat {
    if zExp > 0x7FD || (zExp == 0x7FD && zSig + 0x200 >= SIGN) then INF
    else NonNegative(zExp) * HIDDEN + RoundQuotient(zSig, 1024 * P2(NonNegative(-zExp)))
  }

  /** s and the exact value num/den lie on the same side of every multiple of 512. */
  ghost predicate Agrees(num: nat, den: nat, s: nat)
    requires den > 0
  {
    if s % 512 == 0 then num == s * den
    else s / 512 * 512 * den < num < (s / 512 + 1) * 512 * den
  }

  /** zSig stands for n/d at exponent zExp: it agrees with n/d divided by 2^(zExp - 10). */
  ghost predicate Represents(n: nat, d: nat, zExp: int, zSig: nat)
    requires d > 0
  {
    Agrees(n * (1024 * P2(NonNegative(-zExp))), d * P2(NonNegative(zExp)), zSig)
  }

  lemma AgreesCompares(num: nat, den: nat, s: nat, t: nat)
    requires den > 0 && Agrees(num, den, s) && t % 512 == 0
    ensures num < t * den <==> s < t
    ensures num == t * den <==> s == t
  {
    var h, j := s / 512, t / 512;
    if s % 512 == 0 {
      ScaleMonotone(den, s, t);
      ScaleMonotone(den, t, s);
    } else if j <= h {
      ScaleMonotone(den, t, h * 512);
    } else {
      ScaleMonotone(den, (h + 1) * 512, t);
    }
  }

  lemma CancelFactor(k: nat, a: nat, b: nat)
    requires k > 0
    ensures a * k < b * k <==> a < b
    ensures a * k == b * k <==> a == b
  {
    ScaleMonotone(k, a, b);
    ScaleMonotone(k, b, a);
  }

  /** Comparing n/den with a/2 gives the same answer as comparing s with a * g. */
  lemma AgreesLocates(n: nat, den: nat, g: nat, s: nat, a: nat)
    requires den > 0 && g > 0 && g % 512 == 0
    requires Agrees(n * (2 * g), den, s)
    ensures 2 * n < Times(a, den) <==> s < Times(a, g)
    ensures 2 * n == Times(a, den) <==> s == Times(a, g)
  {
    hide Agrees;
    MultipleOf512(a, g);
    AgreesCompares(n * (2 * g), den, s, a * g);
    Associate(n, 2, g);
    FactorOut(a, g, den);
    CancelFactor(g, 2 * n, a * den);
  }

  lemma MultipleOf512(a: nat, g: nat)
    requires g % 512 == 0
    ensures a * g % 512 == 0
  {
    var h := g / 512;
    assert a * g == 512 * (a * h);
  }

  lemma FactorOut(a: nat, g: nat, den: nat)
    ensures a * g * den == (a * den) * g
  {
  }

  /** n/den rounds to the integer z, to nearest with ties to even. */
  ghost predicate RoundsToInteger(n: nat, den: nat, z: nat)
    requires den > 0
  {
    && 2 * n <= (2 * z + 1) * den && (2 * n == (2 * z + 1) * den ==> z % 2 == 0)
    && 2 * n >= (2 * z - 1) * den && (2 * n == (2 * z - 1) * den ==> z % 2 == 0)
  }

  /** Twice n compared with the half-integers around s / (2 g). */
  lemma AgreesQuotient(n: nat, den: nat, g: nat, s: nat, q: nat, r: nat)
    requires den > 0 && g > 0 && g % 512 == 0 && r < 2 * g && s == q * (2 * g) + r
    requires Agrees(n * (2 * g), den, s)
    ensures 2 * (q * den) <= 2 * n < 2 * (q * den) + 2 * den
    ensures 2 * n < 2 * (q * den) + den <==> r < g
    ensures 2 * n == 2 * (q * den) + den <==> r == g
  {
    hide Times, Agrees;
    AgreesLocates(n, den, g, s, 2 * q);
    AgreesLocates(n, den, g, s, 2 * q + 1);
    AgreesLocates(n, den, g, s, 2 * q + 2);
    HalfSteps(q, den);
    HalfSteps(q, g);
  }

  lemma HalfSteps(q: nat, x: nat)
    ensures Times(2 * q, x) == 2 * (q * x) && Times(2 * q + 1, x) == 2 * (q * x) + x
            && Times(2 * q + 2, x) == 2 * (q * x) + 2 * x
    ensures q * (2 * x) == 2 * (q * x)
  {
  }

  lemma HalfwayProducts(z: nat, den: nat)
    ensures (2 * z + 1) * den == 2 * (z * den) + den
    ensures (2 * z - 1) * den == 2 * (z * den) - den
    ensures (z + 1) * den == z * den + den
    ensures (z - 1) * den == z * den - den
  {
  }

  lemma RoundingUpOrDown(n: nat, den: nat, g: nat, q: nat, r: nat)
    requires den > 0
    requires 2 * (q * den) <= 2 * n < 2 * (q * den) + 2 * den
    requires 2 * n < 2 * (q * den) + den <==> r < g
    requires 2 * n == 2 * (q * den) + den <==> r == g
    ensures RoundsToInteger(n, den, if r > g || (r == g && q % 2 == 1) then q + 1 else q)
  {
    hide RoundsToInteger;
    if r > g || (r == g && q % 2 == 1) {
      RoundedUp(n, den, q);
    } else {
      RoundedDown(n, den, q);
    }
  }

  lemma RoundedUp(n: nat, den: nat, q: nat)
    requires den > 0 && 2 * n < 2 * (q * den) + 2 * den
    requires 2 * n > 2 * (q * den) + den || (2 * n == 2 * (q * den) + den && q % 2 == 1)
    ensures RoundsToInteger(n, den, q + 1)
  {
    HalfwayProducts(q + 1, den);
    HalfwayProducts(q, den);
  }

  lemma RoundedDown(n: nat, den: nat, q: nat)
    requires den > 0 && 2 * (q * den) <= 2 * n
    requires 2 * n < 2 * (q * den) + den || (2 * n == 2 * (q * den) + den && q % 2 == 0)
    ensures RoundsToInteger(n, den, q)
  {
    HalfwayProducts(q, den);
  }

  lemma QuotientRounds(n: nat, den: nat, g: nat, s: nat)
    requires den > 0 && g > 0 && g % 512 == 0
    requires Agrees(n * (2 * g), den, s)
    ensures RoundsToInteger(n, den, RoundQuotient(s, 2 * g))
    ensures s / (2 * g) * den <= n
  {
    hide Agrees, RoundsToInteger;
    var k := 2 * g;
    var q, r := s / k, s % k;
    DivMod(s, k);
    AgreesQuotient(n, den, g, s, q, r);
    RoundingUpOrDown(n, den, g, q, r);
  }

  /** Packing adds the rounded significand to the shifted exponent; the carry into the exponent is right
    * because the value is the same either way. */
  lemma UnitsOfPacked(e: nat, z: nat)
    requires z <= 2 * HIDDEN
    requires e == 0 || HIDDEN <= z
    ensures Units(e * HIDDEN + z) == z * P2(e)
  {
    hide Units;
    if z < HIDDEN {
      UnitsOfParts(0, z);
    } else if z < 2 * HIDDEN {
      UnitsOfParts(e + 1, z - HIDDEN);
    } else {
      UnitsOfParts(e + 2, 0);
      assert UnitsOfFields(e + 2, 0) == 2 * HIDDEN * P2(e);
    }
  }

  lemma PackedAbove(e: nat, z: nat)
    requires z <= 2 * HIDDEN && (e == 0 || HIDDEN <= z)
    ensures Units(e * HIDDEN + z + 1) >= z * P2(e) + P2(e)
  {
    hide Units;
    if z < 2 * HIDDEN {
      UnitsOfPacked(e, z + 1);
      HalfwayProducts(z, P2(e));
    } else {
      UnitsOfPacked(e, z);
      UnitsStep(e + 2, 0);
      P2Monotone(e, e + 1);
    }
  }

  lemma PackedBelow(e: nat, z: nat)
    requires z <= 2 * HIDDEN && (e == 0 || HIDDEN <= z) && e * HIDDEN + z > 0
    ensures Units(e * HIDDEN + z - 1) < z * P2(e)
    ensures e == 0 || HIDDEN < z ==> Units(e * HIDDEN + z - 1) == z * P2(e) - P2(e)
  {
    hide Units;
    UnitsOfPacked(e, z);
    UnitsMonotone(e * HIDDEN + z - 1, e * HIDDEN + z);
    if e == 0 || HIDDEN < z {
      UnitsOfPacked(e, z - 1);
      HalfwayProducts(z, P2(e));
    }
  }

  lemma PackedProducts(d: nat, e: nat, z: nat)
    requires d > 0 && z <= 2 * HIDDEN && (e == 0 || HIDDEN <= z)
    ensures d * Units(e * HIDDEN + z) == z * (d * P2(e))
    ensures d * Units(e * HIDDEN + z + 1) >= z * (d * P2(e)) + d * P2(e)
    ensures e * HIDDEN + z > 0 ==> d * Units(e * HIDDEN + z - 1) < z * (d * P2(e))
    ensures e * HIDDEN + z > 0 && (e == 0 || HIDDEN < z) ==>
              d * Units(e * HIDDEN + z - 1) == z * (d * P2(e)) - d * P2(e)
  {
    hide Units, P2;
    var m, p := e * HIDDEN + z, P2(e);
    UnitsOfPacked(e, z);
    PackedAbove(e, z);
    Distribute(d, z, p);
    ScaleMonotone(d, z * p + p, Units(m + 1));
    if m > 0 {
      PackedBelow(e, z);
      ScaleMonotone(d, Units(m - 1), z * p);
    }
  }

  /** A value rounded to a significand z at exponent e is correctly rounded as a double. */
  lemma PackedRounds(n: nat, d: nat, e: nat, z: nat)
    requires d > 0
    requires z <= 2 * HIDDEN && e * HIDDEN + z <= INF
    requires e == 0 || (HIDDEN <= z && HIDDEN * (d * P2(e)) <= n)
    requires RoundsToInteger(n, d * P2(e), z)
    ensures RoundsToNearestEven(n, d, e * HIDDEN + z)
  {
    hide Units, P2, RoundsToInteger, BetweenMidpoints, RoundsToNearestEven;
    var den := d * P2(e);
    PackedProducts(d, e, z);
    IntegerMidpoints(n, den, z);
    PackedBetween(n, d, e, z, den, z * den);
    MidpointsDecide(n, d, e * HIDDEN + z);
  }

  lemma IntegerMidpoints(n: nat, den: nat, z: nat)
    requires den > 0 && RoundsToInteger(n, den, z)
    ensures 2 * n <= 2 * (z * den) + den && (2 * n == 2 * (z * den) + den ==> z % 2 == 0)
    ensures 2 * n >= 2 * (z * den) - den && (2 * n == 2 * (z * den) - den ==> z % 2 == 0)
  {
    HalfwayProducts(z, den);
  }

  lemma PackedBetween(n: nat, d: nat, e: nat, z: nat, den: nat, zden: nat)
    requires d > 0 && den > 0 && e * HIDDEN + z <= INF
    requires e == 0 || z > HIDDEN || (z == HIDDEN && zden <= n)
    requires 2 * n <= 2 * zden + den && (2 * n == 2 * zden + den ==> z % 2 == 0)
    requires 2 * n >= 2 * zden - den && (2 * n == 2 * zden - den ==> z % 2 == 0)
    requires d * Units(e * HIDDEN + z) == zden
    requires d * Units(e * HIDDEN + z + 1) >= zden + den
    requires e * HIDDEN + z > 0 ==> d * Units(e * HIDDEN + z - 1) < zden
    requires e * HIDDEN + z > 0 && (e == 0 || HIDDEN < z) ==> d * Units(e * HIDDEN + z - 1) == zden - den
    ensures BetweenMidpoints(n, d, e * HIDDEN + z)
  {
    hide Units;
    assert (e * HIDDEN + z) % 2 == z % 2;
  }

  lemma Distribute(d: nat, z: nat, p: nat)
    ensures d * (z * p) == z * (d * p)
    ensures d * (z * p + p) == z * (d * p) + d * p
    ensures d * (z * p - p) == z * (d * p) - d * p
  {
  }

  /** The main theorem: whatever exact value the normalised significand stands for, the rounded magnitude is
    * that value correctly rounded, for normal, subnormal, zero and overflowing results alike. */
  lemma RoundedMagnitudeIsCorrect(n: nat, d: nat, zExp: int, zSig: nat)
    requires d > 0
    requires SIGN / 2 <= zSig < SIGN
    requires Represents(n, d, zExp, zSig)
    ensures RoundsToNearestEven(n, d, RoundedMagnitude(zExp, zSig))
  {
    hide Represents, RoundQuotient, RoundsToNearestEven;
    if zExp > 0x7FD || (zExp == 0x7FD && zSig + 0x200 >= SIGN) {
      OverflowRounds(n, d, zExp, zSig);
    } else if zExp >= 0 {
      NormalRounds(n, d, zExp, zSig);
    } else {
      SubnormalRounds(n, d, zExp, zSig);
    }
  }

  lemma NormalRounds(n: nat, d: nat, zExp: int, zSig: nat)
    requires d > 0 && 0 <= zExp <= 0x7FD && SIGN / 2 <= zSig < SIGN && Represents(n, d, zExp, zSig)
    requires zExp == 0x7FD ==> zSig + 0x200 < SIGN
    ensures RoundsToNearestEven(n, d, zExp * HIDDEN + RoundQuotient(zSig, 1024))
  {
    assert P2(0) == 1;
    hide P2, RoundsToNearestEven, Agrees, RoundsToInteger;
    QuotientRounds(n, d * P2(zExp), 512, zSig);
    RoundedRange(zSig);
    ScaleMonotone(d * P2(zExp), HIDDEN, zSig / 1024);
    PackedRounds(n, d, zExp, RoundQuotient(zSig, 1024));
  }

  lemma RoundedRange(zSig: nat)
    requires SIGN / 2 <= zSig < SIGN
    ensures HIDDEN <= zSig / 1024 <= RoundQuotient(zSig, 1024) <= 2 * HIDDEN
    ensures zSig + 0x200 < SIGN ==> RoundQuotient(zSig, 1024) < 2 * HIDDEN
  {
  }

  lemma SubnormalRounds(n: nat, d: nat, zExp: int, zSig: nat)
    requires d > 0 && zExp < 0 && zSig < SIGN && Represents(n, d, zExp, zSig)
    ensures RoundsToNearestEven(n, d, RoundQuotient(zSig, 1024 * P2(-zExp)))
  {
    assert P2(0) == 1;
    assert P2(-zExp) >= 2;
    hide P2, RoundsToNearestEven, Agrees, RoundsToInteger;
    var g := 512 * P2(-zExp);
    QuotientRounds(n, d, g, zSig);
    QuotientBelow(zSig, 2 * g);
    PackedRounds(n, d, 0, RoundQuotient(zSig, 2 * g));
  }

  lemma QuotientBelow(zSig: nat, k: nat)
    requires zSig < SIGN && k >= 2048
    ensures RoundQuotient(zSig, k) <= HIDDEN
  {
    DivMod(zSig, k);
    var q := zSig / k;
    if q > 0 {
      ScaleMonotone(q, 2048, k);
    }
  }

  /** A value of at least 2^1024 - 2^970 overflows. */
  lemma LargeValueOverflows(n: nat, d: nat, e: nat)
    requires d > 0 && e == 0x7FD
    requires 2 * n >= (4 * HIDDEN - 1) * (d * P2(e))
    ensures RoundsToNearestEven(n, d, INF)
  {
    hide Units, P2;
    var den := d * P2(e);
    assert d * Units(INF) == 2 * HIDDEN * den by {
      UnitsOfPacked(e, 2 * HIDDEN);
      Distribute(d, 2 * HIDDEN, P2(e));
    }
    assert d * Units(INF - 1) == 2 * HIDDEN * den - den by {
      PackedBelow(e, 2 * HIDDEN);
      Distribute(d, 2 * HIDDEN, P2(e));
    }
    assert (4 * HIDDEN - 1) * den == 2 * (2 * HIDDEN * den) - den;
    MidpointsDecide(n, d, INF);
  }

  lemma OverflowRounds(n: nat, d: nat, zExp: int, zSig: nat)
    requires d > 0
    requires SIGN / 2 <= zSig < SIGN
    requires Represents(n, d, zExp, zSig)
    requires zExp > 0x7FD || (zExp == 0x7FD && zSig + 0x200 >= SIGN)
    ensures RoundsToNearestEven(n, d, INF)
  {
    hide P2;
    var e: nat := 0x7FD;
    var den := d * P2(zExp);
    assert P2(0) == 1 by { P2Zero(); }
    if zExp == 0x7FD {
      AgreesLocates(n, den, 512, zSig, 4 * HIDDEN - 1);
    } else {
      AgreesLocates(n, den, 512, zSig, 2 * HIDDEN);
      P2Monotone(e, zExp);
      ScaleMonotone(d, 2 * P2(e), P2(zExp));
      assert d * (2 * P2(e)) == 2 * (d * P2(e));
      ScaleMonotone(2 * HIDDEN, 2 * (d * P2(e)), den);
    }
    LargeValueOverflows(n, d, e);
  }

  lemma P2Zero()
    ensures P2(0) == 1
  {
  }
}
