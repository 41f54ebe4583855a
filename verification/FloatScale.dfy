/** How significands with exponents, and significands with a sticky last bit, stand for exact values. */
module FloatScale {
  import opened Arith
  import opened FloatRounding
  import opened FloatMacros

  /** u == sig * 2^e, also for negative e. */
  ghost predicate Shifted(u: nat, sig: nat, e: int) {
    if e >= 0 then u == sig * P2(e) else u * P2(-e) == sig
  }

  lemma ShiftedAt(u: nat, sig: nat, e: int, j: nat)
    requires e + j >= 0
    ensures Shifted(u, sig, e) <==> u * P2(j) == sig * P2(e + j)
  {
    if e >= 0 {
      ShiftShift(sig, e, j);
      CancelFactor(P2(j), u, sig * P2(e));
    } else {
      P2Add(-e, e + j);
      var p := P2(e + j);
      assert u * P2(j) == u * P2(-e) * p;
      CancelFactor(p, u * P2(-e), sig);
    }
  }

  lemma FourProducts(a: nat, b: nat, c: nat, d: nat)
    ensures (a * b) * (c * d) == (a * c) * (b * d)
  {
    assert (a * b) * (c * d) == a * (b * (c * d)) == a * (c * (b * d)) == (a * c) * (b * d);
  }

  lemma ShiftedProduct(u1: nat, s1: nat, e1: int, u2: nat, s2: nat, e2: int)
    requires Shifted(u1, s1, e1) && Shifted(u2, s2, e2)
    ensures Shifted(u1 * u2, s1 * s2, e1 + e2)
  {
    hide Shifted, P2;
    var j1, j2 := NonNegative(-e1), NonNegative(-e2);
    ShiftedAt(u1, s1, e1, j1);
    ShiftedAt(u2, s2, e2, j2);
    FourProducts(u1, u2, P2(j1), P2(j2));
    FourProducts(s1, s2, P2(e1 + j1), P2(e2 + j2));
    P2Add(j1, j2);
    P2Add(e1 + j1, e2 + j2);
    assert e1 + j1 + (e2 + j2) == e1 + e2 + (j1 + j2);
    ShiftedAt(u1 * u2, s1 * s2, e1 + e2, j1 + j2);
  }

  /** u1/u2 == s1/s2 * 2^(e1 - e2). */
  lemma ShiftedQuotient(u1: nat, s1: nat, e1: int, u2: nat, s2: nat, e2: int)
    requires Shifted(u1, s1, e1) && Shifted(u2, s2, e2)
    ensures Shifted(u1 * s2, u2 * s1, e1 - e2)
  {
    hide Shifted, P2;
    var j1, j2 := NonNegative(-e1), NonNegative(-e2);
    ShiftedAt(u1, s1, e1, j1);
    ShiftedAt(u2, s2, e2, j2);
    CrossProducts(u1, P2(j1), s1, P2(e1 + j1), u2, P2(j2), s2, P2(e2 + j2));
    P2Add(j1, e2 + j2);
    P2Add(j2, e1 + j1);
    assert j2 + (e1 + j1) == e1 - e2 + (j1 + (e2 + j2));
    ShiftedAt(u1 * s2, u2 * s1, e1 - e2, j1 + (e2 + j2));
  }

  lemma CrossProducts(u1: nat, a: nat, s1: nat, b: nat, u2: nat, c: nat, s2: nat, d: nat)
    requires u1 * a == s1 * b && u2 * c == s2 * d
    ensures (u1 * s2) * (a * d) == (u2 * s1) * (c * b)
  {
    assert Times(u1, a) == Times(s1, b) && Times(u2, c) == Times(s2, d);
    assert (u1 * s2) * (a * d) == Times(Times(u1, s2), Times(a, d));
    assert (u2 * s1) * (c * b) == Times(Times(u2, s1), Times(c, b));
    hide Times;
    FourTimes(u1, s2, a, d);
    FourTimes(u2, s1, c, b);
    TimesCommute(Times(u1, a), Times(s2, d));
  }

  lemma FourTimes(x: nat, y: nat, z: nat, w: nat)
    ensures Times(Times(x, y), Times(z, w)) == Times(Times(x, z), Times(y, w))
  {
    TimesAssociate(x, y, Times(z, w));
    TimesAssociate(x, z, Times(y, w));
    TimesAssociate(y, z, w);
    TimesAssociate(z, y, w);
    hide Times;
    TimesCommute(y, z);
  }

  /** Agreement depends only on the ratio of numerator and denominator. */
  lemma AgreesRatio(n: nat, d: nat, num: nat, den: nat, s: nat)
    requires d > 0 && den > 0 && n * den == num * d
    requires Agrees(num, den, s)
    ensures Agrees(n, d, s)
  {
    hide Agrees;
    if s % 512 == 0 {
      AgreesCompares(num, den, s, s);
      RatioCompares(n, d, num, den, s);
    } else {
      var lo, hi := s / 512 * 512, (s / 512 + 1) * 512;
      AgreesCompares(num, den, s, lo);
      AgreesCompares(num, den, s, hi);
      RatioCompares(n, d, num, den, lo);
      RatioCompares(n, d, num, den, hi);
    }
    AgreesIntro(n, d, s);
  }

  lemma AgreesIntro(n: nat, d: nat, s: nat)
    requires d > 0
    requires if s % 512 == 0 then n == s * d else s / 512 * 512 * d < n < (s / 512 + 1) * 512 * d
    ensures Agrees(n, d, s)
  {
  }

  lemma RatioCompares(n: nat, d: nat, num: nat, den: nat, t: nat)
    requires d > 0 && den > 0 && n * den == num * d
    ensures n < t * d <==> num < t * den
    ensures n == t * d <==> num == t * den
  {
    assert t * d * den == t * den * d;
    CancelFactor(den, n, t * d);
    CancelFactor(d, num, t * den);
  }

  /** A significand that agrees with num/den represents n/d when n/d is num/den scaled by its exponent. */
  lemma RepresentsScaled(n: nat, d: nat, num: nat, den: nat, zExp: int, zSig: nat)
    requires d > 0 && den > 0
    requires Agrees(num, den, zSig)
    requires Shifted(n * den, d * num, zExp - 10)
    ensures Represents(n, d, zExp, zSig)
  {
    hide Agrees, Shifted, P2;
    var below, above := NonNegative(-zExp), NonNegative(zExp);
    ShiftedAt(n * den, d * num, zExp - 10, below + 10);
    assert zExp - 10 + (below + 10) == above;
    P2Add(below, 10);
    assert P2(10) == 1024 by { P2Ten(); }
    RatioOfScales(n, d, num, den, P2(below), P2(above));
    AgreesRatio(n * (1024 * P2(below)), d * P2(above), num, den, zSig);
  }

  lemma P2Ten()
    ensures P2(10) == 1024
  {
  }

  lemma RatioOfScales(n: nat, d: nat, num: nat, den: nat, p: nat, q: nat)
    requires (n * den) * (p * 1024) == (d * num) * q
    ensures (n * (1024 * p)) * den == num * (d * q)
  {
    assert (n * (1024 * p)) * den == (n * den) * (p * 1024);
    assert num * (d * q) == (d * num) * q;
  }

  predicate OddMultiple(s: nat, g: nat) {
    (g == 1 && s % 2 == 1) || (g == 2 && s % 4 == 2)
  }

  /** s equals num/den, or is an odd multiple of g less than g away from it; g is 1 or 2. */
  ghost predicate Sticky(num: nat, den: nat, s: nat, g: nat) {
    num == s * den || (OddMultiple(s, g) && s * den - g * den < num < s * den + g * den)
  }

  lemma StickyAgrees(num: nat, den: nat, s: nat, g: nat)
    requires den > 0 && Sticky(num, den, s, g)
    ensures Agrees(num, den, s)
  {
    if num == s * den {
      ExactAgrees(s, den);
    } else {
      NoMultipleWithin(s, g);
      OddIsNoMultiple(s, g);
      Around(num, den, s, g, s / 512 * 512, (s / 512 + 1) * 512);
    }
  }

  lemma ExactAgrees(s: nat, den: nat)
    requires den > 0
    ensures Agrees(s * den, den, s)
  {
    if s % 512 != 0 {
      var lo, hi := s / 512 * 512, (s / 512 + 1) * 512;
      assert lo < s < hi;
      ScaleMonotone(den, lo, s);
      ScaleMonotone(den, s, hi);
      assert den * lo == lo * den && den * s == s * den && den * hi == hi * den;
    }
  }

  lemma OddIsNoMultiple(s: nat, g: nat)
    requires OddMultiple(s, g)
    ensures s % 512 != 0
  {
  }

  /** An odd multiple of g keeps a distance of g from the multiples of 512. */
  lemma NoMultipleWithin(s: nat, g: nat)
    requires OddMultiple(s, g)
    ensures s / 512 * 512 + g <= s <= (s / 512 + 1) * 512 - g
  {
    ModOfMod(s, 2, 256);
    ModOfMod(s, 4, 128);
    DivMod(s, 512);
  }

  lemma Around(num: nat, den: nat, s: nat, g: nat, lo: nat, hi: nat)
    requires s * den - g * den < num < s * den + g * den && lo + g <= s <= hi - g
    ensures lo * den < num < hi * den
  {
    assert Times(s, den) == s * den && Times(g, den) == g * den && Times(lo, den) == lo * den
           && Times(hi, den) == hi * den;
    TimesSum(lo, g, den);
    TimesSum(s, g, den);
    hide Times;
    TimesGrows(den, lo + g, s);
    TimesGrows(den, s + g, hi);
  }

  lemma JamIsSticky(a: nat, count: nat)
    ensures Sticky(a, P2(count), Jam(a, count), 1)
  {
    hide P2;
    var p := P2(count);
    var q := a / p;
    DivMod(a, p);
    assert (q + 1) * p == q * p + p;
  }

  lemma StickyAdd(num: nat, den: nat, s: nat, g: nat, a: nat)
    requires a % 4 == 0 && Sticky(num, den, s, g)
    ensures Sticky(a * den + num, den, a + s, g)
  {
    assert (a + s) * den == a * den + s * den;
  }

  lemma StickySubtract(num: nat, den: nat, s: nat, g: nat, a: nat)
    requires a % 4 == 0 && s <= a && num <= a * den && Sticky(num, den, s, g)
    ensures Sticky(a * den - num, den, a - s, g)
  {
    DifferenceTimes(a, s, den);
    if num != s * den {
      OddDifference(a, s, g);
    }
    hide OddMultiple;
  }

  lemma OddDifference(a: nat, s: nat, g: nat)
    requires a % 4 == 0 && s <= a && OddMultiple(s, g)
    ensures OddMultiple(a - s, g)
  {
  }

  lemma DifferenceTimes(a: nat, s: nat, den: nat)
    ensures (a - s) * den == a * den - s * den
  {
  }

  lemma StickyDouble(num: nat, den: nat, s: nat)
    requires Sticky(num, den, s, 1)
    ensures Sticky(2 * num, den, 2 * s, 2)
  {
    assert 2 * s * den == 2 * (s * den);
  }

  lemma ShiftedRescale(u: nat, sig: nat, e: int, i: nat, j: nat)
    requires Shifted(u, sig, e)
    ensures Shifted(u * P2(i), sig * P2(j), e + i - j)
  {
    hide Shifted, P2;
    var k := NonNegative(-e) + j;
    ShiftedAt(u, sig, e, k);
    ShiftShift(u, i, k);
    ShiftShift(u, k, i);
    assert sig * P2(j) * P2(e + i - j + k) == sig * P2(e + k) * P2(i) by {
      ShiftShift(sig, j, e + i - j + k);
      ShiftShift(sig, e + k, i);
      assert j + (e + i - j + k) == e + k + i;
    }
    assert u * P2(i) * P2(k) == u * P2(k) * P2(i);
    ShiftedAt(u * P2(i), sig * P2(j), e + i - j, k);
  }
}
