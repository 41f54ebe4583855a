/** The 16-bit fixed-point operations of the GSM code. */
module GsmArith {
  import opened Arith
  import opened ByteTable

  const MIN_WORD := -32768
  const MAX_WORD := 32767

  type word = x: int | -32768 <= x < 32768

  /** Saturating sum. */
  function GsmAdd(a: word, b: word): word {
    if a + b < MIN_WORD then MIN_WORD else if a + b > MAX_WORD then MAX_WORD else a + b
  }

  /** Rounded product of two fractions. */
  function GsmMultR(a: word, b: word): word {
    if a == MIN_WORD && b == MIN_WORD then MAX_WORD else Wrap16((a * b + 16384) / 32768)
  }

  /** How far z, as a 15-bit fraction, is from the exact value x in units of 2^-30. */
  function Off(z: word, x: int): nat {
    if 32768 * z >= x then 32768 * z - x else x - 32768 * z
  }

  /** The product is the nearest fraction, save that -1 times -1 is just below one. */
  lemma ProductIsNearest(a: word, b: word)
    ensures a == b == MIN_WORD ==> GsmMultR(a, b) == MAX_WORD
    ensures a != MIN_WORD || b != MIN_WORD ==> Off(GsmMultR(a, b), a * b) <= 16384
  {
    var x := a * b;
    if a != MIN_WORD || b != MIN_WORD {
      ProductFits(a, b);
    }
  }

  lemma ProductFits(a: int, b: int)
    requires -32768 <= a < 32768 && -32768 <= b < 32768 && (a != -32768 || b != -32768)
    ensures -32768 * 32768 <= a * b <= 32768 * 32767
  {
    var x: nat := if a < 0 then -a else a;
    var y: nat := if b < 0 then -b else b;
    Grows(y, x, 32768);
    Grows(32768, y, 32768);
    if x == 32768 {
      Grows(32768, y, 32767);
    } else {
      Grows(y, x, 32767);
    }
    assert a * b == x * y || a * b == -(x * y);
  }

  /** A sum with a rounded product is the fraction nearest to the exact value: no other one is nearer. */
  lemma SumIsNearest(c: word, a: word, b: word, w: word)
    requires a != MIN_WORD || b != MIN_WORD
    ensures Off(GsmAdd(c, GsmMultR(a, b)), 32768 * c + a * b) <= Off(w, 32768 * c + a * b)
  {
    ProductIsNearest(a, b);
    SumIsNearestTo(c, GsmMultR(a, b), a * b, w);
    hide GsmMultR, GsmAdd, Off;
  }

  lemma SumIsNearestTo(c: word, t: word, x: int, w: word)
    requires Off(t, x) <= 16384
    ensures Off(GsmAdd(c, t), 32768 * c + x) <= Off(w, 32768 * c + x)
  {
  }

  function GsmAbs(a: word): (r: word)
    ensures r >= 0
  {
    if a >= 0 then a else if a == MIN_WORD then MAX_WORD else -a
  }

  /** The leading bits of a positive value before its first one, from a byte table. */
  function NormOfMagnitude(a: nat): int
    requires a < 0x8000_0000
  {
    if a >= 0x1_0000 then
      if a >= 0x100_0000 then LeadingZeros(a / 0x100_0000) - 1 else LeadingZeros(a / 0x1_0000) + 7
    else if a >= 0x100 then LeadingZeros(a / 0x100) + 15
    else LeadingZeros(a) + 23
  }

  function GsmNorm(a: int): int
    requires -0x8000_0000 <= a < 0x8000_0000
  {
    if a >= 0 then NormOfMagnitude(a) else if a <= -0x4000_0000 then 0 else NormOfMagnitude(-a - 1)
  }

  /** Shifting the byte at the top of a moves the whole of a the same way. */
  lemma ShiftByTopByte(a: nat, p: nat, z: nat)
    requires 0 < p && a / p < 256 && a / p > 0 && z == LeadingZeros(a / p)
    ensures z < 8 && 128 * p <= a * P2(z) < 256 * p
  {
    hide P2, LeadingZeros;
    var top := a / p;
    LeadingZerosNormalise(top);
    TopPart(a, p, top);
    TopBounds(a, p, top, P2(z));
  }

  lemma TopPart(a: nat, p: nat, top: nat)
    requires p > 0 && top == a / p
    ensures top * p <= a < (top + 1) * p
  {
    DivMod(a, p);
  }

  lemma TopBounds(a: nat, p: nat, top: nat, q: nat)
    requires p > 0 && q > 0 && top * p <= a < (top + 1) * p && 128 <= top * q && (top + 1) * q <= 256
    ensures 128 * p <= a * q < 256 * p
  {
    assert Times(top, p) <= a < Times(top + 1, p) && 128 <= Times(top, q) && Times(top + 1, q) <= 256;
    assert Times(a, q) == a * q && Times(128, p) == 128 * p && Times(256, p) == 256 * p;
    hide Times;
    TimesGrows(q, Times(top, p), a);
    TimesGrows(q, a, Times(top + 1, p));
    TimesAssociate(top, p, q);
    TimesAssociate(top + 1, p, q);
    TimesGrows(p, 128, Times(top, q));
    TimesGrows(p, Times(top + 1, q), 256);
  }

  lemma NormAgain(a: nat, z: nat, k: nat, p: nat, norm: nat)
    requires 128 * p <= a * P2(z) < 256 * p && norm == z + k && p * P2(k) == 0x80_0000
    ensures 0x4000_0000 <= a * P2(norm) < 0x8000_0000
  {
    hide P2;
    ShiftShift(a, z, k);
    Between(a * P2(z), p, P2(k));
  }

  lemma Between(m: nat, p: nat, q: nat)
    requires 128 * p <= m < 256 * p && p * q == 0x80_0000
    ensures 0x4000_0000 <= m * q < 0x8000_0000
  {
    assert Times(p, q) == 0x80_0000 && Times(m, q) == m * q && Times(128, p) == 128 * p && Times(256, p) == 256 * p;
    assert Times(128, 0x80_0000) == 0x4000_0000 && Times(256, 0x80_0000) == 0x8000_0000;
    NotZero(p, q);
    hide Times;
    TimesGrows(q, Times(128, p), m);
    TimesGrows(q, m, Times(256, p));
    TimesAssociate(128, p, q);
    TimesAssociate(256, p, q);
  }

  lemma NotZero(p: nat, q: nat)
    requires p * q > 0
    ensures q > 0
  {
  }

  lemma NormPowers()
    ensures P2(7) == 0x80 && P2(15) == 0x8000 && P2(23) == 0x80_0000
  {
    assert P2(7) == 0x80;
    P2Add(7, 8);
    P2Add(15, 8);
    assert P2(8) == 0x100;
  }

  /** The norm brings a positive value's leading one to bit 30. */
  lemma NormNormalises(a: nat)
    requires 0 < a < 0x8000_0000
    ensures 0 <= GsmNorm(a) <= 30 && 0x4000_0000 <= a * P2(GsmNorm(a)) < 0x8000_0000
  {
    NormPowers();
    hide P2, LeadingZeros;
    if a >= 0x100_0000 {
      NormOfTopByte(a);
    } else if a >= 0x1_0000 {
      ShiftByTopByte(a, 0x1_0000, LeadingZeros(a / 0x1_0000));
      NormAgain(a, LeadingZeros(a / 0x1_0000), 7, 0x1_0000, GsmNorm(a));
    } else if a >= 0x100 {
      ShiftByTopByte(a, 0x100, LeadingZeros(a / 0x100));
      NormAgain(a, LeadingZeros(a / 0x100), 15, 0x100, GsmNorm(a));
    } else {
      ShiftByTopByte(a, 1, LeadingZeros(a));
      NormAgain(a, LeadingZeros(a), 23, 1, GsmNorm(a));
    }
  }

  lemma NormOfTopByte(a: nat)
    requires 0x100_0000 <= a < 0x8000_0000
    ensures 0 <= GsmNorm(a) <= 30 && 0x4000_0000 <= a * P2(GsmNorm(a)) < 0x8000_0000
  {
    var z := LeadingZeros(a / 0x100_0000);
    TopByteZeros(a);
    ShiftByTopByte(a, 0x100_0000, z);
    HalfShift(a, z - 1);
  }

  lemma TopByteZeros(a: nat)
    requires 0x100_0000 <= a < 0x8000_0000
    ensures 0 < LeadingZeros(a / 0x100_0000) < 8 && GsmNorm(a) == LeadingZeros(a / 0x100_0000) - 1
  {
    var z := LeadingZeros(a / 0x100_0000);
    ShiftByTopByte(a, 0x100_0000, z);
    assert P2(0) == 1;
    hide P2, LeadingZeros;
  }

  lemma HalfShift(a: nat, z: nat)
    ensures a * P2(z + 1) == 2 * (a * P2(z))
  {
    assert P2(z + 1) == 2 * P2(z);
    hide P2;
    Associate(2, P2(z), a);
  }

  /** What gsm_div returns: the fraction num / denum in 15 bits, just below one when they are equal. */
  function Quotient15(num: nat, denum: nat): (q: nat)
    requires num <= denum && denum > 0
    ensures q <= 32767
  {
    if num == denum then 32767
    else
      DivMod(num * 32768, denum);
      QuotientBound(num, denum);
      num * 32768 / denum
  }

  lemma QuotientBound(num: nat, denum: nat)
    requires num < denum
    ensures num * 32768 / denum < 32768
  {
    DivMod(num * 32768, denum);
    if num * 32768 / denum >= 32768 {
      ScaleMonotone(denum, 32768, num * 32768 / denum);
    }
  }

  /** The quotient as the source returns it, a zero numerator being answered before any division. */
  function Fraction(num: nat, denum: nat): (q: nat)
    requires num <= denum
    ensures q <= 32767
  {
    if num == 0 then 0 else Quotient15(num, denum)
  }

  /** Shift-and-subtract division. */
  method GsmDiv(num: word, denum: word) returns (div: word)
    requires 0 <= num <= denum
    ensures div == Fraction(num, denum)
  {
    if num == 0 {
      return 0;
    }
    hide Dividing, P2;
    DivideStart(num, denum);
    var lNum: int, d: nat, k := num, 0, 15;
    while k > 0
      invariant 0 <= k <= 15 && Dividing(num, denum, lNum, d, 15 - k)
      decreases k
    {
      DivideStep(num, denum, lNum, d, 15 - k);
      k := k - 1;
      d := d * 2;
      lNum := lNum * 2;
      if lNum >= denum {
        lNum := lNum - denum;
        d := d + 1;
      }
    }
    Divided(num, denum, lNum, d);
    div := d;
  }

  /** After j steps the quotient so far and the remainder; a numerator equal to the denominator leaves all ones. */
  ghost predicate Dividing(num: nat, denum: nat, lNum: int, d: nat, j: nat) {
    && 0 <= lNum <= denum && num * P2(j) == d * denum + lNum
    && (num < denum ==> lNum < denum) && (num == denum ==> lNum == denum && d == P2(j) - 1)
  }

  lemma DivideStart(num: nat, denum: nat)
    requires num <= denum
    ensures Dividing(num, denum, num, 0, 0)
  {
    assert P2(0) == 1;
  }

  lemma DivideStep(num: nat, denum: nat, lNum: int, d: nat, j: nat)
    requires Dividing(num, denum, lNum, d, j) && num <= denum && denum > 0
    ensures 0 <= lNum
    ensures var m := lNum * 2;
            Dividing(num, denum, if m >= denum then m - denum else m, if m >= denum then 2 * d + 1 else 2 * d, j + 1)
  {
    assert P2(j + 1) == 2 * P2(j);
    hide P2;
    HalfShift(num, j);
    DoubledQuotient(d, denum);
  }

  lemma DoubledQuotient(d: nat, denum: nat)
    ensures 2 * d * denum == 2 * (d * denum) && (2 * d + 1) * denum == 2 * (d * denum) + denum
  {
  }

  lemma Divided(num: nat, denum: nat, lNum: int, d: nat)
    requires Dividing(num, denum, lNum, d, 15) && num <= denum && denum > 0
    ensures d == Quotient15(num, denum)
  {
    NormPowers();
    hide P2;
    if num < denum {
      DivModUnique(num * 32768, denum, d, lNum);
    }
  }
}
