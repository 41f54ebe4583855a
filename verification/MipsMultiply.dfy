/** The two multiplications of the MIPS subset, which the program does not use: hi and lo together hold the signed
  * product exactly, and the unsigned one only where the sign extension of the registers does no harm. */
module MipsMultiply {
  import opened Arith
  import opened Mips

  const WORD: nat := 0x1_0000_0000

  predicate IsInt(x: int) {
    -0x8000_0000 <= x < 0x8000_0000
  }

  /** The 64 bits of hi and lo. */
  function HiLo(s: State): nat {
    Unsigned(s.hi) * WORD + Unsigned(s.lo)
  }

  function SignedHiLo(s: State): int {
    s.hi * WORD + Unsigned(s.lo)
  }

  lemma ProductFits(x: int, y: int)
    requires IsInt(x) && IsInt(y)
    ensures -0x4000_0000_0000_0000 <= x * y <= 0x4000_0000_0000_0000
  {
    var a: nat := if x < 0 then -x else x;
    var b: nat := if y < 0 then -y else y;
    Grows(b, a, 0x8000_0000);
    Grows(0x8000_0000, b, 0x8000_0000);
    assert x * y == a * b || x * y == -(a * b);
  }

  /** hi and lo hold the exact signed product. */
  lemma MultIsExact(s: State, a: nat, b: nat)
    requires s.Valid() && a < 32 && b < 32 && IsInt(s.reg[a]) && IsInt(s.reg[b])
    ensures SignedHiLo(Execute(Mult(a, b), s)) == s.reg[a] * s.reg[b]
  {
    var p := s.reg[a] * s.reg[b];
    ProductFits(s.reg[a], s.reg[b]);
    var t := Execute(Mult(a, b), s);
    assert t.lo == Wrap32(p) && t.hi == Wrap32(p / WORD);
    HalvesOf(p);
  }

  lemma HalvesOf(p: int)
    requires -0x8000_0000_0000_0000 <= p < 0x8000_0000_0000_0000
    ensures Wrap32(p / WORD) * WORD + Unsigned(Wrap32(p)) == p
    ensures Unsigned(Wrap32(p / WORD)) * WORD + Unsigned(Wrap32(p)) == p % (WORD * WORD)
  {
    LowHalf(p);
    var q := p / WORD;
    assert p == q * WORD + p % WORD;
  }

  lemma LowHalf(p: int)
    ensures Unsigned(Wrap32(p)) == p % WORD
  {
  }

  lemma WrappedRemainder(p: int)
    ensures -0x8000_0000_0000_0000 <= Wrap64(p) < 0x8000_0000_0000_0000
    ensures Wrap64(p) % (WORD * WORD) == p % (WORD * WORD)
  {
  }

  /** The product of the registers extended by their signs, modulo 2^64. */
  lemma MultuIs(s: State, a: nat, b: nat)
    requires s.Valid() && a < 32 && b < 32 && IsInt(s.reg[a]) && IsInt(s.reg[b])
    ensures HiLo(Execute(Multu(a, b), s)) == s.reg[a] * s.reg[b] % (WORD * WORD)
  {
    var (x, y) := (s.reg[a], s.reg[b]);
    var p := x % 0x1_0000_0000_0000_0000 * (y % 0x1_0000_0000_0000_0000);
    var (t, w) := (Execute(Multu(a, b), s), Wrap64(p));
    assert t.lo == Wrap32(w) && t.hi == Wrap32(w / 0x1_0000_0000);
    SameProduct(x, y, WORD * WORD);
    WrappedRemainder(p);
    hide Wrap64, Wrap32, Execute;
    HalvesOf(w);
  }

  lemma SameProduct(x: int, y: int, m: nat)
    requires m == WORD * WORD
    ensures x % m * (y % m) % m == x * y % m
  {
    var (i, j) := (x / m, y / m);
    var (u, v) := (x % m, y % m);
    assert x == i * m + u && y == j * m + v;
    Expanded(x, y, i, u, j, v, m);
    var k := i * j * m + i * v + j * u;
    SameRemainder(u * v, k, m);
  }

  lemma Expanded(x: int, y: int, i: int, u: int, j: int, v: int, m: int)
    requires x == i * m + u && y == j * m + v
    ensures x * y == u * v + m * (i * j * m + i * v + j * u)
  {
    assert x * y == (i * m) * (j * m + v) + u * (j * m + v);
    assert (i * m) * (j * m + v) == m * (i * j * m) + m * (i * v);
    assert u * (j * m + v) == m * (j * u) + u * v;
  }

  lemma SameRemainder(r: int, k: int, m: nat)
    requires m == WORD * WORD
    ensures (r + m * k) % m == r % m
  {
  }

  /** The 64 bits are the unsigned product of the registers exactly when neither is negative, or one is zero, or both
    * are the most negative number: the registers are extended by their signs before they are multiplied. */
  lemma MultuIsUnsignedExactly(s: State, a: nat, b: nat)
    requires s.Valid() && a < 32 && b < 32 && IsInt(s.reg[a]) && IsInt(s.reg[b])
    ensures var (x, y) := (s.reg[a], s.reg[b]);
            HiLo(Execute(Multu(a, b), s)) == Unsigned(x) * Unsigned(y) <==>
            (x >= 0 && y >= 0) || x == 0 || y == 0 || x == y == -0x8000_0000
  {
    MultuIs(s, a, b);
    hide HiLo, Execute;
    var (x, y) := (s.reg[a], s.reg[b]);
    if x <= y {
      Remainder(x, y);
    } else {
      assert x * y == y * x;
      Remainder(y, x);
    }
  }

  lemma Remainder(x: int, y: int)
    requires IsInt(x) && IsInt(y) && x <= y
    ensures x * y % (WORD * WORD) == Unsigned(x) * Unsigned(y) <==>
            x >= 0 || y == 0 || x == y == -0x8000_0000
  {
    ProductFits(x, y);
    Signs(x, y);
    Shifted(x, y);
    var p := x * y;
    if x < 0 && y >= 0 {
      assert Unsigned(x) == x + WORD && Unsigned(y) == y;
      NegativeRemainder(p, y);
    } else if x < 0 {
      assert Unsigned(x) == x + WORD && Unsigned(y) == y + WORD;
    }
  }

  lemma NegativeRemainder(p: int, y: int)
    requires -0x4000_0000_0000_0000 <= p <= 0 && 0 <= y < 0x8000_0000 && (y == 0 <==> p == 0)
    ensures p % (WORD * WORD) == p + WORD * y <==> y == 0
  {
  }

  lemma Signs(x: int, y: int)
    requires x <= y
    ensures x >= 0 || y < 0 ==> x * y >= 0
    ensures x < 0 && y >= 0 ==> x * y <= 0 && (y == 0 <==> x * y == 0)
  {
    if x < 0 {
      var a: nat := -x;
      if y < 0 {
        var b: nat := -y;
        assert x * y == a * b;
      } else if y > 0 {
        Grows(y, 1, a);
        assert x * y == -(a * y);
      }
    }
  }

  lemma Shifted(x: int, y: int)
    ensures (x + WORD) * y == x * y + WORD * y && (x + WORD) * (y + WORD) == x * y + WORD * (x + y + WORD)
  {
  }
}
