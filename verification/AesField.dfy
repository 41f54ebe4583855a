/** Bytes as elements of GF(2^8), and the two column transformations that undo each other. */
module AesField {
  import opened Arith
  import opened BitXor

  /** x << 1, reduced by 283 when bit 8 is set. */
  function Twice(x: nat): nat {
    Reduced(2 * x)
  }

  /** x ^ (x << 1), reduced likewise. */
  function Thrice(x: nat): nat {
    Reduced(Xor(x, 2 * x))
  }

  function Reduced(y: nat): nat {
    if y / 256 == 1 then Xor(y, 283) else y
  }

  /** One byte of the mixed column, from the column read downwards from that byte. */
  function MixByte(a: nat, b: nat, c: nat, d: nat): nat {
    Xor(Xor(Twice(a), Thrice(b)), Xor(c, d))
  }

  /** The multiplications by 14, 11, 13 and 9 as chains of doublings. */
  function By14(x: nat): nat {
    Twice(Xor(Twice(Xor(Twice(x), x)), x))
  }

  function By11(x: nat): nat {
    Xor(Twice(Xor(Twice(Twice(x)), x)), x)
  }

  function By13(x: nat): nat {
    Xor(Twice(Twice(Xor(Twice(x), x))), x)
  }

  function By9(x: nat): nat {
    Xor(Twice(Twice(Twice(x))), x)
  }

  function UnmixByte(a: nat, b: nat, c: nat, d: nat): nat {
    Xor(Xor(Xor(By14(a), By11(b)), By13(c)), By9(d))
  }

  function DoubleBits(x: Nine): Nine {
    if x & 0x80 != 0 then Plus(x << 1, 283) else x << 1
  }

  lemma ShiftedLeft(x: Nine)
    requires x < 0x100
    ensures (x << 1) as nat == 2 * x as nat && (x & 0x80 != 0 <==> x as nat >= 128)
  {
  }

  lemma DoubleIsTwice(x: Nine)
    requires x < 0x100
    ensures Twice(x as nat) == DoubleBits(x) as nat
  {
    ShiftedLeft(x);
    XorIsBitwise(x << 1, 283);
    hide Xor;
  }

  lemma Bit7(x: nat)
    requires x < 256
    ensures Bit(x, 7) <==> x >= 128
  {
    assert P2(7) == 128;
    BitIsQuotient(x, 7);
  }

  lemma Bit8(x: nat)
    requires x < 512
    ensures Bit(x, 8) <==> x / 256 == 1
  {
    assert P2(8) == 256;
    BitIsQuotient(x, 8);
  }

  /** Doubling on bytes distributes over exclusive or. */
  lemma TwiceIsLinear(a: nat, b: nat)
    requires a < 256 && b < 256
    ensures Twice(Xor(a, b)) == Xor(Twice(a), Twice(b))
  {
    XorByte(a, b);
    Bit7(a);
    Bit7(b);
    Bit7(Xor(a, b));
    BitOfXor(a, b, 7);
    XorDouble(a, b);
    hide Xor, Bit;
    if a >= 128 && b >= 128 {
      XorSwap(2 * a, 283, 2 * b, 283);
      XorSelf(283, Xor(2 * a, 2 * b));
    } else if a >= 128 {
      XorPastConstant(2 * a, 2 * b, 283);
    } else if b >= 128 {
      XorAssociates(2 * a, 2 * b, 283);
    }
  }

  lemma XorSelf(c: nat, x: nat)
    ensures Xor(x, Xor(c, c)) == x
  {
    XorAssociates(x, c, c);
    XorCancels(x, c);
  }

  lemma XorPastConstant(a: nat, b: nat, c: nat)
    ensures Xor(Xor(a, b), c) == Xor(Xor(a, c), b)
  {
    XorAssociates(a, b, c);
    XorCommutes(b, c);
    XorAssociates(a, c, b);
  }

  lemma TwiceIsByte(a: nat)
    requires a < 256
    ensures Twice(a) < 256
  {
    if a >= 128 {
      var x := Xor(2 * a, 283);
      assert P2(9) == 512;
      XorFits(2 * a, 283, 9);
      Bit8(2 * a);
      Bit8(283);
      Bit8(x);
      BitOfXor(2 * a, 283, 8);
    }
  }

  lemma ThriceIsTwicePlus(a: nat)
    requires a < 256
    ensures Thrice(a) == Xor(Twice(a), a)
  {
    var y := Xor(a, 2 * a);
    assert P2(9) == 512;
    XorFits(a, 2 * a, 9);
    Bit8(a);
    Bit8(2 * a);
    Bit8(y);
    BitOfXor(a, 2 * a, 8);
    hide Xor, Bit;
    XorCommutes(a, 2 * a);
    XorPastConstant(2 * a, a, 283);
  }

  /** Five terms, grouped as one mixed byte groups them. */
  function Sum5(p: nat, q: nat, r: nat, s: nat, t: nat): nat {
    Xor(Xor(p, Xor(q, r)), Xor(s, t))
  }

  predicate Bytes5(p: nat, q: nat, r: nat, s: nat, t: nat) {
    p < 256 && q < 256 && r < 256 && s < 256 && t < 256
  }

  lemma TwiceSum5(p: nat, q: nat, r: nat, s: nat, t: nat)
    requires Bytes5(p, q, r, s, t)
    ensures Twice(Sum5(p, q, r, s, t)) == Sum5(Twice(p), Twice(q), Twice(r), Twice(s), Twice(t))
    ensures Sum5(p, q, r, s, t) < 256
    ensures Bytes5(Twice(p), Twice(q), Twice(r), Twice(s), Twice(t))
  {
    hide Xor, Twice;
    XorByte(q, r);
    XorByte(p, Xor(q, r));
    XorByte(s, t);
    XorByte(Xor(p, Xor(q, r)), Xor(s, t));
    TwiceIsLinear(q, r);
    TwiceIsLinear(p, Xor(q, r));
    TwiceIsLinear(s, t);
    TwiceIsLinear(Xor(p, Xor(q, r)), Xor(s, t));
    TwiceIsByte(p);
    TwiceIsByte(q);
    TwiceIsByte(r);
    TwiceIsByte(s);
    TwiceIsByte(t);
  }

  /** x doubled k times. */
  function Doubled(x: nat, k: nat): nat {
    if k == 0 then x else Twice(Doubled(x, k - 1))
  }

  /** Doubling a mixed byte k times doubles its five terms. */
  lemma {:induction false} DoubledMix(a: nat, b: nat, c: nat, d: nat, k: nat)
    requires a < 256 && b < 256 && c < 256 && d < 256
    ensures Doubled(MixByte(a, b, c, d), k)
            == Sum5(Doubled(a, k + 1), Doubled(b, k + 1), Doubled(b, k), Doubled(c, k), Doubled(d, k))
    ensures Bytes5(Doubled(a, k + 1), Doubled(b, k + 1), Doubled(b, k), Doubled(c, k), Doubled(d, k))
    ensures Doubled(MixByte(a, b, c, d), k) < 256
  {
    hide Xor, Twice, Thrice;
    if k == 0 {
      ThriceIsTwicePlus(b);
      TwiceIsByte(a);
      TwiceIsByte(b);
      assert Doubled(a, 1) == Twice(Doubled(a, 0)) && Doubled(b, 1) == Twice(Doubled(b, 0));
      TwiceSum5(Twice(a), Twice(b), b, c, d);
    } else {
      DoubledMix(a, b, c, d, k - 1);
      TwiceSum5(Doubled(a, k), Doubled(b, k), Doubled(b, k - 1), Doubled(c, k - 1), Doubled(d, k - 1));
      TwiceSum5(Doubled(a, k + 1), Doubled(b, k + 1), Doubled(b, k), Doubled(c, k), Doubled(d, k));
    }
  }

  /** The chains of doublings as sums of powers. */
  lemma ChainsAreSums(x: nat)
    requires x < 256
    ensures By14(x) == Xor(Xor(Doubled(x, 3), Doubled(x, 2)), Doubled(x, 1))
    ensures By11(x) == Xor(Xor(Doubled(x, 3), Doubled(x, 1)), x)
    ensures By13(x) == Xor(Xor(Doubled(x, 3), Doubled(x, 2)), x)
    ensures By9(x) == Xor(Doubled(x, 3), x)
  {
    hide Xor, Twice;
    var (x1, x2, x3) := (Twice(x), Twice(Twice(x)), Twice(Twice(Twice(x))));
    assert Doubled(x, 0) == x && Doubled(x, 1) == Twice(Doubled(x, 0));
    assert Doubled(x, 2) == Twice(Doubled(x, 1)) && Doubled(x, 3) == Twice(Doubled(x, 2));
    TwiceIsByte(x);
    TwiceIsByte(x1);
    TwiceIsLinear(x1, x);
    XorByte(x2, x1);
    TwiceIsByte(x2);
    XorByte(Xor(x2, x1), x);
    TwiceIsLinear(x2, x1);
    TwiceIsLinear(Xor(x2, x1), x);
    TwiceIsLinear(x2, x);
  }

  /** Regrouping the unmixed byte by powers. */
  lemma ByPowers(a1: nat, a2: nat, a3: nat, b0: nat, b1: nat, b3: nat, c0: nat, c2: nat, c3: nat, d0: nat, d3: nat)
    ensures Xor(Xor(Xor(Xor(Xor(a3, a2), a1), Xor(Xor(b3, b1), b0)), Xor(Xor(c3, c2), c0)), Xor(d3, d0))
            == Xor(Xor(Xor(Xor(a3, b3), Xor(c3, d3)), Xor(a2, c2)), Xor(Xor(a1, b1), Xor(Xor(b0, c0), d0)))
  {
    var l := Xor(Xor(Xor(Xor(Xor(a3, a2), a1), Xor(Xor(b3, b1), b0)), Xor(Xor(c3, c2), c0)), Xor(d3, d0));
    var r := Xor(Xor(Xor(Xor(a3, b3), Xor(c3, d3)), Xor(a2, c2)), Xor(Xor(a1, b1), Xor(Xor(b0, c0), d0)));
    forall k: nat
      ensures Bit(l, k) == Bit(r, k)
    {
      BitsOfXor(k);
    }
    SameBits(l, r);
  }

  /** The cubes of the four mixed bytes. */
  lemma Cubes(a: nat, b: nat, c: nat, d: nat, a': nat, b': nat, c': nat, d': nat)
    ensures Xor(Xor(Sum5(a', b', b, c, d), Sum5(b', c', c, d, a)), Xor(Sum5(c', d', d, a, b), Sum5(d', a', a, b, c)))
            == Xor(Xor(a, b), Xor(c, d))
  {
    var l := Xor(Xor(Sum5(a', b', b, c, d), Sum5(b', c', c, d, a)), Xor(Sum5(c', d', d, a, b), Sum5(d', a', a, b, c)));
    forall k: nat
      ensures Bit(l, k) == Bit(Xor(Xor(a, b), Xor(c, d)), k)
    {
      BitsOfXor(k);
    }
    SameBits(l, Xor(Xor(a, b), Xor(c, d)));
  }

  lemma Squares(a: nat, b: nat, c: nat, d: nat, a': nat, b': nat, c': nat, d': nat)
    ensures Xor(Sum5(a', b', b, c, d), Sum5(c', d', d, a, b)) == Xor(Xor(Xor(a', b'), Xor(c', d')), Xor(a, c))
  {
    var (l, r) := (Xor(Sum5(a', b', b, c, d), Sum5(c', d', d, a, b)), Xor(Xor(Xor(a', b'), Xor(c', d')), Xor(a, c)));
    forall k: nat
      ensures Bit(l, k) == Bit(r, k)
    {
      BitsOfXor(k);
    }
    SameBits(l, r);
  }

  lemma Firsts(a: nat, b: nat, c: nat, d: nat, a': nat, b': nat, c': nat)
    ensures Xor(Sum5(a', b', b, c, d), Sum5(b', c', c, d, a)) == Xor(Xor(a', c'), Xor(a, b))
  {
    var (l, r) := (Xor(Sum5(a', b', b, c, d), Sum5(b', c', c, d, a)), Xor(Xor(a', c'), Xor(a, b)));
    forall k: nat
      ensures Bit(l, k) == Bit(r, k)
    {
      BitsOfXor(k);
    }
    SameBits(l, r);
  }

  lemma Zeroths(a: nat, b: nat, c: nat, d: nat, a': nat, b': nat, c': nat, d': nat)
    ensures Xor(Xor(Sum5(b', c', c, d, a), Sum5(c', d', d, a, b)), Sum5(d', a', a, b, c)) == Xor(Xor(a', b'), a)
  {
    var l := Xor(Xor(Sum5(b', c', c, d, a), Sum5(c', d', d, a, b)), Sum5(d', a', a, b, c));
    forall k: nat
      ensures Bit(l, k) == Bit(Xor(Xor(a', b'), a), k)
    {
      BitsOfXor(k);
    }
    SameBits(l, Xor(Xor(a', b'), a));
  }

  lemma AllCancel(a: nat, s: nat, t: nat, u: nat, v: nat)
    ensures Xor(Xor(s, Xor(s, Xor(t, u))), Xor(Xor(Xor(t, u), v), Xor(v, a))) == a
  {
    var l := Xor(Xor(s, Xor(s, Xor(t, u))), Xor(Xor(Xor(t, u), v), Xor(v, a)));
    forall k: nat
      ensures Bit(l, k) == Bit(a, k)
    {
      BitsOfXor(k);
    }
    SameBits(l, a);
  }

  /** Multiplying by 14, 11, 13 and 9, sorted by powers of two. */
  lemma UnmixByPowers(m: nat, n: nat, p: nat, q: nat)
    requires m < 256 && n < 256 && p < 256 && q < 256
    ensures UnmixByte(m, n, p, q)
            == Xor(Xor(Xor(Xor(Doubled(m, 3), Doubled(n, 3)), Xor(Doubled(p, 3), Doubled(q, 3))),
                       Xor(Doubled(m, 2), Doubled(p, 2))),
                   Xor(Xor(Doubled(m, 1), Doubled(n, 1)), Xor(Xor(n, p), q)))
  {
    hide Xor, Doubled, By14, By11, By13, By9;
    ChainsAreSums(m);
    ChainsAreSums(n);
    ChainsAreSums(p);
    ChainsAreSums(q);
    ByPowers(Doubled(m, 1), Doubled(m, 2), Doubled(m, 3), n, Doubled(n, 1), Doubled(n, 3), p, Doubled(p, 2),
             Doubled(p, 3), q, Doubled(q, 3));
  }

  /** The k-th powers of the four mixed bytes of a column. */
  lemma MixedPowers(a: nat, b: nat, c: nat, d: nat, k: nat)
    requires a < 256 && b < 256 && c < 256 && d < 256
    ensures Doubled(MixByte(a, b, c, d), k)
            == Sum5(Doubled(a, k + 1), Doubled(b, k + 1), Doubled(b, k), Doubled(c, k), Doubled(d, k))
    ensures Doubled(MixByte(b, c, d, a), k)
            == Sum5(Doubled(b, k + 1), Doubled(c, k + 1), Doubled(c, k), Doubled(d, k), Doubled(a, k))
    ensures Doubled(MixByte(c, d, a, b), k)
            == Sum5(Doubled(c, k + 1), Doubled(d, k + 1), Doubled(d, k), Doubled(a, k), Doubled(b, k))
    ensures Doubled(MixByte(d, a, b, c), k)
            == Sum5(Doubled(d, k + 1), Doubled(a, k + 1), Doubled(a, k), Doubled(b, k), Doubled(c, k))
    ensures k == 0 ==> Bytes5(MixByte(a, b, c, d), MixByte(b, c, d, a), MixByte(c, d, a, b), MixByte(d, a, b, c), 0)
  {
    hide Sum5, MixByte;
    DoubledMix(a, b, c, d, k);
    DoubledMix(b, c, d, a, k);
    DoubledMix(c, d, a, b, k);
    DoubledMix(d, a, b, c, k);
  }

  /** 14, 11, 13, 9 undo 2, 3, 1, 1 over GF(2^8). */
  lemma UnmixUndoesMix(a: nat, b: nat, c: nat, d: nat)
    requires a < 256 && b < 256 && c < 256 && d < 256
    ensures UnmixByte(MixByte(a, b, c, d), MixByte(b, c, d, a), MixByte(c, d, a, b), MixByte(d, a, b, c)) == a
  {
    hide Xor, Sum5, MixByte, UnmixByte, Twice;
    MixedPowers(a, b, c, d, 0);
    MixedPowers(a, b, c, d, 1);
    MixedPowers(a, b, c, d, 2);
    MixedPowers(a, b, c, d, 3);
    UnmixByPowers(MixByte(a, b, c, d), MixByte(b, c, d, a), MixByte(c, d, a, b), MixByte(d, a, b, c));
    var (a1, b1, c1, d1) := (Doubled(a, 1), Doubled(b, 1), Doubled(c, 1), Doubled(d, 1));
    var (a2, b2, c2, d2) := (Doubled(a, 2), Doubled(b, 2), Doubled(c, 2), Doubled(d, 2));
    var (a3, b3, c3, d3) := (Doubled(a, 3), Doubled(b, 3), Doubled(c, 3), Doubled(d, 3));
    Cubes(a3, b3, c3, d3, Doubled(a, 4), Doubled(b, 4), Doubled(c, 4), Doubled(d, 4));
    Squares(a2, b2, c2, d2, a3, b3, c3, d3);
    Firsts(a1, b1, c1, d1, a2, b2, c2);
    Zeroths(a, b, c, d, a1, b1, c1, d1);
    AllCancel(a, Xor(Xor(a3, b3), Xor(c3, d3)), a2, c2, Xor(a1, b1));
  }

  lemma MixedIsByte(a: nat, b: nat, c: nat, d: nat)
    requires a < 256 && b < 256 && c < 256 && d < 256
    ensures MixByte(a, b, c, d) < 256
  {
    DoubledMix(a, b, c, d, 0);
  }

  lemma {:induction false} DoubledIsByte(x: nat, k: nat)
    requires x < 256
    ensures Doubled(x, k) < 256
  {
    if k > 0 {
      DoubledIsByte(x, k - 1);
      TwiceIsByte(Doubled(x, k - 1));
    }
  }

  lemma ChainsAreBytes(x: nat)
    requires x < 256
    ensures By14(x) < 256 && By11(x) < 256 && By13(x) < 256 && By9(x) < 256
  {
    hide Xor, Doubled, By14, By11, By13, By9;
    ChainsAreSums(x);
    DoubledIsByte(x, 1);
    DoubledIsByte(x, 2);
    DoubledIsByte(x, 3);
    XorByte(Doubled(x, 3), Doubled(x, 2));
    XorByte(Xor(Doubled(x, 3), Doubled(x, 2)), Doubled(x, 1));
    XorByte(Xor(Doubled(x, 3), Doubled(x, 2)), x);
    XorByte(Doubled(x, 3), Doubled(x, 1));
    XorByte(Xor(Doubled(x, 3), Doubled(x, 1)), x);
    XorByte(Doubled(x, 3), x);
  }

  lemma UnmixedIsByte(a: nat, b: nat, c: nat, d: nat)
    requires a < 256 && b < 256 && c < 256 && d < 256
    ensures UnmixByte(a, b, c, d) < 256
  {
    hide Xor, By14, By11, By13, By9;
    ChainsAreBytes(a);
    ChainsAreBytes(b);
    ChainsAreBytes(c);
    ChainsAreBytes(d);
    XorByte(By14(a), By11(b));
    XorByte(Xor(By14(a), By11(b)), By13(c));
    XorByte(Xor(Xor(By14(a), By11(b)), By13(c)), By9(d));
  }
}
