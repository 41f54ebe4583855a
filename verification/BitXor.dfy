/** Exclusive or on non-negative integers, bit by bit. */
module BitXor {
  import opened Arith

  /** A byte with room for one more bit. */
  type Nine = bv9

  function Xor(a: nat, b: nat): nat {
    if a == 0 && b == 0 then 0 else 2 * Xor(a / 2, b / 2) + (if a % 2 == b % 2 then 0 else 1)
  }

  /** Bit k of a. */
  predicate Bit(a: nat, k: nat) {
    if k == 0 then a % 2 == 1 else Bit(a / 2, k - 1)
  }

  lemma {:induction false} BitOfXor(a: nat, b: nat, k: nat)
    ensures Bit(Xor(a, b), k) <==> (Bit(a, k) != Bit(b, k))
  {
    if k > 0 {
      BitOfXor(a / 2, b / 2, k - 1);
      assert Xor(a, b) / 2 == Xor(a / 2, b / 2);
    }
  }

  lemma {:induction false} SameBits(a: nat, b: nat)
    requires forall k: nat :: Bit(a, k) == Bit(b, k)
    ensures a == b
    decreases a + b
  {
    if a != b {
      assert Bit(a, 0) == Bit(b, 0);
      forall k: nat
        ensures Bit(a / 2, k) == Bit(b / 2, k)
      {
        var next := k + 1;
        assert Bit(a, next) == Bit(b, next);
      }
      SameBits(a / 2, b / 2);
    }
  }

  /** Bit k of every exclusive or in sight. */
  lemma BitsOfXor(k: nat)
    ensures forall a: nat, b: nat :: Bit(Xor(a, b), k) <==> (Bit(a, k) != Bit(b, k))
  {
    forall a: nat, b: nat
      ensures Bit(Xor(a, b), k) <==> (Bit(a, k) != Bit(b, k))
    {
      BitOfXor(a, b, k);
    }
  }

  lemma {:induction false} BitIsQuotient(a: nat, k: nat)
    ensures Bit(a, k) <==> a / P2(k) % 2 == 1
  {
    if k > 0 {
      BitIsQuotient(a / 2, k - 1);
      var p := P2(k - 1);
      assert P2(k) == 2 * p;
      hide P2;
      ModOfMod(a, 2, p);
    }
  }

  lemma {:induction false} NoBits(k: nat)
    ensures !Bit(0, k)
  {
    if k > 0 {
      NoBits(k - 1);
    }
  }

  function Plus(x: Nine, y: Nine): Nine {
    x ^ y
  }

  function Half(x: Nine): Nine {
    x >> 1
  }

  function Last(x: Nine): Nine {
    x & 1
  }

  lemma HalfValue(x: Nine)
    ensures Half(x) as nat == x as nat / 2
  {
  }

  lemma LastValue(x: Nine)
    ensures Last(x) as nat == x as nat % 2 && Last(x) < 2
  {
  }

  lemma Halves(x: Nine)
    ensures Half(x) as nat == x as nat / 2 && Last(x) as nat == x as nat % 2 && Last(x) < 2
    ensures x as nat == 2 * Half(x) as nat + Last(x) as nat
  {
    HalfValue(x);
    LastValue(x);
    hide Half, Last;
  }

  lemma HalvesOfSum(x: Nine, y: Nine)
    ensures Half(Plus(x, y)) == Plus(Half(x), Half(y)) && Last(Plus(x, y)) == Plus(Last(x), Last(y))
  {
  }

  lemma OneBit(x: Nine, y: Nine)
    requires x < 2 && y < 2
    ensures Plus(x, y) as nat == if x as nat == y as nat then 0 else 1
  {
    assert x == 0 || x == 1;
    assert y == 0 || y == 1;
  }

  lemma ZeroPlusZero(x: Nine, y: Nine)
    requires x as nat == 0 && y as nat == 0
    ensures Plus(x, y) as nat == 0
  {
    assert x == 0 && y == 0;
  }

  lemma SumByHalves(x: Nine, y: Nine)
    ensures Plus(x, y) as nat == 2 * Plus(Half(x), Half(y)) as nat + if x as nat % 2 == y as nat % 2 then 0 else 1
  {
    hide Plus, Half, Last;
    Halves(x);
    Halves(y);
    Halves(Plus(x, y));
    HalvesOfSum(x, y);
    OneBit(Last(x), Last(y));
  }

  lemma {:induction false} XorIsBitwise(x: Nine, y: Nine)
    ensures Xor(x as nat, y as nat) == Plus(x, y) as nat
    decreases x as nat + y as nat
  {
    hide Plus, Half, Xor;
    XorStep(x as nat, y as nat);
    if x as nat == 0 && y as nat == 0 {
      ZeroPlusZero(x, y);
    } else {
      HalfValue(x);
      HalfValue(y);
      SumByHalves(x, y);
      XorIsBitwise(Half(x), Half(y));
    }
  }

  lemma XorStep(a: nat, b: nat)
    ensures a > 0 || b > 0 ==> Xor(a, b) == 2 * Xor(a / 2, b / 2) + if a % 2 == b % 2 then 0 else 1
    ensures a == 0 && b == 0 ==> Xor(a, b) == 0
  {
  }

  lemma XorCommutes(a: nat, b: nat)
    ensures Xor(a, b) == Xor(b, a)
  {
    forall k: nat
      ensures Bit(Xor(a, b), k) == Bit(Xor(b, a), k)
    {
      BitsOfXor(k);
    }
    SameBits(Xor(a, b), Xor(b, a));
  }

  lemma XorSwap(a: nat, b: nat, c: nat, d: nat)
    ensures Xor(Xor(a, b), Xor(c, d)) == Xor(Xor(a, c), Xor(b, d))
  {
    var (x, y) := (Xor(Xor(a, b), Xor(c, d)), Xor(Xor(a, c), Xor(b, d)));
    forall k: nat
      ensures Bit(x, k) == Bit(y, k)
    {
      BitsOfXor(k);
    }
    SameBits(x, y);
  }

  /** Adding the same value twice changes nothing. */
  lemma XorCancels(a: nat, b: nat)
    ensures Xor(Xor(a, b), b) == a
  {
    forall k: nat
      ensures Bit(Xor(Xor(a, b), b), k) == Bit(a, k)
    {
      BitsOfXor(k);
    }
    SameBits(Xor(Xor(a, b), b), a);
  }

  lemma {:induction false} XorFits(a: nat, b: nat, n: nat)
    requires a < P2(n) && b < P2(n)
    ensures Xor(a, b) < P2(n)
  {
    if n > 0 {
      XorFits(a / 2, b / 2, n - 1);
    }
  }

  lemma XorDouble(a: nat, b: nat)
    ensures Xor(2 * a, 2 * b) == 2 * Xor(a, b)
  {
  }

  lemma XorByte(a: nat, b: nat)
    requires a < 256 && b < 256
    ensures Xor(a, b) < 256
  {
    assert P2(8) == 256;
    XorFits(a, b, 8);
  }

  lemma XorAssociates(a: nat, b: nat, c: nat)
    ensures Xor(a, Xor(b, c)) == Xor(Xor(a, b), c)
  {
    var (x, y) := (Xor(a, Xor(b, c)), Xor(Xor(a, b), c));
    forall k: nat
      ensures Bit(x, k) == Bit(y, k)
    {
      BitsOfXor(k);
    }
    SameBits(x, y);
  }

  function ByteXor(a: byte, b: byte): byte {
    XorByte(a, b);
    Xor(a, b)
  }

  lemma ByteXorCancels(a: byte, b: byte)
    ensures ByteXor(a, ByteXor(b, a)) == b
  {
    hide Xor;
    XorCommutes(a, Xor(b, a));
    XorCancels(b, a);
  }
}
