/** The multi-word integer primitives SoftFloat is built on, each proved against the arithmetic it stands for. */
module FloatMacros {
  import opened Arith
  import opened ByteTable
  import opened FloatSpec

  const B32: nat := 0x1_0000_0000
  const B64: nat := 0x1_0000_0000_0000_0000
  const B128: nat := 0x1_0000_0000_0000_0000_0000_0000_0000_0000

  type bits32 = x: int | 0 <= x < 0x1_0000_0000

  /** The 128-bit number held in two words. */
  function Wide(hi: bits64, lo: bits64): (w: nat)
    ensures w < B128
  {
    hi * B64 + lo
  }

  /** The sign test (sbits64) x < 0. */
  predicate SignBit(x: bits64) {
    x >= SIGN
  }

  method CountLeadingZeros32(x: bits32) returns (shiftCount: nat)
    ensures x == 0 ==> shiftCount == 32
    ensures x > 0 ==> shiftCount < 32 && B32 / 2 <= x * P2(shiftCount) && (x + 1) * P2(shiftCount) <= B32
  {
    hide P2, LeadingZeros;
    var a := x;
    shiftCount := 0;
    if a < 0x10000 {
      shiftCount := shiftCount + 16;
      a := a * 0x10000;
    }
    if a < 0x1000000 {
      shiftCount := shiftCount + 8;
      a := a * 0x100;
    }
    ShiftedByBytes(x, a, shiftCount);
    var top := a / 0x1000000;
    LeadingZerosNormalise(top);
    var more := LeadingZeros(top);
    if x > 0 {
      TopByteNormalised(x, a, (x + 1) * P2(shiftCount), shiftCount, top, more);
    }
    shiftCount := shiftCount + more;
  }

  /** The two coarse steps bring the first nonzero byte to the top. */
  lemma ShiftedByBytes(x: bits32, a: nat, s: nat)
    requires if x < 0x100 then s == 24 && a == x * 0x1000000
             else if x < 0x10000 then s == 16 && a == x * 0x10000
             else if x < 0x1000000 then s == 8 && a == x * 0x100
             else s == 0 && a == x
    ensures a == x * P2(s) && a < B32 && a / 0x1000000 * 0x1000000 <= a
    ensures (x + 1) * P2(s) <= (a / 0x1000000 + 1) * 0x1000000
    ensures a / 0x1000000 < 256 && (x > 0 ==> a / 0x1000000 > 0) && (x == 0 ==> s == 24)
  {
    ShiftByBytes(x);
    ShiftByBytes(x + 1);
    hide P2;
    TopByte(x, if s == 24 then 0x1 else if s == 16 then 0x100 else if s == 8 then 0x10000 else 0x1000000);
  }

  /** The top byte after x has been shifted left so that unit moves to bit 24. */
  lemma TopByte(x: bits32, unit: nat)
    requires unit == 0x1 || unit == 0x100 || unit == 0x10000 || unit == 0x1000000
    requires x < unit * 0x100
    ensures var p := 0x1000000 / unit; x * p / 0x1000000 == x / unit
    ensures x + 1 <= (x / unit + 1) * unit && x / unit < 0x100
  {
  }

  lemma ShiftByBytes(x: nat)
    ensures x * P2(0) == x && x * P2(8) == x * 0x100 && x * P2(16) == x * 0x10000 && x * P2(24) == x * 0x1000000
  {
    assert P2(0) == 1 && P2(8) == 0x100 && P2(16) == 0x10000 && P2(24) == 0x1000000;
  }

  lemma TopByteNormalised(x: nat, a: nat, b: nat, before: nat, top: nat, more: nat)
    requires a == x * P2(before) && b == (x + 1) * P2(before)
    requires top * 0x1000000 <= a && b <= (top + 1) * 0x1000000
    requires 128 <= top * P2(more) && (top + 1) * P2(more) <= 256
    ensures B32 / 2 <= x * P2(before + more) && (x + 1) * P2(before + more) <= B32
  {
    hide P2;
    ShiftShift(x, before, more);
    ShiftShift(x + 1, before, more);
    ScaleBounds(a, b, top, P2(more));
  }

  lemma ScaleBounds(a: nat, b: nat, top: nat, p: nat)
    requires p > 0
    requires top * 0x1000000 <= a && b <= (top + 1) * 0x1000000
    requires 128 <= top * p && (top + 1) * p <= 256
    ensures B32 / 2 <= a * p && b * p <= B32
  {
    ScaleMonotone(p, top * 0x1000000, a);
    ScaleMonotone(p, b, (top + 1) * 0x1000000);
  }

  /** The count that brings the leading one of a nonzero word to bit 63. */
  method CountLeadingZeros64(x: bits64) returns (shiftCount: nat)
    ensures x == 0 ==> shiftCount == 64
    ensures x > 0 ==> shiftCount < 64 && SIGN <= x * P2(shiftCount) < B64
  {
    if x < B32 {
      var low := CountLeadingZeros32(x);
      shiftCount := 32 + low;
      if x > 0 {
        LowWordNormalised(x, low);
      }
    } else {
      var high := x / B32;
      shiftCount := CountLeadingZeros32(high);
      HighWordNormalised(x, high, P2(shiftCount));
    }
  }

  lemma LowWordNormalised(x: nat, low: nat)
    requires B32 / 2 <= x * P2(low) && (x + 1) * P2(low) <= B32
    ensures SIGN <= x * P2(32 + low) < B64
  {
    hide P2;
    P2Words();
    ShiftShift(x, low, 32);
    ScaleMonotone(P2(low), x, x + 1);
  }

  lemma HighWordNormalised(x: nat, high: nat, p: nat)
    requires p > 0
    requires high * B32 <= x < (high + 1) * B32
    requires B32 / 2 <= high * p && (high + 1) * p <= B32
    ensures SIGN <= x * p < B64
  {
    ScaleMonotone(p, high * B32, x);
    ScaleMonotone(p, x, (high + 1) * B32);
  }

  /** a / 2^count with a one jammed into the last bit when bits are lost. */
  function Jam(a: nat, count: nat): (z: nat) {
    var p := P2(count);
    if a % p != 0 && a / p % 2 == 0 then a / p + 1 else a / p
  }

  method ShiftRight64Jamming(a: bits64, count: nat) returns (z: bits64)
    ensures z == Jam(a, count)
  {
    hide P2, Jam;
    if count == 0 {
      z := a;
      JamByZero(a);
    } else if count < 64 {
      var p := P2(count);
      var q, lost := a / p, a * P2(64 - count) % B64;
      JamInWord(a, count);
      z := if lost != 0 then SetBit(q, 1) else q;
    } else {
      z := if a != 0 then 1 else 0;
      JamAway(a, count);
    }
  }

  lemma JamByZero(a: nat)
    ensures Jam(a, 0) == a
  {
  }

  lemma JamAway(a: bits64, count: nat)
    requires count >= 64
    ensures Jam(a, count) == if a != 0 then 1 else 0
  {
    P2Monotone(64, count);
    P2Words();
  }

  /** The bits shifted out on the right are the ones left after shifting left by 64 - count in a 64-bit word. */
  lemma JamInWord(a: bits64, count: nat)
    requires 0 < count < 64
    ensures a / P2(count) < SIGN
    ensures Jam(a, count) == if a * P2(64 - count) % B64 != 0 then SetBit(a / P2(count), 1) else a / P2(count)
  {
    var p, rest := P2(count), P2(64 - count);
    assert p * rest == B64 by {
      P2Words();
      P2Add(count, 64 - count);
    }
    ModScale(a, p, rest);
    JamQuotient(a, p, a * rest % B64, rest);
  }

  lemma JamQuotient(a: bits64, p: nat, lost: nat, rest: nat)
    requires p >= 2 && rest > 0 && lost == a % p * rest
    ensures a / p < SIGN
    ensures lost != 0 <==> a % p != 0
  {
    DivMod(a, p);
    var q := a / p;
    if q > 0 {
      ScaleMonotone(q, 2, p);
    }
  }

  /** A sum or difference as a 128-bit register holds it. */
  function Wrap128(x: int): (w: nat)
    ensures w < B128
  {
    x % B128
  }

  lemma WrapOnce(x: int, w: nat)
    requires w < B128 && (x == w || x == w + B128 || x == w - B128)
    ensures Wrap128(x) == w
  {
  }

  lemma WrapAgain(x: int, y: int)
    ensures Wrap128(Wrap128(x) + y) == Wrap128(x + y)
  {
  }

  lemma WordOnce(x: int)
    ensures 0 <= x < 2 * B64 ==> x % B64 == if x >= B64 then x - B64 else x
    ensures 0 - B64 <= x < 0 ==> x % B64 == x + B64
  {
  }

  method Add128(a0: bits64, a1: bits64, b0: bits64, b1: bits64) returns (z0: bits64, z1: bits64)
    ensures Wide(z0, z1) == Wrap128(Wide(a0, a1) + Wide(b0, b1))
  {
    hide Wrap128;
    WordOnce(a1 + b1);
    z1 := (a1 + b1) % B64;
    var carry := if z1 < a1 then 1 else 0;
    WordOnce(a0 + b0 + carry);
    z0 := (a0 + b0 + carry) % B64;
    WrapOnce(Wide(a0, a1) + Wide(b0, b1), Wide(z0, z1));
  }

  method Sub128(a0: bits64, a1: bits64, b0: bits64, b1: bits64) returns (z0: bits64, z1: bits64)
    ensures Wide(z0, z1) == Wrap128(Wide(a0, a1) - Wide(b0, b1))
  {
    hide Wrap128;
    WordOnce(a1 - b1);
    z1 := (a1 - b1) % B64;
    var borrow := if a1 < b1 then 1 else 0;
    WordOnce(a0 - b0 - borrow);
    z0 := (a0 - b0 - borrow) % B64;
    WrapOnce(Wide(a0, a1) - Wide(b0, b1), Wide(z0, z1));
  }

  lemma HalfProductFits(x: bits32, y: bits32)
    ensures 0 <= x * y <= 0xFFFF_FFFE_0000_0001
  {
    if y > 0 {
      ScaleMonotone(y, x, B32 - 1);
      assert y * (B32 - 1) <= (B32 - 1) * (B32 - 1);
    }
  }

  /** The product of two 32-bit words, which fits a 64-bit word. */
  function HalfProduct(x: bits32, y: bits32): (p: bits64)
    ensures p <= 0xFFFF_FFFE_0000_0001
  {
    HalfProductFits(x, y);
    x * y
  }

  lemma ProductOfHalves(aHigh: bits32, aLow: bits32, bHigh: bits32, bLow: bits32)
    ensures (aHigh * B32 + aLow) * (bHigh * B32 + bLow)
         == HalfProduct(aHigh, bHigh) * B64 + HalfProduct(aLow, bHigh) * B32 + HalfProduct(aHigh, bLow) * B32
            + HalfProduct(aLow, bLow)
  {
    var ah, bh := aHigh * B32, bHigh * B32;
    assert (ah + aLow) * (bh + bLow) == ah * bh + aLow * bh + ah * bLow + aLow * bLow;
    assert ah * bh == aHigh * bHigh * B64;
    assert aLow * bh == aLow * bHigh * B32;
    assert ah * bLow == aHigh * bLow * B32;
  }

  function Product(a: bits64, b: bits64): nat {
    a * b
  }

  lemma ProductFits(a: bits64, b: bits64)
    ensures a * b < B128
  {
    if b > 0 {
      ScaleMonotone(b, a, B64 - 1);
      assert b * (B64 - 1) < B64 * (B64 - 1);
    }
  }

  /** The halves of a word, and what a word keeps of a sum. */
  function HighHalf(a: bits64): bits32 {
    a / B32
  }

  function LowHalf(a: bits64): bits32 {
    a % B32
  }

  function Low64(x: int): bits64 {
    x % B64
  }

  /** The carries of Mul64To128: the middle sum, shifted by 32 bits, spreads over both words. */
  lemma MiddleCarries(p00: bits64, p01: bits64, p10: bits64, p11: bits64, mid: bits64, low: bits64, z0: nat, z1: bits64)
    requires p01 <= 0xFFFF_FFFE_0000_0001 && p10 <= 0xFFFF_FFFE_0000_0001
    requires mid == Low64(p01 + p10)
    requires low == Low64(mid * B32)
    requires z1 == Low64(p00 + low)
    requires z0 == p11 + (if mid < p10 then 1 else 0) * B32 + HighHalf(mid) + (if z1 < low then 1 else 0)
    ensures z0 * B64 + z1 == p11 * B64 + p01 * B32 + p10 * B32 + p00
  {
    WordOnce(p01 + p10);
    WordOnce(p00 + low);
    ShiftedWord(mid);
  }

  /** A word shifted left by 32 bits keeps its lower half. */
  lemma ShiftedWord(x: bits64)
    ensures x * B32 % B64 == x % B32 * B32 && x == x / B32 * B32 + x % B32
  {
    ModScale(x, B32, B32);
  }

  lemma ProductInHalves(a: bits64, b: bits64)
    ensures Product(a, b) < B128
    ensures Product(a, b) == HalfProduct(HighHalf(a), HighHalf(b)) * B64 + HalfProduct(LowHalf(a), HighHalf(b)) * B32
                     + HalfProduct(HighHalf(a), LowHalf(b)) * B32 + HalfProduct(LowHalf(a), LowHalf(b))
  {
    hide HalfProduct;
    ProductFits(a, b);
    ProductOfHalves(a / B32, a % B32, b / B32, b % B32);
    assert a == a / B32 * B32 + a % B32 && b == b / B32 * B32 + b % B32;
  }

  /** The upper word of the product, summed from its three parts, does not overflow. */
  lemma UpperWordFits(a: bits64, b: bits64, p11: nat, z0: nat, z1: bits64)
    requires z0 * B64 + z1 == Product(a, b) && p11 <= z0
    ensures z0 < B64 && Wide(z0, z1) == Product(a, b)
  {
    hide Product;
    ProductInHalves(a, b);
  }

  /** The full 128-bit product from four 32-bit products. */
  method Mul64To128(a: bits64, b: bits64) returns (z0: bits64, z1: bits64)
    ensures Wide(z0, z1) == Product(a, b)
  {
    hide HalfProduct, Product, Wide, HighHalf, LowHalf, Low64;
    var aHigh, aLow := HighHalf(a), LowHalf(a);
    var bHigh, bLow := HighHalf(b), LowHalf(b);
    var low: nat := HalfProduct(aLow, bLow);
    var zMiddleA: nat := HalfProduct(aLow, bHigh);
    var zMiddleB: nat := HalfProduct(aHigh, bLow);
    var high: nat := HalfProduct(aHigh, bHigh);
    var middle: nat := Low64(zMiddleA + zMiddleB);
    var carry: nat := if middle < zMiddleB then B32 else 0;
    var middleLow: nat := Low64(middle * B32);
    z1 := Low64(low + middleLow);
    var carryLow := if z1 < middleLow then 1 else 0;
    ghost var wide := high + carry + HighHalf(middle) + carryLow;
    MiddleCarries(low, zMiddleA, zMiddleB, high, middle, middleLow, wide, z1);
    ProductInHalves(a, b);
    UpperWordFits(a, b, high, wide, z1);
    NoWrap(high, carry + HighHalf(middle), carryLow);
    z0 := Low64(high + (carry + HighHalf(middle)));
    z0 := Low64(z0 + carryLow);
  }

  lemma NoWrap(x: nat, y: nat, c: nat)
    requires x + y + c < B64
    ensures Low64(x + y) == x + y && Low64(x + y + c) == x + y + c
  {
  }
}
