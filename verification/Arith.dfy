/** Powers of two, fixed-width wrap-around and single-bit updates, shared by all the kernels. */
module Arith {

  type byte = x: int | 0 <= x < 256

  /** 2 to the n. */
  function P2(n: nat): (p: nat)
    ensures p >= 1
  {
    if n == 0 then 1 else 2 * P2(n - 1)
  }

  lemma {:induction false} P2Add(a: nat, b: nat)
    ensures P2(a + b) == P2(a) * P2(b)
    decreases a
  {
    if a == 0 {
    } else {
      P2Add(a - 1, b);
      assert P2(a + b) == 2 * (P2(a - 1) * P2(b));
    }
  }

  lemma {:induction false} P2Monotone(a: nat, b: nat)
    requires a <= b
    ensures P2(a) <= P2(b)
    ensures a < b ==> 2 * P2(a) <= P2(b)
    decreases b
  {
    if a < b {
      P2Monotone(a, b - 1);
    }
  }

  /** The value a 32-bit two's complement int holds after storing x. */
  function Wrap32(x: int): (r: int)
    ensures -0x8000_0000 <= r < 0x8000_0000
    ensures -0x8000_0000 <= x < 0x8000_0000 ==> r == x
  {
    (x + 0x8000_0000) % 0x1_0000_0000 - 0x8000_0000
  }

  /** The value a 16-bit two's complement short holds after storing x. */
  function Wrap16(x: int): (r: int)
    ensures -0x8000 <= r < 0x8000
    ensures -0x8000 <= x < 0x8000 ==> r == x
  {
    (x + 0x8000) % 0x1_0000 - 0x8000
  }

  /** x | p for a power of two p. */
  function SetBit(x: nat, p: nat): (r: nat)
    requires p > 0
    ensures x <= r <= x + p
  {
    if (x / p) % 2 == 1 then x else x + p
  }

  /** Division with remainder, stated as a product so that proofs need not reason about / and %. */
  lemma DivMod(s: nat, k: nat)
    requires k > 0
    ensures s == s / k * k + s % k
    ensures 0 <= s % k < k && 0 <= s / k
  {
  }

  /** The bits of x from position k up, and the k bits below them. */
  function Upper(x: nat, k: nat): nat {
    Div(x, P2(k))
  }

  function Lower(x: nat, k: nat): nat {
    Mod(x, P2(k))
  }

  function Div(x: nat, p: nat): nat
    requires p > 0
  {
    x / p
  }

  function Mod(x: nat, p: nat): (r: nat)
    requires p > 0
    ensures r < p
  {
    x % p
  }

  lemma ScaleMonotone(d: nat, a: nat, b: nat)
    requires d > 0
    ensures a < b ==> d * a < d * b
    ensures a <= b ==> d * a <= d * b
  {
  }

  lemma Grows(c: nat, a: int, b: int)
    requires a <= b
    ensures a * c <= b * c
  {
  }

  /** A product as a named term, for proofs that treat products as units. */
  function Times(x: int, y: int): int {
    x * y
  }

  lemma TimesSum(x: int, y: int, z: int)
    ensures Times(x + y, z) == Times(x, z) + Times(y, z)
  {
  }

  lemma TimesGrows(c: nat, a: int, b: int)
    ensures a <= b ==> Times(a, c) <= Times(b, c)
    ensures a < b && c > 0 ==> Times(a, c) < Times(b, c)
  {
    if a <= b {
      Grows(c, a, b);
    }
    if a < b && c > 0 {
      Grows(c, a + 1, b);
      assert (a + 1) * c == a * c + c;
    }
  }

  lemma TimesCommute(x: int, y: int)
    ensures Times(x, y) == Times(y, x)
  {
  }

  lemma TimesAssociate(x: int, y: int, z: int)
    ensures Times(Times(x, y), z) == Times(x, Times(y, z)) == Times(Times(x, z), y)
  {
    Associate(x, y, z);
    Associate(x, z, y);
  }

  lemma Associate(x: int, y: int, z: int)
    ensures x * y * z == x * (y * z)
  {
  }

  lemma SumTimes(x: int, y: int, z: int)
    ensures x * (y + z) == x * y + x * z
  {
  }

  /** Shifting left twice is shifting left by the sum. */
  lemma ShiftShift(x: nat, a: nat, b: nat)
    ensures x * P2(a + b) == x * P2(a) * P2(b)
  {
    P2Add(a, b);
  }

  lemma DivModUnique(x: nat, k: nat, q: nat, r: nat)
    requires k > 0 && r < k && x == q * k + r
    ensures x / k == q && x % k == r
  {
    DivMod(x, k);
    if x / k < q {
      ScaleMonotone(k, x / k + 1, q);
    } else if x / k > q {
      ScaleMonotone(k, q + 1, x / k);
    }
  }

  lemma ModScale(a: nat, p: nat, s: nat)
    requires p > 0 && s > 0
    ensures a * s % (p * s) == a % p * s
    ensures a * s / (p * s) == a / p
  {
    var q, r := a / p, a % p;
    DivMod(a, p);
    ScaleMonotone(s, r, p);
    assert a * s == q * (p * s) + r * s by {
      assert (q * p + r) * s == q * p * s + r * s;
    }
    DivModUnique(a * s, p * s, q, r * s);
  }

  lemma {:induction false} P2Words()
    ensures P2(32) == 0x1_0000_0000 && P2(64) == 0x1_0000_0000_0000_0000
  {
    assert P2(8) == 0x100;
    P2Square(8, 0x100);
    P2Square(16, 0x1_0000);
    P2Square(32, 0x1_0000_0000);
  }

  lemma P2Square(a: nat, v: nat)
    requires P2(a) == v
    ensures P2(2 * a) == v * v
  {
    P2Add(a, a);
  }

  /** Division with remainder, with the product as a named term. */
  lemma DivTimes(s: nat, k: nat)
    requires k > 0
    ensures s == Times(s / k, k) + s % k && 0 <= s % k < k && 0 <= s / k
  {
    DivMod(s, k);
  }

  lemma DivTimesUnique(x: nat, k: nat, q: nat, r: nat)
    requires r < k && x == Times(q, k) + r
    ensures x / k == q && x % k == r
  {
    DivModUnique(x, k, q, r);
  }

  lemma TimesBelow(l: nat, r: nat, a: nat, b: nat)
    requires l < b && r < a
    ensures 0 <= Times(l, a) && Times(l, a) + r < Times(a, b)
  {
    Grows(a, l + 1, b);
    assert (l + 1) * a == l * a + a;
  }

  lemma TimesRegroup(h: nat, l: nat, a: nat, b: nat)
    ensures Times(Times(h, b) + l, a) == Times(h, Times(a, b)) + Times(l, a)
  {
    assert (h * b + l) * a == h * b * a + l * a;
    Associate(h, b, a);
  }

  /** Taking a remainder by a multiple of a first does not change the remainder by a. */
  lemma ModOfMod(x: nat, a: nat, b: nat)
    requires a > 0 && b > 0
    ensures x % (a * b) % a == x % a
    ensures x % (a * b) / a == x / a % b
    ensures x / (a * b) == x / a / b
  {
    NestedDivision(x, a, b, a * b);
  }

  lemma NestedDivision(x: nat, a: nat, b: nat, ab: nat)
    requires a > 0 && b > 0 && ab > 0 && ab == Times(a, b)
    ensures x % ab % a == x % a && x % ab / a == x / a % b && x / ab == x / a / b
  {
    hide Times;
    var q, r := x / a, x % a;
    var h, l := q / b, q % b;
    DivTimes(x, a);
    DivTimes(q, b);
    TimesBelow(l, r, a, b);
    TimesRegroup(h, l, a, b);
    DivTimesUnique(x, ab, h, Times(l, a) + r);
    DivTimesUnique(Times(l, a) + r, a, l, r);
  }
}
