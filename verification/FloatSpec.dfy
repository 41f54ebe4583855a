/** What IEEE 754 asks of double-precision arithmetic, with no reference to how SoftFloat computes it.
  *
  * A magnitude is the low 63 bits of a double (exponent field and fraction). Every finite double is an
  * integer multiple of 2^-1074, and Units gives that integer. The infinity pattern is given the value
  * 2^1024 that it would have as an ordinary number, which is how section 4.3.1 of IEEE 754-2008 decides
  * overflow when rounding to nearest.
  */
module FloatSpec {
  import opened Arith

  type bits64 = x: int | 0 <= x < 0x1_0000_0000_0000_0000


  const HIDDEN: nat := 0x10_0000_0000_0000
  const SIGN: nat := 0x8000_0000_0000_0000
  const INF: nat := 0x7FF0_0000_0000_0000

  function Magnitude(a: bits64): (m: nat)
    ensures m < SIGN
  {
    a % SIGN
  }

  function Negative(a: bits64): bool {
    a >= SIGN
  }

  predicate IsNaN(a: bits64) {
    Magnitude(a) > INF
  }

  predicate IsInfinite(a: bits64) {
    Magnitude(a) == INF
  }

  predicate IsFinite(a: bits64) {
    Magnitude(a) < INF
  }

  /** The value of exponent field f and fraction r, in units of 2^-1074. */
  function UnitsOfFields(f: nat, r: nat): nat {
    if f == 0 then r else (HIDDEN + r) * P2(f - 1)
  }

  /** The value of a magnitude, in units of 2^-1074. */
  function Units(m: nat): nat {
    UnitsOfFields(m / HIDDEN, m % HIDDEN)
  }

  /** The signed value of a double, in units of 2^-1074. */
  function Value(a: bits64): int {
    if Negative(a) then -(Units(Magnitude(a)) as int) else Units(Magnitude(a))
  }

  /** d times the distance between n/d and the magnitude w. */
  function Distance(n: nat, d: nat, w: nat): nat {
    if n >= d * Units(w) then n - d * Units(w) else d * Units(w) - n
  }

  /** Magnitude m is the exact value n/d (in units of 2^-1074) rounded to nearest, ties to even:
    * no magnitude is closer, and one that is equally close has an odd last bit. */
  ghost predicate RoundsToNearestEven(n: nat, d: nat, m: nat)
    requires d > 0
  {
    && m <= INF
    && (forall w: nat :: w <= INF ==> Distance(n, d, m) <= Distance(n, d, w))
    && (forall w: nat :: w <= INF && w != m && Distance(n, d, w) == Distance(n, d, m) ==> m % 2 == 0)
  }

  lemma UnitsOfParts(f: nat, r: nat)
    requires r < HIDDEN
    ensures Units(f * HIDDEN + r) == UnitsOfFields(f, r)
  {
    var m := f * HIDDEN + r;
    assert m / HIDDEN == f && m % HIDDEN == r;
  }

  /** The gap above a magnitude is a power of two, also where the fraction carries into the exponent. */
  lemma UnitsStep(f: nat, r: nat)
    requires r < HIDDEN
    ensures Units(f * HIDDEN + r + 1) == Units(f * HIDDEN + r) + P2(if f == 0 then 0 else f - 1)
  {
    UnitsOfParts(f, r);
    if r + 1 < HIDDEN {
      UnitsOfParts(f, r + 1);
      FieldStep(f, r);
    } else {
      UnitsOfParts(f + 1, 0);
      FieldCarry(f);
    }
  }

  lemma FieldStep(f: nat, r: nat)
    ensures UnitsOfFields(f, r + 1) == UnitsOfFields(f, r) + P2(if f == 0 then 0 else f - 1)
  {
  }

  lemma FieldCarry(f: nat)
    ensures UnitsOfFields(f + 1, 0) == UnitsOfFields(f, HIDDEN - 1) + P2(if f == 0 then 0 else f - 1)
  {
    if f > 0 {
      assert P2(f) == 2 * P2(f - 1);
    }
  }

  lemma {:induction false} UnitsMonotone(a: nat, b: nat)
    requires a < b
    ensures Units(a) < Units(b)
    decreases b
  {
    UnitsStep((b - 1) / HIDDEN, (b - 1) % HIDDEN);
    if a < b - 1 {
      UnitsMonotone(a, b - 1);
    }
  }

  /** The exact value decides the result: two roundings of it are the same pattern. */
  lemma RoundingIsUnique(n: nat, d: nat, m: nat, m': nat)
    requires d > 0
    requires RoundsToNearestEven(n, d, m) && RoundsToNearestEven(n, d, m')
    ensures m == m'
  {
    if m < m' {
      NoTwoRoundings(n, d, m, m');
    } else if m' < m {
      NoTwoRoundings(n, d, m', m);
    }
  }

  lemma NoTwoRoundings(n: nat, d: nat, lo: nat, hi: nat)
    requires d > 0 && lo < hi
    requires RoundsToNearestEven(n, d, lo)
    ensures !RoundsToNearestEven(n, d, hi)
  {
    if RoundsToNearestEven(n, d, hi) {
      assert Distance(n, d, lo) == Distance(n, d, hi);
      assert lo % 2 == 0 && hi % 2 == 0;
      var mid := lo + 1;
      assert Distance(n, d, lo) <= Distance(n, d, mid);
      UnitsMonotone(lo, mid);
      UnitsMonotone(mid, hi);
      ScaleMonotone(d, Units(lo), Units(mid));
      ScaleMonotone(d, Units(mid), Units(hi));
      assert false;
    }
  }

  /** n/d lies no farther from m than the two midpoints around m, and on one only when m is even. */
  ghost predicate BetweenMidpoints(n: nat, d: nat, m: nat)
    requires d > 0
  {
    && m <= INF
    && (m < INF ==> var s := d * Units(m) + d * Units(m + 1); 2 * n <= s && (2 * n == s ==> m % 2 == 0))
    && (m > 0 ==> var s := d * Units(m - 1) + d * Units(m); 2 * n >= s && (2 * n == s ==> m % 2 == 0))
  }

  /** The midpoints are all there is to check. */
  lemma MidpointsDecide(n: nat, d: nat, m: nat)
    requires d > 0
    ensures BetweenMidpoints(n, d, m) <==> RoundsToNearestEven(n, d, m)
  {
    if BetweenMidpoints(n, d, m) {
      MidpointsSuffice(n, d, m);
    }
    if RoundsToNearestEven(n, d, m) {
      NearestIsBetween(n, d, m);
    }
  }

  /** The two neighbours of a nearest magnitude are no closer, so the value is on its side of both midpoints. */
  lemma NearestIsBetween(n: nat, d: nat, m: nat)
    requires d > 0 && RoundsToNearestEven(n, d, m)
    ensures BetweenMidpoints(n, d, m)
  {
    hide Units;
    if m < INF {
      var above := m + 1;
      UnitsMonotone(m, above);
      ScaleMonotone(d, Units(m), Units(above));
      assert Distance(n, d, m) <= Distance(n, d, above);
    }
    if m > 0 {
      var below := m - 1;
      UnitsMonotone(below, m);
      ScaleMonotone(d, Units(below), Units(m));
      assert Distance(n, d, m) <= Distance(n, d, below);
    }
  }

  lemma MidpointsSuffice(n: nat, d: nat, m: nat)
    requires d > 0
    requires BetweenMidpoints(n, d, m)
    ensures RoundsToNearestEven(n, d, m)
  {
    forall w: nat | w <= INF
      ensures Distance(n, d, m) <= Distance(n, d, w)
      ensures w != m && Distance(n, d, w) == Distance(n, d, m) ==> m % 2 == 0
    {
      if w > m {
        UnitsMonotone(m, m + 1);
        ScaleMonotone(d, Units(m), Units(m + 1));
        if w > m + 1 {
          UnitsMonotone(m + 1, w);
          ScaleMonotone(d, Units(m + 1), Units(w));
        }
      } else if w < m {
        UnitsMonotone(m - 1, m);
        ScaleMonotone(d, Units(m - 1), Units(m));
        if w < m - 1 {
          UnitsMonotone(w, m - 1);
          ScaleMonotone(d, Units(w), Units(m - 1));
        }
      }
    }
  }
}
