/** The fixed-point butterfly and the recursive even/odd decimation-in-time transform built from it. */
module FftSpec {
  import opened Arith

  const PERIOD: nat := 1024
  const LOG2_PERIOD: nat := 10

  /** A sample; both parts are 16-bit shorts. */
  datatype Complex = Complex(re: int, im: int)

  /** The lookup table covers three quarters of a period, so that index j + PERIOD / 4 gives the cosine. */
  predicate IsSineTable(sine: seq<int>) {
    |sine| == PERIOD - PERIOD / 4
  }

  /** The 16-bit fixed-point product: the upper part of the product plus the last bit shifted out. */
  function FixMpy(a: int, b: int): int {
    var c := a * b;
    Wrap16(c / 0x8000 + c / 0x4000 % 2)
  }

  lemma RoundByLastBit(c: int)
    ensures c / 0x8000 + c / 0x4000 % 2 == (c + 0x4000) / 0x8000
  {
  }

  lemma ShortProduct(a: int, b: int)
    requires -0x8000 <= a < 0x8000 && -0x8000 <= b < 0x8000
    ensures -0x8000 * 0x8000 <= a * b <= 0x8000 * 0x8000
    ensures !(a == -0x8000 && b == -0x8000) ==> a * b <= 0x8000 * 0x7FFF
    ensures a * b >= -0x8000 * 0x7FFF - 0x8000
  {
    if b >= 0 {
      Grows(b, a, 0x7FFF);
      Grows(b, -0x8000, a);
    } else {
      Grows(-b, a, 0x7FFF);
      Grows(-b, -0x8000, a);
      Negated(a, b);
      if b > -0x8000 {
        Grows(-b, -0x8000, a);
      } else {
        assert a * b == -0x8000 * a;
      }
    }
  }

  lemma Negated(a: int, b: int)
    ensures a * -b == -(a * b)
  {
  }

  /** The product is rounded to nearest, halves upward, except that the square of the most negative short, one, comes
    * out as minus one. */
  lemma FixMpyRounds(a: int, b: int)
    requires -0x8000 <= a < 0x8000 && -0x8000 <= b < 0x8000
    ensures FixMpy(a, b) == (a * b + 0x4000) / 0x8000 <==> !(a == -0x8000 && b == -0x8000)
  {
    ShortProduct(a, b);
    RoundByLastBit(a * b);
    RoundedFits(a * b);
  }

  /** A rounded product of shorts fits a short unless it is exactly one. */
  lemma RoundedFits(c: int)
    requires -0x4000_0000 <= c <= 0x4000_0000
    ensures c <= 0x8000 * 0x7FFF ==> -0x8000 <= (c + 0x4000) / 0x8000 < 0x8000
    ensures c == 0x4000_0000 ==> (c + 0x4000) / 0x8000 == 0x8000
  {
  }

  /** One butterfly with twiddle index j: the sum and the difference of u and the rotated v. */
  function Butterfly(sine: seq<int>, j: nat, u: Complex, v: Complex): (Complex, Complex)
    requires IsSineTable(sine) && j < PERIOD / 2
  {
    var wIm, wRe := sine[j + PERIOD / 4], sine[j];
    var ti := Wrap16(FixMpy(wIm, v.im) - FixMpy(wRe, v.re));
    var tr := Wrap16(FixMpy(wIm, v.re) + FixMpy(wRe, v.im));
    (Complex(Wrap16(u.re + tr), Wrap16(u.im + ti)), Complex(Wrap16(u.re - tr), Wrap16(u.im - ti)))
  }

  function Evens(x: seq<Complex>): (e: seq<Complex>)
    requires |x| % 2 == 0
    ensures |e| == |x| / 2
  {
    seq(|x| / 2, i requires 0 <= i < |x| / 2 => x[2 * i])
  }

  function Odds(x: seq<Complex>): (o: seq<Complex>)
    requires |x| % 2 == 0
    ensures |o| == |x| / 2
  {
    seq(|x| / 2, i requires 0 <= i < |x| / 2 => x[2 * i + 1])
  }

  /** The twiddle index of butterfly m in a stage that joins blocks of length 2^s. */
  function Twiddle(s: nat, m: nat): (j: nat)
    requires s < LOG2_PERIOD && m < P2(s)
    ensures j < PERIOD / 2
  {
    TwiddleInRange(s, m);
    m * P2(LOG2_PERIOD - 1 - s)
  }

  lemma TwiddleInRange(s: nat, m: nat)
    requires s < LOG2_PERIOD && m < P2(s)
    ensures m * P2(LOG2_PERIOD - 1 - s) < PERIOD / 2
  {
    var p := P2(LOG2_PERIOD - 1 - s);
    P2Add(s, LOG2_PERIOD - 1 - s);
    assert P2(9) == 512;
    ScaleMonotone(p, m, P2(s));
  }

  /** Joins the transforms of the even and the odd samples. */
  function Join(sine: seq<int>, s: nat, e: seq<Complex>, o: seq<Complex>): (y: seq<Complex>)
    requires IsSineTable(sine) && s < LOG2_PERIOD && |e| == |o| == P2(s)
    ensures |y| == P2(s + 1)
  {
    seq(P2(s + 1), i requires 0 <= i < P2(s + 1) =>
      if i < P2(s) then Butterfly(sine, Twiddle(s, i), e[i], o[i]).0
      else Butterfly(sine, Twiddle(s, i - P2(s)), e[i - P2(s)], o[i - P2(s)]).1)
  }

  /** The transform of 2^n samples by recursion on the even and the odd samples. */
  function Transform(sine: seq<int>, n: nat, x: seq<Complex>): (y: seq<Complex>)
    requires IsSineTable(sine) && n <= LOG2_PERIOD && |x| == P2(n)
    ensures |y| == P2(n)
  {
    if n == 0 then x
    else Join(sine, n - 1, Transform(sine, n - 1, Evens(x)), Transform(sine, n - 1, Odds(x)))
  }

  /** The last n bits of i in reverse order. */
  function Reverse(n: nat, i: nat): (r: nat)
    ensures r < P2(n)
  {
    if n == 0 then 0 else (if i % 2 == 1 then P2(n - 1) else 0) + Reverse(n - 1, i / 2)
  }

  /** The top bit becomes the last one. */
  lemma {:induction false} ReverseFromTop(n: nat, i: nat, top: bool)
    requires i < P2(n)
    ensures Reverse(n + 1, i + (if top then P2(n) else 0)) == 2 * Reverse(n, i) + (if top then 1 else 0)
  {
    var j := i + (if top then P2(n) else 0);
    if n > 0 {
      ReverseFromTop(n - 1, i / 2, top);
      assert j / 2 == i / 2 + (if top then P2(n - 1) else 0) && j % 2 == i % 2;
    }
  }

  /** Reversing twice gives the index back, so the bit-reversed copy is a permutation. */
  lemma {:induction false} ReverseIsInvolution(n: nat, i: nat)
    requires i < P2(n)
    ensures Reverse(n, Reverse(n, i)) == i
  {
    if n > 0 {
      ReverseIsInvolution(n - 1, i / 2);
      ReverseFromTop(n - 1, Reverse(n - 1, i / 2), i % 2 == 1);
    }
  }

  /** A short, and one that is not the most negative. */
  predicate IsShort(x: int) {
    -0x8000 <= x < 0x8000
  }

  predicate Balanced(x: int) {
    -0x7FFF <= x <= 0x7FFF
  }

  predicate IsBalancedTable(sine: seq<int>) {
    IsSineTable(sine) && forall i | 0 <= i < |sine| :: Balanced(sine[i])
  }

  /** A product with a balanced factor is half a unit from the exact one at most. */
  lemma ProductError(a: int, b: int)
    requires Balanced(a) && IsShort(b)
    ensures -0x4000 <= 0x8000 * FixMpy(a, b) - a * b <= 0x4000
  {
    FixMpyRounds(a, b);
    HalfUnit(a * b);
    hide FixMpy;
  }

  lemma HalfUnit(c: int)
    ensures -0x4000 <= 0x8000 * ((c + 0x4000) / 0x8000) - c <= 0x4000
  {
  }

  /** What the second operand of a butterfly turns into: v times cosine - i sine, in units of 2^-15. */
  function ExactRe(sine: seq<int>, j: nat, v: Complex): int
    requires IsSineTable(sine) && j < PERIOD / 2
  {
    sine[j + PERIOD / 4] * v.re + sine[j] * v.im
  }

  function ExactIm(sine: seq<int>, j: nat, v: Complex): int
    requires IsSineTable(sine) && j < PERIOD / 2
  {
    sine[j + PERIOD / 4] * v.im - sine[j] * v.re
  }

  /** Adding or subtracting the exact value stays a unit inside the shorts. */
  predicate RoomFor(u: int, exact: int) {
    && -0x7FFF * 0x8000 <= 0x8000 * u - exact - 0x8000 && 0x8000 * u - exact + 0x8000 <= 0x7FFF * 0x8000
    && -0x7FFF * 0x8000 <= 0x8000 * u + exact - 0x8000 && 0x8000 * u + exact + 0x8000 <= 0x7FFF * 0x8000
  }

  /** x is the sum, and y the difference, of u and a value within one unit of the exact one. */
  predicate SumAndDifference(u: int, exact: int, x: int, y: int) {
    -0x8000 <= 0x8000 * (x - u) - exact <= 0x8000 && y - u == u - x
  }

  /** A butterfly is the exact one within a unit: the first output is u plus v rotated by the table's angle clockwise,
    * the second u minus it. */
  lemma ButterflyRotates(sine: seq<int>, j: nat, u: Complex, v: Complex)
    requires IsBalancedTable(sine) && j < PERIOD / 2 && IsShort(v.re) && IsShort(v.im)
    requires RoomFor(u.re, ExactRe(sine, j, v)) && RoomFor(u.im, ExactIm(sine, j, v))
    ensures var (x, y) := Butterfly(sine, j, u, v);
            && SumAndDifference(u.re, ExactRe(sine, j, v), x.re, y.re)
            && SumAndDifference(u.im, ExactIm(sine, j, v), x.im, y.im)
  {
    hide FixMpy;
    ProductError(sine[j + PERIOD / 4], v.re);
    ProductError(sine[j + PERIOD / 4], v.im);
    ProductError(sine[j], v.re);
    ProductError(sine[j], v.im);
  }

  /** A sample of zero. */
  const ZERO: Complex := Complex(0, 0)

  /** All samples but the one at position p are zero. */
  ghost predicate Impulse(x: seq<Complex>, p: nat) {
    p < |x| && forall i | 0 <= i < |x| && i != p :: x[i] == ZERO
  }

  lemma FixMpyZero(a: int)
    ensures FixMpy(a, 0) == 0
  {
  }

  /** Shorts in both parts. */
  predicate IsSample(v: Complex) {
    IsShort(v.re) && IsShort(v.im)
  }

  lemma ButterflyOfZero(sine: seq<int>, j: nat, u: Complex)
    requires IsSineTable(sine) && j < PERIOD / 2 && IsSample(u)
    ensures Butterfly(sine, j, u, ZERO) == (u, u)
  {
    FixMpyZero(sine[j]);
    FixMpyZero(sine[j + PERIOD / 4]);
    hide FixMpy;
  }

  lemma HalfSizes(n: nat, x: seq<Complex>)
    requires n >= 1 && |x| == P2(n)
    ensures P2(n) == 2 * P2(n - 1) && |Evens(x)| == |Odds(x)| == P2(n - 1)
  {
  }

  ghost predicate AllAre(x: seq<Complex>, c: Complex) {
    forall i | 0 <= i < |x| :: x[i] == c
  }

  lemma SilentHalves(x: seq<Complex>)
    requires |x| % 2 == 0 && AllAre(x, ZERO)
    ensures AllAre(Evens(x), ZERO) && AllAre(Odds(x), ZERO)
  {
  }

  lemma ImpulseHalves(x: seq<Complex>)
    requires |x| % 2 == 0 && |x| > 1 && Impulse(x, 0)
    ensures |Evens(x)| > 0 && Evens(x)[0] == x[0] && Impulse(Evens(x), 0) && AllAre(Odds(x), ZERO)
  {
  }

  lemma SingleSample(sine: seq<int>, n: nat, x: seq<Complex>)
    requires IsSineTable(sine) && n == 0 && |x| == P2(n)
    ensures |x| == 1 && Transform(sine, n, x) == x
  {
  }

  lemma OnlyImpulse(x: seq<Complex>)
    requires |x| == 1
    ensures AllAre(x, x[0])
  {
  }

  lemma HalvesJoined(sine: seq<int>, n: nat, x: seq<Complex>, e: seq<Complex>, o: seq<Complex>)
    requires IsSineTable(sine) && 1 <= n <= LOG2_PERIOD && |x| == P2(n) && |Evens(x)| == |Odds(x)| == P2(n - 1)
    requires e == Transform(sine, n - 1, Evens(x)) && o == Transform(sine, n - 1, Odds(x))
    ensures Transform(sine, n, x) == Join(sine, n - 1, e, o)
  {
  }

  /** An impulse at the beginning has the same value everywhere in the transform. */
  lemma {:induction false} ImpulseAtStart(sine: seq<int>, n: nat, x: seq<Complex>)
    requires IsSineTable(sine) && n <= LOG2_PERIOD && |x| == P2(n) && Impulse(x, 0) && IsSample(x[0])
    ensures AllAre(Transform(sine, n, x), x[0])
  {
    hide P2, Join, Transform, Evens, Odds, IsSineTable, IsSample, Impulse, AllAre;
    if n == 0 {
      SingleSample(sine, n, x);
      OnlyImpulse(x);
    } else {
      HalfSizes(n, x);
      PowerPositive(n - 1);
      ImpulseHalves(x);
      var (e, o) := (Transform(sine, n - 1, Evens(x)), Transform(sine, n - 1, Odds(x)));
      HalvesJoined(sine, n, x, e, o);
      ImpulseAtStart(sine, n - 1, Evens(x));
      Silence(sine, n - 1, Odds(x));
      JoinedConstant(sine, n - 1, e, o, x[0]);
    }
  }

  lemma PowerPositive(n: nat)
    ensures P2(n) >= 1
  {
  }

  lemma JoinAt(sine: seq<int>, s: nat, e: seq<Complex>, o: seq<Complex>, m: nat)
    requires IsSineTable(sine) && s < LOG2_PERIOD && |e| == |o| == P2(s) && m < P2(s)
    ensures m + P2(s) < P2(s + 1)
    ensures Join(sine, s, e, o)[m] == Butterfly(sine, Twiddle(s, m), e[m], o[m]).0
    ensures Join(sine, s, e, o)[m + P2(s)] == Butterfly(sine, Twiddle(s, m), e[m], o[m]).1
  {
    assert P2(s + 1) == 2 * P2(s);
    hide P2, Butterfly, Twiddle;
  }

  lemma PowerDoubles(s: nat)
    ensures P2(s + 1) == 2 * P2(s)
  {
  }

  lemma JoinedConstant(sine: seq<int>, s: nat, e: seq<Complex>, o: seq<Complex>, c: Complex)
    requires IsSineTable(sine) && s < LOG2_PERIOD && |e| == |o| == P2(s) && IsSample(c)
    requires AllAre(e, c) && AllAre(o, ZERO)
    ensures AllAre(Join(sine, s, e, o), c)
  {
    hide P2, Join, IsSineTable, IsSample;
    var half := P2(s);
    PowerDoubles(s);
    forall i: nat | i < P2(s + 1)
      ensures Join(sine, s, e, o)[i] == c
    {
      if i < half {
        ConstantPair(sine, s, e, o, c, i);
      } else {
        ConstantPair(sine, s, e, o, c, i - half);
      }
    }
  }

  lemma ConstantPair(sine: seq<int>, s: nat, e: seq<Complex>, o: seq<Complex>, c: Complex, m: nat)
    requires IsSineTable(sine) && s < LOG2_PERIOD && |e| == |o| == P2(s) && IsSample(c)
    requires m < P2(s) && e[m] == c && o[m] == ZERO
    ensures m + P2(s) < P2(s + 1) && Join(sine, s, e, o)[m] == c && Join(sine, s, e, o)[m + P2(s)] == c
  {
    hide P2, Butterfly, Twiddle, Join, FixMpy;
    JoinAt(sine, s, e, o, m);
    TwiddleInRange(s, m);
    ButterflyOfZero(sine, Twiddle(s, m), c);
  }

  /** Silence stays silent. */
  lemma {:induction false} Silence(sine: seq<int>, n: nat, x: seq<Complex>)
    requires IsSineTable(sine) && n <= LOG2_PERIOD && |x| == P2(n) && AllAre(x, ZERO)
    ensures AllAre(Transform(sine, n, x), ZERO)
  {
    hide P2, Join, Transform, Evens, Odds, IsSineTable, AllAre;
    if n == 0 {
      SingleSample(sine, n, x);
    } else {
      HalfSizes(n, x);
      SilentHalves(x);
      var (e, o) := (Transform(sine, n - 1, Evens(x)), Transform(sine, n - 1, Odds(x)));
      HalvesJoined(sine, n, x, e, o);
      Silence(sine, n - 1, Evens(x));
      Silence(sine, n - 1, Odds(x));
      JoinedConstant(sine, n - 1, e, o, ZERO);
    }
  }

  /** One line of the impulse response: m turns of the angle 2 pi / N clockwise. */
  function Line(sine: seq<int>, n: nat, m: nat, a: int): (c: Complex)
    requires IsSineTable(sine) && 1 <= n <= LOG2_PERIOD && m < P2(n - 1)
  {
    TwiddleInRange(n - 1, m);
    var j := m * P2(LOG2_PERIOD - n);
    Complex(FixMpy(sine[j + PERIOD / 4], a), -FixMpy(sine[j], a))
  }

  /** An impulse of height a behind the first sample: entry m of the transform is a turned by m / N of a full turn, read
    * off the table, and the entry half the length further its negative. */
  lemma ImpulseResponse(sine: seq<int>, n: nat, x: seq<Complex>, a: int, m: nat)
    requires IsBalancedTable(sine) && 1 <= n <= LOG2_PERIOD && |x| == P2(n) && m < P2(n - 1) && Balanced(a)
    requires |x| > 1 && Impulse(x, 1) && x[1] == Complex(a, 0)
    ensures m + P2(n - 1) < P2(n)
    ensures var (y, line) := (Transform(sine, n, x), Line(sine, n, m, a));
            y[m] == line && y[m + P2(n - 1)] == Complex(-line.re, -line.im)
  {
    hide P2, Butterfly, Join, Line, Transform;
    HalfLength(n, x);
    HalfSizes(n, x);
    var (e, o) := (Transform(sine, n - 1, Evens(x)), Transform(sine, n - 1, Odds(x)));
    HalvesJoined(sine, n, x, e, o);
    Silence(sine, n - 1, Evens(x));
    ImpulseAtStart(sine, n - 1, Odds(x));
    JoinAt(sine, n - 1, e, o, m);
    LineIsTurned(sine, n, m, a);
  }

  lemma HalfLength(n: nat, x: seq<Complex>)
    requires n >= 1 && |x| == P2(n)
    ensures P2(n) == 2 * P2(n - 1) && P2(n - 1) >= 1 && |Odds(x)| >= 1 && Odds(x)[0] == x[1]
  {
  }

  lemma LineIsTurned(sine: seq<int>, n: nat, m: nat, a: int)
    requires IsBalancedTable(sine) && 1 <= n <= LOG2_PERIOD && m < P2(n - 1) && Balanced(a)
    ensures var line := Line(sine, n, m, a);
            Butterfly(sine, Twiddle(n - 1, m), ZERO, Complex(a, 0)) == (line, Complex(-line.re, -line.im))
  {
    TwiddleInRange(n - 1, m);
    var j := Twiddle(n - 1, m);
    assert j == m * P2(LOG2_PERIOD - n);
    TurnedFromZero(sine, j, a);
    hide FixMpy, Butterfly, P2;
  }

  lemma TurnedFromZero(sine: seq<int>, j: nat, a: int)
    requires IsBalancedTable(sine) && j < PERIOD / 2 && Balanced(a)
    ensures var (c, s) := (FixMpy(sine[j + PERIOD / 4], a), FixMpy(sine[j], a));
            Butterfly(sine, j, ZERO, Complex(a, 0)) == (Complex(c, -s), Complex(-c, s))
  {
    FixMpyZero(sine[j]);
    FixMpyZero(sine[j + PERIOD / 4]);
    BalancedProduct(sine[j], a);
    BalancedProduct(sine[j + PERIOD / 4], a);
    hide FixMpy;
  }

  lemma BalancedProduct(a: int, b: int)
    requires Balanced(a) && Balanced(b)
    ensures Balanced(FixMpy(a, b))
  {
    ProductError(a, b);
    ShortProduct(a, b);
    if b == 0 {
      FixMpyZero(a);
    }
    hide FixMpy;
    Corners(a, b);
  }

  lemma Corners(a: int, b: int)
    requires Balanced(a) && Balanced(b)
    ensures -0x7FFF * 0x7FFF <= a * b <= 0x7FFF * 0x7FFF
  {
    if b >= 0 {
      Grows(b, a, 0x7FFF);
      Grows(b, -0x7FFF, a);
    } else {
      Grows(-b, a, 0x7FFF);
      Grows(-b, -0x7FFF, a);
      Negated(a, b);
    }
  }
}
