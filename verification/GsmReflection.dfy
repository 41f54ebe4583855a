/** GSM 06.10 reflection coefficients (section 4.2.5): normalisation and the Schur recursion in 16-bit arithmetic. */
module GsmReflection {
  import opened Arith
  import opened GsmArith
  import GsmLpc

  /** An autocorrelation shifted left by the norm of the largest one, upper half. */
  function Normalised(x: int, norm: nat): word {
    Wrap16(x * P2(norm) / 0x1_0000)
  }

  /** No autocorrelation overflows when it is shifted by the norm of lag zero, and none is cut off in the upper half. */
  lemma NormalisedFits(x: int, largest: int)
    requires 0 < largest < 0x8000_0000 && -largest <= x <= largest
    ensures GsmNorm(largest) >= 0
    ensures -0x8000_0000 <= x * P2(GsmNorm(largest)) < 0x8000_0000
    ensures Normalised(x, GsmNorm(largest)) == x * P2(GsmNorm(largest)) / 0x1_0000
    ensures x == largest ==> 0x4000 <= Normalised(x, GsmNorm(largest)) < 0x8000
  {
    NormNormalises(largest);
    hide P2, GsmNorm;
    Between(x, largest, P2(GsmNorm(largest)));
  }

  lemma Between(x: int, largest: int, q: int)
    requires q > 0 && -largest <= x <= largest
    ensures -(largest * q) <= x * q <= largest * q
  {
    assert x * q <= largest * q;
    assert (-largest) * q <= x * q;
  }

  /** The two arrays of the recursion. */
  datatype Schur = Schur(p: seq<word>, k: seq<word>) {
    ghost predicate Valid() {
      |p| == 9 && |k| == 9
    }
  }

  function NextP(s: Schur, r: word, n: nat, m: nat): word
    requires s.Valid() && 1 <= n <= 7 && m < 9
  {
    if m == 0 then GsmAdd(s.p[0], GsmMultR(s.p[1], r))
    else if m <= 8 - n then GsmAdd(s.p[m + 1], GsmMultR(s.k[m], r))
    else s.p[m]
  }

  function NextK(s: Schur, r: word, n: nat, m: nat): word
    requires s.Valid() && 1 <= n <= 7 && m < 9
  {
    if 1 <= m <= 8 - n then GsmAdd(s.k[m], GsmMultR(s.p[m + 1], r)) else s.k[m]
  }

  /** One step of the recursion on both arrays at once. */
  function Step(s: Schur, r: word, n: nat): (t: Schur)
    requires s.Valid() && 1 <= n <= 7
    ensures t.Valid()
  {
    Schur(seq(9, m requires 0 <= m < 9 => NextP(s, r, n, m)), seq(9, m requires 0 <= m < 9 => NextK(s, r, n, m)))
  }

  /** Coefficient n: minus the sign of P[1] times the fraction |P[1]| / P[0]. */
  function Coefficient(p0: word, p1: word): (r: word)
    requires GsmAbs(p1) <= p0
    ensures -32767 <= r <= 32767
  {
    var q := Fraction(GsmAbs(p1), p0);
    if p1 > 0 then 0 - q else q
  }

  /** A coefficient is minus P[1] / P[0] in 15 bits, cut off towards zero, and just below one where the quotient is
    * one. */
  lemma CoefficientIsQuotient(p0: word, p1: word)
    requires GsmAbs(p1) <= p0 && p0 > 0
    ensures var a: int := GsmAbs(p1);
            var q: int := if p1 > 0 then 0 - Coefficient(p0, p1) else Coefficient(p0, p1);
            && 0 <= q && 0 <= 32768 * a - q * p0 <= p0 && (a < p0 ==> 32768 * a - q * p0 < p0) && (a == 0 ==> q == 0)
  {
    var a: nat := GsmAbs(p1);
    var q := Fraction(a, p0);
    var d: nat := p0;
    FractionIsQuotient(a, d, q);
    hide GsmAbs, Fraction;
    assert q == if p1 > 0 then 0 - Coefficient(p0, p1) else Coefficient(p0, p1);
  }

  lemma FractionIsQuotient(a: nat, d: nat, q: nat)
    requires a <= d && d > 0 && q == Fraction(a, d)
    ensures 0 <= 32768 * a - q * d <= d && (a < d ==> 32768 * a - q * d < d) && (a == 0 ==> q == 0)
  {
    DivMod(a * 32768, d);
  }

  /** A step takes each entry to the fraction nearest to the exact recursion: P[m] is P[m + 1] + r * K[m], and K[m] is
    * K[m] + r * P[m + 1]; no fraction w is nearer. */
  lemma StepIsNearest(s: Schur, r: word, n: nat, m: nat, w: word)
    requires s.Valid() && 1 <= n <= 7 && m <= 8 - n && r != MIN_WORD
    ensures m == 0 ==> Off(Step(s, r, n).p[0], 32768 * s.p[0] + s.p[1] * r) <= Off(w, 32768 * s.p[0] + s.p[1] * r)
    ensures m > 0 ==> Off(Step(s, r, n).p[m], 32768 * s.p[m + 1] + s.k[m] * r)
                      <= Off(w, 32768 * s.p[m + 1] + s.k[m] * r)
    ensures m > 0 ==> Off(Step(s, r, n).k[m], 32768 * s.k[m] + s.p[m + 1] * r)
                      <= Off(w, 32768 * s.k[m] + s.p[m + 1] * r)
  {
    hide GsmAdd, GsmMultR, Off;
    if m == 0 {
      SumIsNearest(s.p[0], s.p[1], r, w);
    } else {
      SumIsNearest(s.p[m + 1], s.k[m], r, w);
      SumIsNearest(s.k[m], s.p[m + 1], r, w);
    }
  }

  /** The coefficients from n on; once |P[1]| exceeds P[0] the rest are zero. */
  function Reflect(s: Schur, n: nat): (r: seq<word>)
    requires s.Valid() && 1 <= n <= 8
    ensures |r| == 9 - n && forall i | 0 <= i < |r| :: -32767 <= r[i] <= 32767
    decreases 8 - n
  {
    if s.p[0] < GsmAbs(s.p[1]) then Zeros(9 - n)
    else
      var r := Coefficient(s.p[0], s.p[1]);
      if n == 8 then [r] else [r] + Reflect(Step(s, r, n), n + 1)
  }

  function Zeros(n: nat): (z: seq<word>)
    ensures |z| == n && forall i | 0 <= i < n :: z[i] == 0
  {
    seq(n, i => 0)
  }

  /** The start of the recursion. */
  function Started(lacf: seq<int>): (s: Schur)
    requires |lacf| == 9 && 0 < lacf[0] < 0x8000_0000 && GsmNorm(lacf[0]) >= 0
    ensures s.Valid()
  {
    var norm := GsmNorm(lacf[0]);
    Schur(seq(9, i requires 0 <= i < 9 => Normalised(lacf[i], norm)),
          seq(9, i requires 0 <= i < 9 => if 1 <= i <= 7 then Normalised(lacf[i], norm) else 0))
  }

  /** The Schur step in place: P[m + 1] is still the old value when P[m] and K[m] are computed. */
  method SchurStep(P: array<word>, K: array<word>, r: word, n: nat)
    requires P.Length == K.Length == 9 && P != K && 1 <= n <= 7
    modifies P, K
    ensures Schur(P[..], K[..]) == Step(Schur(old(P[..]), old(K[..])), r, n)
  {
    hide GsmMultR, GsmAdd;
    ghost var s := Schur(P[..], K[..]);
    var temp := GsmMultR(P[1], r);
    P[0] := GsmAdd(P[0], temp);
    var m := 1;
    while m <= 8 - n
      invariant 1 <= m <= 9 - n
      invariant forall i: nat | i < 9 :: P[i] == if i < m then NextP(s, r, n, i) else s.p[i]
      invariant forall i: nat | i < 9 :: K[i] == if i < m then NextK(s, r, n, i) else s.k[i]
    {
      temp := GsmMultR(K[m], r);
      P[m] := GsmAdd(P[m + 1], temp);
      temp := GsmMultR(P[m + 1], r);
      K[m] := GsmAdd(K[m], temp);
      m := m + 1;
    }
  }

  method FillZeros(r: array<word>, from: nat)
    requires from <= r.Length
    modifies r
    ensures r[..] == old(r[..from]) + Zeros(r.Length - from)
  {
    var i := from;
    while i < r.Length
      invariant from <= i <= r.Length && r[..from] == old(r[..from]) && forall j | from <= j < i :: r[j] == 0
    {
      r[i] := 0;
      i := i + 1;
    }
  }

  /** Normalises the autocorrelations into both arrays. */
  method Start(lacf: array<int>, P: array<word>, K: array<word>)
    requires lacf.Length == P.Length == K.Length == 9 && P != K && 0 < lacf[0] < 0x8000_0000
    requires K[0] == 0 && K[8] == 0 && forall k | 0 <= k < 9 :: -lacf[0] <= lacf[k] <= lacf[0]
    modifies P, K
    ensures GsmNorm(lacf[0]) >= 0 && Schur(P[..], K[..]) == Started(lacf[..])
  {
    hide GsmNorm, P2, Normalised;
    NormalisedFits(lacf[0], lacf[0]);
    var temp := GsmNorm(lacf[0]);
    var ACF := new word[9];
    var i := 0;
    while i <= 8
      invariant i <= 9 && forall j | 0 <= j < i :: ACF[j] == Normalised(lacf[j], temp)
      modifies ACF
    {
      NormalisedFits(lacf[i], lacf[0]);
      ACF[i] := lacf[i] * P2(temp) / 0x1_0000;
      i := i + 1;
    }
    i := 1;
    while i <= 7
      invariant 1 <= i <= 8 && K[0] == 0 && K[8] == 0 && forall j | 1 <= j < i :: K[j] == ACF[j]
      modifies K
    {
      K[i] := ACF[i];
      i := i + 1;
    }
    i := 0;
    while i <= 8
      invariant i <= 9 && forall j | 0 <= j < i :: P[j] == ACF[j]
      modifies P
    {
      P[i] := ACF[i];
      i := i + 1;
    }
  }

  /** The eight reflection coefficients of a set of autocorrelations with lag zero the largest. */
  method ReflectionCoefficients(lacf: array<int>, r: array<word>)
    requires lacf.Length == 9 && r.Length == 8 && lacf[0] < 0x8000_0000
    requires forall k | 0 <= k < 9 :: -lacf[0] <= lacf[k] <= lacf[0]
    modifies r
    ensures lacf[0] == 0 ==> r[..] == Zeros(8)
    ensures lacf[0] > 0 ==> GsmNorm(lacf[0]) >= 0 && r[..] == Reflect(Started(lacf[..]), 1)
    ensures forall i | 0 <= i < 8 :: -32767 <= r[i] <= 32767
  {
    if lacf[0] == 0 {
      FillZeros(r, 0);
      return;
    }
    var P := new word[9];
    var K := new word[9](i => 0);
    Start(lacf, P, K);
    hide GsmNorm, Started;
    Recursion(P, K, r);
  }

  /** The loop over the coefficients, with its two early ends. */
  method Recursion(P: array<word>, K: array<word>, r: array<word>)
    requires P.Length == K.Length == 9 && r.Length == 8 && P != K && P != r && K != r
    modifies P, K, r
    ensures r[..] == Reflect(Schur(old(P[..]), old(K[..])), 1)
  {
    hide Step, Coefficient, Reflect, GsmAbs, Zeros;
    ghost var goal := Reflect(Schur(P[..], K[..]), 1);
    var n := 1;
    while n <= 8
      invariant 1 <= n <= 8 && goal == r[..n - 1] + Reflect(Schur(P[..], K[..]), n)
      decreases 8 - n
    {
      ghost var before, s := r[..n - 1], Schur(P[..], K[..]);
      Unfolded(s, n);
      var temp := GsmAbs(P[1]);
      if P[0] < temp {
        FillZeros(r, n - 1);
        return;
      }
      var c := OneCoefficient(P[0], P[1]);
      r[n - 1] := c;
      assert r[..n] == before + [c];
      if n == 8 {
        return;
      }
      SchurStep(P, K, c, n);
      Associates(before, c, Reflect(Step(s, c, n), n + 1));
      n := n + 1;
    }
  }

  lemma Associates(a: seq<word>, c: word, b: seq<word>)
    ensures a + ([c] + b) == (a + [c]) + b
  {
  }

  lemma Unfolded(s: Schur, n: nat)
    requires s.Valid() && 1 <= n <= 8
    ensures s.p[0] < GsmAbs(s.p[1]) ==> Reflect(s, n) == Zeros(9 - n)
    ensures s.p[0] >= GsmAbs(s.p[1]) && n == 8 ==> Reflect(s, n) == [Coefficient(s.p[0], s.p[1])]
    ensures s.p[0] >= GsmAbs(s.p[1]) && n < 8 ==>
              var r := Coefficient(s.p[0], s.p[1]); Reflect(s, n) == [r] + Reflect(Step(s, r, n), n + 1)
  {
    hide Step, Coefficient, GsmAbs, Zeros;
  }

  method OneCoefficient(p0: word, p1: word) returns (r: word)
    requires GsmAbs(p1) <= p0
    ensures r == Coefficient(p0, p1)
  {
    r := GsmDiv(GsmAbs(p1), p0);
    if p1 > 0 {
      r := -r;
    }
  }

  /** The autocorrelations of a frame: twice the correlations of its scaled samples. */
  ghost function Lags(s: seq<word>): (lags: seq<int>)
    requires |s| == GsmLpc.FRAME
    ensures |lags| == 9
  {
    seq(9, k requires 0 <= k < 9 => Lag(s, k))
  }

  ghost function Lag(s: seq<word>, k: nat): int
    requires |s| == GsmLpc.FRAME && k < 9
  {
    2 * GsmLpc.Correlation(GsmLpc.Scaled(s, GsmLpc.ScalAuto(GsmLpc.MaxAbs(s, GsmLpc.FRAME))), k, GsmLpc.FRAME)
  }

  /** The coefficients are those the recursion specifies for the given autocorrelations; silence has none. */
  ghost predicate Reflected(lags: seq<int>, r: seq<word>) {
    && |lags| == 9 && 0 <= lags[0] < 0x8000_0000
    && (lags[0] == 0 ==> r == Zeros(8))
    && (lags[0] > 0 ==> GsmNorm(lags[0]) >= 0 && r == Reflect(Started(lags), 1))
  }

  /** The first two stages of the LPC analysis: what the autocorrelation leaves is what the recursion asks for. */
  method AnalyseFrame(s: array<word>, r: array<word>)
    requires s.Length == GsmLpc.FRAME && r.Length == 8 && s != r
    modifies s, r
    ensures Reflected(Lags(old(s[..])), r[..]) && forall i | 0 <= i < 8 :: -32767 <= r[i] <= 32767
    ensures forall i | 0 <= i < GsmLpc.FRAME ::
      s[i] == GsmLpc.RescaledSample(old(s[i]), GsmLpc.ScalAuto(GsmLpc.MaxAbs(old(s[..]), GsmLpc.FRAME)))
  {
    hide GsmNorm, Reflect, Started, GsmLpc.Correlation, GsmLpc.Scaled, GsmLpc.MaxAbs, GsmLpc.RescaledSample,
         GsmLpc.ScalAuto;
    var lacf := new int[9];
    GsmLpc.Autocorrelation(s, lacf);
    ghost var after := s[..];
    assert lacf[..] == Lags(old(s[..]));
    ReflectionCoefficients(lacf, r);
    assert s[..] == after;
  }
}
