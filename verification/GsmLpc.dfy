/** GSM 06.10 autocorrelation (section 4.2.4): scaling, the unrolled correlation sums, and rescaling. */
module GsmLpc {
  import opened Arith
  import opened GsmArith

  const FRAME: nat := 160

  /** The largest magnitude among the first n samples. */
  function MaxAbs(s: seq<word>, n: nat): (m: int)
    requires n <= |s|
    ensures 0 <= m < 32768 && forall i | 0 <= i < n :: GsmAbs(s[i]) <= m
  {
    if n == 0 then 0
    else
      var m := MaxAbs(s, n - 1);
      if GsmAbs(s[n - 1]) > m then GsmAbs(s[n - 1]) else m
  }

  function ScalAuto(smax: int): int
    requires 0 <= smax < 32768
  {
    if smax == 0 then 0 else 4 - GsmNorm(smax * 0x1_0000)
  }

  /** The factor 16384 >> (n - 1). */
  function Factor(n: int): word
    requires 1 <= n <= 4
  {
    if n == 1 then 16384 else if n == 2 then 8192 else if n == 3 then 4096 else 2048
  }

  /** A sample as the correlation sees it, and as it is left behind. */
  function ScaledSample(x: word, n: int): word {
    if 1 <= n <= 4 then GsmMultR(x, Factor(n)) else x
  }

  function RescaledSample(x: word, n: int): word {
    if 1 <= n <= 4 then Wrap16(ScaledSample(x, n) * P2(n)) else x
  }

  function Scaled(s: seq<word>, n: int): (t: seq<word>)
    ensures |t| == |s|
  {
    seq(|s|, i requires 0 <= i < |s| => ScaledSample(s[i], n))
  }

  /** (longword) a * b. */
  function Product(a: int, b: int): int {
    a * b
  }

  /** The sum of s[i] * s[i - k] over k <= i < n. */
  function Correlation(s: seq<word>, k: nat, n: nat): int
    requires n <= |s|
  {
    if n <= k then 0 else Correlation(s, k, n - 1) + Product(s[n - 1], s[n - 1 - k])
  }

  /** The scaling count leaves every magnitude below 2^11 after division by 2^n. */
  lemma ScalAutoBound(smax: int)
    requires 0 <= smax < 32768
    ensures ScalAuto(smax) <= 4
    ensures ScalAuto(smax) <= 0 ==> smax < 2048
    ensures ScalAuto(smax) == 1 ==> smax < 4096
    ensures ScalAuto(smax) == 2 ==> smax < 8192
    ensures ScalAuto(smax) == 3 ==> smax < 16384
  {
    if smax > 0 {
      NormNormalises(smax * 0x1_0000);
      hide P2, GsmNorm;
      var norm := GsmNorm(smax * 0x1_0000);
      SmallByNorm(smax, norm);
    }
  }

  /** Scaling is never coarser than needed: a positive count means that some sample is out of the range that one step
    * less would bring into 11 bits. */
  lemma ScalingIsNeeded(smax: int)
    requires 0 <= smax < 32768
    ensures var n := ScalAuto(smax); n > 0 ==> smax >= 1024 * P2(n)
  {
    if smax > 0 {
      hide P2, GsmNorm;
      NormNormalises(smax * 0x1_0000);
      var norm := GsmNorm(smax * 0x1_0000);
      if norm < 4 {
        LargeByNorm(smax, norm);
      }
    }
  }

  lemma LargeByNorm(smax: nat, norm: nat)
    requires smax * 0x1_0000 * P2(norm) >= 0x4000_0000 && norm < 4
    ensures smax >= 1024 * P2(4 - norm)
  {
    assert P2(0) == 1 && P2(1) == 2 && P2(2) == 4 && P2(3) == 8 && P2(4) == 16;
    hide P2;
    match norm { case 0 => case 1 => case 2 => case 3 => }
  }

  /** Each leading zero found halves the bound. */
  lemma SmallByNorm(smax: nat, norm: nat)
    requires smax * 0x1_0000 * P2(norm) < 0x8000_0000
    ensures norm >= 1 ==> smax < 16384
    ensures norm >= 2 ==> smax < 8192
    ensures norm >= 3 ==> smax < 4096
    ensures norm >= 4 ==> smax < 2048
  {
    assert P2(1) == 2 && P2(2) == 4 && P2(3) == 8 && P2(4) == 16;
    hide P2;
    var least := if norm >= 4 then 4 else norm;
    P2Monotone(least, norm);
    SmallByPower(smax, P2(least), P2(norm));
  }

  lemma SmallByPower(smax: nat, p: nat, q: nat)
    requires smax * 0x1_0000 * q < 0x8000_0000 && p <= q
    ensures smax * p < 0x8000
  {
    var m := smax * 0x1_0000;
    assert Times(p, m) == p * m && Times(q, m) == q * m;
    TimesGrows(m, p, q);
    assert p * m == smax * p * 0x1_0000;
  }

  /** After scaling every sample lies within 2048, the most negative sample included. */
  lemma ScaledIsSmall(s: seq<word>, i: nat)
    requires i < |s|
    ensures -2048 <= ScaledSample(s[i], ScalAuto(MaxAbs(s, |s|))) <= 2048
  {
    var smax := MaxAbs(s, |s|);
    var n := ScalAuto(smax);
    hide ScalAuto, MaxAbs;
    ScalAutoBound(smax);
    assert GsmAbs(s[i]) <= smax;
    if s[i] == MIN_WORD {
      assert smax == 32767 && n == 4;
    }
    RoundedDivision(s[i], n);
  }

  /** Multiplying by the factor divides by 2^n and rounds. */
  lemma RoundedDivision(x: word, n: int)
    ensures n == 1 ==> ScaledSample(x, n) == (x + 1) / 2
    ensures n == 2 ==> ScaledSample(x, n) == (x + 2) / 4
    ensures n == 3 ==> ScaledSample(x, n) == (x + 4) / 8
    ensures n == 4 ==> ScaledSample(x, n) == (x + 8) / 16
  {
  }

  /** Rescaling gives a sample back to within half a unit of 2^n exactly when it is below 32760. A larger one forces the
    * coarsest scaling and rounds up to 2^15, which a 16-bit word turns into -2^15. */
  lemma RescalingIsExactlyRounding(s: seq<word>, i: nat)
    requires i < |s|
    ensures var n := ScalAuto(MaxAbs(s, |s|)); var half := if n >= 1 then P2(n) / 2 else 0;
            -half <= RescaledSample(s[i], n) - s[i] <= half <==> s[i] < 32760
  {
    var n := ScalAuto(MaxAbs(s, |s|));
    assert P2(1) == 2 && P2(2) == 4 && P2(3) == 8 && P2(4) == 16;
    ScaledIsSmall(s, i);
    ScalAutoBound(MaxAbs(s, |s|));
    RescaleOne(s[i], MaxAbs(s, |s|), n);
  }

  lemma RescaleOne(x: word, smax: int, n: int)
    requires GsmAbs(x) <= smax && n <= 4 && -2048 <= ScaledSample(x, n) <= 2048
    requires n == 1 ==> smax < 4096
    requires n == 2 ==> smax < 8192
    requires n == 3 ==> smax < 16384
    requires n <= 0 ==> smax < 2048
    requires P2(1) == 2 && P2(2) == 4 && P2(3) == 8 && P2(4) == 16
    ensures var half := if n >= 1 then P2(n) / 2 else 0;
            -half <= RescaledSample(x, n) - x <= half <==> x < 32760
  {
    RoundedDivision(x, n);
    hide ScaledSample, P2;
  }

  /** Small samples: every correlation sum over at most 160 products stays far inside 32 bits. */
  ghost predicate Small(s: seq<word>) {
    |s| == FRAME && forall i | 0 <= i < FRAME :: -2048 <= s[i] <= 2048
  }

  lemma ProductBound(a: int, b: int)
    requires -2048 <= a <= 2048 && -2048 <= b <= 2048
    ensures -4194304 <= a * b <= 4194304
  {
    Corner(a, b);
    Corner(0 - a, 0 - b);
    Corner(a, 0 - b);
    Corner(0 - a, b);
    TimesMinus(a, b);
    assert Times(a, b) == a * b;
    hide Times;
  }

  /** The product of two distances from the bound is not negative. */
  lemma Corner(a: int, b: int)
    requires a <= 2048 && b <= 2048
    ensures Times(a, b) >= 2048 * a + 2048 * b - 4194304
  {
    Grows(2048 - b, a, 2048);
    assert a * (2048 - b) == 2048 * a - a * b;
  }

  lemma TimesMinus(a: int, b: int)
    ensures Times(0 - a, 0 - b) == Times(a, b) && Times(a, 0 - b) == 0 - Times(a, b)
            && Times(0 - a, b) == 0 - Times(a, b)
  {
  }

  lemma {:induction false} CorrelationBound(s: seq<word>, k: nat, n: nat)
    requires Small(s) && n <= FRAME
    ensures -4194304 * n <= Correlation(s, k, n) <= 4194304 * n
  {
    if n > k {
      CorrelationBound(s, k, n - 1);
      ProductBound(s[n - 1], s[n - 1 - k]);
    }
  }

  lemma {:induction false} EnergyGrows(s: seq<word>, m: nat, n: nat)
    requires m <= n <= |s|
    ensures 0 <= Correlation(s, 0, m) <= Correlation(s, 0, n)
    decreases n
  {
    if m < n {
      EnergyGrows(s, m, n - 1);
      SquareIsPositive(s[n - 1]);
    } else if n > 0 {
      EnergyGrows(s, n - 1, n - 1);
      SquareIsPositive(s[n - 1]);
    }
  }

  lemma SquareIsPositive(x: int)
    ensures x * x >= 0
  {
  }

  /** Cauchy and Schwarz, product by product: twice a product is at most the sum of the squares. */
  lemma {:induction false} TwiceCorrelation(s: seq<word>, k: nat, n: nat)
    requires k <= n <= |s|
    ensures -(Correlation(s, 0, n) + Correlation(s, 0, n - k)) <= 2 * Correlation(s, k, n)
    ensures 2 * Correlation(s, k, n) <= Correlation(s, 0, n) + Correlation(s, 0, n - k)
    decreases n
  {
    if n == k {
      EnergyGrows(s, 0, n);
    } else {
      TwiceCorrelation(s, k, n - 1);
      TwiceProduct(s[n - 1], s[n - 1 - k]);
      assert Correlation(s, 0, n - k) == Correlation(s, 0, n - 1 - k) + Product(s[n - 1 - k], s[n - 1 - k]);
    }
  }

  lemma TwiceProduct(a: int, b: int)
    ensures -(a * a + b * b) <= 2 * (a * b) <= a * a + b * b
  {
    SquareIsPositive(a - b);
    SquareIsPositive(a + b);
    assert (a - b) * (a - b) == a * a - 2 * (a * b) + b * b;
    assert (a + b) * (a + b) == a * a + 2 * (a * b) + b * b;
  }

  /** No lag correlates more strongly than the signal with itself. */
  lemma LagZeroIsLargest(s: seq<word>, k: nat)
    requires k <= |s|
    ensures -Correlation(s, 0, |s|) <= Correlation(s, k, |s|) <= Correlation(s, 0, |s|)
  {
    TwiceCorrelation(s, k, |s|);
    EnergyGrows(s, |s| - k, |s|);
  }

  /** The products of sample i have been added for all lags below k, those of earlier samples for all lags. */
  ghost predicate Added(s: seq<word>, lacf: seq<int>, i: nat, k: nat) {
    && Small(s) && i < FRAME && |lacf| == 9
    && forall j: nat | j < 9 :: lacf[j] == Correlation(s, j, if j < k then i + 1 else i)
  }

  lemma NothingAdded(s: seq<word>, lacf: seq<int>)
    requires Small(s) && |lacf| == 9 && forall j | 0 <= j < 9 :: lacf[j] == 0
    ensures Added(s, lacf, 0, 0)
  {
  }

  lemma OneAdded(s: seq<word>, lacf: seq<int>, i: nat, k: nat)
    requires Added(s, lacf, i, k) && k <= i && k < 9 && i < |s| && |lacf| == 9
    ensures -0x8000_0000 <= lacf[k] + Product(s[i], s[i - k]) < 0x8000_0000
    ensures Added(s, lacf[k := lacf[k] + Product(s[i], s[i - k])], i, k + 1)
  {
    assert Correlation(s, k, i + 1) == Correlation(s, k, i) + Product(s[i], s[i - k]);
    CorrelationBound(s, k, i + 1);
  }

  /** All lags that reach back from sample i have had their product; on to the next sample. */
  lemma NextSample(s: seq<word>, lacf: seq<int>, i: nat, k: nat)
    requires Added(s, lacf, i, k) && (k == i + 1 || k == 9) && i + 1 < FRAME
    ensures Added(s, lacf, i + 1, 0)
  {
  }

  lemma AllAdded(s: seq<word>, lacf: seq<int>)
    requires Added(s, lacf, FRAME - 1, 9)
    ensures |lacf| == 9 && |s| == FRAME
    ensures forall j: nat | j < 9 :: lacf[j] == Correlation(s, j, FRAME) && -0x4000_0000 <= lacf[j] < 0x4000_0000
  {
    forall j: nat | j < 9
      ensures -0x4000_0000 <= lacf[j] < 0x4000_0000
    {
      CorrelationBound(s, j, FRAME);
    }
  }

  /** STEP(k) at sample i. */
  method Step(s: array<word>, lacf: array<int>, i: nat, k: nat)
    requires s.Length == FRAME && lacf.Length == 9 && k <= i < FRAME && k < 9 && Added(s[..], lacf[..], i, k)
    modifies lacf
    ensures Added(s[..], lacf[..], i, k + 1)
  {
    hide Added;
    OneAdded(s[..], lacf[..], i, k);
    ghost var before := lacf[..];
    lacf[k] := Wrap32(lacf[k] + Product(s[i], s[i - k]));
    assert lacf[..] == before[k := before[k] + Product(s[i], s[i - k])];
  }

  /** The hand-unrolled first eight samples. */
  method Prologue(s: array<word>, lacf: array<int>)
    requires s.Length == FRAME && lacf.Length == 9 && Added(s[..], lacf[..], 0, 0)
    modifies lacf
    ensures Added(s[..], lacf[..], 7, 8)
  {
    hide Added;
    Step(s, lacf, 0, 0);
    NextSample(s[..], lacf[..], 0, 1);
    Step(s, lacf, 1, 0);
    Step(s, lacf, 1, 1);
    NextSample(s[..], lacf[..], 1, 2);
    Step(s, lacf, 2, 0);
    Step(s, lacf, 2, 1);
    Step(s, lacf, 2, 2);
    NextSample(s[..], lacf[..], 2, 3);
    Step(s, lacf, 3, 0);
    Step(s, lacf, 3, 1);
    Step(s, lacf, 3, 2);
    Step(s, lacf, 3, 3);
    NextSample(s[..], lacf[..], 3, 4);
    Step(s, lacf, 4, 0);
    Step(s, lacf, 4, 1);
    Step(s, lacf, 4, 2);
    Step(s, lacf, 4, 3);
    Step(s, lacf, 4, 4);
    NextSample(s[..], lacf[..], 4, 5);
    Step(s, lacf, 5, 0);
    Step(s, lacf, 5, 1);
    Step(s, lacf, 5, 2);
    Step(s, lacf, 5, 3);
    Step(s, lacf, 5, 4);
    Step(s, lacf, 5, 5);
    NextSample(s[..], lacf[..], 5, 6);
    Step(s, lacf, 6, 0);
    Step(s, lacf, 6, 1);
    Step(s, lacf, 6, 2);
    Step(s, lacf, 6, 3);
    Step(s, lacf, 6, 4);
    Step(s, lacf, 6, 5);
    Step(s, lacf, 6, 6);
    NextSample(s[..], lacf[..], 6, 7);
    Step(s, lacf, 7, 0);
    Step(s, lacf, 7, 1);
    Step(s, lacf, 7, 2);
    Step(s, lacf, 7, 3);
    Step(s, lacf, 7, 4);
    Step(s, lacf, 7, 5);
    Step(s, lacf, 7, 6);
    Step(s, lacf, 7, 7);
  }

  /** The remaining samples, nine lags each. */
  method MainLoop(s: array<word>, lacf: array<int>)
    requires s.Length == FRAME && lacf.Length == 9 && Added(s[..], lacf[..], 7, 8)
    modifies lacf
    ensures Added(s[..], lacf[..], FRAME - 1, 9)
  {
    hide Added;
    ghost var lags := 8;
    var i := 8;
    while i <= 159
      invariant 8 <= i <= 160 && lags == (if i == 8 then 8 else 9) && Added(s[..], lacf[..], i - 1, lags)
    {
      NextSample(s[..], lacf[..], i - 1, lags);
      Step(s, lacf, i, 0);
      Step(s, lacf, i, 1);
      Step(s, lacf, i, 2);
      Step(s, lacf, i, 3);
      Step(s, lacf, i, 4);
      Step(s, lacf, i, 5);
      Step(s, lacf, i, 6);
      Step(s, lacf, i, 7);
      Step(s, lacf, i, 8);
      lags := 9;
      i := i + 1;
    }
  }

  /** The largest magnitude of the frame. */
  method FindMaximum(s: array<word>) returns (smax: word)
    requires s.Length == FRAME
    ensures smax == MaxAbs(s[..], FRAME)
  {
    smax := 0;
    var k := 0;
    while k <= 159
      invariant k <= 160 && smax == MaxAbs(s[..], k)
    {
      var temp := GsmAbs(s[k]);
      if temp > smax {
        smax := temp;
      }
      k := k + 1;
    }
  }

  method ScaleSamples(s: array<word>, n: int)
    requires s.Length == FRAME && 1 <= n <= 4
    modifies s
    ensures s[..] == Scaled(old(s[..]), n)
  {
    hide GsmMultR;
    var k := 0;
    while k <= 159
      invariant k <= 160 && forall i | 0 <= i < 160 :: s[i] == if i < k then ScaledSample(old(s[i]), n) else old(s[i])
    {
      s[k] := GsmMultR(s[k], Factor(n));
      k := k + 1;
    }
  }

  /** Shifts the scaled samples back, within 16 bits. */
  method RescaleSamples(s: array<word>, ghost original: seq<word>, scalauto: int)
    requires s.Length == FRAME && |original| == FRAME && 1 <= scalauto <= 4 && s[..] == Scaled(original, scalauto)
    modifies s
    ensures forall i | 0 <= i < FRAME :: s[i] == RescaledSample(original[i], scalauto)
  {
    hide ScaledSample, Wrap16, P2;
    var i, k := 0, 159;
    while k >= 0
      invariant -1 <= k <= 159 && i == 159 - k
      invariant forall j | 0 <= j < 160 ::
        s[j] == if j < i then RescaledSample(original[j], scalauto) else ScaledSample(original[j], scalauto)
    {
      s[i] := Wrap16(s[i] * P2(scalauto));
      i, k := i + 1, k - 1;
    }
  }

  method DoubleAll(lacf: array<int>)
    requires lacf.Length == 9 && forall j | 0 <= j < 9 :: -0x4000_0000 <= lacf[j] < 0x4000_0000
    modifies lacf
    ensures forall j | 0 <= j < 9 :: lacf[j] == 2 * old(lacf[j])
  {
    var k := 8;
    while k >= 0
      invariant -1 <= k <= 8 && forall j | 0 <= j < 9 :: lacf[j] == if j > k then 2 * old(lacf[j]) else old(lacf[j])
    {
      lacf[k] := Wrap32(lacf[k] * 2);
      k := k - 1;
    }
  }

  lemma ScaledFrameIsSmall(s: seq<word>)
    requires |s| == FRAME
    ensures Small(Scaled(s, ScalAuto(MaxAbs(s, FRAME))))
  {
    hide ScaledSample, ScalAuto, MaxAbs;
    forall i | 0 <= i < FRAME
      ensures -2048 <= ScaledSample(s[i], ScalAuto(MaxAbs(s, FRAME))) <= 2048
    {
      ScaledIsSmall(s, i);
    }
  }

  /** The nine autocorrelations of a frame. Each is exactly twice the correlation sum of the scaled samples, lag zero
    * is the largest, and the samples are left rounded to the scaling. */
  method Autocorrelation(s: array<word>, lacf: array<int>)
    requires s.Length == FRAME && lacf.Length == 9
    modifies s, lacf
    ensures var n := ScalAuto(MaxAbs(old(s[..]), FRAME));
            && (forall k: nat | k < 9 :: lacf[k] == 2 * Correlation(Scaled(old(s[..]), n), k, FRAME))
            && (forall k: nat | k < 9 :: -lacf[0] <= lacf[k] <= lacf[0] < 0x8000_0000)
            && (forall i | 0 <= i < FRAME :: s[i] == RescaledSample(old(s[i]), n))
  {
    hide Added, Small, Correlation, Scaled, ScaledSample, MaxAbs, GsmNorm;
    ghost var original := s[..];
    var smax := FindMaximum(s);
    var scalauto := if smax == 0 then 0 else 4 - GsmNorm((smax as int) * 0x1_0000);
    ScalAutoBound(smax);
    ScaledFrameIsSmall(original);
    Unscaled(original, scalauto);
    if 0 < scalauto <= 4 {
      ScaleSamples(s, scalauto);
    }
    ghost var scaled := s[..];
    var k := 8;
    while k >= 0
      invariant -1 <= k <= 8 && s[..] == scaled && forall j | k < j < 9 :: lacf[j] == 0
    {
      lacf[k] := 0;
      k := k - 1;
    }
    NothingAdded(s[..], lacf[..]);
    Prologue(s, lacf);
    MainLoop(s, lacf);
    AllAdded(s[..], lacf[..]);
    DoubleAll(lacf);
    Largest(scaled, lacf[..]);
    if scalauto > 0 {
      RescaleSamples(s, original, scalauto);
    }
  }

  lemma Unscaled(s: seq<word>, n: int)
    ensures n <= 0 ==> Scaled(s, n) == s && forall i | 0 <= i < |s| :: RescaledSample(s[i], n) == s[i]
  {
  }

  lemma Largest(s: seq<word>, lacf: seq<int>)
    requires |s| == FRAME && |lacf| == 9 && forall j: nat | j < 9 :: lacf[j] == 2 * Correlation(s, j, FRAME)
    ensures forall k: nat | k < 9 :: -lacf[0] <= lacf[k] <= lacf[0]
  {
    forall k: nat | k < 9
      ensures -lacf[0] <= lacf[k] <= lacf[0]
    {
      LagZeroIsLargest(s, k);
    }
  }
}
