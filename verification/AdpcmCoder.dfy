/** The G.722 encoder and decoder over their shared sub-band predictor, and whole runs of both. */
module AdpcmCoder {
  import opened Arith
  import opened AdpcmTables
  import opened AdpcmBand

  /** abs: the one int without a positive counterpart stays as it is. */
  function Abs(n: int): int {
    if n >= 0 then n else Wrap32(-n)
  }

  function Level(mil: nat, detl: int): int
    requires mil < 30
  {
    DECIS_LEVL[mil] * detl / 32768
  }

  /** The first decision level from mil on that wd does not exceed, or 30. */
  function FirstLevel(wd: int, detl: int, mil: nat): (r: nat)
    requires mil <= 30
    ensures mil <= r <= 30 && (r < 30 ==> wd <= Level(r, detl))
    ensures forall k | mil <= k < r :: wd > Level(k, detl)
    decreases 30 - mil
  {
    if mil == 30 || wd <= Level(mil, detl) then mil else FirstLevel(wd, detl, mil + 1)
  }

  function LowCode(el: int, detl: int): int {
    var mil := FirstLevel(Abs(el), detl, 0);
    if el >= 0 then QUANT26BT_POS[mil] else QUANT26BT_NEG[mil]
  }

  function HighCode(eh: int, deth: int): (ih: int)
    ensures 0 <= ih < 4
  {
    (if eh >= 0 then 3 else 1) - (if Abs(eh) > Wrap32(564 * deth / 4096) then 1 else 0)
  }

  lemma LowCodeInRange(el: int, detl: int)
    ensures 4 <= LowCode(el, detl) < 64
  {
    var mil := FirstLevel(Abs(el), detl, 0);
    QuantTables(mil);
    hide FirstLevel;
  }

  lemma QuantTables(mil: nat)
    requires mil <= 30
    ensures 32 <= QUANT26BT_POS[mil] <= 61 && 4 <= QUANT26BT_NEG[mil] <= 63
  {
  }

  method Quantl(el: int, detl: int) returns (ril: int)
    ensures ril == LowCode(el, detl)
  {
    var wd := Abs(el);
    var mil := 0;
    while mil < 30
      invariant mil <= 30 && FirstLevel(wd, detl, 0) == FirstLevel(wd, detl, mil)
    {
      var decis := DECIS_LEVL[mil] * detl / 32768;
      if wd <= decis {
        break;
      }
      mil := mil + 1;
    }
    if el >= 0 {
      ril := QUANT26BT_POS[mil];
    } else {
      ril := QUANT26BT_NEG[mil];
    }
  }

  /** Products of every second filter tap from p on, n of them. */
  function Taps(t: seq<int>, p: nat, n: nat): int
    requires p <= 1 && 2 * n <= 24 && |t| == 24
  {
    if n == 0 then 0 else Taps(t, p, n - 1) + t[2 * n - 2 + p] * H[2 * n - 2 + p]
  }

  /** The encoder: transmit filter delay line and both bands. */
  datatype Encoder = Encoder(tqmf: seq<int>, low: Band, high: Band) {
    ghost predicate Valid() {
      |tqmf| == 24 && low.Valid() && high.Valid()
    }
  }

  function LowSample(t: seq<int>): int
    requires |t| == 24
  {
    Wrap32((Taps(t, 0, 12) + Taps(t, 1, 12)) / 32768)
  }

  function HighSample(t: seq<int>): int
    requires |t| == 24
  {
    Wrap32((Taps(t, 0, 12) - Taps(t, 1, 12)) / 32768)
  }

  function LowIndex(e: Encoder): (il: int)
    requires e.Valid()
    ensures 0 <= il < 64
  {
    LowCodeInRange(Wrap32(LowSample(e.tqmf) - Prediction(e.low)), e.low.det);
    LowCode(Wrap32(LowSample(e.tqmf) - Prediction(e.low)), e.low.det)
  }

  function HighIndex(e: Encoder): (ih: int)
    requires e.Valid()
    ensures 0 <= ih < 4
  {
    HighCode(Wrap32(HighSample(e.tqmf) - Prediction(e.high)), e.high.det)
  }

  /** One pair of samples encoded. */
  function EncodeStep(e: Encoder, xin1: int, xin2: int): (r: (Encoder, byte))
    requires e.Valid()
    ensures r.0.Valid()
  {
    var (il, ih) := (LowIndex(e), HighIndex(e));
    (Encoder([xin2, xin1] + e.tqmf[..22], LowStep(e.low, il), HighStep(e.high, ih)), il + ih * 64)
  }

  /** The decoder's bands after one code. */
  function DecodeBands(low: Band, high: Band, code: byte): (r: (Band, Band))
    requires low.Valid() && high.Valid()
    ensures r.0.Valid() && r.1.Valid()
  {
    (LowStep(low, code % 64), HighStep(high, code / 64))
  }

  function Started(): (e: Encoder)
    ensures e.Valid()
  {
    Encoder(seq(24, i => 0), Initial(32), Initial(8))
  }

  /** The encoder after the first n pairs, from reset, and the codes it produced. */
  function Encoded(samples: seq<(int, int)>, n: nat): (e: Encoder)
    requires n <= |samples|
    ensures e.Valid()
  {
    if n == 0 then Started() else EncodeStep(Encoded(samples, n - 1), samples[n - 1].0, samples[n - 1].1).0
  }

  function Code(samples: seq<(int, int)>, n: nat): byte
    requires n < |samples|
  {
    EncodeStep(Encoded(samples, n), samples[n].0, samples[n].1).1
  }

  /** The decoder's bands after the first n codes, from reset. */
  function Decoded(codes: seq<byte>, n: nat): (r: (Band, Band))
    requires n <= |codes|
    ensures r.0.Valid() && r.1.Valid()
  {
    if n == 0 then (Initial(32), Initial(8))
      else DecodeBands(Decoded(codes, n - 1).0, Decoded(codes, n - 1).1, codes[n - 1])
  }

  /** The two band codes come back from the multiplexed word. */
  lemma CodesRecovered(e: Encoder, xin1: int, xin2: int)
    requires e.Valid()
    ensures EncodeStep(e, xin1, xin2).1 % 64 == LowIndex(e) && EncodeStep(e, xin1, xin2).1 / 64 == HighIndex(e)
  {
    hide LowIndex, HighIndex, LowStep, HighStep;
  }

  /** After any number of pairs the decoder's predictor state in both bands equals the encoder's. */
  lemma {:induction false} Lockstep(samples: seq<(int, int)>, codes: seq<byte>, n: nat)
    requires n <= |samples| && |codes| == |samples|
    requires forall k | 0 <= k < |codes| :: codes[k] == Code(samples, k)
    ensures Decoded(codes, n) == (Encoded(samples, n).low, Encoded(samples, n).high)
  {
    hide LowIndex, HighIndex, LowStep, HighStep;
    if n > 0 {
      Lockstep(samples, codes, n - 1);
      var e := Encoded(samples, n - 1);
      CodesRecovered(e, samples[n - 1].0, samples[n - 1].1);
      assert codes[n - 1] == Code(samples, n - 1);
    }
  }

  /** Both bands stay stable over every run of the encoder. */
  lemma {:induction false} EncoderIsStable(samples: seq<(int, int)>, n: nat)
    requires n <= |samples|
    ensures Stable(Encoded(samples, n).low, 8, 18432) && Stable(Encoded(samples, n).high, 10, 22528)
  {
    hide Stable, LowStep, HighStep, LowIndex, HighIndex;
    if n == 0 {
      InitialIsStable();
    } else {
      EncoderIsStable(samples, n - 1);
      var e := Encoded(samples, n - 1);
      LowStepIsStable(e.low, LowIndex(e));
      HighStepIsStable(e.high, HighIndex(e));
    }
  }

  /** The decoder stays stable on every code sequence, whoever produced it. */
  lemma {:induction false} DecoderIsStable(codes: seq<byte>, n: nat)
    requires n <= |codes|
    ensures Stable(Decoded(codes, n).0, 8, 18432) && Stable(Decoded(codes, n).1, 10, 22528)
  {
    hide Stable, LowStep, HighStep;
    if n == 0 {
      InitialIsStable();
    } else {
      DecoderIsStable(codes, n - 1);
      var (low, high) := Decoded(codes, n - 1);
      LowStepIsStable(low, codes[n - 1] % 64);
      HighStepIsStable(high, codes[n - 1] / 64);
    }
  }

  /** The receive filter over the newest value and the eleven delayed ones. */
  function Received(newest: int, t: seq<int>, p: nat, n: nat): int
    requires p <= 1 && n <= 11 && |t| == 11
  {
    if n == 0 then newest * H[p] else Received(newest, t, p, n - 1) + t[n - 1] * H[2 * n + p]
  }

  /** The decoder's reconstructed difference for its output. It is looked up with the encoder's last code il. */
  function OutputDifference(det: int, il: int): int
    requires 0 <= il < 64
  {
    Wrap32(det * QQ6_CODE6_TABLE[il] / 32768)
  }

  /** The reconstructed lower-band sample of a decoder in state low whose output difference is looked up with code
    * il. */
  function Reconstruction(low: Band, il: int): int
    requires low.Valid() && 0 <= il < 64
  {
    Wrap32(OutputDifference(low.det, il) + Prediction(low))
  }

  /** The output entries rise from code 4 to 31 and fall from 32 to 61, by at least two each time. */
  lemma RisingStep(i: nat)
    requires 5 <= i < 32
    ensures QQ6_CODE6_TABLE[i - 1] + 2 <= QQ6_CODE6_TABLE[i]
  {
    if i < 18 {
      FirstRow(i);
    } else {
      SecondRow(i);
    }
  }

  lemma FirstRow(i: nat)
    requires 5 <= i < 18
    ensures QQ6_CODE6_TABLE[i - 1] + 2 <= QQ6_CODE6_TABLE[i]
  {
    match i {
      case 5 => case 6 => case 7 => case 8 => case 9 => case 10 => case 11 => case 12 => case 13 =>
      case 14 => case 15 => case 16 => case 17 =>
    }
  }

  lemma SecondRow(i: nat)
    requires 18 <= i < 32
    ensures QQ6_CODE6_TABLE[i - 1] + 2 <= QQ6_CODE6_TABLE[i]
  {
    match i {
      case 18 => case 19 => case 20 => case 21 => case 22 => case 23 => case 24 => case 25 => case 26 =>
      case 27 => case 28 => case 29 => case 30 => case 31 =>
    }
  }

  lemma FallingStep(i: nat)
    requires 33 <= i < 62
    ensures QQ6_CODE6_TABLE[i] + 2 <= QQ6_CODE6_TABLE[i - 1]
  {
    if i < 48 {
      ThirdRow(i);
    } else {
      FourthRow(i);
    }
  }

  lemma ThirdRow(i: nat)
    requires 33 <= i < 48
    ensures QQ6_CODE6_TABLE[i] + 2 <= QQ6_CODE6_TABLE[i - 1]
  {
    match i {
      case 33 => case 34 => case 35 => case 36 => case 37 => case 38 => case 39 => case 40 => case 41 =>
      case 42 => case 43 => case 44 => case 45 => case 46 => case 47 =>
    }
  }

  lemma FourthRow(i: nat)
    requires 48 <= i < 62
    ensures QQ6_CODE6_TABLE[i] + 2 <= QQ6_CODE6_TABLE[i - 1]
  {
    match i {
      case 48 => case 49 => case 50 => case 51 => case 52 => case 53 => case 54 => case 55 => case 56 =>
      case 57 => case 58 => case 59 => case 60 => case 61 =>
    }
  }

  lemma {:induction false} Rising(i: nat, j: nat)
    requires 4 <= i <= j < 32
    ensures QQ6_CODE6_TABLE[i] + 2 * (j - i) <= QQ6_CODE6_TABLE[j]
  {
    if i < j {
      RisingStep(j);
      Rising(i, j - 1);
    }
  }

  lemma {:induction false} Falling(i: nat, j: nat)
    requires 32 <= i <= j < 62
    ensures QQ6_CODE6_TABLE[j] + 2 * (j - i) <= QQ6_CODE6_TABLE[i]
  {
    if i < j {
      FallingStep(j);
      Falling(i, j - 1);
    }
  }

  /** The entries outside the two runs, and their ends. */
  lemma OutputEnds()
    ensures forall i | 0 <= i < 4 :: QQ6_CODE6_TABLE[i] == -136
    ensures QQ6_CODE6_TABLE[4] == -24808 && QQ6_CODE6_TABLE[31] == -728
    ensures QQ6_CODE6_TABLE[32] == 24808 && QQ6_CODE6_TABLE[61] == 136
    ensures QQ6_CODE6_TABLE[62] == -432 && QQ6_CODE6_TABLE[63] == -136
  {
  }

  lemma OutputRange(i: nat)
    requires i < 64
    ensures -24808 <= QQ6_CODE6_TABLE[i] <= 24808
    ensures 4 <= i < 32 ==> QQ6_CODE6_TABLE[i] <= -728
    ensures 32 <= i < 62 ==> QQ6_CODE6_TABLE[i] >= 136
  {
    OutputEnds();
    if 4 <= i < 32 {
      Rising(4, i);
      Rising(i, 31);
    } else if 32 <= i < 62 {
      Falling(32, i);
      Falling(i, 61);
    }
  }

  /** Two different codes an encoder can produce have output entries at least two apart. */
  lemma OutputEntriesDiffer(i: nat, j: nat)
    requires 4 <= i < j < 64
    ensures QQ6_CODE6_TABLE[i] + 2 <= QQ6_CODE6_TABLE[j] || QQ6_CODE6_TABLE[j] + 2 <= QQ6_CODE6_TABLE[i]
  {
    OutputEnds();
    OutputRange(i);
    OutputRange(j);
    if j < 32 {
      Rising(i, j);
    } else if 32 <= i && j < 62 {
      Falling(i, j);
    }
  }

  /** At the largest scale factor the output difference is half the entry. */
  lemma LargestDifference(i: nat)
    requires i < 64
    ensures OutputDifference(16384, i) == QQ6_CODE6_TABLE[i] / 2
  {
    OutputRange(i);
  }

  /** The codes whose output entry is the smallest negative one: 63, and 0 to 3, which no encoder produces. */
  predicate Faintest(i: nat) {
    i < 4 || i == 63
  }

  lemma FaintestEntry(i: nat)
    requires Faintest(i)
    ensures QQ6_CODE6_TABLE[i] == QQ6_CODE6_TABLE[63]
  {
    match i { case 0 => case 1 => case 2 => case 3 => case 63 => }
  }

  /** Entries of different codes differ by two at least, those of the faintest codes apart. */
  lemma EntriesDiffer(i: nat, j: nat)
    requires i < 64 && j < 64 && i != j && !(Faintest(i) && Faintest(j))
    ensures QQ6_CODE6_TABLE[i] + 2 <= QQ6_CODE6_TABLE[j] || QQ6_CODE6_TABLE[j] + 2 <= QQ6_CODE6_TABLE[i]
  {
    if i < 4 {
      FaintestEntry(i);
    }
    if j < 4 {
      FaintestEntry(j);
    }
    var (x, y) := (if i < 4 then 63 else i, if j < 4 then 63 else j);
    if x < y {
      OutputEntriesDiffer(x, y);
    } else {
      OutputEntriesDiffer(y, x);
    }
  }

  /** Looking the output difference up with code il instead of the received code ilr is right for every scale factor
    * of the decoder exactly when both have the same entry: when they are the same code, or both among the faintest. */
  lemma OutputIsRightExactlyFor(il: nat, ilr: nat)
    requires il < 64 && ilr < 64
    ensures (forall det | 32 <= det <= 16384 :: OutputDifference(det, il) == OutputDifference(det, ilr)) <==>
              QQ6_CODE6_TABLE[il] == QQ6_CODE6_TABLE[ilr]
    ensures QQ6_CODE6_TABLE[il] == QQ6_CODE6_TABLE[ilr] <==> il == ilr || (Faintest(il) && Faintest(ilr))
  {
    LargestDifference(il);
    LargestDifference(ilr);
    if il != ilr {
      if Faintest(il) && Faintest(ilr) {
        FaintestEntry(il);
        FaintestEntry(ilr);
      } else {
        EntriesDiffer(il, ilr);
        hide OutputDifference;
        var det := 16384;
        assert OutputDifference(det, il) != OutputDifference(det, ilr);
      }
    }
  }

  /** The reconstructed sample inherits the difference: it is right exactly when the output difference is. */
  lemma ReconstructionFollows(low: Band, il: nat, ilr: nat)
    requires low.Valid() && il < 64 && ilr < 64
    ensures Reconstruction(low, il) == Reconstruction(low, ilr)
            <==> OutputDifference(low.det, il) == OutputDifference(low.det, ilr)
  {
    hide *;
    ReconstructionIs(low, il);
    ReconstructionIs(low, ilr);
    DifferenceRange(low.det, il);
    DifferenceRange(low.det, ilr);
    WrapInjective(OutputDifference(low.det, il), OutputDifference(low.det, ilr), Prediction(low));
  }

  lemma ReconstructionIs(low: Band, il: nat)
    requires low.Valid() && il < 64
    ensures Reconstruction(low, il) == Wrap32(OutputDifference(low.det, il) + Prediction(low))
  {
  }

  lemma DifferenceRange(det: int, i: nat)
    requires i < 64
    ensures -0x8000_0000 <= OutputDifference(det, i) < 0x8000_0000
  {
  }

  lemma WrapInjective(x: int, y: int, p: int)
    requires -0x8000_0000 <= x < 0x8000_0000 && -0x8000_0000 <= y < 0x8000_0000
    ensures Wrap32(x + p) == Wrap32(y + p) <==> x == y
  {
  }

  /** A delay line that is zero but for its two newest entries. */
  lemma {:induction false} NewestTaps(t: seq<int>, p: nat, n: nat)
    requires p <= 1 && 1 <= n && 2 * n <= 24 && |t| == 24 && forall i | 2 <= i < 24 :: t[i] == 0
    ensures Taps(t, p, n) == t[p] * H[p]
  {
    if n > 1 {
      NewestTaps(t, p, n - 1);
    } else {
      assert Taps(t, p, 0) == 0;
    }
  }

  /** Silence without a prediction is code 61 at every scale factor. */
  lemma SilentIndex(e: Encoder)
    requires e.Valid() && Prediction(e.low) == 0 && e.low.det >= 0 && forall i | 0 <= i < 24 :: e.tqmf[i] == 0
    ensures LowIndex(e) == 61
  {
    hide Prediction, FirstLevel, LowCode;
    NewestTaps(e.tqmf, 0, 12);
    NewestTaps(e.tqmf, 1, 12);
    assert LowSample(e.tqmf) == 0;
    ZeroCode(0, e.low.det);
  }

  lemma ZeroCode(el: int, det: int)
    requires el == 0 && det >= 0
    ensures LowCode(el, det) == 61
  {
    assert DECIS_LEVL[0] == 280 && QUANT26BT_POS[0] == 61;
  }

  lemma NoPrediction(b: Band)
    requires b.Valid() && b.r1 == b.r2 == 0 && forall i | 0 <= i < 6 :: b.bpl[i] == 0
    ensures ZeroPart(b) == 0 && Prediction(b) == 0
  {
    NoDot(b.bpl, b.dltx, 6);
  }

  lemma {:induction false} NoDot(bpl: seq<int>, dlt: seq<int>, n: nat)
    requires n <= |bpl| && n <= |dlt| && forall i | 0 <= i < n :: bpl[i] == 0
    ensures Dot(bpl, dlt, n) == 0
  {
    if n > 0 {
      NoDot(bpl, dlt, n - 1);
    }
  }

  /** A band that predicts nothing still predicts nothing after code 61, and its scale factor stays at the lowest. */
  lemma BandAfterSilence(b: Band, il: nat)
    requires b.Valid() && b.nb == 0 && b.det == 32 && b.r1 == b.r2 == 0 && il == 61
    requires forall i | 0 <= i < 6 :: b.bpl[i] == 0
    ensures LowStep(b, il).det == 32 && Prediction(LowStep(b, il)) == 0
  {
    hide Prediction, LowDifference, Logscl, Scalel, Uppol1, Uppol2, ZeroPart, Wrap32;
    NoPrediction(b);
    LeastStep(b.det, il, b.nb);
    WrapZero();
    NoPrediction(LowStep(b, il));
  }

  lemma WrapZero()
    ensures Wrap32(0) == 0
  {
  }

  lemma LeastStep(det: int, il: nat, nb: int)
    requires il == 61 && nb == 0
    ensures LowDifference(det, il) == 0 && Logscl(il, nb) == 0 && Scalel(nb, 8) == 32
  {
    hide LowDifference, Scalel, P2;
    LeastDifference(det, il);
    LeastScale(nb);
    assert WL_CODE_TABLE[15] == -60;
  }

  lemma LeastDifference(det: int, il: nat)
    requires il == 61
    ensures LowDifference(det, il) == 0
  {
    assert QQ4_CODE4_TABLE[il / 4] == 0;
  }

  lemma LeastScale(nb: int)
    requires nb == 0
    ensures Scalel(nb, 8) == 32
  {
    assert P2(9) == 512;
    hide P2;
    assert ILB_TABLE[0] == 2048;
  }

  lemma SecondIndex(e: Encoder)
    requires e.Valid() && e.low.det == 32 && Prediction(e.low) == 0
    requires e.tqmf[0] == 0 && e.tqmf[1] == 30000 && forall i | 2 <= i < 24 :: e.tqmf[i] == 0
    ensures LowIndex(e) == 4
  {
    hide Prediction, FirstLevel, LowCode;
    NewestTaps(e.tqmf, 0, 12);
    NewestTaps(e.tqmf, 1, 12);
    assert H[1] == -44;
    assert LowSample(e.tqmf) == -41;
    LoudCode(-41, e.low.det);
  }

  lemma LoudCode(el: int, det: int)
    requires el == -41 && det == 32
    ensures LowCode(el, det) == 4
  {
    hide FirstLevel;
    AboveAllLevels(41, det);
    assert QUANT26BT_NEG[30] == 4;
  }

  lemma AboveAllLevels(wd: int, det: int)
    requires wd == 41 && det == 32
    ensures FirstLevel(wd, det, 0) == 30
  {
    var mil := FirstLevel(wd, det, 0);
    hide FirstLevel;
    if mil < 30 {
      LevelsAreLow(mil, det);
      assert false;
    }
  }

  lemma LevelsAreLow(mil: nat, det: int)
    requires mil < 30 && det == 32
    ensures Level(mil, det) < 32
  {
    LevelsInRange(mil);
  }

  lemma LevelsInRange(mil: nat)
    requires mil < 30
    ensures DECIS_LEVL[mil] <= 32767
  {
  }

  /** The two codes, from any start that predicts nothing. */
  lemma TwoCodes(e: Encoder, loud: int, quiet: int)
    requires e.Valid() && loud == 30000 && quiet == 0 && forall i | 0 <= i < 24 :: e.tqmf[i] == 0
    requires e.low.nb == 0 && e.low.det == 32 && e.low.r1 == e.low.r2 == 0 && forall i | 0 <= i < 6 :: e.low.bpl[i] == 0
    ensures var (f, code) := EncodeStep(e, loud, quiet); code % 64 == 61 && EncodeStep(f, quiet, quiet).1 % 64 == 4
  {
    hide LowIndex, HighIndex, LowStep, HighStep, Prediction;
    NoPrediction(e.low);
    SilentIndex(e);
    BandAfterSilence(e.low, 61);
    CodesRecovered(e, loud, quiet);
    var f := EncodeStep(e, loud, quiet).0;
    SecondIndex(f);
    CodesRecovered(f, quiet, quiet);
  }

  lemma ReconstructedFirst(b: Band, right: nat, wrong: nat)
    requires b.Valid() && b.det == 32 && b.r1 == b.r2 == 0 && (forall i | 0 <= i < 6 :: b.bpl[i] == 0) && right == 61
             && wrong == 4
    ensures Reconstruction(b, right) == 0 && Reconstruction(b, wrong) == -25
  {
    hide Prediction;
    NoPrediction(b);
    assert QQ6_CODE6_TABLE[61] == 136 && QQ6_CODE6_TABLE[4] == -24808;
  }

  /** The decoder's low band after reset. */
  predicate AtReset(low: Band) {
    low == Initial(32)
  }

  lemma StartIsSilent(e: Encoder)
    requires e == Started()
    ensures e.low == Initial(32) && e.low.nb == 0 && e.low.det == 32 && e.low.r1 == e.low.r2 == 0
    ensures (forall i | 0 <= i < 24 :: e.tqmf[i] == 0) && forall i | 0 <= i < 6 :: e.low.bpl[i] == 0
  {
  }

  /** From reset the two pairs are encoded as the low codes 61 and 4, and what a decoder reconstructs first is then
    * -25 with the code that is pending, where the received code means 0. */
  lemma RunGoesWrong(samples: seq<(int, int)>, low: Band)
    requires |samples| == 2 && samples[0] == (30000, 0) && samples[1] == (0, 0)
    requires low.Valid() && AtReset(low)
    ensures Code(samples, 0) % 64 == 61 && Code(samples, 1) % 64 == 4
    ensures Reconstruction(low, 61) == 0 && Reconstruction(low, 4) == -25
  {
    hide EncodeStep, Reconstruction, Started, Initial;
    var e := Encoded(samples, 0);
    StartIsSilent(e);
    assert Encoded(samples, 1) == EncodeStep(e, samples[0].0, samples[0].1).0;
    TwoCodes(e, samples[0].0, samples[0].1);
    ReconstructedFirst(low, 61, 4);
  }

  /** The globals of the coder. */
  class Codec {
    const tqmf: array<int>
    const accumc: array<int>
    const accumd: array<int>
    const low: Predictor
    const high: Predictor
    const decLow: Predictor
    const decHigh: Predictor
    var il: int
    var ih: int
    var xs: int
    var xd: int
    var xout1: int
    var xout2: int

    /** Everything is allocated apart. */
    ghost predicate Valid()
      reads this
    {
      && tqmf.Length == 24 && accumc.Length == 11 && accumd.Length == 11 && 0 <= il < 64
      && low.Valid() && high.Valid() && decLow.Valid() && decHigh.Valid()
      && {this, tqmf} !! {accumc} !! {accumd} !! low.Repr() !! high.Repr() !! decLow.Repr() !! decHigh.Repr()
    }

    ghost function EncoderView(): (e: Encoder)
      requires Valid()
      reads this, tqmf, low.Repr(), high.Repr()
      ensures e.Valid()
    {
      Encoder(tqmf[..], low.View(), high.View())
    }

    ghost function DecoderView(): (r: (Band, Band))
      requires Valid()
      reads this, decLow.Repr(), decHigh.Repr()
      ensures r.0.Valid() && r.1.Valid()
    {
      (decLow.View(), decHigh.View())
    }

    constructor ()
      ensures Valid() && fresh(tqmf) && fresh(accumc) && fresh(accumd)
      ensures fresh(low.Repr()) && fresh(high.Repr()) && fresh(decLow.Repr()) && fresh(decHigh.Repr())
    {
      tqmf, accumc, accumd := new int[24], new int[11], new int[11];
      var l, h, dl, dh := NewBands();
      low, high, decLow, decHigh := l, h, dl, dh;
      il, ih, xs, xd, xout1, xout2 := 0, 0, 0, 0, 0, 0;
    }

    static method NewBands() returns (l: Predictor, h: Predictor, dl: Predictor, dh: Predictor)
      ensures l.Valid() && h.Valid() && dl.Valid() && dh.Valid() && l.Repr() !! h.Repr() !! dl.Repr() !! dh.Repr()
      ensures fresh(l.Repr()) && fresh(h.Repr()) && fresh(dl.Repr()) && fresh(dh.Repr())
    {
      l := new Predictor();
      h := new Predictor();
      dl := new Predictor();
      dh := new Predictor();
    }

    /** The transmit quadrature mirror filter, and the shift of its delay line by two. */
    method TransmitFilter(xin1: int, xin2: int) returns (xl: int, xh: int)
      requires tqmf.Length == 24
      modifies tqmf
      ensures xl == LowSample(old(tqmf[..])) && xh == HighSample(old(tqmf[..]))
      ensures tqmf[..] == [xin2, xin1] + old(tqmf[..22])
    {
      hide Wrap32;
      var xa, xb := Accumulate();
      ShiftTransmit(xin1, xin2);
      xl := Wrap32((xa + xb) / 32768);
      xh := Wrap32((xa - xb) / 32768);
    }

    method Accumulate() returns (xa: int, xb: int)
      requires tqmf.Length == 24
      ensures xa == Taps(tqmf[..], 0, 12) && xb == Taps(tqmf[..], 1, 12)
    {
      ghost var t := tqmf[..];
      xa := tqmf[0] * H[0];
      xb := tqmf[1] * H[1];
      assert Taps(t, 0, 0) == 0 == Taps(t, 1, 0);
      var ptr, i := 2, 0;
      while i < 10
        invariant i <= 10 && ptr == 2 * i + 2 && xa == Taps(t, 0, i + 1) && xb == Taps(t, 1, i + 1)
      {
        xa := xa + tqmf[ptr] * H[ptr];
        xb := xb + tqmf[ptr + 1] * H[ptr + 1];
        ptr, i := ptr + 2, i + 1;
      }
      xa := xa + tqmf[ptr] * H[ptr];
      xb := xb + tqmf[ptr + 1] * H[ptr + 1];
    }

    method ShiftTransmit(xin1: int, xin2: int)
      requires tqmf.Length == 24
      modifies tqmf
      ensures tqmf[..] == [xin2, xin1] + old(tqmf[..22])
    {
      var ptr, i := 23, 0;
      while i < 22
        invariant i <= 22 && ptr == 23 - i
        invariant forall k | 0 <= k < 24 :: tqmf[k] == if k > ptr then old(tqmf[k - 2]) else old(tqmf[k])
      {
        tqmf[ptr] := tqmf[ptr - 2];
        ptr, i := ptr - 1, i + 1;
      }
      tqmf[ptr] := xin1;
      tqmf[ptr - 1] := xin2;
    }

    /** The lower sub-band encoder. */
    method EncodeLow(xl: int)
      requires Valid()
      modifies `il, low.Repr()
      ensures Valid() && il == LowCode(Wrap32(xl - Prediction(old(low.View()))), old(low.det))
      ensures low.View() == LowStep(old(low.View()), il)
    {
      hide Wrap32, Filtez, Filtep, LowCode, Adapted, Logscl, Scalel;
      var szl := low.ComputeZeroPart();
      var spl := Filtep(low.r1, low.a1, low.r2, low.a2);
      var sl := Wrap32(szl + spl);
      var el := Wrap32(xl - sl);
      LowCodeInRange(el, low.det);
      il := Quantl(el, low.det);
      var dlt := Wrap32(low.det * QQ4_CODE4_TABLE[il / 4] / 32768);
      low.nb := Logscl(il, low.nb);
      low.det := Scalel(low.nb, 8);
      low.Adapt(dlt, szl, sl);
    }

    /** The higher sub-band encoder. */
    method EncodeHigh(xh: int)
      requires Valid()
      modifies `ih, high.Repr()
      ensures ih == HighCode(Wrap32(xh - Prediction(old(high.View()))), old(high.det))
      ensures high.View() == HighStep(old(high.View()), ih)
    {
      hide Wrap32, Filtez, Filtep, Adapted, Logsch, Scalel;
      var szh := high.ComputeZeroPart();
      var sph := Filtep(high.r1, high.a1, high.r2, high.a2);
      var sh := Wrap32(sph + szh);
      var eh := Wrap32(xh - sh);
      if eh >= 0 {
        ih := 3;
      } else {
        ih := 1;
      }
      var decis := Wrap32(564 * high.det / 4096);
      if Abs(eh) > decis {
        ih := ih - 1;
      }
      var dh := Wrap32(high.det * QQ2_CODE2_TABLE[ih] / 32768);
      high.nb := Logsch(ih, high.nb);
      high.det := Scalel(high.nb, 10);
      high.Adapt(dh, szh, sh);
    }

    method Encode(xin1: int, xin2: int) returns (code: byte)
      requires Valid()
      modifies `il, `ih, tqmf, low.Repr(), high.Repr()
      ensures Valid() && (EncoderView(), code) == EncodeStep(old(EncoderView()), xin1, xin2)
      ensures il == code % 64
    {
      hide Wrap32, Prediction, LowCode, HighCode, LowStep, HighStep, LowSample, HighSample;
      var xl, xh := TransmitFilter(xin1, xin2);
      EncodeLow(xl);
      EncodeHigh(xh);
      code := il + ih * 64;
    }

    /** The lower sub-band decoder. The output difference is looked up with il, not with the received ilr. */
    method DecodeLow(ilr: int) returns (rl: int)
      requires Valid() && 0 <= ilr < 64
      modifies decLow.Repr()
      ensures decLow.View() == LowStep(old(decLow.View()), ilr)
      ensures rl == Reconstruction(old(decLow.View()), il)
    {
      hide Wrap32, Filtez, Filtep, Adapted, Logscl, Scalel;
      var szl := decLow.ComputeZeroPart();
      var spl := Filtep(decLow.r1, decLow.a1, decLow.r2, decLow.a2);
      var sl := Wrap32(spl + szl);
      var dlt := Wrap32(decLow.det * QQ4_CODE4_TABLE[ilr / 4] / 32768);
      var dl := Wrap32(decLow.det * QQ6_CODE6_TABLE[il] / 32768);
      rl := Wrap32(dl + sl);
      decLow.nb := Logscl(ilr, decLow.nb);
      decLow.det := Scalel(decLow.nb, 8);
      decLow.Adapt(dlt, szl, sl);
    }

    /** The higher sub-band decoder. */
    method DecodeHigh() returns (rh: int)
      requires Valid() && 0 <= ih < 4
      modifies decHigh.Repr()
      ensures decHigh.View() == HighStep(old(decHigh.View()), ih) && rh == decHigh.r1
    {
      hide Wrap32, Filtez, Filtep, Adapted, Logsch, Scalel;
      var szh := decHigh.ComputeZeroPart();
      var sph := Filtep(decHigh.r1, decHigh.a1, decHigh.r2, decHigh.a2);
      var sh := Wrap32(sph + szh);
      var dh := Wrap32(decHigh.det * QQ2_CODE2_TABLE[ih] / 32768);
      decHigh.nb := Logsch(ih, decHigh.nb);
      decHigh.det := Scalel(decHigh.nb, 10);
      decHigh.Adapt(dh, szh, sh);
      rh := decHigh.r1;
    }

    /** The receive quadrature mirror filter, and the shift of both delay lines by one. */
    method ReceiveFilter()
      requires accumc.Length == 11 && accumd.Length == 11 && accumc != accumd
      modifies `xout1, `xout2, accumc, accumd
      ensures xout1 == Wrap32(Received(xd, old(accumc[..]), 0, 11) / 16384)
      ensures xout2 == Wrap32(Received(xs, old(accumd[..]), 1, 11) / 16384)
      ensures accumc[..] == [xd] + old(accumc[..10]) && accumd[..] == [xs] + old(accumd[..10])
    {
      hide Wrap32;
      var xa1, xa2 := xd * H[0], xs * H[1];
      var i := 0;
      while i < 11
        invariant i <= 11 && xa1 == Received(xd, accumc[..], 0, i) && xa2 == Received(xs, accumd[..], 1, i)
      {
        xa1 := xa1 + accumc[i] * H[2 * i + 2];
        xa2 := xa2 + accumd[i] * H[2 * i + 3];
        i := i + 1;
      }
      xout1 := Wrap32(xa1 / 16384);
      xout2 := Wrap32(xa2 / 16384);
      ShiftReceive(accumc, xd);
      ShiftReceive(accumd, xs);
    }

    static method ShiftReceive(accum: array<int>, newest: int)
      requires accum.Length == 11
      modifies accum
      ensures accum[..] == [newest] + old(accum[..10])
    {
      var ptr := 10;
      while ptr > 0
        invariant 0 <= ptr <= 10
        invariant forall k | 0 <= k < 11 :: accum[k] == if k > ptr then old(accum[k - 1]) else old(accum[k])
      {
        accum[ptr] := accum[ptr - 1];
        ptr := ptr - 1;
      }
      accum[0] := newest;
    }

    method Decode(input: byte)
      requires Valid()
      modifies `ih, `xd, `xs, `xout1, `xout2, accumc, accumd, decLow.Repr(), decHigh.Repr()
      ensures Valid() && DecoderView() == DecodeBands(old(decLow.View()), old(decHigh.View()), input)
      ensures var rl := Reconstruction(old(decLow.View()), il);
              xd == Wrap32(rl - decHigh.r1) && xs == Wrap32(rl + decHigh.r1)
      ensures accumc[..] == [xd] + old(accumc[..10]) && accumd[..] == [xs] + old(accumd[..10])
      ensures xout1 == Wrap32(Received(xd, old(accumc[..]), 0, 11) / 16384)
      ensures xout2 == Wrap32(Received(xs, old(accumd[..]), 1, 11) / 16384)
    {
      hide Wrap32, Prediction, LowStep, HighStep, Received, OutputDifference, Reconstruction;
      var ilr := input % 64;
      ih := input / 64;
      var rl := DecodeLow(ilr);
      var rh := DecodeHigh();
      xd := Wrap32(rl - rh);
      xs := Wrap32(rl + rh);
      ReceiveFilter();
    }

    method Reset()
      requires Valid()
      modifies tqmf, accumc, accumd, low.Repr(), high.Repr(), decLow.Repr(), decHigh.Repr()
      ensures Valid() && EncoderView() == Started() && DecoderView() == (Initial(32), Initial(8))
      ensures accumc[..] == accumd[..] == seq(11, i => 0)
    {
      hide Initial;
      ResetBands();
      ClearFilters();
    }

    method ResetBands()
      requires Valid()
      modifies low.Repr(), high.Repr(), decLow.Repr(), decHigh.Repr()
      ensures Valid() && low.View() == Initial(32) && high.View() == Initial(8)
              && DecoderView() == (Initial(32), Initial(8))
    {
      hide Initial;
      low.Reset(32);
      decLow.Reset(32);
      high.Reset(8);
      decHigh.Reset(8);
    }

    method ClearFilters()
      requires Valid()
      modifies tqmf, accumc, accumd
      ensures tqmf[..] == seq(24, i => 0) && accumc[..] == accumd[..] == seq(11, i => 0)
    {
      Clear(tqmf);
      Clear(accumc);
      Clear(accumd);
    }

    static method Clear(a: array<int>)
      modifies a
      ensures a[..] == seq(a.Length, i => 0)
    {
      var i := 0;
      while i < a.Length
        invariant i <= a.Length && forall k | 0 <= k < i :: a[k] == 0
      {
        a[i] := 0;
        i := i + 1;
      }
    }

    method EncodeAll(samples: seq<(int, int)>) returns (compressed: array<byte>)
      requires Valid() && EncoderView() == Started()
      modifies `il, `ih, tqmf, low.Repr(), high.Repr()
      ensures Valid() && EncoderView() == Encoded(samples, |samples|) && fresh(compressed)
              && compressed.Length == |samples|
      ensures forall k | 0 <= k < |samples| :: compressed[k] == Code(samples, k)
      ensures samples != [] ==> il == compressed[|samples| - 1] % 64
    {
      hide EncodeStep, Started;
      compressed := new byte[|samples|];
      var i := 0;
      while i < |samples|
        invariant i <= |samples| && Valid() && EncoderView() == Encoded(samples, i)
        invariant forall k | 0 <= k < i :: compressed[k] == Code(samples, k)
        invariant i > 0 ==> il == compressed[i - 1] % 64
      {
        var code := Encode(samples[i].0, samples[i].1);
        compressed[i] := code;
        i := i + 1;
      }
    }

    method DecodeAll(compressed: array<byte>)
      requires Valid() && DecoderView() == (Initial(32), Initial(8))
      requires compressed !in decLow.Repr() + decHigh.Repr() + {accumc, accumd}
      modifies `ih, `xd, `xs, `xout1, `xout2, accumc, accumd, decLow.Repr(), decHigh.Repr()
      ensures Valid() && compressed[..] == old(compressed[..])
              && DecoderView() == Decoded(compressed[..], compressed.Length)
    {
      hide DecodeBands, Initial, LowStep, HighStep, OutputDifference, Received, Wrap32, Prediction;
      var i := 0;
      while i < compressed.Length
        invariant i <= compressed.Length && Valid() && compressed[..] == old(compressed[..])
        invariant DecoderView() == Decoded(compressed[..], i)
      {
        Decode(compressed[i]);
        i := i + 1;
      }
    }
  }

  /** Resets, encodes all pairs and decodes all codes: both sides end in the same predictor state. */
  method EncodeThenDecode(codec: Codec, samples: seq<(int, int)>) returns (compressed: array<byte>)
    requires codec.Valid()
    modifies codec, codec.tqmf, codec.accumc, codec.accumd
    modifies codec.low.Repr(), codec.high.Repr(), codec.decLow.Repr(), codec.decHigh.Repr()
    ensures codec.Valid() && codec.DecoderView() == (codec.EncoderView().low, codec.EncoderView().high)
    ensures compressed.Length == |samples| && codec.EncoderView() == Encoded(samples, |samples|)
    ensures forall k | 0 <= k < |samples| :: compressed[k] == Code(samples, k)
    ensures samples != [] ==> codec.il == compressed[|samples| - 1] % 64
  {
    hide EncodeStep, DecodeBands, Started, Initial, Encoded, Decoded, Code, Predictor.View;
    codec.Reset();
    compressed := codec.EncodeAll(samples);
    ghost var codes := compressed[..];
    codec.DecodeAll(compressed);
    Lockstep(samples, codes, |samples|);
  }

  /** A code decoded straight after the encoder produced it: the output difference is looked up with the received
    * code. */
  method EncodeDecodePair(codec: Codec, xin1: int, xin2: int) returns (code: byte)
    requires codec.Valid()
    modifies codec, codec.tqmf, codec.accumc, codec.accumd
    modifies codec.low.Repr(), codec.high.Repr(), codec.decLow.Repr(), codec.decHigh.Repr()
    ensures codec.Valid() && (codec.EncoderView(), code) == EncodeStep(old(codec.EncoderView()), xin1, xin2)
    ensures codec.DecoderView() == DecodeBands(old(codec.decLow.View()), old(codec.decHigh.View()), code)
    ensures var rl := Reconstruction(old(codec.decLow.View()), code % 64);
            codec.xd == Wrap32(rl - codec.decHigh.r1) && codec.xs == Wrap32(rl + codec.decHigh.r1)
  {
    hide EncodeStep, DecodeBands, Reconstruction, Wrap32, Received;
    code := codec.Encode(xin1, xin2);
    codec.Decode(code);
  }

  /** Two pairs encoded and the first of them decoded: the reconstruction of code 4 goes into the samples, although the
    * code received is 61. */
  method FirstSampleWrong(codec: Codec, ghost low: Band) returns (compressed: array<byte>)
    requires codec.Valid() && low.Valid() && AtReset(low)
    modifies codec, codec.tqmf, codec.accumc, codec.accumd
    modifies codec.low.Repr(), codec.high.Repr(), codec.decLow.Repr(), codec.decHigh.Repr()
    ensures compressed.Length == 2 && compressed[0] % 64 == 61 && Reconstruction(low, 61) == 0
    ensures codec.xd == Wrap32(-25 - codec.decHigh.r1) && codec.xs == Wrap32(-25 + codec.decHigh.r1)
  {
    hide EncodeStep, DecodeBands, Reconstruction, Wrap32, Received, Encoded, Started, Initial, Code, Predictor.View;
    var samples := [(30000, 0), (0, 0)];
    RunGoesWrong(samples, low);
    codec.Reset();
    compressed := codec.EncodeAll(samples);
    codec.Decode(compressed[0]);
  }
}
