/** What the codes of the G.722 coder say about the values they stand for: the higher band's code is nearest, the lower
  * band's reconstructs inside the decision interval. */
module AdpcmQuantizer {
  import opened Arith
  import opened AdpcmTables
  import opened AdpcmBand
  import opened AdpcmCoder

  /** The distance of x from y. */
  function Distance(x: int, y: int): nat {
    if x >= y then x - y else y - x
  }

  /** The higher band's code is nearest: no other code reconstructs a difference closer to eh, by more than the one
    * that the rounding of the two reconstructions leaves open. */
  lemma HighCodeIsNearest(eh: int, deth: int, k: nat)
    requires 8 <= deth <= 16384 && -0x8000_0000 < eh < 0x8000_0000 && k < 4
    ensures Distance(eh, HighDifference(deth, HighCode(eh, deth))) <= Distance(eh, HighDifference(deth, k)) + 1
  {
    hide HighDifference;
    HighDifferences(deth);
    var limit := 4512 * deth / 32768;
    HighCodeIs(eh, deth, limit);
    var c := HighCode(eh, deth);
    hide HighCode;
    Nearest(eh, deth, limit, HighDifference(deth, c), HighDifference(deth, k));
  }

  /** The decision level is halfway between the two sizes. */
  lemma HighCodeIs(eh: int, deth: int, limit: int)
    requires 8 <= deth <= 16384 && -0x8000_0000 < eh < 0x8000_0000 && limit == 4512 * deth / 32768
    ensures HighCode(eh, deth) == if eh > limit then 2 else if eh >= 0 then 3 else if eh >= -limit then 1 else 0
  {
  }

  lemma Nearest(eh: int, deth: int, limit: int, d: int, e: int)
    requires 8 <= deth <= 16384 && limit == 4512 * deth / 32768
    requires d == (if eh > limit then 7408 else if eh >= 0 then 1616 else if eh >= -limit then -1616 else -7408)
                  * deth / 32768
    requires e in {1616 * deth / 32768, 7408 * deth / 32768, -1616 * deth / 32768, -7408 * deth / 32768}
    ensures Distance(eh, d) <= Distance(eh, e) + 1
  {
  }

  /** The four differences of the higher band: two sizes, either sign, rounded down. */
  lemma HighDifferences(deth: int)
    requires 8 <= deth <= 16384
    ensures HighDifference(deth, 3) == 1616 * deth / 32768 && HighDifference(deth, 2) == 7408 * deth / 32768
    ensures HighDifference(deth, 1) == -1616 * deth / 32768 && HighDifference(deth, 0) == -7408 * deth / 32768
  {
  }

  /** The last interval is open upwards and reconstructs as the one before it. */
  function Interval(mil: nat): (m: nat)
    requires mil <= 30
    ensures m < 30
  {
    if mil == 30 then 29 else mil
  }

  /** The interval of the four-bit code that interval m of the six-bit code lies in. */
  function Group(m: nat): (g: nat)
    requires m < 30
    ensures g < 8
  {
    (m + 2) / 4
  }

  /** Upper end of decision interval m, at scale factor 32768. */
  function Decision(m: nat): int
    requires m < 30
  {
    DECIS_LEVL[m]
  }

  /** What a six-bit code stands for at that scale factor, and its upper four bits. */
  function SixBit(il: nat): int
    requires il < 64
  {
    QQ6_CODE6_TABLE[il]
  }

  function FourBit(il: nat): int
    requires il < 64
  {
    QQ4_CODE4_TABLE[il / 4]
  }

  /** The code of an interval, for a positive and for a negative value. */
  lemma Codes(mil: nat)
    requires mil <= 30
    ensures QUANT26BT_POS[mil] == 61 - Interval(mil)
    ensures QUANT26BT_NEG[mil] == (if Interval(mil) < 2 then 63 else 33) - Interval(mil)
  {
    match mil {
      case 0 => case 1 => case 2 => case 3 => case 4 => case 5 => case 6 => case 7 => case 8 =>
      case 9 => case 10 => case 11 => case 12 => case 13 => case 14 => case 15 => case 16 => case 17 =>
      case 18 => case 19 => case 20 => case 21 => case 22 => case 23 => case 24 => case 25 => case 26 =>
      case 27 => case 28 => case 29 => case 30 =>
    }
  }

  function PositiveCode(m: nat): (il: nat)
    requires m < 30
    ensures il < 64
  {
    61 - m
  }

  function NegativeCode(m: nat): (il: nat)
    requires m < 30
    ensures il < 64
  {
    (if m < 2 then 63 else 33) - m
  }

  /** The six-bit code of an interval stands for a value inside it, on the same side for both signs. */
  predicate SixBitInside(m: nat)
    requires m < 30
  {
    && SixBit(NegativeCode(m)) == -SixBit(PositiveCode(m))
    && 0 < SixBit(PositiveCode(m)) <= Decision(m) && (m > 0 ==> Decision(m - 1) <= SixBit(PositiveCode(m)))
  }

  lemma SixBitEntries(m: nat)
    requires m < 30
    ensures SixBitInside(m)
  {
    if m < 6 {
      FirstEntries(m);
    } else if m < 12 {
      SecondEntries(m);
    } else if m < 18 {
      ThirdEntries(m);
    } else if m < 24 {
      FourthEntries(m);
    } else {
      LastEntries(m);
    }
    hide SixBit, Decision;
  }

  lemma FirstEntries(m: nat)
    requires m < 6
    ensures SixBitInside(m)
  {
    match m { case 0 => case 1 => case 2 => case 3 => case 4 => case 5 => }
  }

  lemma SecondEntries(m: nat)
    requires 6 <= m < 12
    ensures SixBitInside(m)
  {
    match m { case 6 => case 7 => case 8 => case 9 => case 10 => case 11 => }
  }

  lemma ThirdEntries(m: nat)
    requires 12 <= m < 18
    ensures SixBitInside(m)
  {
    match m { case 12 => case 13 => case 14 => case 15 => case 16 => case 17 => }
  }

  lemma FourthEntries(m: nat)
    requires 18 <= m < 24
    ensures SixBitInside(m)
  {
    match m { case 18 => case 19 => case 20 => case 21 => case 22 => case 23 => }
  }

  lemma LastEntries(m: nat)
    requires 24 <= m < 30
    ensures SixBitInside(m)
  {
    match m { case 24 => case 25 => case 26 => case 27 => case 28 => case 29 => }
  }

  lemma {:induction false} LevelsRise(i: nat, j: nat)
    requires i <= j < 30
    ensures Decision(i) <= Decision(j)
  {
    hide SixBit, Decision;
    if i < j {
      LevelsRise(i, j - 1);
      SixBitEntries(j);
    }
  }

  /** The four-bit code likewise, in the interval of the group, which holds the interval of the six-bit code. */
  predicate FourBitInside(m: nat)
    requires m < 30
  {
    var g := Group(m);
    && FourBit(NegativeCode(m)) == -FourBit(PositiveCode(m))
    && 0 <= FourBit(PositiveCode(m)) && (g > 0 ==> Decision(4 * g - 3) <= FourBit(PositiveCode(m)))
    && (g < 7 ==> FourBit(PositiveCode(m)) <= Decision(4 * g + 1))
  }

  lemma GroupEntries(g: nat)
    requires g < 8
    ensures QQ4_CODE4_TABLE[if g == 0 then 15 else 8 - g] == -QQ4_CODE4_TABLE[15 - g]
    ensures 0 <= QQ4_CODE4_TABLE[15 - g] && (g > 0 ==> DECIS_LEVL[4 * g - 3] <= QQ4_CODE4_TABLE[15 - g])
    ensures g < 7 ==> QQ4_CODE4_TABLE[15 - g] <= DECIS_LEVL[4 * g + 1]
  {
    match g { case 0 => case 1 => case 2 => case 3 => case 4 => case 5 => case 6 => case 7 => }
  }

  lemma FourBitOfGroup(m: nat)
    requires m < 30
    ensures FourBit(PositiveCode(m)) == QQ4_CODE4_TABLE[15 - Group(m)]
    ensures FourBit(NegativeCode(m)) == QQ4_CODE4_TABLE[if Group(m) == 0 then 15 else 8 - Group(m)]
  {
    var g := Group(m);
    assert PositiveCode(m) / 4 == 15 - g;
    assert NegativeCode(m) / 4 == if g == 0 then 15 else 8 - g;
  }

  lemma FourBitEntries(m: nat)
    requires m < 30
    ensures FourBitInside(m)
  {
    GroupEntries(Group(m));
    FourBitOfGroup(m);
  }

  lemma Quotients(u: int, v: int, w: int)
    requires 0 <= u <= v <= w <= 32767 * 16384
    ensures u / 32768 <= Wrap32(v / 32768) <= w / 32768 && u / 32768 <= -Wrap32(-v / 32768) <= w / 32768 + 1
  {
  }

  /** A table value between two levels, scaled: the product is between the scaled levels, and with a minus sign it is
    * off by less than one. */
  lemma Scaled(detl: int, x: int, lo: int, hi: int)
    requires 32 <= detl <= 16384 && 0 <= lo <= x <= hi <= 32767
    ensures lo * detl / 32768 <= Wrap32(detl * x / 32768) <= hi * detl / 32768
    ensures lo * detl / 32768 <= -Wrap32(detl * -x / 32768) <= hi * detl / 32768 + 1
  {
    ScaleMonotone(detl, 0, lo);
    ScaleMonotone(detl, lo, x);
    ScaleMonotone(detl, x, hi);
    ScaleMonotone(detl, hi, 32767);
    var v := detl * x;
    assert detl * -x == -v;
    Quotients(lo * detl, v, hi * detl);
    hide Wrap32;
  }

  /** The interval of a value, and that of its group of four, which is what the upper four bits of the code tell. */
  function Base(m: nat, detl: int): int
    requires m < 30
  {
    if m == 0 then 0 else Level(m - 1, detl)
  }

  function GroupBase(m: nat, detl: int): int
    requires m < 30
  {
    if Group(m) == 0 then 0 else Level(4 * Group(m) - 3, detl)
  }

  function GroupTop(m: nat, detl: int): int
    requires m < 30
  {
    if Group(m) == 7 then 32767 * detl / 32768 else Level(4 * Group(m) + 1, detl)
  }

  lemma LevelIs(m: nat, detl: int)
    requires m < 30
    ensures Level(m, detl) == Decision(m) * detl / 32768
  {
  }

  /** A difference d on the side of el whose size is between lo and hi, up to the rounding of a negative one. */
  predicate Inside(el: int, d: int, lo: int, hi: int) {
    if el >= 0 then lo <= d <= hi else -hi - 1 <= d <= -lo
  }

  function CodeFor(el: int, m: nat): (il: nat)
    requires m < 30
    ensures il < 64
  {
    if el >= 0 then PositiveCode(m) else NegativeCode(m)
  }

  lemma SixBitScaled(el: int, m: nat, detl: int)
    requires m < 30 && 32 <= detl <= 16384
    ensures Inside(el, OutputDifference(detl, CodeFor(el, m)), Base(m, detl), Level(m, detl))
  {
    SixBitEntries(m);
    LevelsRise(m, 29);
    LevelIs(m, detl);
    if m > 0 {
      LevelIs(m - 1, detl);
      LevelsRise(0, m - 1);
    }
    assert Decision(29) <= 32767 && Decision(0) >= 0;
    hide Decision, Level, Wrap32, PositiveCode, NegativeCode;
    Scaled(detl, SixBit(PositiveCode(m)), if m > 0 then Decision(m - 1) else 0, Decision(m));
  }

  lemma FourBitScaled(el: int, m: nat, detl: int)
    requires m < 30 && 32 <= detl <= 16384
    ensures Inside(el, LowDifference(detl, CodeFor(el, m)), GroupBase(m, detl), GroupTop(m, detl))
  {
    FourBitEntries(m);
    var g := Group(m);
    if g > 0 {
      LevelIs(4 * g - 3, detl);
      LevelsRise(0, 4 * g - 3);
    }
    if g < 7 {
      LevelIs(4 * g + 1, detl);
      LevelsRise(4 * g + 1, 29);
    }
    assert Decision(29) <= 32767 && Decision(0) >= 0;
    hide Decision, Level, Wrap32, PositiveCode, NegativeCode;
    Scaled(detl, FourBit(PositiveCode(m)), if g > 0 then Decision(4 * g - 3) else 0,
           if g < 7 then Decision(4 * g + 1) else 32767);
  }

  /** A larger level stays larger when scaled. */
  lemma LevelsRiseScaled(i: nat, j: nat, detl: int)
    requires i <= j < 30 && 32 <= detl <= 16384
    ensures Level(i, detl) <= Level(j, detl)
  {
    LevelsRise(i, j);
    LevelIs(i, detl);
    LevelIs(j, detl);
    LevelsRise(0, i);
    LevelsRise(j, 29);
    assert Decision(29) <= 32767 && Decision(0) >= 0;
    hide Decision, Level;
    Scaled(detl, Decision(i), Decision(i), Decision(j));
  }

  /** The interval of a value lies in that of its group. */
  lemma GroupHolds(m: nat, detl: int)
    requires m < 30 && 32 <= detl <= 16384
    ensures 0 <= GroupBase(m, detl) <= Base(m, detl) && Level(m, detl) <= GroupTop(m, detl)
  {
    var g := Group(m);
    assert Level(29, detl) == 32767 * detl / 32768 && Level(0, detl) >= 0;
    hide Level;
    if g > 0 {
      LevelsRiseScaled(0, 4 * g - 3, detl);
      LevelsRiseScaled(4 * g - 3, m - 1, detl);
    } else if m > 0 {
      LevelsRiseScaled(0, m - 1, detl);
    }
    LevelsRiseScaled(m, if g < 7 then 4 * g + 1 else 29, detl);
  }

  /** The interval a value is found in: level m is the first one it does not exceed. */
  lemma IntervalOf(el: int, detl: int)
    requires 32 <= detl <= 16384 && -0x8000_0000 < el < 0x8000_0000
    ensures var mil := FirstLevel(Abs(el), detl, 0);
            Base(Interval(mil), detl) <= Abs(el) && (mil < 30 ==> Abs(el) <= Level(mil, detl))
  {
    var mil := FirstLevel(Abs(el), detl, 0);
    hide FirstLevel, Level;
    if mil > 0 {
      assert Abs(el) > Level(mil - 1, detl);
      assert mil == 30 ==> Abs(el) > Level(28, detl);
    }
  }

  lemma LowCodeOf(el: int, detl: int)
    ensures var m := Interval(FirstLevel(Abs(el), detl, 0));
            LowCode(el, detl) == CodeFor(el, m)
  {
    Codes(FirstLevel(Abs(el), detl, 0));
    hide FirstLevel;
  }

  /** What code c reconstructs for el has the sign of el or is 0, and lies in the decision interval of el, so that it is
    * off by no more than the width of the interval. The difference the predictors use lies in the wider interval that
    * the upper four bits tell. */
  ghost predicate Reconstructs(el: int, detl: int, c: nat)
    requires c < 64
  {
    var mil := FirstLevel(Abs(el), detl, 0);
    var m := Interval(mil);
    && Inside(el, OutputDifference(detl, c), Base(m, detl), Level(m, detl))
    && Inside(el, LowDifference(detl, c), GroupBase(m, detl), GroupTop(m, detl))
    && 0 <= GroupBase(m, detl) <= Base(m, detl) <= Abs(el)
    && (mil < 30 ==> Abs(el) <= Level(m, detl) <= GroupTop(m, detl))
    && (mil < 30 ==> Distance(el, OutputDifference(detl, c)) <= Level(m, detl) - Base(m, detl) + 1)
  }

  lemma OffByWidth(el: int, d: int, lo: int, hi: int)
    requires -0x8000_0000 < el < 0x8000_0000 && lo <= Abs(el) <= hi && Inside(el, d, lo, hi)
    ensures Distance(el, d) <= hi - lo + 1
  {
  }

  lemma LowCodeIsInside(el: int, detl: int)
    requires 32 <= detl <= 16384 && -0x8000_0000 < el < 0x8000_0000
    ensures 0 <= LowCode(el, detl) < 64 && Reconstructs(el, detl, LowCode(el, detl))
  {
    var mil := FirstLevel(Abs(el), detl, 0);
    var m := Interval(mil);
    IntervalOf(el, detl);
    LowCodeOf(el, detl);
    SixBitScaled(el, m, detl);
    FourBitScaled(el, m, detl);
    GroupHolds(m, detl);
    hide FirstLevel, LowCode, OutputDifference, LowDifference, Base, Level, GroupBase, GroupTop, Abs, Inside, Distance;
    if mil < 30 {
      OffByWidth(el, OutputDifference(detl, CodeFor(el, m)), Base(m, detl), Level(m, detl));
    }
  }

  predicate Moderate(x: int) {
    -0x4000_0000 <= x < 0x4000_0000
  }

  lemma WrapNothing(x: int, y: int)
    requires Moderate(x) && Moderate(y)
    ensures Wrap32(x - y) == x - y && Wrap32(x + y) == x + y
  {
  }

  lemma SmallDifferences(det: int, il: nat, ih: nat)
    requires 8 <= det <= 16384 && il < 64 && ih < 4
    ensures Moderate(OutputDifference(det, il)) && Moderate(LowDifference(det, il)) && Moderate(HighDifference(det, ih))
  {
    OutputRange(il);
    TableRange(il, ih);
    ScaledSmall(det, QQ6_CODE6_TABLE[il]);
    ScaledSmall(det, QQ4_CODE4_TABLE[il / 4]);
    ScaledSmall(det, QQ2_CODE2_TABLE[ih]);
  }

  lemma ScaledSmall(det: int, x: int)
    requires 0 <= det <= 16384 && -32768 <= x <= 32767
    ensures Moderate(Wrap32(det * x / 32768))
  {
    ScaleBothSides(det, x);
  }

  lemma ScaleBothSides(det: nat, x: int)
    requires det <= 16384 && -32768 <= x <= 32767
    ensures -0x2000_0000 <= det * x <= 0x2000_0000
  {
    var y: nat := if x < 0 then -x else x;
    Grows(y, det, 16384);
    assert det * x == det * y || det * x == -(det * y);
  }

  lemma TableRange(il: nat, ih: nat)
    requires il < 64 && ih < 4
    ensures -32768 <= QQ4_CODE4_TABLE[il / 4] <= 32767 && -32768 <= QQ2_CODE2_TABLE[ih] <= 32767
  {
  }

  /** For a sample in decision interval m, what the lower band's step for code c leaves as its reconstruction is off by
    * no more than the interval of the four upper bits, and what a decoder in the same state puts out by no more than
    * the interval of the whole code. */
  ghost predicate Tracks(low: Band, xl: int, m: nat, c: nat)
    requires low.Valid() && m < 30 && c < 64
  {
    && Distance(xl, Reconstruction(low, c)) <= Level(m, low.det) - Base(m, low.det) + 1
    && Distance(xl, LowStep(low, c).r1) <= GroupTop(m, low.det) - GroupBase(m, low.det) + 1
  }

  lemma LowStepReconstructs(low: Band, c: nat)
    requires low.Valid() && c < 64
    ensures LowStep(low, c).r1 == Wrap32(Prediction(low) + LowDifference(low.det, c))
    ensures Reconstruction(low, c) == Wrap32(Prediction(low) + OutputDifference(low.det, c))
  {
    hide Prediction, LowDifference, Logscl, Scalel, Coefficients, Delayed, Uppol1, Uppol2, OutputDifference;
  }

  lemma HighStepReconstructs(high: Band, ih: nat)
    requires high.Valid() && ih < 4
    ensures HighStep(high, ih).r1 == Wrap32(Prediction(high) + HighDifference(high.det, ih))
  {
    hide Prediction, HighDifference, Logsch, Scalel, Coefficients, Delayed, Uppol1, Uppol2;
  }

  /** Both reconstructions of a sample follow it, unless the sample is beyond the last decision level. */
  lemma LowBandTracks(low: Band, xl: int, mil: nat, c: int)
    requires low.Valid() && 32 <= low.det <= 16384 && Moderate(xl) && Moderate(Prediction(low))
    requires mil == FirstLevel(Abs(xl - Prediction(low)), low.det, 0) && c == LowCode(xl - Prediction(low), low.det)
    ensures Wrap32(xl - Prediction(low)) == xl - Prediction(low) && 0 <= c < 64
    ensures mil < 30 ==> Tracks(low, xl, mil, c)
  {
    hide Prediction, FirstLevel, LowCode, Level, Base, GroupTop, GroupBase, OutputDifference, LowDifference, LowStep,
         Reconstruction, Abs;
    var s := Prediction(low);
    var el := xl - s;
    WrapNothing(xl, s);
    LowCodeIsInside(el, low.det);
    SmallDifferences(low.det, c, 0);
    WrapNothing(s, OutputDifference(low.det, c));
    WrapNothing(s, LowDifference(low.det, c));
    LowStepReconstructs(low, c);
    hide Wrap32;
    if mil < 30 {
      Follows(el, s, LowDifference(low.det, c), GroupBase(mil, low.det), GroupTop(mil, low.det));
      Follows(el, s, OutputDifference(low.det, c), Base(mil, low.det), Level(mil, low.det));
    }
  }

  /** A difference inside the interval of el brings the prediction as near as the interval is wide. */
  lemma Follows(el: int, s: int, d: int, lo: int, hi: int)
    requires -0x8000_0000 < el < 0x8000_0000 && lo <= Abs(el) <= hi && Inside(el, d, lo, hi)
    ensures Distance(el + s, s + d) <= hi - lo + 1
  {
    OffByWidth(el, d, lo, hi);
  }

  /** The higher band's reconstruction is as near to the sample as any other code would have brought it. */
  lemma HighBandTracks(high: Band, xh: int, k: nat)
    requires high.Valid() && 8 <= high.det <= 16384 && Moderate(xh) && Moderate(Prediction(high)) && k < 4
    ensures var eh := xh - Prediction(high);
            Wrap32(xh - Prediction(high)) == eh
            && Distance(xh, HighStep(high, HighCode(eh, high.det)).r1) <= Distance(xh, HighStep(high, k).r1) + 1
  {
    hide Prediction, HighCode, HighDifference, HighStep;
    var s := Prediction(high);
    var eh := xh - s;
    WrapNothing(xh, s);
    HighCodeIsNearest(eh, high.det, k);
    var c := HighCode(eh, high.det);
    SmallDifferences(high.det, 0, c);
    SmallDifferences(high.det, 0, k);
    WrapNothing(s, HighDifference(high.det, c));
    WrapNothing(s, HighDifference(high.det, k));
    HighStepReconstructs(high, c);
    HighStepReconstructs(high, k);
  }

  /** Over every run of the encoder: after each pair both bands' reconstructions, which are also the decoder's, follow
    * the band samples the filter made of it. */
  lemma EncoderFollows(samples: seq<(int, int)>, n: nat, mil: nat, k: nat)
    requires n < |samples| && k < 4
    requires var e := Encoded(samples, n);
             && Moderate(LowSample(e.tqmf)) && Moderate(Prediction(e.low))
             && Moderate(HighSample(e.tqmf)) && Moderate(Prediction(e.high))
             && mil == FirstLevel(Abs(LowSample(e.tqmf) - Prediction(e.low)), e.low.det, 0)
    ensures var (e, f) := (Encoded(samples, n), Encoded(samples, n + 1));
            && f.low.r1 == LowStep(e.low, LowIndex(e)).r1
            && (mil < 30 ==> Tracks(e.low, LowSample(e.tqmf), mil, LowIndex(e)))
            && Distance(HighSample(e.tqmf), f.high.r1) <= Distance(HighSample(e.tqmf), HighStep(e.high, k).r1) + 1
  {
    hide Prediction, FirstLevel, LowCode, HighCode, LowStep, HighStep, LowSample, HighSample, Moderate, Tracks,
         Distance, Abs, P2, Scalel;
    var e := Encoded(samples, n);
    StableScales(samples, n);
    var (xl, xh) := (LowSample(e.tqmf), HighSample(e.tqmf));
    LowBandTracks(e.low, xl, mil, LowCode(xl - Prediction(e.low), e.low.det));
    HighBandTracks(e.high, xh, k);
  }

  lemma StableScales(samples: seq<(int, int)>, n: nat)
    requires n <= |samples|
    ensures 32 <= Encoded(samples, n).low.det <= 16384 && 8 <= Encoded(samples, n).high.det <= 16384
  {
    EncoderIsStable(samples, n);
    Powers();
    hide P2, Encoded, Scalel;
  }
}
