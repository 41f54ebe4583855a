/** What the filters and the adaptation of the G.722 coder do to a signal. */
module AdpcmFilter {
  import opened Arith
  import opened AdpcmTables
  import opened AdpcmBand
  import opened AdpcmCoder

  /** Every second tap, from tap p on. */
  function Phase(p: nat): (r: seq<int>)
    requires p <= 1
    ensures |r| == 12
  {
    seq(12, i requires 0 <= i < 12 => H[2 * i + p])
  }

  /** Every second entry of a delay line of pairs. */
  function Half(t: seq<int>, p: nat): (r: seq<int>)
    requires p <= 1 && |t| == 24
    ensures |r| == 12
  {
    seq(12, i requires 0 <= i < 12 => t[2 * i + p])
  }

  /** Each transmit sum is over every second entry of the delay line and its tap. */
  lemma {:induction false} TransmitIsSum(t: seq<int>, p: nat, n: nat)
    requires p <= 1 && n <= 12 && |t| == 24
    ensures Taps(t, p, n) == Dot(Half(t, p), Phase(p), n)
  {
    if n > 0 {
      TransmitIsSum(t, p, n - 1);
    }
  }

  /** The receive sum is over the newest value, the delayed ones in order, and every second tap. */
  lemma {:induction false} ReceiveIsSum(newest: int, t: seq<int>, p: nat, n: nat)
    requires p <= 1 && n <= 11 && |t| == 11
    ensures Received(newest, t, p, n) == Dot([newest] + t, Phase(p), n + 1)
  {
    if n > 0 {
      ReceiveIsSum(newest, t, p, n - 1);
    } else {
      assert Dot([newest] + t, Phase(p), 0) == 0;
    }
  }

  /** The taps of one phase add up to 16384, which is half the scale. */
  lemma NextTap(ones: seq<int>, h: seq<int>, n: nat)
    requires n < 12 == |h| && ones == seq(12, i => 1)
    ensures Dot(ones, h, 0) == 0 && Dot(ones, h, n + 1) == Dot(ones, h, n) + h[n]
  {
  }

  lemma PhaseSum(p: nat)
    requires p <= 1
    ensures Dot(seq(12, i => 1), Phase(p), 12) == 16384
  {
    var (ones, h) := (seq(12, i => 1), Phase(p));
    NextTap(ones, h, 0);
    NextTap(ones, h, 1);
    NextTap(ones, h, 2);
    NextTap(ones, h, 3);
    NextTap(ones, h, 4);
    NextTap(ones, h, 5);
    NextTap(ones, h, 6);
    NextTap(ones, h, 7);
    NextTap(ones, h, 8);
    NextTap(ones, h, 9);
    NextTap(ones, h, 10);
    NextTap(ones, h, 11);
    hide Dot;
  }

  lemma {:induction false} ConstantSum(c: int, h: seq<int>, n: nat)
    requires n <= 12 == |h|
    ensures Dot(seq(12, i => c), h, n) == c * Dot(seq(12, i => 1), h, n)
  {
    if n > 0 {
      ConstantSum(c, h, n - 1);
    }
  }

  /** A steady signal goes to the lower band as it is and leaves the higher band silent. */
  lemma SteadySignal(t: seq<int>, c: int)
    requires t == seq(24, i => c) && -0x8000_0000 <= c < 0x8000_0000
    ensures LowSample(t) == c && HighSample(t) == 0
  {
    TransmitIsSum(t, 0, 12);
    TransmitIsSum(t, 1, 12);
    assert Half(t, 0) == Half(t, 1) == seq(12, i => c);
    ConstantSum(c, Phase(0), 12);
    ConstantSum(c, Phase(1), 12);
    PhaseSum(0);
    PhaseSum(1);
    hide Taps, Dot, Phase, Half;
  }

  /** A signal that alternates with every sample goes to the higher band and leaves the lower band silent. */
  lemma AlternatingSignal(t: seq<int>, c: int)
    requires t == seq(24, i => if i % 2 == 0 then c else -c) && -0x8000_0000 <= c < 0x8000_0000
    ensures LowSample(t) == 0 && HighSample(t) == c
  {
    TransmitIsSum(t, 0, 12);
    TransmitIsSum(t, 1, 12);
    assert Half(t, 0) == seq(12, i => c) && Half(t, 1) == seq(12, i => -c);
    ConstantSum(c, Phase(0), 12);
    ConstantSum(-c, Phase(1), 12);
    PhaseSum(0);
    PhaseSum(1);
    hide Taps, Dot, Phase, Half;
  }

  /** A steady value in a receive filter comes out as it is. */
  lemma SteadyOutput(c: int, t: seq<int>, p: nat)
    requires p <= 1 && t == seq(11, i => c)
    ensures Received(c, t, p, 11) / 16384 == c
  {
    ReceiveIsSum(c, t, p, 11);
    assert [c] + t == seq(12, i => c);
    ConstantSum(c, Phase(p), 12);
    PhaseSum(p);
    hide Received, Dot, Phase;
  }

  /** The step of a zero coefficient: 128 after the leak, to the side that brings the prediction from this delayed
    * value closer to the difference; no step without a difference. */
  lemma LeakedLearns(b: int, d: int, delayed: int)
    ensures -256 < 256 * Leaked(b, 0, delayed) - 255 * b <= 0
    ensures d != 0 ==> Leaked(b, d, delayed) - Leaked(b, 0, delayed) in {128, -128}
    ensures (Leaked(b, d, delayed) - Leaked(b, 0, delayed)) * delayed * d >= 0
  {
  }

  /** The first pole coefficient leaks one part in 256 and moves by 192 to the sign of the product of the last two
    * partial reconstructions, rounded down; a bound stops it. */
  lemma FirstPoleFollows(al1: int, apl2: int, plt: int, plt1: int)
    requires -12288 <= apl2 <= 12288
    ensures var (r, top) := (Uppol1(al1, apl2, plt, plt1), 15360 - apl2);
            var x := 255 * al1 + 256 * (if plt * plt1 >= 0 then 192 else -192);
            if x > 256 * top then r == top else if x < -256 * top then r == -top else -256 < 256 * r - x <= 0
  {
  }

  /** The second one leaks one part in 128, moves by 128 to the sign of the product of the last and the last but two,
    * and by a 32nd of the first coefficient against the sign of the product of the last two. */
  lemma SecondPoleFollows(al1: int, al2: int, plt: int, plt1: int, plt2: int)
    ensures var r := Uppol2(al1, al2, plt, plt1, plt2);
            var x := 127 * al2 + (if plt * plt1 >= 0 then -4 * al1 else 4 * al1)
                     + 128 * (if plt * plt2 >= 0 then 128 else -128);
            if x >= 128 * 12290 then r == 12288 else if x < -128 * 12288 then r == -12288
            else -256 < 128 * r - x <= 0
  {
  }

  /** The pole section is the sum of two products, rounded down, where it fits the int. */
  lemma PoleSection(rlt1: int, al1: int, rlt2: int, al2: int)
    requires -0x4000_0000 <= rlt1 < 0x4000_0000 && -0x4000_0000 <= rlt2 < 0x4000_0000
    requires -0x8000_0000 * 16384 <= al1 * rlt1 + al2 * rlt2 < 0x8000_0000 * 16384
    ensures 0 <= al1 * rlt1 + al2 * rlt2 - 16384 * Filtep(rlt1, al1, rlt2, al2) < 16384
  {
    var (x, y) := (al1 * rlt1, al2 * rlt2);
    assert al1 * (2 * rlt1) == 2 * x && al2 * (2 * rlt2) == 2 * y;
  }

  /** The size of what a code of the lower band reconstructs, at scale factor 32768, and that of the higher band. */
  function LowSize(il: nat): nat
    requires il < 64
  {
    var x := QQ4_CODE4_TABLE[il / 4];
    if x >= 0 then x else -x
  }

  function HighSize(ih: nat): nat
    requires ih < 4
  {
    var x := QQ2_CODE2_TABLE[ih];
    if x >= 0 then x else -x
  }

  /** A code that stands for a larger difference never leaves the scale factor's logarithm smaller; the smallest ones
    * let it fall and the largest ones raise it. */
  lemma LouderCodesRaise(il: nat, im: nat, nbl: int)
    requires il < 64 && im < 64 && 0 <= nbl <= 18432 && LowSize(il) <= LowSize(im)
    ensures Logscl(il, nbl) <= Logscl(im, nbl)
    ensures LowSize(il) <= 1200 ==> Logscl(il, nbl) <= nbl
    ensures LowSize(im) >= 4240 ==> nbl <= Logscl(im, nbl)
  {
  }

  lemma LouderHighCodesRaise(ih: nat, ij: nat, nbh: int)
    requires ih < 4 && ij < 4 && 0 <= nbh <= 22528 && HighSize(ih) <= HighSize(ij)
    ensures Logsch(ih, nbh) <= Logsch(ij, nbh)
    ensures HighSize(ih) == 1616 ==> Logsch(ih, nbh) <= nbh
    ensures HighSize(ij) == 7408 ==> nbh <= Logsch(ij, nbh)
  {
  }

  /** The scale factor doubles with every 2048 of its logarithm, up to its last bit. */
  lemma ScaleDoubles(nbl: int, shift: nat)
    requires 0 <= nbl && nbl / 2048 + 1 <= shift + 1
    ensures Scalel(nbl + 2048, shift) - 2 * Scalel(nbl, shift) in {0, 8}
  {
    var (k, x) := (shift + 1 - nbl / 2048, ILB_TABLE[nbl / 64 % 32]);
    assert (nbl + 2048) / 64 % 32 == nbl / 64 % 32;
    assert (nbl + 2048) / 2048 == nbl / 2048 + 1;
    TableInRange(nbl / 64 % 32);
    var (a, b) := (P2(k - 1), P2(k));
    assert b == Times(a, 2);
    NestedDivision(x, a, 2, b);
    hide P2, Times;
  }

  /** Sample number i of the pairs taken one after the other; nothing before the first. */
  function SampleAt(samples: seq<(int, int)>, i: int): int
    requires i < 2 * |samples|
  {
    if i < 0 then 0 else if i % 2 == 0 then samples[i / 2].0 else samples[i / 2].1
  }

  /** After n pairs the transmit delay line holds the last 24 samples, the newest first. */
  lemma {:induction false} DelayLine(samples: seq<(int, int)>, n: nat, k: nat)
    requires n <= |samples| && k < 24
    ensures Encoded(samples, n).tqmf[k] == SampleAt(samples, 2 * n - 1 - k)
  {
    hide EncodeStep;
    if n > 0 {
      var e := Encoded(samples, n - 1);
      LineMoves(e, samples[n - 1].0, samples[n - 1].1, k);
      if k >= 2 {
        DelayLine(samples, n - 1, k - 2);
      }
    }
  }

  lemma LineMoves(e: Encoder, xin1: int, xin2: int, k: nat)
    requires e.Valid() && k < 24
    ensures EncodeStep(e, xin1, xin2).0.tqmf[k] == if k == 0 then xin2 else if k == 1 then xin1 else e.tqmf[k - 2]
  {
    hide LowStep, HighStep, LowIndex, HighIndex;
  }

  /** The last two partial and full reconstructions are those of the last two steps, in order, and the newest difference
    * heads the delay line. */
  lemma HistoryMoves(b: Band, d: int, sz: int, s: int, d': int, sz': int, s': int)
    requires b.Valid()
    ensures var c := Adapted(Adapted(b, d, sz, s), d', sz', s');
            && c.p1 == Wrap32(d' + sz') && c.p2 == Wrap32(d + sz)
            && c.r1 == Wrap32(s' + d') && c.r2 == Wrap32(s + d)
            && c.dltx[0] == d' && c.dltx[1] == d && c.nb == b.nb && c.det == b.det
  {
    hide Wrap32, Uppol1, Uppol2, Coefficients;
  }
}
