/** One sub-band of the G.722 coder: scale factor, adaptive predictor and their updates, the same for the encoder and
  * the decoder. `long` is wide enough for every product; every value stored in an int wraps to 32 bits. */
module AdpcmBand {
  import opened Arith
  import opened AdpcmTables

  /** The predictor state of one sub-band: logarithmic scale factor and scale factor, zero coefficients with their
    * delay line, pole coefficients, and the last two partial and full reconstructions. */
  datatype Band = Band(nb: int, det: int, bpl: seq<int>, dltx: seq<int>, a1: int, a2: int, p1: int, p2: int, r1: int,
                       r2: int) {
    ghost predicate Valid() {
      |bpl| == 6 && |dltx| == 6
    }
  }

  /** The state after reset. */
  function Initial(det: int): (b: Band)
    ensures b.Valid()
  {
    Band(0, det, [0, 0, 0, 0, 0, 0], [0, 0, 0, 0, 0, 0], 0, 0, 0, 0, 0, 0)
  }

  /** The zero section: n products of coefficients and delayed differences. */
  function Dot(bpl: seq<int>, dlt: seq<int>, n: nat): int
    requires n <= |bpl| && n <= |dlt|
  {
    if n == 0 then 0 else Dot(bpl, dlt, n - 1) + bpl[n - 1] * dlt[n - 1]
  }

  function Filtez(bpl: seq<int>, dlt: seq<int>): int
    requires |bpl| == |dlt| == 6
  {
    Wrap32(Dot(bpl, dlt, 6) / 16384)
  }

  /** The pole section. */
  function Filtep(rlt1: int, al1: int, rlt2: int, al2: int): int {
    Wrap32((al1 * Wrap32(2 * rlt1) + al2 * Wrap32(2 * rlt2)) / 32768)
  }

  /** The products whose sign the adaptation looks at. */
  predicate SameSign(x: int, y: int) {
    x * y >= 0
  }

  function Clamp(x: int, lo: int, hi: int): (r: int)
    requires lo <= hi
    ensures lo <= r <= hi && (lo <= x <= hi ==> r == x)
  {
    if x > hi then hi else if x < lo then lo else x
  }

  function Logscl(il: int, nbl: int): (r: int)
    requires 0 <= il < 64
    ensures 0 <= r <= 18432
  {
    Clamp(nbl * 127 / 128 + WL_CODE_TABLE[il / 4], 0, 18432)
  }

  function Logsch(ih: int, nbh: int): (r: int)
    requires 0 <= ih < 4
    ensures 0 <= r <= 22528
  {
    Clamp(nbh * 127 / 128 + WH_CODE_TABLE[ih], 0, 22528)
  }

  /** The scale factor: the shift count is never negative for the scale factors in use. */
  function Scalel(nbl: int, shift: nat): int
    requires 0 <= nbl && nbl / 2048 <= shift + 1
  {
    ILB_TABLE[nbl / 64 % 32] / P2(shift + 1 - nbl / 2048) * 8
  }

  function Uppol2(al1: int, al2: int, plt: int, plt1: int, plt2: int): (r: int)
    ensures -12288 <= r <= 12288
  {
    var wd2 := (if SameSign(plt, plt1) then -(4 * al1) else 4 * al1) / 128;
    var wd4 := if SameSign(plt, plt2) then wd2 + 128 else wd2 - 128;
    Clamp(wd4 + 127 * al2 / 128, -12288, 12288)
  }

  function Uppol1(al1: int, apl2: int, plt: int, plt1: int): (r: int)
    requires apl2 <= 15360
    ensures -(15360 - apl2) <= r <= 15360 - apl2
  {
    Clamp(al1 * 255 / 256 + (if SameSign(plt, plt1) then 192 else -192), -(15360 - apl2), 15360 - apl2)
  }

  /** A zero coefficient after one leak and, for a nonzero difference, one step. */
  function Leaked(b: int, d: int, delayed: int): int {
    255 * b / 256 + (if d == 0 then 0 else if SameSign(d, delayed) then 128 else -128)
  }

  function Coefficients(d: int, dltx: seq<int>, bpl: seq<int>): (r: seq<int>)
    requires |bpl| == |dltx| == 6
    ensures |r| == 6
  {
    [Leaked(bpl[0], d, dltx[0]), Leaked(bpl[1], d, dltx[1]), Leaked(bpl[2], d, dltx[2]),
     Leaked(bpl[3], d, dltx[3]), Leaked(bpl[4], d, dltx[4]), Leaked(bpl[5], d, dltx[5])]
  }

  /** The delay line as the source moves it on: entry 2 is never written, so entry 3 repeats it. */
  function Delayed(d: int, dltx: seq<int>): (r: seq<int>)
    requires |dltx| == 6
    ensures |r| == 6
  {
    [d, dltx[0], dltx[2], dltx[2], dltx[3], dltx[4]]
  }

  /** The predictor after a quantized difference d, given the zero prediction and the full prediction. */
  function Adapted(b: Band, d: int, sz: int, s: int): (r: Band)
    requires b.Valid()
    ensures r.Valid()
  {
    var p := Wrap32(d + sz);
    var a2 := Uppol2(b.a1, b.a2, p, b.p1, b.p2);
    Band(b.nb, b.det, Coefficients(d, b.dltx, b.bpl), Delayed(d, b.dltx), Uppol1(b.a1, a2, p, b.p1), a2, p, b.p1,
         Wrap32(s + d), b.r1)
  }

  function ZeroPart(b: Band): int
    requires b.Valid()
  {
    Filtez(b.bpl, b.dltx)
  }

  function Prediction(b: Band): int
    requires b.Valid()
  {
    Wrap32(ZeroPart(b) + Filtep(b.r1, b.a1, b.r2, b.a2))
  }

  /** The quantized difference of the lower band for code il, and of the higher band for code ih. */
  function LowDifference(det: int, il: int): int
    requires 0 <= il < 64
  {
    Wrap32(det * QQ4_CODE4_TABLE[il / 4] / 32768)
  }

  function HighDifference(det: int, ih: int): int
    requires 0 <= ih < 4
  {
    Wrap32(det * QQ2_CODE2_TABLE[ih] / 32768)
  }

  /** The lower band after code il. */
  function LowStep(b: Band, il: int): (r: Band)
    requires b.Valid() && 0 <= il < 64
    ensures r.Valid()
  {
    var nb := Logscl(il, b.nb);
    Adapted(b.(nb := nb, det := Scalel(nb, 8)), LowDifference(b.det, il), ZeroPart(b), Prediction(b))
  }

  /** The higher band after code ih. */
  function HighStep(b: Band, ih: int): (r: Band)
    requires b.Valid() && 0 <= ih < 4
    ensures r.Valid()
  {
    var nb := Logsch(ih, b.nb);
    Adapted(b.(nb := nb, det := Scalel(nb, 10)), HighDifference(b.det, ih), ZeroPart(b), Prediction(b))
  }

  /** Inside the pole stability triangle, zero coefficients bounded, scale factors in range. */
  ghost predicate Stable(b: Band, shift: nat, top: int) {
    && b.Valid() && ((shift == 8 && top == 18432) || (shift == 10 && top == 22528))
    && 0 <= b.nb <= top && b.det == Scalel(b.nb, shift) && 1024 / P2(shift) * 8 <= b.det <= 16384
    && -12288 <= b.a2 <= 12288 && -(15360 - b.a2) <= b.a1 <= 15360 - b.a2
    && forall i | 0 <= i < 6 :: -32768 <= b.bpl[i] <= 32768
  }

  lemma ScalelInRange(nb: int, shift: nat, top: int)
    requires (shift == 8 && top == 18432) || (shift == 10 && top == 22528)
    requires 0 <= nb <= top
    ensures nb / 2048 <= shift + 1 && 1024 / P2(shift) * 8 <= Scalel(nb, shift) <= 16384
  {
    var (k, x) := (shift + 1 - nb / 2048, ILB_TABLE[nb / 64 % 32]);
    TableInRange(nb / 64 % 32);
    Powers();
    hide P2;
    if k == 0 {
      assert nb == top && x == 2048;
    } else {
      ShiftedInRange(x, k, shift);
    }
  }

  lemma TableInRange(i: nat)
    requires i < 32
    ensures 2048 <= ILB_TABLE[i] <= 4008 && ILB_TABLE[0] == 2048
  {
  }

  lemma Powers()
    ensures P2(0) == 1 && P2(1) == 2 && P2(2) == 4 && P2(3) == 8 && P2(4) == 16 && P2(5) == 32 && P2(6) == 64
    ensures P2(7) == 128 && P2(8) == 256 && P2(9) == 512 && P2(10) == 1024 && P2(11) == 2048
  {
    assert P2(3) == 8 && P2(6) == 64 && P2(9) == 512;
  }

  lemma ShiftedInRange(x: int, k: nat, shift: nat)
    requires 2048 <= x <= 4008 && 1 <= k <= shift + 1 && (shift == 8 || shift == 10)
    ensures 1024 / P2(shift) * 8 <= x / P2(k) * 8 <= 16384
  {
    Powers();
    hide P2;
    match k {
      case 1 => case 2 => case 3 => case 4 => case 5 => case 6 => case 7 => case 8 => case 9 => case 10 => case 11 =>
    }
  }

  lemma InitialIsStable()
    ensures Stable(Initial(32), 8, 18432) && Stable(Initial(8), 10, 22528)
  {
    ScaleOfZero(8);
    ScaleOfZero(10);
    Powers();
    hide P2, Scalel;
  }

  lemma ScaleOfZero(shift: nat)
    requires shift == 8 || shift == 10
    ensures Scalel(0, shift) == 1024 / P2(shift) * 8
  {
    TableInRange(0);
    Powers();
    hide P2;
  }

  lemma LeakedInRange(b: int, d: int, delayed: int)
    requires -32768 <= b <= 32768
    ensures -32768 <= Leaked(b, d, delayed) <= 32768
  {
    hide SameSign;
  }

  lemma AdaptedIsStable(b: Band, d: int, sz: int, s: int, shift: nat, top: int)
    requires Stable(b, shift, top)
    ensures Stable(Adapted(b, d, sz, s), shift, top)
  {
    hide Leaked, Scalel, P2, Uppol1, Uppol2, Wrap32;
    forall i | 0 <= i < 6
      ensures -32768 <= Coefficients(d, b.dltx, b.bpl)[i] <= 32768
    {
      LeakedInRange(b.bpl[i], d, if i == 5 then b.dltx[5] else b.dltx[i]);
    }
  }

  /** One step keeps the lower band stable, whatever the code. */
  lemma LowStepIsStable(b: Band, il: int)
    requires Stable(b, 8, 18432) && 0 <= il < 64
    ensures Stable(LowStep(b, il), 8, 18432)
  {
    hide Logscl, Scalel, P2, Adapted;
    var nb := Logscl(il, b.nb);
    ScalelInRange(nb, 8, 18432);
    AdaptedIsStable(b.(nb := nb, det := Scalel(nb, 8)), LowDifference(b.det, il), ZeroPart(b), Prediction(b), 8, 18432);
  }

  lemma HighStepIsStable(b: Band, ih: int)
    requires Stable(b, 10, 22528) && 0 <= ih < 4
    ensures Stable(HighStep(b, ih), 10, 22528)
  {
    hide Logsch, Scalel, P2, Adapted;
    var nb := Logsch(ih, b.nb);
    ScalelInRange(nb, 10, 22528);
    AdaptedIsStable(b.(nb := nb, det := Scalel(nb, 10)), HighDifference(b.det, ih), ZeroPart(b), Prediction(b), 10,
                    22528);
  }

  /** The globals of one predictor. The source keeps four copies of them: two bands, encoder and decoder. */
  class Predictor {
    var nb: int
    var det: int
    const bpl: array<int>
    const dltx: array<int>
    var a1: int
    var a2: int
    var p1: int
    var p2: int
    var r1: int
    var r2: int

    ghost predicate Valid() {
      bpl.Length == 6 && dltx.Length == 6 && bpl != dltx
    }

    ghost function Repr(): set<object> {
      {this, bpl, dltx}
    }

    ghost function View(): (b: Band)
      requires Valid()
      reads this, bpl, dltx
      ensures b.Valid()
    {
      Band(nb, det, bpl[..], dltx[..], a1, a2, p1, p2, r1, r2)
    }

    constructor ()
      ensures Valid() && fresh(bpl) && fresh(dltx)
    {
      bpl, dltx := new int[6], new int[6];
      nb, det, a1, a2, p1, p2, r1, r2 := 0, 0, 0, 0, 0, 0, 0, 0;
    }

    method Reset(minimum: int)
      requires Valid()
      modifies this, bpl, dltx
      ensures View() == Initial(minimum)
    {
      det := minimum;
      nb, a1, a2, p1, p2, r1, r2 := 0, 0, 0, 0, 0, 0, 0;
      var i := 0;
      while i < 6
        invariant i <= 6 && forall k | 0 <= k < i :: bpl[k] == 0 && dltx[k] == 0
        modifies bpl, dltx
      {
        bpl[i], dltx[i] := 0, 0;
        i := i + 1;
      }
    }

    method ComputeZeroPart() returns (sz: int)
      requires Valid()
      ensures sz == ZeroPart(View())
    {
      var zl := bpl[0] * dltx[0];
      assert Dot(bpl[..], dltx[..], 1) == Dot(bpl[..], dltx[..], 0) + bpl[0] * dltx[0];
      var i := 1;
      while i < 6
        invariant 1 <= i <= 6 && zl == Dot(bpl[..], dltx[..], i)
      {
        zl := zl + bpl[i] * dltx[i];
        i := i + 1;
      }
      sz := Wrap32(zl / 16384);
    }

    /** Updates the zero coefficients and the delay line. */
    method Upzero(d: int)
      requires Valid()
      modifies bpl, dltx
      ensures bpl[..] == Coefficients(d, old(dltx[..]), old(bpl[..])) && dltx[..] == Delayed(d, old(dltx[..]))
    {
      hide Leaked;
      var i := 0;
      while i < 6
        invariant i <= 6 && dltx[..] == old(dltx[..])
        invariant forall k | 0 <= k < 6 :: bpl[k] == if k < i then Leaked(old(bpl[k]), d, dltx[k]) else old(bpl[k])
      {
        bpl[i] := LeakOne(bpl[i], d, dltx[i]);
        i := i + 1;
      }
      dltx[5] := dltx[4];
      dltx[4] := dltx[3];
      dltx[3] := dltx[2];
      dltx[1] := dltx[0];
      dltx[0] := d;
    }

    method LeakOne(b: int, d: int, delayed: int) returns (r: int)
      ensures r == Leaked(b, d, delayed)
    {
      if d == 0 {
        r := 255 * b / 256;
      } else {
        var wd2;
        if d * delayed >= 0 {
          wd2 := 128;
        } else {
          wd2 := -128;
        }
        var wd3 := 255 * b / 256;
        r := wd2 + wd3;
      }
    }

    /** Partial reconstruction, coefficient updates, full reconstruction and delays. */
    method Adapt(d: int, sz: int, s: int)
      requires Valid()
      modifies this, bpl, dltx
      ensures View() == Adapted(old(View()), d, sz, s)
    {
      hide Wrap32, Uppol1, Uppol2, Coefficients, Delayed;
      var p := Wrap32(d + sz);
      Upzero(d);
      a2 := Uppol2(a1, a2, p, p1, p2);
      a1 := Uppol1(a1, a2, p, p1);
      var r := Wrap32(s + d);
      r2 := r1;
      r1 := r;
      p2 := p1;
      p1 := p;
    }
  }
}
