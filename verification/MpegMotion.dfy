/** MPEG-2 motion vectors: the motion code of Table B-10 and the vector arithmetic of section 7.6.3.1 of ISO/IEC
  * 13818-2. */
module MpegMotion {
  import opened Arith
  import opened BitStream
  import opened MpegBits

  const MVTAB0: seq<(int, nat)> := [(-1, 0), (3, 3), (2, 2), (2, 2), (1, 1), (1, 1), (1, 1), (1, 1)]

  const MVTAB1: seq<(int, nat)> := [(-1, 0), (-1, 0), (-1, 0), (7, 6), (6, 6), (5, 6), (4, 5), (4, 5)]

  const MVTAB2: seq<(int, nat)> := [
    (16, 9), (15, 9), (14, 9), (13, 9), (12, 9), (11, 9), (10, 8), (10, 8), (9, 8), (9, 8), (8, 8), (8, 8)
  ]

  /** The table entry for nine bits read ahead, if the bits begin a codeword. */
  function Entry(code: nat): (e: (int, nat))
    requires 12 <= code < 512
    ensures 1 <= e.0 <= 16 && 1 <= e.1 <= 9
  {
    if code >= 64 then MVTAB0[code / 64] else if code >= 24 then MVTAB1[code / 8] else MVTAB2[code - 12]
  }

  /** The motion code at a and the position behind it. Nine bits below 12 are no codeword: the result is 0 and only the
    * first bit is consumed. */
  function MotionCode(stream: Stream, a: Pending): (r: (int, Pending))
    requires a.Valid()
    ensures -16 <= r.0 <= 16
  {
    var (first, b) := GetBits(stream, a, 1);
    if first != 0 then (0, b)
    else
      StaysValid(stream, a, 1);
      BitsFit(stream, b, 9);
      var code := GetBits(stream, b, 9).0;
      if code < 12 then (0, b)
      else
        NineBits(code);
        var (m, n) := Entry(code);
        var (s, c) := GetBits(stream, GetBits(stream, b, n).1, 1);
        (if s != 0 then -m else m, c)
  }

  lemma NineBits(code: nat)
    ensures code < P2(9) ==> code < 512
  {
    assert P2(9) == 512;
  }

  /** Table B-10 without the leading zero and the sign: the value and length of the codeword for magnitude m. */
  function Codeword(m: nat): (nat, nat)
    requires 1 <= m <= 16
  {
    if m <= 3 then (1, m)
    else if m == 4 then (3, 5)
    else if m <= 7 then (10 - m, 6)
    else if m <= 10 then (19 - m, 8)
    else (28 - m, 9)
  }

  /** The nine bits read ahead lead to the entry of the codeword they begin with. */
  lemma EntryOfCodeword(m: nat, code: nat)
    requires 1 <= m <= 16
    requires var (v, n) := Codeword(m); n <= 9 && v * P2(9 - n) <= code < (v + 1) * P2(9 - n)
    ensures 12 <= code < 512 && Entry(code) == (m, Codeword(m).1)
  {
    assert P2(0) == 1 && P2(1) == 2 && P2(3) == 8 && P2(4) == 16 && P2(6) == 64 && P2(7) == 128 && P2(8) == 256;
    hide P2;
    match m {
      case 1 => case 2 => case 3 => case 4 => case 5 => case 6 => case 7 => case 8 =>
      case 9 => case 10 => case 11 => case 12 => case 13 => case 14 => case 15 => case 16 =>
    }
  }

  /** On a stream with a zero, the codeword for m and a sign bit, the motion code is m or -m and just those bits are
    * used. */
  lemma CodewordDecodes(stream: Stream, a: Pending, m: nat)
    requires a.Valid() && 1 <= m <= 16 && GetBits(stream, a, 1).0 == 0
    requires GetBits(stream, GetBits(stream, a, 1).1, Codeword(m).1).0 == Codeword(m).0
    ensures var (s, c) := GetBits(stream, GetBits(stream, GetBits(stream, a, 1).1, Codeword(m).1).1, 1);
            MotionCode(stream, a) == (if s != 0 then 0 - m else m, c)
  {
    hide GetBits, Pending.Valid, Entry;
    var b := GetBits(stream, a, 1).1;
    StaysValid(stream, a, 1);
    CodewordLength(m);
    PrefixBits(stream, b, Codeword(m).1, 9);
    EntryOfCodeword(m, GetBits(stream, b, 9).0);
  }

  lemma CodewordLength(m: nat)
    requires 1 <= m <= 16
    ensures 1 <= Codeword(m).1 <= 9
  {
  }

  /** The differential of section 7.6.3.1 for scale factor f = 2^r. */
  function Delta(r: nat, motionCode: int, residual: nat): int {
    if motionCode == 0 then 0
    else if motionCode > 0 then (motionCode - 1) * P2(r) + residual + 1
    else -((-motionCode - 1) * P2(r) + residual + 1)
  }

  function Limit(r: nat): (lim: int)
    ensures lim >= 16
  {
    16 * P2(r)
  }

  /** The sum of prediction and differential, turned back by one range on the side the code can overshoot. */
  function Wrapped(vec: int, lim: int, motionCode: int): int {
    if motionCode > 0 && vec >= lim then vec - (lim + lim)
    else if motionCode < 0 && vec < -lim then vec + (lim + lim)
    else vec
  }

  /** The decoded component. */
  function Decoded(pred: int, r: nat, motionCode: int, residual: nat, fullPel: bool): int {
    var vec := Wrapped((if fullPel then pred / 2 else pred) + Delta(r, motionCode, residual), Limit(r), motionCode);
    if fullPel then vec * 2 else vec
  }

  /** A motion code and residual as the bit stream can carry them. */
  predicate Legal(r: nat, motionCode: int, residual: nat) {
    -16 <= motionCode <= 16 && residual < P2(r)
  }

  predicate InRange(vec: int, r: nat) {
    -Limit(r) <= vec < Limit(r)
  }

  lemma DeltaInRange(r: nat, motionCode: int, residual: nat)
    requires Legal(r, motionCode, residual)
    ensures -Limit(r) <= Delta(r, motionCode, residual) <= Limit(r)
  {
    hide P2;
    if motionCode != 0 {
      var steps := if motionCode > 0 then motionCode - 1 else -motionCode - 1;
      assert Times(steps, P2(r)) == steps * P2(r) && Times(P2(r), 16) == Limit(r);
      TimesBelow(steps, residual, P2(r), 16);
    }
  }

  lemma DeltaSign(r: nat, motionCode: int, residual: nat)
    ensures motionCode == 0 ==> Delta(r, motionCode, residual) == 0
    ensures motionCode > 0 ==> Delta(r, motionCode, residual) > 0
    ensures motionCode < 0 ==> Delta(r, motionCode, residual) < 0
  {
    hide P2;
    if motionCode > 0 {
      ScaleMonotone(P2(r), 0, motionCode - 1);
    } else if motionCode < 0 {
      ScaleMonotone(P2(r), 0, -motionCode - 1);
    }
  }

  /** The decoded vector is in range and equals prediction plus differential modulo the range. */
  lemma DecodedInRange(pred: int, r: nat, motionCode: int, residual: nat)
    requires InRange(pred, r) && Legal(r, motionCode, residual)
    ensures var vec := Decoded(pred, r, motionCode, residual, false);
            && InRange(vec, r)
            && exists turns :: vec == pred + Delta(r, motionCode, residual) + 2 * Limit(r) * turns
  {
    hide Limit, P2;
    DeltaInRange(r, motionCode, residual);
    DeltaSign(r, motionCode, residual);
    hide Delta;
    var sum := pred + Delta(r, motionCode, residual);
    var turns := if sum >= Limit(r) then -1 else if sum < -Limit(r) then 1 else 0;
    assert Decoded(pred, r, motionCode, residual, false) == sum + 2 * Limit(r) * turns;
  }

  /** A component as it is kept: in full-pel units its half is what lies in range. */
  predicate Kept(vec: int, r: nat, fullPel: bool) {
    InRange(if fullPel then vec / 2 else vec, r)
  }

  /** In full-pel units the decoded component is even, lies in twice the range, and equals the even part of the
    * prediction plus twice the differential, modulo twice the range. */
  lemma FullPel(pred: int, r: nat, motionCode: int, residual: nat)
    requires Kept(pred, r, true) && Legal(r, motionCode, residual)
    ensures var vec := Decoded(pred, r, motionCode, residual, true);
            && vec % 2 == 0 && -2 * Limit(r) <= vec < 2 * Limit(r) && Kept(vec, r, true)
            && exists turns :: vec == pred - pred % 2 + 2 * Delta(r, motionCode, residual) + 4 * Limit(r) * turns
  {
    hide Delta, Limit;
    DecodedInRange(pred / 2, r, motionCode, residual);
    var half := Decoded(pred / 2, r, motionCode, residual, false);
    var turns :| half == pred / 2 + Delta(r, motionCode, residual) + 2 * Limit(r) * turns;
    assert Decoded(pred, r, motionCode, residual, true) == 2 * half;
    TwiceTurns(Limit(r), turns);
  }

  lemma TwiceTurns(lim: int, turns: int)
    ensures 2 * (2 * lim * turns) == 4 * lim * turns
  {
  }

  lemma DecodedKept(pred: int, r: nat, motionCode: int, residual: nat, fullPel: bool)
    requires Kept(pred, r, fullPel) && Legal(r, motionCode, residual)
    ensures Kept(Decoded(pred, r, motionCode, residual, fullPel), r, fullPel)
  {
    hide Delta, Limit, Decoded;
    if fullPel {
      FullPel(pred, r, motionCode, residual);
    } else {
      DecodedInRange(pred, r, motionCode, residual);
    }
  }

  /** Every vector in range can be reached from every prediction in range. */
  lemma EveryTargetIsReachable(pred: int, r: nat, target: int) returns (motionCode: int, residual: nat)
    requires InRange(pred, r) && InRange(target, r)
    ensures Legal(r, motionCode, residual) && Decoded(pred, r, motionCode, residual, false) == target
  {
    var lim, f := Limit(r), P2(r);
    hide P2;
    var d := target - pred;
    d := if d >= lim then d - 2 * lim else if d < -lim then d + 2 * lim else d;
    if d == 0 {
      motionCode, residual := 0, 0;
    } else {
      var x: nat := if d > 0 then d - 1 else -d - 1;
      DivMod(x, f);
      if x / f >= 16 {
        ScaleMonotone(f, 16, x / f);
      }
      residual := x % f;
      motionCode := if d > 0 then x / f + 1 else -(x / f + 1);
    }
    assert Delta(r, motionCode, residual) == d;
    DeltaSign(r, motionCode, residual);
  }

  /** No intermediate value of the arithmetic leaves 32 bits for sizes up to 25. */
  lemma FitsInt(pred: int, r: nat, motionCode: int, residual: nat)
    requires r <= 25 && InRange(pred, r) && Legal(r, motionCode, residual)
    ensures 2 * Limit(r) <= 0x4000_0000 && -0x4000_0000 <= pred + Delta(r, motionCode, residual) <= 0x4000_0000
  {
    P2Monotone(r, 25);
    assert P2(5) == 32;
    P2Square(5, 32);
    P2Square(10, 1024);
    P2Add(20, 5);
    hide P2, Delta;
    DeltaInRange(r, motionCode, residual);
  }

  method DecodeMotionVector(pmv: array<int>, i: nat, rSize: nat, motionCode: int, residual: nat, fullPel: bool)
    requires i < pmv.Length && Legal(rSize % 32, motionCode, residual)
    modifies pmv
    ensures pmv[..] == old(pmv[..])[i := Decoded(old(pmv[i]), rSize % 32, motionCode, residual, fullPel)]
  {
    hide P2;
    var r := rSize % 32;
    DeltaSign(r, motionCode, residual);
    var lim := 16 * P2(r);
    var vec := if fullPel then pmv[i] / 2 else pmv[i];
    if motionCode > 0 {
      vec := vec + ((motionCode - 1) * P2(r) + residual + 1);
      if vec >= lim {
        vec := vec - (lim + lim);
      }
    } else if motionCode < 0 {
      vec := vec - ((-motionCode - 1) * P2(r) + residual + 1);
      if vec < -lim {
        vec := vec + (lim + lim);
      }
    }
    pmv[i] := if fullPel then vec * 2 else vec;
  }

  /** Reads one motion code. */
  method GetMotionCode(buffer: BitBuffer) returns (motionCode: int)
    requires buffer.Valid()
    modifies buffer, buffer.rdbfr
    ensures buffer.Valid() && buffer.at.Valid() && old(buffer.at).Valid()
    ensures (motionCode, buffer.at) == MotionCode(buffer.stream, old(buffer.at))
  {
    hide GetBits, Pending.Valid, Entry;
    ghost var (stream, a) := (buffer.stream, buffer.at);
    StaysValid(stream, a, 1);
    var first := buffer.GetBits(1);
    if first != 0 {
      return 0;
    }
    BitsFit(stream, buffer.at, 9);
    var code := buffer.ShowBits(9);
    NineBits(code);
    if code < 12 {
      return 0;
    }
    var e := Entry(code);
    StaysValid(stream, buffer.at, e.1);
    buffer.FlushBuffer(e.1);
    StaysValid(stream, buffer.at, 1);
    var sign := buffer.GetBits(1);
    motionCode := if sign != 0 then -e.0 else e.0;
  }

  /** The differential vector used by dual prime prediction: 0, 10 or 11 in the stream for 0, 1 or -1. */
  function DmVector(stream: Stream, a: Pending): (int, Pending) {
    var (first, b) := GetBits(stream, a, 1);
    if first != 0 then
      var (second, c) := GetBits(stream, b, 1);
      (if second != 0 then -1 else 1, c)
    else (0, b)
  }

  method GetDmvector(buffer: BitBuffer) returns (d: int)
    requires buffer.Valid()
    modifies buffer, buffer.rdbfr
    ensures buffer.Valid() && (d, buffer.at) == DmVector(buffer.stream, old(buffer.at))
  {
    hide GetBits;
    var first := buffer.GetBits(1);
    if first != 0 {
      var second := buffer.GetBits(1);
      d := if second != 0 then -1 else 1;
    } else {
      d := 0;
    }
  }

  /** Code, residual and decoded vector of one component. */
  function Component(stream: Stream, a: Pending, pred: int, r: nat, fullPel: bool): (v: (int, Pending))
    requires a.Valid()
    ensures v.1.Valid()
  {
    var (motionCode, b) := MotionCode(stream, a);
    MotionCodeStaysValid(stream, a);
    var (residual, c) := if r != 0 && motionCode != 0 then GetBits(stream, b, r) else (0, b);
    StaysValid(stream, b, r);
    (Decoded(pred, r, motionCode, residual, fullPel), c)
  }

  lemma MotionCodeStaysValid(stream: Stream, a: Pending)
    requires a.Valid()
    ensures MotionCode(stream, a).1.Valid()
  {
    hide GetBits, Pending.Valid, Entry;
    StaysValid(stream, a, 1);
    var b := GetBits(stream, a, 1).1;
    BitsFit(stream, b, 9);
    var code := GetBits(stream, b, 9).0;
    NineBits(code);
    if code >= 12 {
      StaysValid(stream, b, Entry(code).1);
      StaysValid(stream, GetBits(stream, b, Entry(code).1).1, 1);
    }
  }

  /** Whatever the stream holds, a component in range stays in range. */
  lemma ComponentKept(stream: Stream, a: Pending, pred: int, r: nat, fullPel: bool)
    requires a.Valid() && Kept(pred, r, fullPel)
    ensures Kept(Component(stream, a, pred, r, fullPel).0, r, fullPel)
  {
    hide GetBits, P2, Kept, Decoded, MotionCode, Pending.Valid;
    var (motionCode, b) := MotionCode(stream, a);
    MotionCodeStaysValid(stream, a);
    BitsFit(stream, b, r);
    ResidualFits(r);
    var residual := if r != 0 && motionCode != 0 then GetBits(stream, b, r).0 else 0;
    DecodedKept(pred, r, motionCode, residual, fullPel);
  }

  lemma ResidualFits(r: nat)
    ensures 0 < P2(r)
  {
  }

  /** One component of motion_vector: the residual is read only when there is something to add. */
  method DecodeComponent(buffer: BitBuffer, pmv: array<int>, i: nat, rSize: nat, fullPel: bool)
    requires buffer.Valid() && i < pmv.Length && rSize <= 25
    modifies buffer, buffer.rdbfr, pmv
    ensures buffer.Valid() && old(buffer.at).Valid()
    ensures var (vec, b) := Component(buffer.stream, old(buffer.at), old(pmv[i]), rSize, fullPel);
            pmv[..] == old(pmv[..])[i := vec] && buffer.at == b
  {
    hide GetBits, P2, MotionCode, Decoded, Pending.Valid;
    var motionCode := GetMotionCode(buffer);
    var residual := 0;
    if rSize != 0 && motionCode != 0 {
      BitsFit(buffer.stream, buffer.at, rSize);
      residual := buffer.GetBits(rSize);
    }
    DecodeMotionVector(pmv, i, rSize, motionCode, residual, fullPel);
  }

  /** A vector, its differential vector and the position behind them: pred and dm are what the arrays held before. With
    * mvscale the vertical prediction is halved and the vertical result doubled. */
  function Vector(stream: Stream, a: Pending, pred: (int, int), dm: (int, int), hR: nat, vR: nat, dmv: bool,
                  mvscale: bool, fullPel: bool): ((int, int), (int, int), Pending)
    requires a.Valid()
  {
    var (x, b) := Component(stream, a, pred.0, hR, fullPel);
    var (dx, c) := if dmv then DmVector(stream, b) else (dm.0, b);
    DmVectorStaysValid(stream, b);
    var (y, d) := Component(stream, c, if mvscale then pred.1 / 2 else pred.1, vR, fullPel);
    var (dy, e) := if dmv then DmVector(stream, d) else (dm.1, d);
    ((x, if mvscale then y * 2 else y), (dx, dy), e)
  }

  lemma DmVectorStaysValid(stream: Stream, a: Pending)
    requires a.Valid()
    ensures DmVector(stream, a).1.Valid()
  {
    hide GetBits, Pending.Valid;
    StaysValid(stream, a, 1);
    StaysValid(stream, GetBits(stream, a, 1).1, 1);
  }

  /** Whatever the stream holds, both components of a vector in range stay in range, the vertical one in field units
    * where it is scaled. */
  lemma VectorKept(stream: Stream, a: Pending, pred: (int, int), dm: (int, int), hR: nat, vR: nat, dmv: bool,
                   mvscale: bool, fullPel: bool)
    requires a.Valid() && Kept(pred.0, hR, fullPel) && Kept(if mvscale then pred.1 / 2 else pred.1, vR, fullPel)
    ensures var (x, y) := Vector(stream, a, pred, dm, hR, vR, dmv, mvscale, fullPel).0;
            Kept(x, hR, fullPel) && Kept(if mvscale then y / 2 else y, vR, fullPel)
  {
    hide Component, Kept, DmVector, Pending.Valid;
    ComponentKept(stream, a, pred.0, hR, fullPel);
    var b := Component(stream, a, pred.0, hR, fullPel).1;
    DmVectorStaysValid(stream, b);
    var c := if dmv then DmVector(stream, b).1 else b;
    ComponentKept(stream, c, if mvscale then pred.1 / 2 else pred.1, vR, fullPel);
  }

  /** Both components of one vector with their optional differentials. */
  method MotionVector(buffer: BitBuffer, pmv: array<int>, dmvector: array<int>, hRSize: nat, vRSize: nat, dmv: bool,
                      mvscale: bool, fullPel: bool)
    requires buffer.Valid() && pmv.Length == dmvector.Length == 2 && pmv != dmvector && hRSize <= 25 && vRSize <= 25
    modifies buffer, buffer.rdbfr, pmv, dmvector
    ensures buffer.Valid() && old(buffer.at).Valid()
    ensures var v := Vector(buffer.stream, old(buffer.at), (old(pmv[0]), old(pmv[1])),
                            (old(dmvector[0]), old(dmvector[1])),
                            hRSize, vRSize, dmv, mvscale, fullPel);
            pmv[..] == [v.0.0, v.0.1] && dmvector[..] == [v.1.0, v.1.1] && buffer.at == v.2
  {
    hide Component, DmVector, Pending.Valid;
    DecodeComponent(buffer, pmv, 0, hRSize, fullPel);
    if dmv {
      dmvector[0] := GetDmvector(buffer);
    }
    if mvscale {
      pmv[1] := pmv[1] / 2;
    }
    DecodeComponent(buffer, pmv, 1, vRSize, fullPel);
    if mvscale {
      pmv[1] := pmv[1] * 2;
    }
    if dmv {
      dmvector[1] := GetDmvector(buffer);
    }
  }
}
