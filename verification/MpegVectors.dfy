/** What a stream of MPEG-2 motion vectors says: every codeword of Table B-10 of ISO/IEC 13818-2, every component and
  * every vector an encoder writes comes back. */
module MpegVectors {
  import opened Arith
  import opened BitStream
  import opened MpegBits
  import opened MpegMotion

  /** Table B-10: the codeword of a positive motion code, sign bit included. */
  function PositiveCodeword(m: nat): Token
    requires 1 <= m <= 16
  {
    match m
    case 1 => Token(2, 3)
    case 2 => Token(2, 4)
    case 3 => Token(2, 5)
    case 4 => Token(6, 7)
    case 5 => Token(10, 8)
    case 6 => Token(8, 8)
    case 7 => Token(6, 8)
    case 8 => Token(22, 10)
    case 9 => Token(20, 10)
    case 10 => Token(18, 10)
    case 11 => Token(34, 11)
    case 12 => Token(32, 11)
    case 13 => Token(30, 11)
    case 14 => Token(28, 11)
    case 15 => Token(26, 11)
    case _ => Token(24, 11)
  }

  /** The codeword of any motion code: a single one for 0, and the last bit set for a negative code. */
  function MotionCodeword(m: int): Token
    requires -16 <= m <= 16
  {
    if m == 0 then Token(1, 1)
    else if m > 0 then PositiveCodeword(m)
    else Token(PositiveCodeword(-m).value + 1, PositiveCodeword(-m).size)
  }

  /** A codeword is a zero, the table's bits and the sign. */
  lemma CodewordParts(m: nat)
    requires 1 <= m <= 16
    ensures 1 <= Codeword(m).1 <= 9
    ensures PositiveCodeword(m) == Token(2 * Codeword(m).0, Codeword(m).1 + 2) && Codeword(m).0 < P2(Codeword(m).1)
  {
    assert P2(1) == 2 && P2(2) == 4 && P2(3) == 8 && P2(5) == 32 && P2(6) == 64 && P2(8) == 256 && P2(9) == 512;
    hide P2;
    match m {
      case 1 => case 2 => case 3 => case 4 => case 5 => case 6 => case 7 => case 8 =>
      case 9 => case 10 => case 11 => case 12 => case 13 => case 14 => case 15 => case 16 =>
    }
  }

  /** A number in three parts has only one such split. */
  lemma Parts(first: nat, v: nat, s: nat, n: nat, w: nat, t: nat)
    requires first < 2 && v < P2(n) && w < P2(n) && s < 2 && t < 2
    requires Append(Append(first, n, v), 1, s) == 2 * w + t
    ensures first == 0 && v == w && s == t
  {
    assert P2(1) == 2;
    hide P2;
    assert first * P2(n) >= P2(n) || first == 0;
  }

  /** On a stream that begins with the codeword of m the motion code is m, and just the codeword is used. */
  lemma MotionCodewordDecodes(stream: Stream, a: Pending, m: int)
    requires a.Valid() && -16 <= m <= 16 && GetBits(stream, a, MotionCodeword(m).size).0 == MotionCodeword(m).value
    ensures MotionCode(stream, a) == (m, GetBits(stream, a, MotionCodeword(m).size).1)
  {
    if m == 0 {
      ZeroDecodes(stream, a);
    } else {
      NonzeroDecodes(stream, a, if m > 0 then m else -m, if m > 0 then 0 else 1);
    }
  }

  /** The single one is the motion code 0. */
  lemma ZeroDecodes(stream: Stream, a: Pending)
    requires a.Valid() && GetBits(stream, a, 1).0 == 1
    ensures MotionCode(stream, a) == (0, GetBits(stream, a, 1).1)
  {
    hide GetBits;
  }

  /** Nine bits below 12 behind a zero are no codeword: the motion code is 0 and one bit is used. */
  lemma NoCodewordIsZero(stream: Stream, a: Pending)
    requires a.Valid() && GetBits(stream, a, 1).0 == 0 && GetBits(stream, GetBits(stream, a, 1).1, 9).0 < 12
    ensures MotionCode(stream, a) == (0, GetBits(stream, a, 1).1)
  {
    hide GetBits;
  }

  /** What is read bit for bit from a stream that begins with that number. */
  lemma PartsRead(stream: Stream, a: Pending, n: nat, w: nat, t: nat)
    requires a.Valid() && t < 2 && w < P2(n) && GetBits(stream, a, n + 2).0 == 2 * w + t
    ensures var (first, b) := GetBits(stream, a, 1);
            var (v, c) := GetBits(stream, b, n);
            var (s, d) := GetBits(stream, c, 1);
            first == 0 && v == w && s == t && d == GetBits(stream, a, n + 2).1
  {
    hide GetBits, Pending.Valid;
    var (first, b) := GetBits(stream, a, 1);
    var (v, c) := GetBits(stream, b, n);
    BitsSplit(stream, a, 1, n);
    BitsSplit(stream, a, 1 + n, 1);
    StaysValid(stream, a, 1);
    StaysValid(stream, b, n);
    BitsFit(stream, a, 1);
    BitsFit(stream, b, n);
    BitsFit(stream, c, 1);
    assert P2(1) == 2;
    hide P2, Append;
    Parts(first, v, GetBits(stream, c, 1).0, n, w, t);
  }

  lemma NonzeroDecodes(stream: Stream, a: Pending, m: nat, t: nat)
    requires a.Valid() && 1 <= m <= 16 && t < 2
    requires GetBits(stream, a, PositiveCodeword(m).size).0 == PositiveCodeword(m).value + t
    ensures MotionCode(stream, a) == (if t == 0 then m else 0 - m, GetBits(stream, a, PositiveCodeword(m).size).1)
  {
    CodewordParts(m);
    var (w, n) := Codeword(m);
    hide GetBits, Pending.Valid, Codeword, PositiveCodeword, MotionCode, P2;
    PartsRead(stream, a, n, w, t);
    CodewordDecodes(stream, a, m);
  }

  /** What is sent for a component with scale factor 2^r. */
  function ComponentTokens(r: nat, motionCode: int, residual: nat): seq<Token>
    requires Legal(r, motionCode, residual)
  {
    [MotionCodeword(motionCode)] + if r != 0 && motionCode != 0 then [Token(residual, r)] else []
  }

  /** A component sent comes back as its code and residual say. */
  lemma ComponentReadBack(stream: Stream, a: Pending, pred: int, r: nat, motionCode: int, residual: nat, fullPel: bool,
                          rest: seq<Token>)
    requires a.Valid() && Legal(r, motionCode, residual)
    requires Carries(stream, a, ComponentTokens(r, motionCode, residual) + rest)
    ensures var (v, b) := Component(stream, a, pred, r, fullPel);
            && v == Decoded(pred, r, motionCode, residual, fullPel) && b.Valid() && Carries(stream, b, rest)
            && Behind(stream, a, ComponentTokens(r, motionCode, residual) + rest) == Behind(stream, b, rest)
  {
    hide GetBits, Pending.Valid, MotionCode, MotionCodeword;
    var tokens := ComponentTokens(r, motionCode, residual) + rest;
    assert tokens[0] == MotionCodeword(motionCode);
    MotionCodewordDecodes(stream, a, motionCode);
    if r != 0 && motionCode != 0 {
      assert tokens[1..][0] == Token(residual, r) && tokens[1..][1..] == rest;
    } else {
      assert tokens[1..] == rest;
      NothingSent(pred, r, motionCode, residual, fullPel);
    }
  }

  /** No residual is sent where it says nothing. */
  lemma NothingSent(pred: int, r: nat, motionCode: int, residual: nat, fullPel: bool)
    requires Legal(r, motionCode, residual) && (r == 0 || motionCode == 0)
    ensures Decoded(pred, r, motionCode, residual, fullPel) == Decoded(pred, r, motionCode, 0, fullPel)
  {
  }

  /** A component whose next bit is a one keeps its prediction, in full-pel units the even part of it. */
  lemma StillComponent(stream: Stream, a: Pending, pred: int, r: nat, fullPel: bool)
    requires a.Valid() && GetBits(stream, a, 1).0 == 1
    ensures Component(stream, a, pred, r, fullPel) ==
            (if fullPel then pred - pred % 2 else pred, GetBits(stream, a, 1).1)
  {
    ZeroDecodes(stream, a);
    hide GetBits, MotionCode, P2;
  }

  /** The differentials count up from 1 through the residuals of the first code, then through those of the next one, and
    * a negative code turns the sign. */
  lemma DifferentialsCount(r: nat, m: nat, residual: nat)
    requires 1 <= m <= 16 && residual < P2(r)
    ensures Delta(r, 1, 0) == 1 && Delta(r, 0 - m, residual) == -Delta(r, m, residual)
    ensures residual + 1 < P2(r) ==> Delta(r, m, residual + 1) == Delta(r, m, residual) + 1
    ensures residual + 1 == P2(r) ==> Delta(r, m + 1, 0) == Delta(r, m, residual) + 1
  {
    hide P2;
    assert (m - 1 + 1) * P2(r) == (m - 1) * P2(r) + P2(r);
  }

  /** The differential vectors of dual prime prediction: 0, 10 for 1 and 11 for -1. */
  function DmCodeword(d: int): Token {
    if d == 0 then Token(0, 1) else if d > 0 then Token(2, 2) else Token(3, 2)
  }

  lemma DmReadBack(stream: Stream, a: Pending, d: int, rest: seq<Token>)
    requires a.Valid() && -1 <= d <= 1 && Carries(stream, a, [DmCodeword(d)] + rest)
    ensures var (v, b) := DmVector(stream, a);
            && v == d && b.Valid() && Carries(stream, b, rest)
            && Behind(stream, a, [DmCodeword(d)] + rest) == Behind(stream, b, rest)
  {
    hide GetBits, Pending.Valid;
    var tokens := [DmCodeword(d)] + rest;
    assert tokens[1..] == rest;
    StaysValid(stream, a, 1);
    StaysValid(stream, GetBits(stream, a, 1).1, 1);
    BitsSplit(stream, a, 1, 1);
    BitsFit(stream, a, 1);
    BitsFit(stream, GetBits(stream, a, 1).1, 1);
    assert P2(1) == 2;
  }

  /** What is sent for a vector: per component its code and residual and, for dual prime, its differential. */
  datatype Sent = Sent(motionCode: int, residual: nat, differential: int) {
    predicate Valid(r: nat) {
      Legal(r, motionCode, residual) && -1 <= differential <= 1
    }
  }

  function HalfTokens(r: nat, half: Sent, dmv: bool): seq<Token>
    requires half.Valid(r)
  {
    ComponentTokens(r, half.motionCode, half.residual) + if dmv then [DmCodeword(half.differential)] else []
  }

  function VectorTokens(hR: nat, vR: nat, x: Sent, y: Sent, dmv: bool): seq<Token>
    requires x.Valid(hR) && y.Valid(vR)
  {
    HalfTokens(hR, x, dmv) + HalfTokens(vR, y, dmv)
  }

  lemma HalfReadBack(stream: Stream, a: Pending, pred: int, r: nat, half: Sent, dmv: bool, dm: int, fullPel: bool,
                     rest: seq<Token>)
    requires a.Valid() && half.Valid(r) && Carries(stream, a, HalfTokens(r, half, dmv) + rest)
    ensures var (v, b) := Component(stream, a, pred, r, fullPel);
            var (d, c) := if dmv then DmVector(stream, b) else (dm, b);
            && v == Decoded(pred, r, half.motionCode, half.residual, fullPel)
            && d == (if dmv then half.differential else dm) && c.Valid() && Carries(stream, c, rest)
            && Behind(stream, a, HalfTokens(r, half, dmv) + rest) == Behind(stream, c, rest)
  {
    hide Component, DmVector, ComponentTokens, Pending.Valid, DmCodeword, Carries, Behind, Decoded;
    var first := ComponentTokens(r, half.motionCode, half.residual);
    var later := (if dmv then [DmCodeword(half.differential)] else []) + rest;
    assert HalfTokens(r, half, dmv) + rest == first + later;
    ComponentReadBack(stream, a, pred, r, half.motionCode, half.residual, fullPel, later);
    if dmv {
      DmReadBack(stream, Component(stream, a, pred, r, fullPel).1, half.differential, rest);
    } else {
      assert later == rest;
    }
  }

  /** A vector sent comes back: both components decoded from their own predictions, the vertical one halved and doubled
    * with mvscale, the differentials as sent, and just the bits sent used. */
  lemma VectorReadBack(stream: Stream, a: Pending, pred: (int, int), dm: (int, int), hR: nat, vR: nat, dmv: bool,
                       mvscale: bool, fullPel: bool, x: Sent, y: Sent)
    requires a.Valid() && x.Valid(hR) && y.Valid(vR) && Carries(stream, a, VectorTokens(hR, vR, x, y, dmv))
    ensures var v := Decoded(if mvscale then pred.1 / 2 else pred.1, vR, y.motionCode, y.residual, fullPel);
            Vector(stream, a, pred, dm, hR, vR, dmv, mvscale, fullPel) ==
            ((Decoded(pred.0, hR, x.motionCode, x.residual, fullPel), if mvscale then v * 2 else v),
             if dmv then (x.differential, y.differential) else dm, Behind(stream, a, VectorTokens(hR, vR, x, y, dmv)))
  {
    hide Component, DmVector, HalfTokens, Pending.Valid, Carries, Behind, Decoded, Sent.Valid;
    HalfReadBack(stream, a, pred.0, hR, x, dmv, dm.0, fullPel, HalfTokens(vR, y, dmv));
    var b := Component(stream, a, pred.0, hR, fullPel).1;
    var c := if dmv then DmVector(stream, b).1 else b;
    assert HalfTokens(vR, y, dmv) + [] == HalfTokens(vR, y, dmv);
    HalfReadBack(stream, c, if mvscale then pred.1 / 2 else pred.1, vR, y, dmv, dm.1, fullPel, []);
    NothingBehind(stream, if dmv then DmVector(stream, Component(stream, c, if mvscale then pred.1 / 2 else pred.1, vR,
                                                                  fullPel).1).1
                          else Component(stream, c, if mvscale then pred.1 / 2 else pred.1, vR, fullPel).1);
  }

  lemma NothingBehind(stream: Stream, a: Pending)
    ensures Behind(stream, a, []) == a
  {
  }

  /** Every vector in range can be sent from every prediction in range, with any differentials: there is a string of
    * bits that every stream beginning with it decodes to that vector, and to nothing further. */
  lemma EveryVectorCanBeSent(pred: (int, int), target: (int, int), dm: (int, int), hR: nat, vR: nat, dmv: bool,
                             mvscale: bool) returns (x: Sent, y: Sent)
    requires InRange(pred.0, hR) && InRange(target.0, hR) && -1 <= dm.0 <= 1 && -1 <= dm.1 <= 1
    requires if mvscale then InRange(pred.1 / 2, vR) && InRange(target.1 / 2, vR) && target.1 % 2 == 0
             else InRange(pred.1, vR) && InRange(target.1, vR)
    ensures x.Valid(hR) && y.Valid(vR)
    ensures forall stream: Stream, a: Pending | a.Valid() && Carries(stream, a, VectorTokens(hR, vR, x, y, dmv)) ::
              Vector(stream, a, pred, dm, hR, vR, dmv, mvscale, false) ==
              (target, dm, Behind(stream, a, VectorTokens(hR, vR, x, y, dmv)))
  {
    hide Vector, VectorTokens, Pending.Valid, Carries, Behind, Decoded;
    var m, residual := EveryTargetIsReachable(pred.0, hR, target.0);
    x := Sent(m, residual, dm.0);
    m, residual := EveryTargetIsReachable(if mvscale then pred.1 / 2 else pred.1, vR,
                                          if mvscale then target.1 / 2 else target.1);
    y := Sent(m, residual, dm.1);
    Sendable(pred, target, dm, hR, vR, dmv, mvscale, x, y);
  }

  lemma Sendable(pred: (int, int), target: (int, int), dm: (int, int), hR: nat, vR: nat, dmv: bool, mvscale: bool,
                 x: Sent, y: Sent)
    requires x.Valid(hR) && y.Valid(vR) && dm == (x.differential, y.differential)
    requires Decoded(pred.0, hR, x.motionCode, x.residual, false) == target.0
    requires var v := Decoded(if mvscale then pred.1 / 2 else pred.1, vR, y.motionCode, y.residual, false);
             target.1 == if mvscale then v * 2 else v
    ensures forall stream: Stream, a: Pending | a.Valid() && Carries(stream, a, VectorTokens(hR, vR, x, y, dmv)) ::
              Vector(stream, a, pred, dm, hR, vR, dmv, mvscale, false) ==
              (target, dm, Behind(stream, a, VectorTokens(hR, vR, x, y, dmv)))
  {
    hide Vector, VectorTokens, Pending.Valid, Carries, Behind, Decoded, Sent.Valid;
    forall stream: Stream, a: Pending | a.Valid() && Carries(stream, a, VectorTokens(hR, vR, x, y, dmv))
      ensures Vector(stream, a, pred, dm, hR, vR, dmv, mvscale, false) ==
              (target, dm, Behind(stream, a, VectorTokens(hR, vR, x, y, dmv)))
    {
      VectorReadBack(stream, a, pred, dm, hR, vR, dmv, mvscale, false, x, y);
    }
  }
}
