/** The in-place iterative transform: bit-reversed copy, then log2(N) stages of butterflies. */
module Fft {
  import opened Arith
  import opened FftSpec

  /** Every 2^t-th of the 2^n samples, starting at r. */
  function Strided(n: nat, x: seq<Complex>, t: nat, r: nat): (y: seq<Complex>)
    requires |x| == P2(n) && t <= n && r < P2(t)
    ensures |y| == P2(n - t)
  {
    seq(P2(n - t), j requires 0 <= j < P2(n - t) => (StridedInRange(n, t, r, j); x[r + j * P2(t)]))
  }

  lemma StridedInRange(n: nat, t: nat, r: nat, j: nat)
    requires t <= n && r < P2(t) && j < P2(n - t)
    ensures r + j * P2(t) < P2(n)
  {
    P2Add(n - t, t);
    ScaleMonotone(P2(t), j + 1, P2(n - t));
  }

  lemma StridedIndices(r: nat, j: nat, p: nat)
    ensures r + 2 * j * p == r + j * (2 * p)
    ensures r + (2 * j + 1) * p == r + p + j * (2 * p)
  {
  }

  lemma P2Double(t: nat)
    ensures P2(t + 1) == 2 * P2(t)
  {
  }

  lemma StridedHalfAt(n: nat, x: seq<Complex>, t: nat, r: nat, j: nat)
    requires |x| == P2(n) && t < n && r < P2(t) && j < P2(n - t - 1)
    ensures 2 * j + 1 < P2(n - t) && r + P2(t) < P2(t + 1)
    ensures Strided(n, x, t, r)[2 * j] == Strided(n, x, t + 1, r)[j]
    ensures Strided(n, x, t, r)[2 * j + 1] == Strided(n, x, t + 1, r + P2(t))[j]
  {
    hide P2;
    P2Double(t);
    P2Double(n - t - 1);
    StridedIndices(r, j, P2(t));
  }

  lemma StridedHalves(n: nat, x: seq<Complex>, t: nat, r: nat)
    requires |x| == P2(n) && t < n && r < P2(t)
    ensures P2(n - t) % 2 == 0 && r + P2(t) < P2(t + 1)
    ensures Evens(Strided(n, x, t, r)) == Strided(n, x, t + 1, r)
    ensures Odds(Strided(n, x, t, r)) == Strided(n, x, t + 1, r + P2(t))
  {
    hide P2, Strided;
    P2Double(n - t - 1);
    P2Double(t);
    forall j | 0 <= j < P2(n - t - 1)
      ensures Strided(n, x, t, r)[2 * j] == Strided(n, x, t + 1, r)[j]
      ensures Strided(n, x, t, r)[2 * j + 1] == Strided(n, x, t + 1, r + P2(t))[j]
    {
      StridedHalfAt(n, x, t, r, j);
    }
  }

  /** Block b of length 2^s. */
  function Block(n: nat, a: seq<Complex>, s: nat, b: nat): (y: seq<Complex>)
    requires |a| == P2(n) && s <= n && b < P2(n - s)
    ensures |y| == P2(s)
  {
    BlockInRange(n, s, b);
    a[b * P2(s)..b * P2(s) + P2(s)]
  }

  lemma BlockInRange(n: nat, s: nat, b: nat)
    requires s <= n && b < P2(n - s)
    ensures b * P2(s) + P2(s) <= P2(n)
  {
    hide P2;
    P2Add(n - s, s);
    ScaleMonotone(P2(s), b + 1, P2(n - s));
    NextBlock(b, P2(s));
  }

  /** Block b of length 2^s holds the transform of the samples at one bit-reversed offset. */
  ghost predicate BlockDone(n: nat, sine: seq<int>, x: seq<Complex>, a: seq<Complex>, s: nat, b: nat)
    requires IsSineTable(sine) && n <= LOG2_PERIOD && |x| == |a| == P2(n) && s <= n && b < P2(n - s)
  {
    Block(n, a, s, b) == Transform(sine, s, Strided(n, x, n - s, Reverse(n - s, b)))
  }

  /** The state after s stages. */
  ghost predicate StagesDone(n: nat, sine: seq<int>, x: seq<Complex>, a: seq<Complex>, s: nat)
    requires IsSineTable(sine) && n <= LOG2_PERIOD && |x| == |a| == P2(n) && s <= n
  {
    forall b: nat | b < P2(n - s) :: BlockDone(n, sine, x, a, s, b)
  }

  /** Every block of length 2^(s+1) of a' is joined from its two halves in a. */
  ghost predicate Joined(n: nat, sine: seq<int>, a: seq<Complex>, a': seq<Complex>, s: nat)
    requires IsSineTable(sine) && n <= LOG2_PERIOD && |a| == |a'| == P2(n) && s < n
  {
    forall b: nat | b < P2(n - s - 1) :: JoinedAt(n, sine, a, a', s, b)
  }

  ghost predicate JoinedAt(n: nat, sine: seq<int>, a: seq<Complex>, a': seq<Complex>, s: nat, b: nat)
    requires IsSineTable(sine) && n <= LOG2_PERIOD && |a| == |a'| == P2(n) && s < n && b < P2(n - s - 1)
  {
    Block(n, a', s + 1, b) == Join(sine, s, Block(n, a, s, 2 * b), Block(n, a, s, 2 * b + 1))
  }

  lemma StageAdvances(n: nat, sine: seq<int>, x: seq<Complex>, a: seq<Complex>, a': seq<Complex>, s: nat)
    requires IsSineTable(sine) && n <= LOG2_PERIOD && |x| == |a| == |a'| == P2(n) && s < n
    requires StagesDone(n, sine, x, a, s) && Joined(n, sine, a, a', s)
    ensures StagesDone(n, sine, x, a', s + 1)
  {
    hide BlockDone, JoinedAt;
    var next := s + 1;
    forall b: nat | b < P2(n - next)
      ensures BlockDone(n, sine, x, a', next, b)
    {
      P2Double(n - s - 1);
      assert JoinedAt(n, sine, a, a', s, b);
      assert BlockDone(n, sine, x, a, s, 2 * b) && BlockDone(n, sine, x, a, s, 2 * b + 1);
      BlockAdvances(n, sine, x, a, a', s, b);
    }
  }

  lemma ReverseOfChildren(t: nat, b: nat)
    ensures Reverse(t + 1, 2 * b) == Reverse(t, b)
    ensures Reverse(t + 1, 2 * b + 1) == Reverse(t, b) + P2(t)
  {
    hide Reverse, P2;
    ReverseUnfolded(t + 1, 2 * b);
    ReverseUnfolded(t + 1, 2 * b + 1);
  }

  lemma TransformStep(sine: seq<int>, s: nat, x: seq<Complex>)
    requires IsSineTable(sine) && s < LOG2_PERIOD && |x| == P2(s + 1)
    ensures |x| % 2 == 0 && |Evens(x)| == |Odds(x)| == P2(s)
    ensures Transform(sine, s + 1, x) == Join(sine, s, Transform(sine, s, Evens(x)), Transform(sine, s, Odds(x)))
  {
  }

  lemma BlockAdvances(n: nat, sine: seq<int>, x: seq<Complex>, a: seq<Complex>, a': seq<Complex>, s: nat, b: nat)
    requires IsSineTable(sine) && n <= LOG2_PERIOD && |x| == |a| == |a'| == P2(n) && s < n
    requires 2 * b + 1 < P2(n - s) && b < P2(n - s - 1)
    requires BlockDone(n, sine, x, a, s, 2 * b) && BlockDone(n, sine, x, a, s, 2 * b + 1)
    requires JoinedAt(n, sine, a, a', s, b)
    ensures BlockDone(n, sine, x, a', s + 1, b)
  {
    hide P2, Block, Strided, Evens, Odds, Join, Transform, Reverse;
    var t, r := n - s - 1, Reverse(n - s - 1, b);
    StridedHalves(n, x, t, r);
    ReverseOfChildren(t, b);
    TransformStep(sine, s, Strided(n, x, t, r));
  }

  lemma CopyStartsStages(n: nat, sine: seq<int>, x: seq<Complex>, a: seq<Complex>)
    requires IsSineTable(sine) && n <= LOG2_PERIOD && |x| == |a| == P2(n)
    requires forall i | 0 <= i < P2(n) :: a[i] == x[Reverse(n, i)]
    ensures StagesDone(n, sine, x, a, 0)
  {
    assert P2(0) == 1;
    forall b: nat | b < P2(n)
      ensures BlockDone(n, sine, x, a, 0, b)
    {
      assert b * P2(0) == b;
      assert Block(n, a, 0, b) == [a[b]];
      assert Strided(n, x, n, Reverse(n, b)) == [x[Reverse(n, b) + 0 * P2(n)]];
    }
  }

  lemma LastStageIsTransform(n: nat, sine: seq<int>, x: seq<Complex>, a: seq<Complex>)
    requires IsSineTable(sine) && n <= LOG2_PERIOD && |x| == |a| == P2(n)
    requires StagesDone(n, sine, x, a, n)
    ensures a == Transform(sine, n, x)
  {
    assert P2(0) == 1 && Reverse(0, 0) == 0;
    assert BlockDone(n, sine, x, a, n, 0);
    assert Block(n, a, n, 0) == a;
    forall j | 0 <= j < P2(n)
      ensures Strided(n, x, 0, 0)[j] == x[j]
    {
      assert 0 + j * P2(0) == j;
    }
    assert Strided(n, x, 0, 0) == x;
  }

  /** The lower index of butterfly o in block b, for blocks of length 2 * l. */
  function Low(l: nat, b: nat, o: nat): nat {
    b * (2 * l) + o
  }

  lemma LowInRange(n: nat, s: nat, b: nat, o: nat)
    requires s < n && b < P2(n - s - 1) && o < P2(s)
    ensures Low(P2(s), b, o) + P2(s) < P2(n)
  {
    BlockInRange(n, s + 1, b);
    P2Double(s);
  }

  /** Two different butterflies of a stage touch four different positions. */
  lemma PairsDisjoint(l: nat, b: nat, o: nat, b': nat, o': nat)
    requires o < l && o' < l && (b != b' || o != o')
    ensures Low(l, b, o) != Low(l, b', o') && Low(l, b, o) + l != Low(l, b', o') && Low(l, b, o) != Low(l, b', o') + l
  {
    if b < b' {
      BlocksApart(2 * l, b, b');
    } else if b' < b {
      BlocksApart(2 * l, b', b);
    }
  }

  lemma BlocksApart(w: nat, b: nat, b': nat)
    requires b < b'
    ensures b * w + w <= b' * w
  {
    if w > 0 {
      ScaleMonotone(w, b + 1, b');
    }
    assert w * (b + 1) == b * w + w;
  }

  /** The values at butterfly (b, o). */
  function Pair(n: nat, a: seq<Complex>, s: nat, b: nat, o: nat): (Complex, Complex)
    requires |a| == P2(n) && s < n && b < P2(n - s - 1) && o < P2(s)
  {
    LowInRange(n, s, b, o);
    (a[Low(P2(s), b, o)], a[Low(P2(s), b, o) + P2(s)])
  }

  function Combined(sine: seq<int>, s: nat, o: nat, p: (Complex, Complex)): (Complex, Complex)
    requires IsSineTable(sine) && s < LOG2_PERIOD && o < P2(s)
  {
    Butterfly(sine, Twiddle(s, o), p.0, p.1)
  }

  /** Butterflies before column m, and in column m before block k, have been computed; the others not. */
  ghost predicate StageProgress(n: nat, sine: seq<int>, a: seq<Complex>, c: seq<Complex>, s: nat, m: nat, k: nat)
    requires IsSineTable(sine) && n <= LOG2_PERIOD && |a| == |c| == P2(n) && s < n
  {
    forall b: nat, o: nat | b < P2(n - s - 1) && o < P2(s) ::
      Pair(n, c, s, b, o)
      == if o < m || (o == m && b < k) then Combined(sine, s, o, Pair(n, a, s, b, o)) else Pair(n, a, s, b, o)
  }

  /** The state after butterfly (k, m) has overwritten its two positions. */
  function AfterButterfly(n: nat, sine: seq<int>, c: seq<Complex>, s: nat, m: nat, k: nat): (c': seq<Complex>)
    requires IsSineTable(sine) && n <= LOG2_PERIOD && |c| == P2(n) && s < n && k < P2(n - s - 1) && m < P2(s)
    ensures |c'| == P2(n)
  {
    LowInRange(n, s, k, m);
    var i, j := Low(P2(s), k, m), Low(P2(s), k, m) + P2(s);
    var (u, v) := Combined(sine, s, m, (c[i], c[j]));
    c[j := v][i := u]
  }

  lemma ButterflyTouchesOnePair(n: nat, sine: seq<int>, c: seq<Complex>, s: nat, m: nat, k: nat, b: nat, o: nat)
    requires IsSineTable(sine) && n <= LOG2_PERIOD && |c| == P2(n) && s < n
    requires k < P2(n - s - 1) && m < P2(s) && b < P2(n - s - 1) && o < P2(s)
    ensures Pair(n, AfterButterfly(n, sine, c, s, m, k), s, b, o)
         == if b == k && o == m then Combined(sine, s, o, Pair(n, c, s, b, o)) else Pair(n, c, s, b, o)
  {
    hide Low, P2, Combined;
    LowInRange(n, s, k, m);
    LowInRange(n, s, b, o);
    if b != k || o != m {
      PairsDisjoint(P2(s), k, m, b, o);
    }
  }

  lemma ProgressStep(n: nat, sine: seq<int>, a: seq<Complex>, c: seq<Complex>, s: nat, m: nat, k: nat)
    requires IsSineTable(sine) && n <= LOG2_PERIOD && |a| == |c| == P2(n) && s < n
    requires k < P2(n - s - 1) && m < P2(s)
    requires StageProgress(n, sine, a, c, s, m, k)
    ensures StageProgress(n, sine, a, AfterButterfly(n, sine, c, s, m, k), s, m, k + 1)
  {
    hide P2, Combined, Pair, AfterButterfly;
    var c' := AfterButterfly(n, sine, c, s, m, k);
    forall b: nat, o: nat | b < P2(n - s - 1) && o < P2(s)
      ensures Pair(n, c', s, b, o)
           == if o < m || (o == m && b < k + 1) then Combined(sine, s, o, Pair(n, a, s, b, o)) else Pair(n, a, s, b, o)
    {
      ButterflyTouchesOnePair(n, sine, c, s, m, k, b, o);
    }
  }

  lemma ProgressJoins(n: nat, sine: seq<int>, a: seq<Complex>, c: seq<Complex>, s: nat)
    requires IsSineTable(sine) && n <= LOG2_PERIOD && |a| == |c| == P2(n) && s < n
    requires StageProgress(n, sine, a, c, s, P2(s), 0)
    ensures Joined(n, sine, a, c, s)
  {
    hide JoinedAt;
    forall b: nat | b < P2(n - s - 1)
      ensures JoinedAt(n, sine, a, c, s, b)
    {
      BlockJoins(n, sine, a, c, s, b);
    }
  }

  lemma BlockJoins(n: nat, sine: seq<int>, a: seq<Complex>, c: seq<Complex>, s: nat, b: nat)
    requires IsSineTable(sine) && n <= LOG2_PERIOD && |a| == |c| == P2(n) && s < n && b < P2(n - s - 1)
    requires StageProgress(n, sine, a, c, s, P2(s), 0)
    ensures JoinedAt(n, sine, a, c, s, b)
  {
    hide P2, Combined, Block, Join;
    P2Double(n - s - 1);
    P2Double(s);
    var y, e, d := Block(n, c, s + 1, b), Block(n, a, s, 2 * b), Block(n, a, s, 2 * b + 1);
    forall o: nat | o < P2(s)
      ensures (y[o], y[o + P2(s)]) == Combined(sine, s, o, (e[o], d[o]))
    {
      assert Pair(n, c, s, b, o) == Combined(sine, s, o, Pair(n, a, s, b, o));
      PairInBlocks(n, c, s, b, o);
      PairInHalves(n, a, s, b, o);
    }
    JoinFrom(sine, s, e, d, y);
  }

  lemma PairInBlocks(n: nat, c: seq<Complex>, s: nat, b: nat, o: nat)
    requires |c| == P2(n) && s < n && b < P2(n - s - 1) && o < P2(s)
    ensures o + P2(s) < P2(s + 1)
    ensures Pair(n, c, s, b, o) == (Block(n, c, s + 1, b)[o], Block(n, c, s + 1, b)[o + P2(s)])
  {
    hide P2;
    P2Double(s);
    BlockInRange(n, s + 1, b);
  }

  lemma PairInHalves(n: nat, a: seq<Complex>, s: nat, b: nat, o: nat)
    requires |a| == P2(n) && s < n && b < P2(n - s - 1) && o < P2(s)
    ensures 2 * b + 1 < P2(n - s)
    ensures Pair(n, a, s, b, o) == (Block(n, a, s, 2 * b)[o], Block(n, a, s, 2 * b + 1)[o])
  {
    hide P2;
    P2Double(n - s - 1);
    BlockInRange(n, s, 2 * b);
    BlockInRange(n, s, 2 * b + 1);
    LowInHalves(P2(s), b);
  }

  lemma LowInHalves(l: nat, b: nat)
    ensures b * (2 * l) == 2 * b * l && (2 * b + 1) * l == b * (2 * l) + l
  {
  }

  lemma JoinFrom(sine: seq<int>, s: nat, e: seq<Complex>, d: seq<Complex>, y: seq<Complex>)
    requires IsSineTable(sine) && s < LOG2_PERIOD && |e| == |d| == P2(s) && |y| == P2(s + 1)
    requires forall o: nat | o < P2(s) :: (y[o], y[o + P2(s)]) == Combined(sine, s, o, (e[o], d[o]))
    ensures y == Join(sine, s, e, d)
  {
    hide P2, Butterfly, Twiddle;
    P2Double(s);
    forall i | 0 <= i < P2(s + 1)
      ensures y[i] == Join(sine, s, e, d)[i]
    {
      var o := if i < P2(s) then i else i - P2(s);
      assert (y[o], y[o + P2(s)]) == Combined(sine, s, o, (e[o], d[o]));
    }
  }

  /** The complex samples held in two arrays. */
  ghost function View(re: array<int>, im: array<int>): (v: seq<Complex>)
    requires re.Length == im.Length
    reads re, im
    ensures |v| == re.Length
  {
    seq(re.Length, i requires 0 <= i < re.Length reads re, im => Complex(re[i], im[i]))
  }

  /** Reverses the bits of an index below size = 2^n. */
  method NewIndex(ghost n: nat, size: nat, index: nat) returns (final: nat)
    requires size == P2(n)
    ensures final == Reverse(n, index)
  {
    var i, initial := size, index;
    final := 0;
    ghost var t := n;
    while i > 1
      invariant i == P2(t)
      invariant final + Reverse(t, initial) == Reverse(n, index)
      decreases i
    {
      t := t - 1;
      i := i / 2;
      final := final + (if initial % 2 == 1 then i else 0);
      initial := initial / 2;
    }
    PowerOfTwoIsOne(t);
  }

  lemma PowerOfTwoIsOne(t: nat)
    requires P2(t) <= 1
    ensures t == 0
  {
  }

  /** The samples in bit-reversed order. */
  method CopyReversed(ghost n: nat, size: nat, oldRe: array<int>, oldIm: array<int>, re: array<int>, im: array<int>)
    requires size == P2(n) == oldRe.Length == oldIm.Length == re.Length == im.Length
    requires re != im && re != oldRe && re != oldIm && im != oldRe && im != oldIm
    modifies re, im
    ensures forall i | 0 <= i < size :: Reverse(n, i) < size && View(re, im)[i] == View(oldRe, oldIm)[Reverse(n, i)]
  {
    hide Reverse;
    ReverseEnds(n);
    im[0] := oldIm[0];
    re[0] := oldRe[0];
    im[size - 1] := oldIm[size - 1];
    re[size - 1] := oldRe[size - 1];
    var i := 1;
    while i < size - 1
      invariant 1 <= i
      invariant forall k | 0 <= k < size && (k < i || k == size - 1) ::
        Reverse(n, k) < size && re[k] == oldRe[Reverse(n, k)] && im[k] == oldIm[Reverse(n, k)]
    {
      var j := NewIndex(n, size, i);
      im[i] := oldIm[j];
      re[i] := oldRe[j];
      i := i + 1;
    }
  }

  lemma {:induction false} ReverseEnds(n: nat)
    ensures Reverse(n, 0) == 0 && Reverse(n, P2(n) - 1) == P2(n) - 1
  {
    if n > 0 {
      P2Double(n - 1);
      hide Reverse, P2;
      ReverseEnds(n - 1);
      ReverseUnfolded(n, 0);
      LastReversed(n, P2(n) - 1, P2(n - 1));
    }
  }

  lemma LastReversed(n: nat, last: nat, p: nat)
    requires n > 0 && p == P2(n - 1) && last == 2 * p - 1 && Reverse(n - 1, p - 1) == p - 1
    ensures Reverse(n, last) == last
  {
    hide Reverse, P2;
    ReverseUnfolded(n, last);
    assert last / 2 == p - 1 && last % 2 == 1;
  }

  lemma ReverseUnfolded(n: nat, i: nat)
    requires n > 0
    ensures Reverse(n, i) == (if i % 2 == 1 then P2(n - 1) else 0) + Reverse(n - 1, i / 2)
  {
  }

  /** One butterfly, in place. */
  method ButterflyInPlace(sine: seq<int>, twiddle: nat, i: nat, j: nat, re: array<int>, im: array<int>)
    requires IsSineTable(sine) && twiddle < PERIOD / 2
    requires re.Length == im.Length && re != im && i < re.Length && j < re.Length && i != j
    modifies re, im
    ensures var (u, v) := Butterfly(sine, twiddle, old(View(re, im))[i], old(View(re, im))[j]);
            View(re, im) == old(View(re, im))[j := v][i := u]
  {
    var wIm, wRe := sine[twiddle + PERIOD / 4], sine[twiddle];
    var ti := Wrap16(FixMpy(wIm, im[j]) - FixMpy(wRe, re[j]));
    var tr := Wrap16(FixMpy(wIm, re[j]) + FixMpy(wRe, im[j]));
    var qi, qr := im[i], re[i];
    im[j] := Wrap16(qi - ti);
    re[j] := Wrap16(qr - tr);
    im[i] := Wrap16(qi + ti);
    re[i] := Wrap16(qr + tr);
  }

  lemma NextBlock(b: nat, l: nat)
    ensures (b + 1) * l == b * l + l
  {
  }

  lemma LowBeyond(n: nat, s: nat, b: nat, m: nat)
    requires s < n && m < P2(s)
    ensures Low(P2(s), b, m) < P2(n) <==> b < P2(n - s - 1)
    ensures Low(P2(s), b + 1, m) == Low(P2(s), b, m) + 2 * P2(s)
  {
    hide P2, Low;
    LowAfter(P2(s), b, m);
    if b < P2(n - s - 1) {
      LowInRange(n, s, b, m);
    } else {
      P2Double(s);
      P2Add(n - s - 1, s + 1);
      LowAbove(P2(s), P2(n - s - 1), b, m);
    }
  }

  lemma LowAfter(l: nat, b: nat, m: nat)
    ensures Low(l, b + 1, m) == Low(l, b, m) + 2 * l
  {
    NextBlock(b, 2 * l);
  }

  lemma LowAbove(l: nat, blocks: nat, b: nat, m: nat)
    requires blocks <= b
    ensures Low(l, b, m) >= blocks * (2 * l)
  {
    Grows(2 * l, blocks, b);
  }

  lemma ColumnDone(n: nat, sine: seq<int>, a: seq<Complex>, c: seq<Complex>, s: nat, m: nat, k: nat)
    requires IsSineTable(sine) && n <= LOG2_PERIOD && |a| == |c| == P2(n) && s < n
    requires k >= P2(n - s - 1) && StageProgress(n, sine, a, c, s, m, k)
    ensures StageProgress(n, sine, a, c, s, m + 1, 0)
  {
  }

  lemma NothingDone(n: nat, sine: seq<int>, a: seq<Complex>, s: nat)
    requires IsSineTable(sine) && n <= LOG2_PERIOD && |a| == P2(n) && s < n
    ensures StageProgress(n, sine, a, a, s, 0, 0)
  {
  }

  /** One stage: the two inner loops, over the columns m of a block and over the blocks. */
  method Stage(ghost n: nat, size: nat, sine: seq<int>, ghost s: nat, l: nat, k: nat, re: array<int>, im: array<int>)
    requires IsSineTable(sine) && s < n <= LOG2_PERIOD && l == P2(s) && k == LOG2_PERIOD - 1 - s
    requires size == P2(n) == re.Length == im.Length && re != im
    modifies re, im
    ensures Joined(n, sine, old(View(re, im)), View(re, im), s)
  {
    hide StageProgress, Joined, Butterfly, Pair, Low, P2, View;
    ghost var a := View(re, im);
    NothingDone(n, sine, a, s);
    var istep := l * 2;
    var m := 0;
    while m < l
      invariant m <= l
      invariant StageProgress(n, sine, a, View(re, im), s, m, 0)
    {
      var twiddle := m * P2(k);
      var i := m;
      ghost var b := 0;
      assert i == Low(l, 0, m) by { LowStart(l, m); }
      while i < size
        invariant i == Low(l, b, m)
        invariant StageProgress(n, sine, a, View(re, im), s, m, b)
        decreases size - i
      {
        LowBeyond(n, s, b, m);
        LowInRange(n, s, b, m);
        ghost var c := View(re, im);
        var j := i + l;
        TwiddleIs(s, m, twiddle);
        ButterflyInPlace(sine, twiddle, i, j, re, im);
        AfterButterflyIs(n, sine, c, s, m, b, View(re, im));
        ProgressStep(n, sine, a, c, s, m, b);
        i := i + istep;
        b := b + 1;
      }
      LowBeyond(n, s, b, m);
      ColumnDone(n, sine, a, View(re, im), s, m, b);
      m := m + 1;
    }
    ProgressJoins(n, sine, a, View(re, im), s);
  }

  lemma LowStart(l: nat, m: nat)
    ensures Low(l, 0, m) == m
  {
  }

  lemma TwiddleIs(s: nat, m: nat, j: nat)
    requires s < LOG2_PERIOD && m < P2(s) && j == m * P2(LOG2_PERIOD - 1 - s)
    ensures j == Twiddle(s, m) && j < PERIOD / 2
  {
    TwiddleInRange(s, m);
  }

  lemma AfterButterflyIs(n: nat, sine: seq<int>, c: seq<Complex>, s: nat, m: nat, k: nat, d: seq<Complex>)
    requires IsSineTable(sine) && n <= LOG2_PERIOD && |c| == P2(n) && s < n && k < P2(n - s - 1) && m < P2(s)
    requires Low(P2(s), k, m) + P2(s) < P2(n)
    requires var i, j := Low(P2(s), k, m), Low(P2(s), k, m) + P2(s);
             var (u, v) := Butterfly(sine, Twiddle(s, m), c[i], c[j]);
             d == c[j := v][i := u]
    ensures d == AfterButterfly(n, sine, c, s, m, k)
  {
    hide Low, P2, Butterfly, Twiddle;
  }

  /** The whole transform: the arrays end up holding exactly the recursive transform of the input. */
  method Fft(ghost n: nat, size: nat, sine: seq<int>, oldRe: array<int>, oldIm: array<int>, re: array<int>,
             im: array<int>)
    requires IsSineTable(sine) && n <= LOG2_PERIOD
    requires size == P2(n) == oldRe.Length == oldIm.Length == re.Length == im.Length
    requires re != im && re != oldRe && re != oldIm && im != oldRe && im != oldIm
    modifies re, im
    ensures View(re, im) == Transform(sine, n, View(oldRe, oldIm))
  {
    hide Transform, Reverse, StagesDone, Joined;
    ghost var x := View(oldRe, oldIm);
    CopyReversed(n, size, oldRe, oldIm, re, im);
    CopyStartsStages(n, sine, x, View(re, im));
    var l, k: int := 1, LOG2_PERIOD - 1;
    ghost var s := 0;
    while l < size
      invariant s <= n && l == P2(s) && k == LOG2_PERIOD - 1 - s
      invariant StagesDone(n, sine, x, View(re, im), s)
      decreases n - s
    {
      ghost var a := View(re, im);
      StageBelow(n, s);
      Stage(n, size, sine, s, l, k, re, im);
      StageAdvances(n, sine, x, a, View(re, im), s);
      k := k - 1;
      l := l * 2;
      s := s + 1;
    }
    P2Monotone(s, n);
    LastStageIsTransform(n, sine, x, View(re, im));
    assert View(oldRe, oldIm) == x;
  }

  lemma StageBelow(n: nat, s: nat)
    requires P2(s) < P2(n)
    ensures s < n
  {
    if n <= s {
      P2Monotone(n, s);
    }
  }
}
