/** Single-source shortest paths by repeated relaxation of all edges, with the largest int as infinity. */
module BellmanFord {
  import opened Arith
  import opened Walks

  const INFINITY: int := 0x7FFF_FFFF

  /** No weight exceeds w in size, and w is small enough that no relaxation leaves the int range or reaches INFINITY. */
  ghost predicate WeightsFit(g: seq<Edge>, n: nat, src: nat, w: nat) {
    (forall e | 0 <= e < |g| :: -(w as int) <= g[e].weight <= w) && (LongestRecorded(g, n, src) + 2) * w < INFINITY
  }

  /** How long the walk behind a distance can become: only a negative cycle makes distances follow longer walks than
    * there are vertices. */
  ghost function LongestRecorded(g: seq<Edge>, n: nat, src: nat): nat {
    if HasNegativeCycle(g, src) then Relaxations(n, |g|) else n
  }

  /** How many times an edge is looked at in the given number of passes. */
  function Relaxations(passes: nat, edgecount: nat): nat {
    passes * edgecount
  }

  /** A finite distance is the weight of a known walk of at most len edges; without negative cycles the walk meets no
    * vertex twice. */
  ghost predicate Sound(g: seq<Edge>, n: nat, src: nat, d: seq<int>, walks: seq<seq<nat>>, len: nat) {
    && |d| == |walks| == n
    && (forall v | 0 <= v < n && d[v] != INFINITY :: KnownWalk(g, src, v, d[v], walks[v], len))
    && (!HasNegativeCycle(g, src) ==> forall v | 0 <= v < n && d[v] != INFINITY :: Loopless(g, src, d, walks[v]))
  }

  /** The walk meets no vertex twice, and no vertex on it has a distance above the weight of the way there. */
  ghost predicate Loopless(g: seq<Edge>, src: nat, d: seq<int>, p: seq<nat>) {
    && IsChain(g, src, p)
    && (forall i, j | 0 <= i < j <= |p| :: At(g, src, p, i) != At(g, src, p, j))
    && (forall k | 0 <= k <= |p| :: AtMost(g, src, d, p, k))
  }

  ghost predicate AtMost(g: seq<Edge>, src: nat, d: seq<int>, p: seq<nat>, k: nat)
    requires IsChain(g, src, p) && k <= |p|
  {
    At(g, src, p, k) < |d| && d[At(g, src, p, k)] <= Weight(g, p[..k])
  }

  ghost predicate KnownWalk(g: seq<Edge>, src: nat, v: nat, weight: int, p: seq<nat>, len: nat) {
    IsWalk(g, src, p, v) && Weight(g, p) == weight && |p| <= len
  }

  /** No walk of at most len edges is lighter than the recorded distance. */
  ghost predicate Complete(g: seq<Edge>, n: nat, src: nat, d: seq<int>, len: nat) {
    && |d| == n
    && forall v: nat, p: seq<nat> ::
      IsWalk(g, src, p, v) && |p| <= len ==> v < n && d[v] != INFINITY && d[v] <= Weight(g, p)
  }

  lemma {:induction false} WeightBound(g: seq<Edge>, p: seq<nat>, w: nat)
    requires forall e | 0 <= e < |g| :: -(w as int) <= g[e].weight <= w
    requires forall k | 0 <= k < |p| :: p[k] < |g|
    ensures -((|p| * w) as int) <= Weight(g, p) <= |p| * w
    decreases |p|
  {
    if p != [] {
      WeightBound(g, p[..|p| - 1], w);
      assert |p| * w == (|p| - 1) * w + w;
    }
  }

  /** Finite distances stay far from the ends of the int range. */
  lemma DistanceBound(g: seq<Edge>, n: nat, src: nat, d: seq<int>, walks: seq<seq<nat>>, len: nat, w: nat, v: nat)
    requires OnVertices(g, n) && src < n
    requires Sound(g, n, src, d, walks, len) && WeightsFit(g, n, src, w) && len <= Relaxations(n, |g|)
    requires v < n && d[v] != INFINITY
    ensures -INFINITY < d[v] - 2 * w && d[v] + 2 * w < INFINITY
  {
    hide Relaxations, HasNegativeCycle, Loopless, IsWalk, Weight;
    assert KnownWalk(g, src, v, d[v], walks[v], len);
    if !HasNegativeCycle(g, src) {
      LooplessIsShort(g, n, src, d, walks[v]);
    }
    KnownBound(g, src, v, d[v], walks[v], len, w);
    BoundProduct(|walks[v]|, LongestRecorded(g, n, src), w);
  }

  lemma KnownBound(g: seq<Edge>, src: nat, v: nat, weight: int, p: seq<nat>, len: nat, w: nat)
    requires KnownWalk(g, src, v, weight, p, len) && forall e | 0 <= e < |g| :: -(w as int) <= g[e].weight <= w
    ensures -((|p| * w) as int) <= weight <= |p| * w
  {
    WeightBound(g, p, w);
  }

  lemma LooplessIsShort(g: seq<Edge>, n: nat, src: nat, d: seq<int>, p: seq<nat>)
    requires OnVertices(g, n) && src < n && Loopless(g, src, d, p)
    ensures |p| < n
  {
    if |p| >= n {
      var i, j := LongWalkRepeats(g, n, src, p, At(g, src, p, |p|));
      assert false;
    }
  }

  /** Without negative cycles a relaxation never leads back to a vertex of the walk it extends. */
  lemma StaysLoopless(g: seq<Edge>, src: nat, d: seq<int>, p: seq<nat>, e: nat, d': seq<int>)
    requires !HasNegativeCycle(g, src) && Loopless(g, src, d, p) && e < |g| && g[e].dest < |d|
    requires g[e].source == At(g, src, p, |p|) && Weight(g, p) + g[e].weight < d[g[e].dest]
    requires d' == d[g[e].dest := Weight(g, p) + g[e].weight]
    ensures Loopless(g, src, d', p + [e])
  {
    hide At, Weight, AtMost;
    var v, q := g[e].dest, p + [e];
    WalkExtends(g, src, p, g[e].source, e);
    forall k: nat | k <= |q|
      ensures At(g, src, q, k) == (if k <= |p| then At(g, src, p, k) else v)
      ensures k <= |p| ==> At(g, src, p, k) != v
      ensures AtMost(g, src, d', q, k)
    {
      if k <= |p| {
        assert AtMost(g, src, d, p, k);
        CycleBack(g, src, p, e, k);
        PrefixKept(g, src, d, p, e, k, d');
      } else {
        EndAtMost(g, src, q, d');
      }
    }
  }

  lemma PrefixKept(g: seq<Edge>, src: nat, d: seq<int>, p: seq<nat>, e: nat, k: nat, d': seq<int>)
    requires IsChain(g, src, p) && k <= |p| && AtMost(g, src, d, p, k) && IsChain(g, src, p + [e]) && e < |g|
    requires |d'| == |d| && forall v | 0 <= v < |d| :: d'[v] <= d[v]
    ensures At(g, src, p + [e], k) == At(g, src, p, k) && AtMost(g, src, d', p + [e], k)
    ensures d[At(g, src, p, k)] <= Weight(g, p[..k])
  {
    hide Weight;
    assert (p + [e])[..k] == p[..k];
  }

  lemma EndAtMost(g: seq<Edge>, src: nat, q: seq<nat>, d: seq<int>)
    requires IsChain(g, src, q) && At(g, src, q, |q|) < |d| && d[At(g, src, q, |q|)] <= Weight(g, q)
    ensures AtMost(g, src, d, q, |q|)
  {
    hide Weight;
    assert q[..|q|] == q;
  }

  lemma ChainIndices(g: seq<Edge>, src: nat, p: seq<nat>)
    requires IsChain(g, src, p)
    ensures forall k | 0 <= k < |p| :: p[k] < |g|
  {
  }

  /** An edge back to a place on a walk closes a cycle, which is not negative. */
  lemma CycleBack(g: seq<Edge>, src: nat, p: seq<nat>, e: nat, k: nat)
    requires !HasNegativeCycle(g, src) && IsChain(g, src, p) && k <= |p| && e < |g|
    requires g[e].source == At(g, src, p, |p|)
    ensures g[e].dest == At(g, src, p, k) ==> Weight(g, p[..k]) <= Weight(g, p) + g[e].weight
  {
    hide At, Weight, IsChain;
    ChainIndices(g, src, p);
    var v := At(g, src, p, k);
    WalkStart(g, src, p);
    WalkSlice(g, src, p, 0, k);
    WalkSlice(g, src, p, k, |p|);
    assert p[0..k] == p[..k] && p[k..|p|] == p[k..] && p == p[..k] + p[k..];
    WeightOfJoin(g, p[..k], p[k..]);
    WalkExtends(g, v, p[k..], g[e].source, e);
    assert !NegativeCycleAt(g, src, v, p[k..] + [e]);
  }

  lemma LooplessKept(g: seq<Edge>, src: nat, d: seq<int>, p: seq<nat>, d': seq<int>)
    requires Loopless(g, src, d, p) && |d'| == |d| && forall v | 0 <= v < |d| :: d'[v] <= d[v]
    ensures Loopless(g, src, d', p)
  {
    hide Weight, At;
    forall k: nat | k <= |p|
      ensures AtMost(g, src, d', p, k)
    {
      assert AtMost(g, src, d, p, k);
    }
  }

  lemma BoundProduct(len: nat, bound: nat, w: nat)
    requires len <= bound
    ensures len * w + 2 * w <= (bound + 2) * w
  {
    if w > 0 {
      ScaleMonotone(w, len + 2, bound + 2);
    }
  }

  /** The distances after relaxing edge e. */
  function Relax(d: seq<int>, e: Edge): (d': seq<int>)
    requires e.source < |d| && e.dest < |d|
    ensures |d'| == |d|
  {
    if d[e.source] != INFINITY && Wrap32(d[e.source] + e.weight) < d[e.dest]
    then d[e.dest := Wrap32(d[e.source] + e.weight)] else d
  }

  /** Since the pass began with start, edges before j have been relaxed and no distance has grown. */
  ghost predicate PassProgress(g: seq<Edge>, start: seq<int>, d: seq<int>, j: nat) {
    && |start| == |d| && OnVertices(g, |d|) && j <= |g|
    && (forall v | 0 <= v < |d| :: d[v] <= start[v])
    && (forall k | 0 <= k < j :: RelaxedFrom(start, d, g[k]))
  }

  ghost predicate RelaxedFrom(start: seq<int>, d: seq<int>, e: Edge)
    requires |start| == |d| && e.source < |d| && e.dest < |d|
  {
    start[e.source] != INFINITY ==> d[e.dest] <= start[e.source] + e.weight
  }

  /** Relaxing edge j keeps the distances sound and advances the pass. */
  lemma RelaxStep(g: seq<Edge>, n: nat, src: nat, w: nat, start: seq<int>, d: seq<int>, walks: seq<seq<nat>>, len: nat,
                  j: nat) returns (walks': seq<seq<nat>>)
    requires OnVertices(g, n) && src < n && j < |g| && WeightsFit(g, n, src, w) && len < Relaxations(n, |g|)
    requires Sound(g, n, src, d, walks, len) && PassProgress(g, start, d, j)
    requires forall v | 0 <= v < n :: start[v] <= INFINITY
    ensures Sound(g, n, src, Relax(d, g[j]), walks', len + 1)
    ensures PassProgress(g, start, Relax(d, g[j]), j + 1)
  {
    hide Sound, PassProgress, WeightsFit, Relaxations, Relax, Wrap32;
    SoundLength(g, n, src, d, walks, len);
    walks' := walks;
    var e := g[j];
    RelaxedProgress(g, n, src, w, start, d, walks, len, j);
    if d[e.source] != INFINITY && Wrap32(d[e.source] + e.weight) < d[e.dest] {
      RelaxedDistance(g, n, src, w, d, walks, len, j);
      walks' := walks[e.dest := walks[e.source] + [j]];
      SoundRelaxed(g, n, src, d, walks, len, j);
    } else {
      SoundLonger(g, n, src, d, walks, len);
    }
    Relaxing(d, e);
  }

  lemma Relaxing(d: seq<int>, e: Edge)
    requires e.source < |d| && e.dest < |d|
    ensures Relax(d, e) == if d[e.source] != INFINITY && Wrap32(d[e.source] + e.weight) < d[e.dest]
                           then d[e.dest := Wrap32(d[e.source] + e.weight)] else d
  {
  }

  lemma RelaxedDistance(g: seq<Edge>, n: nat, src: nat, w: nat, d: seq<int>, walks: seq<seq<nat>>, len: nat, j: nat)
    requires OnVertices(g, n) && src < n && j < |g| && WeightsFit(g, n, src, w) && len < Relaxations(n, |g|)
    requires Sound(g, n, src, d, walks, len) && d[g[j].source] != INFINITY
    ensures Wrap32(d[g[j].source] + g[j].weight) == d[g[j].source] + g[j].weight
  {
    hide KnownWalk, Relaxations, WeightsFit, HasNegativeCycle, Loopless;
    DistanceBound(g, n, src, d, walks, len, w, g[j].source);
    WeightInRange(g, n, src, w, j);
  }

  lemma RelaxedProgress(g: seq<Edge>, n: nat, src: nat, w: nat, start: seq<int>, d: seq<int>, walks: seq<seq<nat>>,
                        len: nat, j: nat)
    requires OnVertices(g, n) && src < n && j < |g| && WeightsFit(g, n, src, w) && len < Relaxations(n, |g|)
    requires Sound(g, n, src, d, walks, len) && PassProgress(g, start, d, j)
    requires forall v | 0 <= v < n :: start[v] <= INFINITY
    ensures PassProgress(g, start, Relax(d, g[j]), j + 1)
  {
    hide Sound, KnownWalk, Relaxations, WeightsFit, HasNegativeCycle, Loopless, Wrap32;
    SoundLength(g, n, src, d, walks, len);
    if d[g[j].source] != INFINITY {
      RelaxedDistance(g, n, src, w, d, walks, len, j);
    }
  }

  lemma SoundRelaxed(g: seq<Edge>, n: nat, src: nat, d: seq<int>, walks: seq<seq<nat>>, len: nat, j: nat)
    requires OnVertices(g, n) && j < |g| && Sound(g, n, src, d, walks, len) && d[g[j].source] != INFINITY
    requires d[g[j].source] + g[j].weight < d[g[j].dest]
    ensures Sound(g, n, src, d[g[j].dest := d[g[j].source] + g[j].weight],
                  walks[g[j].dest := walks[g[j].source] + [j]], len + 1)
  {
    hide KnownWalk, HasNegativeCycle, Loopless;
    var e := g[j];
    var d', walks' := d[e.dest := d[e.source] + e.weight], walks[e.dest := walks[e.source] + [j]];
    KnownExtends(g, src, e.source, d[e.source], walks[e.source], len, j);
    KnownEnd(g, src, e.source, d[e.source], walks[e.source], len);
    if !HasNegativeCycle(g, src) {
      StaysLoopless(g, src, d, walks[e.source], j, d');
    }
    forall v | 0 <= v < n && d'[v] != INFINITY
      ensures KnownWalk(g, src, v, d'[v], walks'[v], len + 1)
      ensures !HasNegativeCycle(g, src) ==> Loopless(g, src, d', walks'[v])
    {
      if v != e.dest {
        KnownLonger(g, src, v, d[v], walks[v], len);
        if !HasNegativeCycle(g, src) {
          LooplessKept(g, src, d, walks[v], d');
        }
      }
    }
  }

  lemma SoundLonger(g: seq<Edge>, n: nat, src: nat, d: seq<int>, walks: seq<seq<nat>>, len: nat)
    requires Sound(g, n, src, d, walks, len)
    ensures Sound(g, n, src, d, walks, len + 1)
  {
    hide HasNegativeCycle, Loopless, IsWalk;
  }

  lemma KnownEnd(g: seq<Edge>, src: nat, v: nat, weight: int, p: seq<nat>, len: nat)
    requires KnownWalk(g, src, v, weight, p, len)
    ensures IsChain(g, src, p) && At(g, src, p, |p|) == v && Weight(g, p) == weight
  {
  }

  lemma KnownExtends(g: seq<Edge>, src: nat, u: nat, weight: int, p: seq<nat>, len: nat, e: nat)
    requires KnownWalk(g, src, u, weight, p, len) && e < |g| && g[e].source == u
    ensures KnownWalk(g, src, g[e].dest, weight + g[e].weight, p + [e], len + 1)
  {
    WalkExtends(g, src, p, u, e);
  }

  lemma KnownLonger(g: seq<Edge>, src: nat, v: nat, weight: int, p: seq<nat>, len: nat)
    requires KnownWalk(g, src, v, weight, p, len)
    ensures KnownWalk(g, src, v, weight, p, len + 1)
  {
  }

  lemma WalkSettled(g: seq<Edge>, n: nat, src: nat, w: nat, start: seq<int>, d: seq<int>, len: nat, v: nat, p: seq<nat>)
    requires Complete(g, n, src, start, len) && PassProgress(g, start, d, |g|)
    requires WeightsFit(g, n, src, w) && len < n
    requires IsWalk(g, src, p, v) && |p| == len + 1
    ensures v < n && d[v] <= Weight(g, p) < INFINITY
  {
    hide At, Weight, WeightsFit;
    ShortWeight(g, n, src, w, p);
    WalkPrefix(g, src, p, v);
    var e := p[|p| - 1];
    assert RelaxedFrom(start, d, g[e]);
  }

  lemma ShortWeight(g: seq<Edge>, n: nat, src: nat, w: nat, p: seq<nat>)
    requires WeightsFit(g, n, src, w) && p != [] && |p| <= n && forall k | 0 <= k < |p| :: p[k] < |g|
    ensures Weight(g, p) < INFINITY
  {
    hide Weight, HasNegativeCycle;
    assert p[0] < |g|;
    WeightBound(g, p, w);
    ScaleMonotone(n, 1, |g|);
    BoundProduct(|p|, LongestRecorded(g, n, src), w);
  }

  /** A finished pass settles walks one edge longer. */
  lemma PassCompletes(g: seq<Edge>, n: nat, src: nat, w: nat, start: seq<int>, d: seq<int>, len: nat)
    requires Complete(g, n, src, start, len) && PassProgress(g, start, d, |g|)
    requires WeightsFit(g, n, src, w) && len < n
    requires forall v | 0 <= v < n :: start[v] <= INFINITY
    ensures Complete(g, n, src, d, len + 1)
  {
    hide At, Weight;
    forall v: nat, p: seq<nat> | IsWalk(g, src, p, v) && |p| <= len + 1
      ensures v < n && d[v] != INFINITY && d[v] <= Weight(g, p)
    {
      if |p| == len + 1 {
        WalkSettled(g, n, src, w, start, d, len, v, p);
      }
    }
  }

  /** Once walks of n edges are settled, finite means reachable, and without negative cycles distances are shortest. */
  lemma SettledDistances(g: seq<Edge>, n: nat, src: nat, d: seq<int>, walks: seq<seq<nat>>, len: nat, v: nat)
    requires OnVertices(g, n) && src < n && v < n
    requires Sound(g, n, src, d, walks, len) && Complete(g, n, src, d, n)
    ensures d[v] != INFINITY <==> Reachable(g, src, v)
    ensures !HasNegativeCycle(g, src) && d[v] != INFINITY ==> ShortestDistance(g, src, v, d[v])
  {
    if d[v] != INFINITY {
      assert KnownWalk(g, src, v, d[v], walks[v], len);
    }
    forall p: seq<nat> | IsWalk(g, src, p, v)
      ensures d[v] != INFINITY && (!HasNegativeCycle(g, src) ==> d[v] <= Weight(g, p))
    {
      var q := ShortWalk(g, n, src, p, v);
    }
  }

  /** x is the least weight of all walks from src to v, of any length. */
  ghost predicate ShortestDistance(g: seq<Edge>, src: nat, v: nat, x: int) {
    && (exists p: seq<nat> :: IsWalk(g, src, p, v) && Weight(g, p) == x)
    && (forall p: seq<nat> :: IsWalk(g, src, p, v) ==> x <= Weight(g, p))
  }

  /** The distances of the graph's vertices as the caller sees them when there is no negative cycle. */
  ghost predicate ShortestDistances(g: seq<Edge>, n: nat, src: nat, d: seq<int>) {
    && |d| == n
    && forall v: nat | v < n ::
      if Reachable(g, src, v) then ShortestDistance(g, src, v, d[v]) else d[v] == INFINITY
  }

  /** The last loop's test: edge e could still lower a distance, in wrapped 32-bit arithmetic and without
    * a special case for infinity. */
  predicate StillRelaxes(d: seq<int>, e: Edge)
    requires e.source < |d| && e.dest < |d|
  {
    d[e.dest] > Wrap32(d[e.source] + e.weight)
  }

  /** Along a walk whose edges no longer relax, the distance grows by at most the weight. */
  lemma {:induction false} DistanceAlongWalk(g: seq<Edge>, n: nat, src: nat, d: seq<int>, x: nat, c: seq<nat>, y: nat)
    requires OnVertices(g, n) && |d| == n && x < n && Reachable(g, src, x) && IsWalk(g, x, c, y)
    requires forall e | 0 <= e < |g| && Reachable(g, src, g[e].source) :: d[g[e].dest] <= d[g[e].source] + g[e].weight
    ensures y < n && Reachable(g, src, y) && d[y] <= d[x] + Weight(g, c)
    decreases |c|
  {
    if c != [] {
      WalkPrefix(g, x, c, y);
      var e := c[|c| - 1];
      DistanceAlongWalk(g, n, src, d, x, c[..|c| - 1], g[e].source);
      var p: seq<nat> :| IsWalk(g, src, p, g[e].source);
      WalkExtends(g, src, p, g[e].source, e);
    }
  }

  /** What the last test decides for an edge, exactly. From an unreachable source, INFINITY + weight wraps for a
    * positive weight and drops below INFINITY for a negative one. */
  ghost predicate EdgeAccepted(g: seq<Edge>, src: nat, d: seq<int>, e: Edge)
    requires e.source < |d| && e.dest < |d|
  {
    if Reachable(g, src, e.source) then d[e.dest] <= d[e.source] + e.weight
    else e.weight == 0 || (e.weight < 0 && Reachable(g, src, e.dest))
  }

  lemma LastTest(g: seq<Edge>, n: nat, src: nat, w: nat, d: seq<int>, walks: seq<seq<nat>>, len: nat, j: nat)
    requires OnVertices(g, n) && src < n && j < |g| && WeightsFit(g, n, src, w) && len <= Relaxations(n, |g|)
    requires Sound(g, n, src, d, walks, len) && Complete(g, n, src, d, n)
    ensures StillRelaxes(d, g[j]) <==> !EdgeAccepted(g, src, d, g[j])
  {
    hide Sound, Complete, Reachable;
    var e := g[j];
    SettledDistances(g, n, src, d, walks, len, e.source);
    SettledDistances(g, n, src, d, walks, len, e.dest);
    WeightInRange(g, n, src, w, j);
    SoundLength(g, n, src, d, walks, len);
    if d[e.source] != INFINITY {
      DistanceBound(g, n, src, d, walks, len, w, e.source);
    }
    if d[e.dest] != INFINITY {
      DistanceBound(g, n, src, d, walks, len, w, e.dest);
    }
    if Reachable(g, src, e.source) {
      ReachableExtends(g, src, j);
    }
  }

  lemma SoundLength(g: seq<Edge>, n: nat, src: nat, d: seq<int>, walks: seq<seq<nat>>, len: nat)
    requires Sound(g, n, src, d, walks, len)
    ensures |d| == |walks| == n
  {
  }

  lemma WeightInRange(g: seq<Edge>, n: nat, src: nat, w: nat, j: nat)
    requires j < |g| && WeightsFit(g, n, src, w)
    ensures -(w as int) <= g[j].weight <= w && 2 * w < INFINITY
  {
    BoundProduct(0, LongestRecorded(g, n, src), w);
    assert 0 * w == 0;
  }

  lemma ReachableExtends(g: seq<Edge>, src: nat, e: nat)
    requires e < |g| && Reachable(g, src, g[e].source)
    ensures Reachable(g, src, g[e].dest)
  {
    var p: seq<nat> :| IsWalk(g, src, p, g[e].source);
    WalkExtends(g, src, p, g[e].source, e);
  }

  /** The unguarded last loop accepts the edges that leave unreachable vertices. */
  ghost predicate UnreachableEdgesPass(g: seq<Edge>, src: nat) {
    forall e | 0 <= e < |g| && !Reachable(g, src, g[e].source) ::
      g[e].weight == 0 || (g[e].weight < 0 && Reachable(g, src, g[e].dest))
  }

  lemma VerdictIsExact(g: seq<Edge>, n: nat, src: nat, d: seq<int>, walks: seq<seq<nat>>, len: nat)
    requires OnVertices(g, n) && src < n
    requires Sound(g, n, src, d, walks, len) && Complete(g, n, src, d, n)
    ensures (forall e | 0 <= e < |g| :: EdgeAccepted(g, src, d, g[e]))
       <==> !HasNegativeCycle(g, src) && UnreachableEdgesPass(g, src)
  {
    if forall e | 0 <= e < |g| :: EdgeAccepted(g, src, d, g[e]) {
      AcceptedMeansNoCycle(g, n, src, d, walks, len);
      forall e | 0 <= e < |g| && !Reachable(g, src, g[e].source)
        ensures g[e].weight == 0 || (g[e].weight < 0 && Reachable(g, src, g[e].dest))
      {
        assert EdgeAccepted(g, src, d, g[e]);
      }
    }
    if !HasNegativeCycle(g, src) && UnreachableEdgesPass(g, src) {
      forall e | 0 <= e < |g|
        ensures EdgeAccepted(g, src, d, g[e])
      {
        if Reachable(g, src, g[e].source) {
          ReachableEdgeAccepted(g, n, src, d, walks, len, e);
        }
      }
    }
  }

  lemma AcceptedMeansNoCycle(g: seq<Edge>, n: nat, src: nat, d: seq<int>, walks: seq<seq<nat>>, len: nat)
    requires OnVertices(g, n) && src < n
    requires Sound(g, n, src, d, walks, len) && Complete(g, n, src, d, n)
    requires forall e | 0 <= e < |g| :: EdgeAccepted(g, src, d, g[e])
    ensures !HasNegativeCycle(g, src)
  {
    forall x: nat, c: seq<nat> | NegativeCycleAt(g, src, x, c)
      ensures false
    {
      var p: seq<nat> :| IsWalk(g, src, p, x);
      var q := ShortWalk(g, n, src, p, x);
      assert forall e | 0 <= e < |g| && Reachable(g, src, g[e].source) :: EdgeAccepted(g, src, d, g[e]);
      DistanceAlongWalk(g, n, src, d, x, c, x);
    }
  }

  lemma ReachableEdgeAccepted(g: seq<Edge>, n: nat, src: nat, d: seq<int>, walks: seq<seq<nat>>, len: nat, e: nat)
    requires OnVertices(g, n) && src < n && e < |g| && Reachable(g, src, g[e].source) && !HasNegativeCycle(g, src)
    requires Sound(g, n, src, d, walks, len) && Complete(g, n, src, d, n)
    ensures EdgeAccepted(g, src, d, g[e])
  {
    hide Sound, Complete, HasNegativeCycle, At, Weight;
    var u, v := g[e].source, g[e].dest;
    SoundLength(g, n, src, d, walks, len);
    SettledDistances(g, n, src, d, walks, len, u);
    SettledDistances(g, n, src, d, walks, len, v);
    ReachableExtends(g, src, e);
    var p: seq<nat> :| IsWalk(g, src, p, u) && Weight(g, p) == d[u];
    WalkExtends(g, src, p, u, e);
  }

  /** The first count entries of the three arrays describe edges between vertices below n. */
  ghost predicate AreEdges(source: array<int>, dest: array<int>, weight: array<int>, count: nat, n: nat)
    reads source, dest, weight
  {
    && count <= source.Length && count <= dest.Length && count <= weight.Length
    && forall i | 0 <= i < count :: 0 <= source[i] < n && 0 <= dest[i] < n
  }

  ghost function EdgesOf(source: array<int>, dest: array<int>, weight: array<int>, count: nat, n: nat): (g: seq<Edge>)
    requires AreEdges(source, dest, weight, count, n)
    reads source, dest, weight
    ensures |g| == count && OnVertices(g, n)
  {
    seq(count, i requires 0 <= i < count && AreEdges(source, dest, weight, count, n) reads source, dest, weight =>
      Edge(source[i], dest[i], weight[i]))
  }

  lemma StartDistances(g: seq<Edge>, n: nat, src: nat, d: seq<int>) returns (walks: seq<seq<nat>>)
    requires OnVertices(g, n) && src < n && |d| == n
    requires d[src] == 0 && forall v | 0 <= v < n && v != src :: d[v] == INFINITY
    ensures Sound(g, n, src, d, walks, 0) && Complete(g, n, src, d, 0)
  {
    walks := seq(n, v => []);
    assert IsWalk(g, src, [], src);
    assert AtMost(g, src, d, [], 0);
  }

  lemma BelowInfinity(g: seq<Edge>, n: nat, src: nat, w: nat, d: seq<int>, walks: seq<seq<nat>>, len: nat)
    requires OnVertices(g, n) && src < n
    requires Sound(g, n, src, d, walks, len) && WeightsFit(g, n, src, w) && len <= Relaxations(n, |g|)
    ensures forall v | 0 <= v < n :: d[v] <= INFINITY
  {
    forall v: nat | v < n && d[v] != INFINITY
      ensures d[v] <= INFINITY
    {
      DistanceBound(g, n, src, d, walks, len, w, v);
    }
  }

  /** One pass over all edges. */
  method RelaxPass(source: array<int>, dest: array<int>, weight: array<int>, distance: array<int>, edgecount: nat,
                   ghost src: nat, ghost w: nat, ghost walks: seq<seq<nat>>, ghost len: nat)
                     returns (ghost walks': seq<seq<nat>>)
    requires distance != source && distance != dest && distance != weight
    requires AreEdges(source, dest, weight, edgecount, distance.Length)
    requires var g, n := EdgesOf(source, dest, weight, edgecount, distance.Length), distance.Length;
      && src < n && WeightsFit(g, n, src, w) && len + edgecount <= Relaxations(n, edgecount)
      && Sound(g, n, src, distance[..], walks, len)
      && forall v | 0 <= v < n :: distance[v] <= INFINITY
    modifies distance
    ensures var g := old(EdgesOf(source, dest, weight, edgecount, distance.Length));
      && Sound(g, distance.Length, src, distance[..], walks', len + edgecount)
      && PassProgress(g, old(distance[..]), distance[..], edgecount)
  {
    hide Wrap32, Sound, PassProgress, WeightsFit, Relaxations;
    ghost var g, start := EdgesOf(source, dest, weight, edgecount, distance.Length), distance[..];
    walks' := walks;
    PassStarts(g, distance.Length, start);
    var j := 0;
    while j < edgecount
      invariant j <= edgecount
      invariant Sound(g, distance.Length, src, distance[..], walks', len + j)
      invariant PassProgress(g, start, distance[..], j)
    {
      ghost var d := distance[..];
      walks' := RelaxStep(g, distance.Length, src, w, start, d, walks', len + j, j);
      assert g[j] == Edge(source[j], dest[j], weight[j]);
      if distance[source[j]] != INFINITY {
        var newDistance := Wrap32(distance[source[j]] + weight[j]);
        if newDistance < distance[dest[j]] {
          distance[dest[j]] := newDistance;
        }
      }
      assert distance[..] == Relax(d, g[j]);
      j := j + 1;
    }
  }

  /** The last loop: looks for an edge that still relaxes. */
  method NoEdgeRelaxes(source: array<int>, dest: array<int>, weight: array<int>, distance: array<int>, edgecount: nat,
                       ghost g: seq<Edge>) returns (succeeded: bool)
    requires AreEdges(source, dest, weight, edgecount, distance.Length)
    requires g == EdgesOf(source, dest, weight, edgecount, distance.Length)
    ensures succeeded <==> forall e | 0 <= e < |g| :: !StillRelaxes(distance[..], g[e])
  {
    succeeded := true;
    var i := 0;
    while i < edgecount
      invariant succeeded ==> i <= edgecount && forall e | 0 <= e < i :: !StillRelaxes(distance[..], g[e])
      invariant !succeeded ==> exists e | 0 <= e < edgecount :: StillRelaxes(distance[..], g[e])
      decreases edgecount - i
    {
      assert g[i] == Edge(source[i], dest[i], weight[i]);
      if distance[dest[i]] > Wrap32(distance[source[i]] + weight[i]) {
        assert StillRelaxes(distance[..], g[i]);
        succeeded := false;
        i := edgecount;
      } else {
        i := i + 1;
      }
    }
  }

  /** Bellman-Ford: the verdict and the distances, for every graph whose weights fit. */
  method BellmanFord(source: array<int>, dest: array<int>, weight: array<int>, distance: array<int>,
                     edgecount: nat, nodecount: nat, src: nat, ghost w: nat) returns (succeeded: bool)
    requires distance != source && distance != dest && distance != weight && distance.Length == nodecount
    requires src < nodecount && AreEdges(source, dest, weight, edgecount, nodecount)
    requires WeightsFit(EdgesOf(source, dest, weight, edgecount, nodecount), nodecount, src, w)
    modifies distance
    ensures var g := old(EdgesOf(source, dest, weight, edgecount, nodecount));
      && (succeeded <==> !HasNegativeCycle(g, src) && UnreachableEdgesPass(g, src))
      && (!HasNegativeCycle(g, src) ==> ShortestDistances(g, nodecount, src, distance[..]))
  {
    hide Sound, Complete, PassProgress, WeightsFit, EdgeAccepted, ShortestDistances, HasNegativeCycle,
      UnreachableEdgesPass, StillRelaxes, Relaxations;
    ghost var g := EdgesOf(source, dest, weight, edgecount, nodecount);
    var i := 0;
    while i < nodecount
      invariant i <= nodecount && forall v | 0 <= v < i :: distance[v] == INFINITY
    {
      distance[i] := INFINITY;
      i := i + 1;
    }
    distance[src] := 0;
    ghost var walks := StartDistances(g, nodecount, src, distance[..]);
    i := 0;
    NoRelaxations(edgecount);
    while i < nodecount
      invariant i <= nodecount
      invariant Sound(g, nodecount, src, distance[..], walks, Relaxations(i, edgecount))
      invariant Complete(g, nodecount, src, distance[..], i)
    {
      ghost var start := distance[..];
      PassLength(i, edgecount, nodecount);
      BelowInfinity(g, nodecount, src, w, start, walks, Relaxations(i, edgecount));
      assert EdgesOf(source, dest, weight, edgecount, nodecount) == g;
      walks := RelaxPass(source, dest, weight, distance, edgecount, src, w, walks, Relaxations(i, edgecount));
      PassCompletes(g, nodecount, src, w, start, distance[..], i);
      i := i + 1;
    }
    ghost var d := distance[..];
    assert EdgesOf(source, dest, weight, edgecount, nodecount) == g;
    AllShortest(g, nodecount, src, d, walks, Relaxations(nodecount, edgecount));
    succeeded := NoEdgeRelaxes(source, dest, weight, distance, edgecount, g);
    LastLoopVerdict(g, nodecount, src, w, d, walks, Relaxations(nodecount, edgecount));
  }

  lemma LastLoopVerdict(g: seq<Edge>, n: nat, src: nat, w: nat, d: seq<int>, walks: seq<seq<nat>>, len: nat)
    requires OnVertices(g, n) && src < n && WeightsFit(g, n, src, w) && len <= Relaxations(n, |g|)
    requires Sound(g, n, src, d, walks, len) && Complete(g, n, src, d, n)
    ensures (forall e | 0 <= e < |g| :: !StillRelaxes(d, g[e]))
       <==> !HasNegativeCycle(g, src) && UnreachableEdgesPass(g, src)
  {
    hide Complete, EdgeAccepted, StillRelaxes, HasNegativeCycle, UnreachableEdgesPass, WeightsFit;
    forall e | 0 <= e < |g|
      ensures StillRelaxes(d, g[e]) <==> !EdgeAccepted(g, src, d, g[e])
    {
      LastTest(g, n, src, w, d, walks, len, e);
    }
    VerdictIsExact(g, n, src, d, walks, len);
  }

  /** When every edge source is reachable the verdict is the textbook one. */
  lemma ReachableSourcesVerdict(g: seq<Edge>, src: nat)
    requires forall e | 0 <= e < |g| :: Reachable(g, src, g[e].source)
    ensures UnreachableEdgesPass(g, src)
  {
  }

  /** Without that condition the verdict can be wrong: one edge between unreachable vertices and no cycle at all. */
  lemma UnreachableEdgeFails()
    ensures var g := [Edge(1, 2, -1)];
            OnVertices(g, 3) && WeightsFit(g, 3, 0, 1) && !HasNegativeCycle(g, 0) && !UnreachableEdgesPass(g, 0)
  {
    var g := [Edge(1, 2, -1)];
    assert Weight(g, []) == 0;
    forall v: nat, p: seq<nat> | IsWalk(g, 0, p, v)
      ensures v == 0 && p == []
    {
      LoneWalkIsEmpty(g, p, v);
    }
    assert !Reachable(g, 0, g[0].source) && !Reachable(g, 0, g[0].dest);
    assert !HasNegativeCycle(g, 0);
  }

  /** The run: that graph is rejected. */
  method RejectsWithoutCycle() returns (succeeded: bool)
    ensures !succeeded
  {
    UnreachableEdgeFails();
    var source, dest, weight, distance := new int[1], new int[1], new int[1], new int[3];
    source[0], dest[0], weight[0] := 1, 2, -1;
    hide HasNegativeCycle, UnreachableEdgesPass, WeightsFit, ShortestDistances;
    assert EdgesOf(source, dest, weight, 1, 3) == [Edge(1, 2, -1)];
    succeeded := BellmanFord(source, dest, weight, distance, 1, 3, 0, 1);
  }

  lemma LoneWalkIsEmpty(g: seq<Edge>, p: seq<nat>, v: nat)
    requires g == [Edge(1, 2, -1)] && IsWalk(g, 0, p, v)
    ensures v == 0 && p == []
  {
    var start := if p == [] then 0 else At(g, 0, p, 0);
  }

  lemma AllShortest(g: seq<Edge>, n: nat, src: nat, d: seq<int>, walks: seq<seq<nat>>, len: nat)
    requires OnVertices(g, n) && src < n
    requires Sound(g, n, src, d, walks, len) && Complete(g, n, src, d, n)
    ensures !HasNegativeCycle(g, src) ==> ShortestDistances(g, n, src, d)
  {
    hide HasNegativeCycle, Complete, ShortestDistance;
    forall v: nat | v < n
      ensures d[v] != INFINITY <==> Reachable(g, src, v)
      ensures !HasNegativeCycle(g, src) && d[v] != INFINITY ==> ShortestDistance(g, src, v, d[v])
    {
      SettledDistances(g, n, src, d, walks, len, v);
    }
  }

  lemma NoRelaxations(edgecount: nat)
    ensures Relaxations(0, edgecount) == 0
  {
  }

  lemma PassLength(i: nat, edgecount: nat, nodecount: nat)
    requires i < nodecount
    ensures Relaxations(i, edgecount) + edgecount == Relaxations(i + 1, edgecount) <= Relaxations(nodecount, edgecount)
  {
    if edgecount > 0 {
      ScaleMonotone(edgecount, i + 1, nodecount);
    }
  }

  lemma PassStarts(g: seq<Edge>, n: nat, start: seq<int>)
    requires OnVertices(g, n) && |start| == n
    ensures PassProgress(g, start, start, 0)
  {
  }
}
