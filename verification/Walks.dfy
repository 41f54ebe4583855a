/** Weighted directed graphs as edge lists: walks, reachability and cycles. */
module Walks {

  datatype Edge = Edge(source: nat, dest: nat, weight: int)

  /** The vertex reached from u after the first k edges of the edge-index sequence p. */
  function At(g: seq<Edge>, u: nat, p: seq<nat>, k: nat): nat
    requires k <= |p| && (k > 0 ==> p[k - 1] < |g|)
  {
    if k == 0 then u else g[p[k - 1]].dest
  }

  /** Each edge of p starts where the one before it ends. */
  ghost predicate IsChain(g: seq<Edge>, u: nat, p: seq<nat>) {
    && (forall k | 0 <= k < |p| :: p[k] < |g|)
    && (forall k | 0 <= k < |p| :: g[p[k]].source == At(g, u, p, k))
  }

  /** p is a walk from u to v. */
  ghost predicate IsWalk(g: seq<Edge>, u: nat, p: seq<nat>, v: nat) {
    IsChain(g, u, p) && At(g, u, p, |p|) == v
  }

  ghost predicate Reachable(g: seq<Edge>, u: nat, v: nat) {
    exists p :: IsWalk(g, u, p, v)
  }

  function Weight(g: seq<Edge>, p: seq<nat>): int
    requires forall k | 0 <= k < |p| :: p[k] < |g|
  {
    if p == [] then 0 else Weight(g, p[..|p| - 1]) + g[p[|p| - 1]].weight
  }

  /** x lies on a cycle c of negative weight that can be entered from u. */
  ghost predicate NegativeCycleAt(g: seq<Edge>, u: nat, x: nat, c: seq<nat>) {
    Reachable(g, u, x) && IsWalk(g, x, c, x) && Weight(g, c) < 0
  }

  ghost predicate HasNegativeCycle(g: seq<Edge>, u: nat) {
    exists x, c :: NegativeCycleAt(g, u, x, c)
  }

  /** All edges join vertices below n. */
  predicate OnVertices(g: seq<Edge>, n: nat) {
    forall e | 0 <= e < |g| :: g[e].source < n && g[e].dest < n
  }

  lemma {:induction false} WeightOfJoin(g: seq<Edge>, p: seq<nat>, q: seq<nat>)
    requires forall k | 0 <= k < |p| :: p[k] < |g|
    requires forall k | 0 <= k < |q| :: q[k] < |g|
    ensures Weight(g, p + q) == Weight(g, p) + Weight(g, q)
    decreases |q|
  {
    if q == [] {
      assert p + q == p;
    } else {
      var last := |q| - 1;
      assert (p + q)[..|p + q| - 1] == p + q[..last];
      WeightOfJoin(g, p, q[..last]);
    }
  }

  lemma WalkExtends(g: seq<Edge>, u: nat, p: seq<nat>, v: nat, e: nat)
    requires IsWalk(g, u, p, v) && e < |g| && g[e].source == v
    ensures IsWalk(g, u, p + [e], g[e].dest)
    ensures Weight(g, p + [e]) == Weight(g, p) + g[e].weight
  {
    var q := p + [e];
    assert q[..|q| - 1] == p;
    forall k | 0 <= k < |q|
      ensures q[k] < |g| && g[q[k]].source == At(g, u, q, k)
    {
      if k < |p| {
        assert q[k] == p[k];
      }
    }
  }

  lemma WalkPrefix(g: seq<Edge>, u: nat, p: seq<nat>, v: nat)
    requires IsWalk(g, u, p, v) && p != []
    ensures var e := p[|p| - 1];
            e < |g| && IsWalk(g, u, p[..|p| - 1], g[e].source) && g[e].dest == v
            && Weight(g, p) == Weight(g, p[..|p| - 1]) + g[e].weight
  {
    var q := p[..|p| - 1];
    forall k | 0 <= k < |q|
      ensures q[k] < |g| && g[q[k]].source == At(g, u, q, k)
    {
      assert q[k] == p[k];
    }
    assert At(g, u, q, |q|) == At(g, u, p, |q|);
  }

  lemma AtSlice(g: seq<Edge>, u: nat, p: seq<nat>, i: nat, j: nat, k: nat)
    requires IsChain(g, u, p) && i <= i + k <= j <= |p|
    ensures k > 0 ==> p[i..j][k - 1] < |g|
    ensures At(g, At(g, u, p, i), p[i..j], k) == At(g, u, p, i + k)
  {
    if k > 0 {
      assert p[i..j][k - 1] == p[i + k - 1];
    }
  }

  /** A stretch of a walk is a walk. */
  lemma WalkSlice(g: seq<Edge>, u: nat, p: seq<nat>, i: nat, j: nat)
    requires IsChain(g, u, p) && i <= j <= |p|
    ensures IsWalk(g, At(g, u, p, i), p[i..j], At(g, u, p, j))
  {
    hide At;
    var c, x := p[i..j], At(g, u, p, i);
    forall k: nat | k < |c|
      ensures c[k] < |g| && g[c[k]].source == At(g, x, c, k)
    {
      AtSlice(g, u, p, i, j, k);
      assert g[p[i + k]].source == At(g, u, p, i + k);
    }
    AtSlice(g, u, p, i, j, j - i);
  }

  lemma AtJoin(g: seq<Edge>, u: nat, p: seq<nat>, x: nat, q: seq<nat>, k: nat)
    requires IsWalk(g, u, p, x) && IsChain(g, x, q) && k <= |p| + |q|
    ensures k > 0 ==> (p + q)[k - 1] < |g|
    ensures At(g, u, p + q, k) == if k <= |p| then At(g, u, p, k) else At(g, x, q, k - |p|)
    ensures k >= |p| ==> At(g, u, p + q, k) == At(g, x, q, k - |p|)
  {
    if 0 < k <= |p| {
      assert (p + q)[k - 1] == p[k - 1];
    } else if k > 0 {
      assert (p + q)[k - 1] == q[k - 1 - |p|];
    }
  }

  lemma WalkJoin(g: seq<Edge>, u: nat, p: seq<nat>, x: nat, q: seq<nat>, v: nat)
    requires IsWalk(g, u, p, x) && IsWalk(g, x, q, v)
    ensures IsWalk(g, u, p + q, v)
    ensures Weight(g, p + q) == Weight(g, p) + Weight(g, q)
  {
    hide At, Weight;
    var r := p + q;
    forall k: nat | k < |r|
      ensures r[k] < |g| && g[r[k]].source == At(g, u, r, k)
    {
      AtJoin(g, u, p, x, q, k);
      if k < |p| {
        assert g[p[k]].source == At(g, u, p, k);
      } else {
        assert g[q[k - |p|]].source == At(g, x, q, k - |p|);
      }
    }
    AtJoin(g, u, p, x, q, |r|);
    WeightOfJoin(g, p, q);
  }

  lemma WalkStart(g: seq<Edge>, u: nat, p: seq<nat>)
    ensures At(g, u, p, 0) == u
  {
  }

  /** Cutting a walk at two visits of one vertex gives a closed walk and a shorter walk. */
  lemma CutCycle(g: seq<Edge>, u: nat, p: seq<nat>, v: nat, i: nat, j: nat)
    requires IsWalk(g, u, p, v) && i < j <= |p| && At(g, u, p, i) == At(g, u, p, j)
    ensures IsWalk(g, u, p[..i], At(g, u, p, i))
    ensures IsWalk(g, At(g, u, p, i), p[i..j], At(g, u, p, i))
    ensures IsWalk(g, u, p[..i] + p[j..], v)
    ensures Weight(g, p) == Weight(g, p[i..j]) + Weight(g, p[..i] + p[j..])
  {
    hide At, Weight;
    var x := At(g, u, p, i);
    WalkStart(g, u, p);
    WalkSlice(g, u, p, 0, i);
    WalkSlice(g, u, p, i, j);
    WalkSlice(g, u, p, j, |p|);
    assert p[0..i] == p[..i] && p[j..|p|] == p[j..];
    WalkJoin(g, u, p[..i], x, p[j..], v);
    WalkJoin(g, x, p[i..j], x, p[j..], v);
    WalkJoin(g, u, p[..i], x, p[i..j] + p[j..], v);
    assert p == p[..i] + (p[i..j] + p[j..]);
  }

  /** Pigeonhole: n + 1 numbers below n are not all different. */
  lemma {:induction false} Pigeonhole(s: seq<nat>, n: nat) returns (i: nat, j: nat)
    requires |s| > n && forall k | 0 <= k < |s| :: s[k] < n
    ensures i < j < |s| && s[i] == s[j]
    decreases n
  {
    var last := |s| - 1;
    if k :| 0 <= k < last && s[k] == s[last] {
      i, j := k, last;
    } else {
      var t := seq(last, k requires 0 <= k < last => if s[k] == n - 1 then s[last] else s[k]);
      forall k | 0 <= k < last
        ensures t[k] < n - 1
      {
        assert s[k] != s[last];
      }
      i, j := Pigeonhole(t, n - 1);
    }
  }

  /** A walk with at least as many edges as there are vertices visits a vertex twice. */
  lemma LongWalkRepeats(g: seq<Edge>, n: nat, u: nat, p: seq<nat>, v: nat) returns (i: nat, j: nat)
    requires OnVertices(g, n) && u < n && IsWalk(g, u, p, v) && |p| >= n
    ensures i < j <= |p| && At(g, u, p, i) == At(g, u, p, j)
  {
    var visits := seq(|p| + 1, k requires 0 <= k <= |p| => At(g, u, p, k));
    i, j := Pigeonhole(visits, n);
  }

  /** Every walk can be shortened below n edges; without negative cycles it gets no heavier. */
  lemma {:induction false} ShortWalk(g: seq<Edge>, n: nat, u: nat, p: seq<nat>, v: nat) returns (q: seq<nat>)
    requires OnVertices(g, n) && u < n && IsWalk(g, u, p, v)
    ensures IsWalk(g, u, q, v) && |q| < n
    ensures !HasNegativeCycle(g, u) ==> Weight(g, q) <= Weight(g, p)
    decreases |p|
  {
    if |p| < n {
      q := p;
    } else {
      var i, j := LongWalkRepeats(g, n, u, p, v);
      CutCycle(g, u, p, v, i, j);
      var x := At(g, u, p, i);
      assert !HasNegativeCycle(g, u) ==> !NegativeCycleAt(g, u, x, p[i..j]);
      q := ShortWalk(g, n, u, p[..i] + p[j..], v);
    }
  }
}
