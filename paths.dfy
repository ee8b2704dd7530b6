/** Graph theory over a value snapshot of a weighted directed graph: walks,
    reachability, walk weight and shortest distance. The vertex type is left
    generic; the traversal and shortest-path models instantiate it with the
    heap's node objects. */
module Paths {

  /** An outgoing edge as seen from its source: target vertex and weight. */
  datatype Arc<V> = Arc(to: V, w: int)

  /** Every vertex of the snapshot with its outgoing arcs, in edge-list order. */
  type Digraph<V> = map<V, seq<Arc<V>>>

  /** The vertex reached after the first `i` arcs of the walk `p` from `s`. */
  function At<V>(s: V, p: seq<Arc<V>>, i: nat): V
    requires i <= |p|
  {
    if i == 0 then s else p[i - 1].to
  }

  /** The last vertex of the walk `p` from `s`. */
  function End<V>(s: V, p: seq<Arc<V>>): V {
    At(s, p, |p|)
  }

  /** `p` is a walk in `G` from `s`: each arc leaves the vertex reached so far,
      and every vertex on the way is a vertex of `G`. */
  ghost predicate IsWalk<V>(G: Digraph<V>, s: V, older p: seq<Arc<V>>) {
    && (forall i :: 0 <= i <= |p| ==> At(s, p, i) in G)
    && (forall i :: 0 <= i < |p| ==> p[i] in G[At(s, p, i)])
  }

  /** Sum of the weights along a walk. */
  function Weight<V>(p: seq<Arc<V>>): int {
    if p == [] then 0 else Weight(p[..|p| - 1]) + p[|p| - 1].w
  }

  ghost predicate Reachable<V>(G: Digraph<V>, s: V, v: V) {
    exists p :: IsWalk(G, s, p) && End(s, p) == v
  }

  /** Some walk from `s` to `v` weighs exactly `d`. */
  ghost predicate Witnessed<V>(G: Digraph<V>, s: V, v: V, d: int) {
    exists p :: IsWalk(G, s, p) && End(s, p) == v && Weight(p) == d
  }

  /** No walk from `s` to `v` weighs less than `d`. */
  ghost predicate LowerBound<V>(G: Digraph<V>, s: V, v: V, d: int) {
    forall p :: IsWalk(G, s, p) && End(s, p) == v ==> d <= Weight(p)
  }

  /** `d` is the least weight of a walk from `s` to `v`, and some walk has it. */
  ghost predicate IsShortest<V>(G: Digraph<V>, s: V, v: V, d: int) {
    Witnessed(G, s, v, d) && LowerBound(G, s, v, d)
  }

  /** No arc leaving a vertex reachable from `s` has a negative weight. */
  ghost predicate NonNegativeFrom<V>(G: Digraph<V>, s: V) {
    forall v, a :: Reachable(G, s, v) && v in G && a in G[v] ==> a.w >= 0
  }

  /** `S` is closed under the arcs of `G`. */
  ghost predicate ClosedUnder<V>(G: Digraph<V>, S: set<V>) {
    forall x, a :: x in S && x in G && a in G[x] ==> a.to in S
  }

  lemma EmptyWalk<V>(G: Digraph<V>, s: V)
    requires s in G
    ensures IsWalk(G, s, []) && End(s, []) == s && Weight<V>([]) == 0
    ensures Reachable(G, s, s)
  {
    assert IsWalk(G, s, []) && End(s, []) == s;
  }

  /** Extending a walk by an arc out of its last vertex. */
  lemma {:induction false} WalkSnoc<V>(G: Digraph<V>, s: V, p: seq<Arc<V>>, a: Arc<V>)
    requires IsWalk(G, s, p) && a in G[End(s, p)] && a.to in G
    ensures IsWalk(G, s, p + [a]) && End(s, p + [a]) == a.to
    ensures Weight(p + [a]) == Weight(p) + a.w
  {
    var q := p + [a];
    assert q[..|q| - 1] == p;
    forall i | 0 <= i <= |q| ensures At(s, q, i) in G {
      if i <= |p| { assert At(s, q, i) == At(s, p, i); }
    }
    forall i | 0 <= i < |q| ensures q[i] in G[At(s, q, i)] {
      assert At(s, q, i) == At(s, p, i);
    }
  }

  /** Every prefix of a walk is a walk, ending where the walk was after `i` arcs. */
  lemma WalkPrefix<V>(G: Digraph<V>, s: V, p: seq<Arc<V>>, i: nat)
    requires IsWalk(G, s, p) && i <= |p|
    ensures IsWalk(G, s, p[..i]) && End(s, p[..i]) == At(s, p, i)
  {
    var q := p[..i];
    forall j | 0 <= j <= |q| ensures At(s, q, j) == At(s, p, j) {}
  }

  /** The weight of a walk splits at any point. */
  lemma {:induction false} WeightSplit<V>(p: seq<Arc<V>>, i: nat)
    requires i <= |p|
    ensures Weight(p) == Weight(p[..i]) + Weight(p[i..])
  {
    if i < |p| {
      var n := |p| - 1;
      assert p[..n][..i] == p[..i];
      WeightSplit(p[..n], i);
      assert p[..n][i..] == p[i..][..|p[i..]| - 1];
    } else {
      assert p[..i] == p;
    }
  }

  /** A vertex on a walk from `s` is reachable from `s`. */
  lemma OnWalkReachable<V>(G: Digraph<V>, s: V, p: seq<Arc<V>>, i: nat)
    requires IsWalk(G, s, p) && i <= |p|
    ensures Reachable(G, s, At(s, p, i))
  {
    WalkPrefix(G, s, p, i);
  }

  /** From a reachable vertex, a walk can always be extended by any of its arcs. */
  lemma ReachableStep<V>(G: Digraph<V>, s: V, v: V, a: Arc<V>)
    requires Reachable(G, s, v) && a in G[v] && a.to in G
    ensures Reachable(G, s, a.to)
  {
    var p :| IsWalk(G, s, p) && End(s, p) == v;
    WalkSnoc(G, s, p, a);
  }

  /** A witnessed distance extends by any arc out of the vertex. */
  lemma WitnessStep<V>(G: Digraph<V>, s: V, v: V, d: int, a: Arc<V>)
    requires Witnessed(G, s, v, d) && v in G && a in G[v] && a.to in G
    ensures Witnessed(G, s, a.to, d + a.w)
  {
    var p :| IsWalk(G, s, p) && End(s, p) == v && Weight(p) == d;
    WalkSnoc(G, s, p, a);
  }

  /** When every arc out of a reachable vertex is non-negative, every stretch of
      a walk from `s` weighs at least 0. */
  lemma {:induction false} SuffixNonNegative<V>(G: Digraph<V>, s: V, p: seq<Arc<V>>, i: nat)
    requires NonNegativeFrom(G, s) && IsWalk(G, s, p) && i <= |p|
    ensures Weight(p[i..]) >= 0
  {
    if i < |p| {
      var n := |p| - 1;
      WalkPrefix(G, s, p, n);
      SuffixNonNegative(G, s, p[..n], i);
      OnWalkReachable(G, s, p, n);
      var v, q := At(s, p, n), p[i..];
      assert v in G && p[n] in G[v];
      assert p[n].w >= 0;
      assert q[..|q| - 1] == p[..n][i..] && q[|q| - 1] == p[n];
      assert Weight(q) == Weight(q[..|q| - 1]) + p[n].w;
    } else {
      assert p[i..] == [];
    }
  }

  /** A walk that starts inside `S` and ends outside it has an arc leaving `S`. */
  lemma {:induction false} ExitArc<V>(G: Digraph<V>, S: set<V>, s: V, p: seq<Arc<V>>) returns (i: nat)
    requires IsWalk(G, s, p) && s in S && End(s, p) !in S
    ensures i < |p| && At(s, p, i) in S && p[i].to !in S
  {
    var n := |p| - 1;
    if At(s, p, n) in S {
      i := n;
    } else {
      WalkPrefix(G, s, p, n);
      i := ExitArc(G, S, s, p[..n]);
      assert At(s, p[..n], i) == At(s, p, i);
    }
  }

  /** With no negative arc reachable, no walk from `s` weighs less than 0, in
      particular no walk back to `s` itself. */
  lemma SourceBound<V>(G: Digraph<V>, s: V)
    requires NonNegativeFrom(G, s)
    ensures LowerBound(G, s, s, 0)
  {
    forall p | IsWalk(G, s, p) && End(s, p) == s ensures 0 <= Weight(p) {
      SuffixNonNegative(G, s, p, 0);
      assert p[0..] == p;
    }
  }

  /** The step that makes Dijkstra's algorithm correct. `S` holds the settled
      vertices, each with a lower bound `D[x]` on its distance and with all its
      arcs relaxed into `D`; `u` is an unsettled vertex whose tentative distance
      is least among the unsettled ones. With no negative arc reachable, no walk
      reaches `u` for less than `D[u]`. */
  lemma SettleNext<V>(G: Digraph<V>, s: V, S: set<V>, D: map<V, int>, u: V)
    requires NonNegativeFrom(G, s) && s in S && u in G && u !in S && u in D
    requires forall x :: x in S ==> x in D && LowerBound(G, s, x, D[x])
    requires forall x, a :: x in S && x in G && a in G[x] ==> a.to in D && D[a.to] <= D[x] + a.w
    requires forall y :: y in G && y !in S && y in D ==> D[u] <= D[y]
    ensures LowerBound(G, s, u, D[u])
  {
    forall p | IsWalk(G, s, p) && End(s, p) == u ensures D[u] <= Weight(p) {
      var i := ExitArc(G, S, s, p);
      var x, a := At(s, p, i), p[i];
      WalkPrefix(G, s, p, i);
      assert x in G && a in G[x];
      assert a.to == At(s, p, i + 1) && a.to in G;
      CrossingWeight(G, s, p, i);
    }
  }

  /** A walk weighs at least what it weighs up to and including its arc `i`. */
  lemma CrossingWeight<V>(G: Digraph<V>, s: V, p: seq<Arc<V>>, i: nat)
    requires NonNegativeFrom(G, s) && IsWalk(G, s, p) && i < |p|
    ensures Weight(p) >= Weight(p[..i]) + p[i].w
  {
    assert p[..i + 1][..i] == p[..i];
    WeightSplit(p, i + 1);
    SuffixNonNegative(G, s, p, i + 1);
  }

  /** A set that holds `s` and is closed under arcs holds everything reachable from `s`. */
  lemma ClosedHoldsReachable<V>(G: Digraph<V>, S: set<V>, s: V, v: V)
    requires ClosedUnder(G, S) && s in S && Reachable(G, s, v)
    ensures v in S
  {
    var p :| IsWalk(G, s, p) && End(s, p) == v;
    if v !in S {
      var i := ExitArc(G, S, s, p);
    }
  }
}
