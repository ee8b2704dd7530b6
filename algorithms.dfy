/** Graph traversals and single-source shortest paths (GraphAlgorithms.java).

    The algorithms only read the heap: they follow `edges` from node to node
    and compare nodes with `equals`, so their `visited` sets and their distance
    map are keyed by `NodeKey`. What they compute is stated against the value
    `Snapshot(U)` of the part `U` of the heap they can reach. */
module Algorithms {
  import opened Errors
  import opened Paths
  import opened Nodes

  /** The keys of the nodes in `s`: what a `HashSet` of them holds. */
  ghost function KeySet(s: seq<Node>): set<NodeKey>
    reads s`data, s`name
  {
    set n | n in s :: n.Key()
  }

  /** No two entries of `s` are equal. */
  ghost predicate Unequal(s: seq<Node>)
    reads s`data, s`name
  {
    forall i, j :: 0 <= i < j < |s| ==> s[i].Key() != s[j].Key()
  }

  /** No two distinct node objects of `U` are equal: on `U`, Java's
      equality-based sets and maps then tell objects apart. */
  ghost predicate UniqueKeys(U: set<Node>)
    reads U`data, U`name
  {
    forall a, b {:trigger a.Key(), b.Key()} :: a in U && b in U && a != b ==> a.Key() != b.Key()
  }

  /** `owner` maps the key of each node of `U` back to it: keys are unique on `U`. */
  ghost predicate Owned(owner: map<NodeKey, Node>, U: set<Node>)
    reads U`data, U`name
  {
    forall a :: a in U ==> a.Key() in owner && owner[a.Key()] == a
  }

  lemma OwnerOf(U: set<Node>) returns (owner: map<NodeKey, Node>)
    requires UniqueKeys(U)
    ensures Owned(owner, U)
  {
    owner := map a | a in U :: a.Key() := a;
  }

  /** Whether keys are unique on `U` stays the same while the nodes of `U` do. */
  twostate lemma UniqueKeysUnchanged(U: set<Node>)
    requires unchanged(U)
    ensures UniqueKeys(U) == old(UniqueKeys(U))
  {
  }

  /** The keys of `s` stay the same while its nodes do. */
  twostate lemma KeySetUnchanged(s: seq<Node>)
    requires unchanged(s)
    ensures KeySet(s) == old(KeySet(s))
  {
  }

  /** A map from each key back to its node shows keys unique. */
  lemma OwnedUnique(owner: map<NodeKey, Node>, U: set<Node>)
    requires Owned(owner, U)
    ensures UniqueKeys(U)
  {
    forall a, b | a in U && b in U && a != b ensures a.Key() != b.Key() {
      assert owner[a.Key()] == a && owner[b.Key()] == b;
    }
  }

  /** The list form of `Unequal`. */
  lemma UnequalKeys(s: seq<Node>)
    ensures Unequal(s) <==> DistinctKeys(KeysOf(s))
  {
    KeysAt(s);
  }

  /** When every arc out of a visited node leads to a visited key and keys are
      unique, the visited nodes are exactly closed under arcs, so they hold
      everything reachable from the start. */
  lemma VisitedHoldsReachable(U: set<Node>, start: Node, result: seq<Node>)
    requires Closed(U) && UniqueKeys(U) && start in result
    requires forall n :: n in result ==> n in U
    requires forall j :: 0 <= j < |result| ==> Expanded(result[j], KeySet(result))
    ensures forall n :: Reachable(Snapshot(U), start, n) ==> n in result
  {
    var G, R := Snapshot(U), set n | n in result;
    forall x: Node, a: Arc<Node> | x in R && x in G && a in G[x] ensures a.to in R {
      var j :| 0 <= j < |x.edges| && ArcsOf(x.edges)[j] == a;
      var e := x.edges[j];
      var i :| 0 <= i < |result| && result[i] == x;
      assert Expanded(result[i], KeySet(result));
      var y :| y in result && y.Key() == e.toNode.Key();
    }
    forall n | Reachable(G, start, n) ensures n in result {
      ClosedHoldsReachable(G, R, start, n);
    }
  }

  /** The keys of the nodes of `U`. */
  ghost function KeysIn(U: set<Node>): set<NodeKey>
    reads U`data, U`name
  {
    set n | n in U :: n.Key()
  }

  /** Every edge out of `n` leads to a visited key. */
  ghost predicate Expanded(n: Node, visited: set<NodeKey>)
    reads n, set e | e in n.edges :: e.toNode
  {
    forall e :: e in n.edges ==> e.toNode.Key() in visited
  }

  /** Every entry after the first is the target of an edge of an earlier
      entry, the one `parent` names: the order in which a traversal
      discovers nodes. */
  ghost predicate Discovered(s: seq<Node>, parent: seq<int>)
    reads s`edges
  {
    && |parent| == |s|
    && forall i :: 0 < i < |s| ==> 0 <= parent[i] < i && s[i] in Targets(s[parent[i]].edges)
  }

  /** In a discovery order, every node is reachable from the first. */
  lemma DiscoveredReachable(U: set<Node>, s: seq<Node>, parent: seq<int>)
    requires Closed(U) && |s| > 0 && Discovered(s, parent)
    requires forall n :: n in s ==> n in U
    ensures forall i :: 0 <= i < |s| ==> Reachable(Snapshot(U), s[0], s[i])
  {
    forall i | 0 <= i < |s| ensures Reachable(Snapshot(U), s[0], s[i]) {
      DiscoveredAt(U, s, parent, i);
    }
  }

  /** Following parents back from entry `i` reaches the first entry, so
      entry `i` is reachable from it. */
  lemma {:induction false} DiscoveredAt(U: set<Node>, s: seq<Node>, parent: seq<int>, i: nat)
    requires Closed(U) && i < |s| && Discovered(s, parent)
    requires forall n :: n in s ==> n in U
    ensures Reachable(Snapshot(U), s[0], s[i])
    decreases i
  {
    var G := Snapshot(U);
    if i == 0 {
      EmptyWalk(G, s[0]);
    } else {
      var j := parent[i];
      DiscoveredAt(U, s, parent, j);
      var a :| 0 <= a < |s[j].edges| && Targets(s[j].edges)[a] == s[i];
      assert ArcsOf(s[j].edges)[a] in G[s[j]];
      ReachableStep(G, s[0], s[j], ArcsOf(s[j].edges)[a]);
    }
  }

  /** A list without two equal entries has as many keys as entries. */
  lemma {:induction false} UnequalCount(s: seq<Node>)
    requires Unequal(s)
    ensures |KeySet(s)| == |s|
  {
    if s != [] {
      var t, x := s[..|s| - 1], s[|s| - 1];
      assert s == t + [x];
      assert forall i :: 0 <= i < |t| ==> t[i] == s[i];
      assert KeySet(s) == KeySet(t) + {x.Key()};
      assert x.Key() !in KeySet(t) by {
        forall n | n in t ensures n.Key() != x.Key() {
          var i :| 0 <= i < |t| && t[i] == n;
        }
      }
      UnequalCount(t);
    }
  }

  /** A set holding the key of every entry of a list without two equal
      entries, and no more keys than entries, is the list's key set. */
  lemma VisitedKeys(s: seq<Node>, visited: set<NodeKey>)
    requires Unequal(s) && |visited| == |s|
    requires forall i :: 0 <= i < |s| ==> s[i].Key() in visited
    ensures visited == KeySet(s)
  {
    UnequalCount(s);
    assert KeySet(s) <= visited;
    assert visited == KeySet(s) + (visited - KeySet(s));
  }

  lemma SubsetSize<T>(A: set<T>, B: set<T>)
    requires A <= B
    ensures |A| <= |B|
  {
    assert B == A + (B - A);
  }

  /** The nodes `s` a traversal has discovered lie in `U`, and each was found
      through an edge of an earlier one. */
  ghost predicate Reached(U: set<Node>, s: seq<Node>, parent: seq<int>)
    reads s`edges
  {
    (forall n :: n in s ==> n in U) && Discovered(s, parent)
  }

  /** `visited` holds exactly the keys of `s`, each key once. */
  ghost predicate Counted(s: seq<Node>, visited: set<NodeKey>)
    reads s`data, s`name
  {
    Unequal(s) && (forall i :: 0 <= i < |s| ==> s[i].Key() in visited) && |visited| == |s|
  }

  /** The state `bfs` keeps about the nodes `s` it has queued so far. */
  ghost predicate Traversal(U: set<Node>, s: seq<Node>, parent: seq<int>, visited: set<NodeKey>)
    reads s`edges, s`data, s`name
  {
    Reached(U, s, parent) && Counted(s, visited)
  }

  /** Discovering a target of an edge of the `p`-th discovered node. */
  lemma DiscoverStep(U: set<Node>, s: seq<Node>, parent: seq<int>, p: int, i: int)
    requires Closed(U) && Reached(U, s, parent)
    requires 0 <= p < |s| && 0 <= i < |s[p].edges|
    ensures Reached(U, s + [s[p].edges[i].toNode], parent + [p])
  {
    var x := s[p].edges[i].toNode;
    assert s[p] in s && s[p].edges[i] in s[p].edges;
    assert Targets(s[p].edges)[i] == x;
    assert forall k :: 0 <= k < |s| ==> (s + [x])[k] == s[k] && (parent + [p])[k] == parent[k];
  }

  /** Placing a node with an unvisited key anywhere in a list keeps the count. */
  lemma CountStep(a: seq<Node>, x: Node, b: seq<Node>, visited: set<NodeKey>)
    requires Counted(a + b, visited) && x.Key() !in visited
    ensures Counted(a + ([x] + b), visited + {x.Key()})
  {
    var s, t := a + b, a + ([x] + b);
    assert forall k :: 0 <= k < |a| ==> t[k] == s[k];
    assert forall k :: |a| < k < |t| ==> t[k] == s[k - 1];
    assert t[|a|] == x;
  }

  /** Discovering a target of an edge of the `p`-th queued node, whose key is new. */
  lemma Discover(U: set<Node>, s: seq<Node>, parent: seq<int>, visited: set<NodeKey>, p: int, i: int)
    requires Closed(U) && Traversal(U, s, parent, visited)
    requires 0 <= p < |s| && 0 <= i < |s[p].edges| && s[p].edges[i].toNode.Key() !in visited
    ensures Traversal(U, s + [s[p].edges[i].toNode], parent + [p], visited + {s[p].edges[i].toNode.Key()})
  {
    var x := s[p].edges[i].toNode;
    DiscoverStep(U, s, parent, p, i);
    CountStep(s, x, [], visited);
    assert s + ([x] + []) == s + [x];
  }

  /** Parents never decrease and none is above `bound`: a FIFO queue lets
      the nodes discover in the order they were queued. */
  ghost predicate Fifo(parent: seq<int>, bound: int) {
    && (forall i :: 0 < i < |parent| ==> parent[i] <= bound)
    && forall i :: 0 < i < |parent| - 1 ==> parent[i] <= parent[i + 1]
  }

  /** A node discovered by the latest discoverer keeps the order. */
  lemma FifoStep(parent: seq<int>, b: int)
    requires Fifo(parent, b)
    ensures Fifo(parent + [b], b)
  {
    assert forall i :: 0 <= i < |parent| ==> (parent + [b])[i] == parent[i];
  }

  /** A larger bound still bounds the parents. */
  lemma FifoWiden(parent: seq<int>, b: int, c: int)
    requires Fifo(parent, b) && b <= c
    ensures Fifo(parent, c)
  {
  }

  /** Queuing the target of edge `i` of the last node taken off the queue,
      when its key is new, keeps the state of `bfs`. */
  lemma Enqueue(U: set<Node>, done: seq<Node>, queue: seq<Node>, parent: seq<int>, visited: set<NodeKey>, i: int)
    requires Closed(U) && |done| > 0 && 0 <= i < |done[|done| - 1].edges|
    requires Traversal(U, done + queue, parent, visited) && Fifo(parent, |done| - 1) && visited <= KeysIn(U)
    requires done[|done| - 1].edges[i].toNode.Key() !in visited
    ensures var x := done[|done| - 1].edges[i].toNode;
      && Traversal(U, done + (queue + [x]), parent + [|done| - 1], visited + {x.Key()})
      && Fifo(parent + [|done| - 1], |done| - 1) && visited + {x.Key()} <= KeysIn(U)
  {
    var current, s := done[|done| - 1], done + queue;
    var x := current.edges[i].toNode;
    assert s[|done| - 1] == current;
    Discover(U, s, parent, visited, |done| - 1, i);
    assert done + (queue + [x]) == s + [x];
    assert x in U by { assert current in s; assert current.edges[i] in current.edges; }
    FifoStep(parent, |done| - 1);
  }

  /** What the inner loop of `bfs` and of `dfs` does with the targets `ts`
      of a node's edges, in edge order: a target whose key is not yet visited
      is taken and its key marked, so a later target equal to an earlier one
      is dropped. The targets taken, in order, and the visited set after. */
  function Fresh(ts: seq<Node>, visited: set<NodeKey>): (r: (seq<Node>, set<NodeKey>))
    reads ts`data, ts`name
  {
    if ts == [] then ([], visited)
    else
      Take(Fresh(ts[..|ts| - 1], visited), ts[|ts| - 1])
  }

  /** The targets taken are targets with keys not visited before, no two
      equal; afterwards every target's key is visited, and the visited set
      grew by exactly the keys taken. */
  lemma {:induction false} FreshFacts(ts: seq<Node>, visited: set<NodeKey>)
    ensures var r := Fresh(ts, visited);
      && r.1 == visited + KeySet(r.0)
      && Unequal(r.0)
      && (forall n :: n in r.0 ==> n in ts && n.Key() !in visited)
      && (forall n :: n in ts ==> n.Key() in r.1)
  {
    if ts != [] {
      var s := ts[..|ts| - 1];
      var p, t := Fresh(s, visited), ts[|ts| - 1];
      FreshFacts(s, visited);
      assert forall n :: n in ts ==> n in s || n == t by {
        assert ts == s + [t];
      }
      if t.Key() !in p.1 {
        var q := p.0 + [t];
        assert KeySet(q) == KeySet(p.0) + {t.Key()} by {
          assert forall n :: n in q <==> n in p.0 || n == t;
        }
        forall i, j | 0 <= i < j < |q| ensures q[i].Key() != q[j].Key() {
          if j == |p.0| {
            assert q[i] in p.0 && q[i].Key() in KeySet(p.0);
          }
        }
      }
    }
  }

  /** One target more: `Fresh` takes `t` when its key is new. */
  function Take(p: (seq<Node>, set<NodeKey>), t: Node): (seq<Node>, set<NodeKey>)
    reads t`data, t`name
  {
    if t.Key() in p.1 then p else (p.0 + [t], p.1 + {t.Key()})
  }

  lemma FreshStep(ts: seq<Node>, i: nat, visited: set<NodeKey>)
    requires i < |ts|
    ensures Fresh(ts[..i + 1], visited) == Take(Fresh(ts[..i], visited), ts[i])
  {
    assert ts[..i + 1][..i] == ts[..i];
  }

  /** The same step for a loop that pushes each target taken on the front
      of `q`, keeping `q == Reversed(Fresh(ts[..i], visited).0) + rest`. */
  lemma PushAdvance(ts: seq<Node>, i: nat, visited: set<NodeKey>, rest: seq<Node>, q: seq<Node>, v: set<NodeKey>)
    requires i < |ts| && q == Reversed(Fresh(ts[..i], visited).0) + rest && v == Fresh(ts[..i], visited).1
    ensures ts[i].Key() in v ==> q == Reversed(Fresh(ts[..i + 1], visited).0) + rest && v == Fresh(ts[..i + 1], visited).1
    ensures ts[i].Key() !in v ==>
      [ts[i]] + q == Reversed(Fresh(ts[..i + 1], visited).0) + rest && v + {ts[i].Key()} == Fresh(ts[..i + 1], visited).1
  {
    FreshStep(ts, i, visited);
    var taken := Fresh(ts[..i], visited).0;
    assert (taken + [ts[i]])[..|taken|] == taken;
  }

  /** `q` is `p` followed by some entries, all equal to `d`. */
  ghost predicate Appended(p: seq<int>, q: seq<int>, d: int) {
    && |p| <= |q| && (forall j :: 0 <= j < |p| ==> q[j] == p[j])
    && forall j :: |p| <= j < |q| ==> q[j] == d
  }

  lemma AppendedStep(p: seq<int>, q: seq<int>, d: int)
    requires Appended(p, q, d)
    ensures Appended(p, q + [d], d)
  {
  }

  /** One step of a loop that keeps `q == pre + Fresh(ts[..i], visited).0`
      and `v == Fresh(ts[..i], visited).1`. */
  lemma FreshAdvance(ts: seq<Node>, i: nat, visited: set<NodeKey>, pre: seq<Node>, q: seq<Node>, v: set<NodeKey>)
    requires i < |ts| && q == pre + Fresh(ts[..i], visited).0 && v == Fresh(ts[..i], visited).1
    ensures ts[i].Key() in v ==> q == pre + Fresh(ts[..i + 1], visited).0 && v == Fresh(ts[..i + 1], visited).1
    ensures ts[i].Key() !in v ==>
      q + [ts[i]] == pre + Fresh(ts[..i + 1], visited).0 && v + {ts[i].Key()} == Fresh(ts[..i + 1], visited).1
  {
    FreshStep(ts, i, visited);
  }

  /** `s` backwards. */
  function Reversed<T>(s: seq<T>): (r: seq<T>)
    ensures |r| == |s| && forall i :: 0 <= i < |s| ==> r[i] == s[|s| - 1 - i]
  {
    if s == [] then [] else [s[|s| - 1]] + Reversed(s[..|s| - 1])
  }

  /** The work list after its head `pending[0]` is expanded and `taken` are
      its targets taken: a queue (`bfs`) appends them in edge order, a stack
      (`dfs`) pushes them one by one, so the last one taken ends on top. */
  function Following(pending: seq<Node>, taken: seq<Node>, lifo: bool): seq<Node>
    requires pending != []
  {
    if lifo then Reversed(taken) + pending[1..] else pending[1..] + taken
  }

  /** The run of `bfs` (`lifo` false) or `dfs` (`lifo` true) from `start`
      that lists `result`: `pending[i]` is the work list and `seen[i]` the
      visited set before step `i`. Each step lists the head of the work list
      and replaces the work list by `Following` it with the targets the
      inner loop takes. */
  ghost predicate Order(start: Node, result: seq<Node>, pending: seq<seq<Node>>, seen: seq<set<NodeKey>>, lifo: bool)
    reads start, result, set n, e | n in result && e in n.edges :: e.toNode
  {
    && |pending| == |result| + 1 && |seen| == |result| + 1
    && pending[0] == [start] && seen[0] == {start.Key()}
    && forall i {:trigger Step(result[i], pending[i], seen[i], pending[i + 1], seen[i + 1], lifo)} :: 0 <= i < |result| ==>
         Step(result[i], pending[i], seen[i], pending[i + 1], seen[i + 1], lifo)
  }

  /** Expanding `n`, the head of `before`, with `seen` visited, leaves `after`
      pending and `seen'` visited. */
  ghost predicate Step(n: Node, before: seq<Node>, seen: set<NodeKey>, after: seq<Node>, seen': set<NodeKey>, lifo: bool)
    reads n, set e | e in n.edges :: e.toNode
  {
    && before != [] && n == before[0]
    && var f := Fresh(Targets(n.edges), seen);
       after == Following(before, f.0, lifo) && seen' == f.1
  }

  /** One more step of the run. */
  lemma OrderStep(start: Node, result: seq<Node>, pending: seq<seq<Node>>, seen: seq<set<NodeKey>>, lifo: bool,
                  next: seq<Node>, visited: set<NodeKey>)
    requires Order(start, result, pending, seen, lifo) && pending[|result|] != []
    requires var f := Fresh(Targets(pending[|result|][0].edges), seen[|result|]);
      next == Following(pending[|result|], f.0, lifo) && visited == f.1
    ensures Order(start, result + [pending[|result|][0]], pending + [next], seen + [visited], lifo)
  {
    var r, p, s := result + [pending[|result|][0]], pending + [next], seen + [visited];
    forall i | 0 <= i < |r| ensures Step(r[i], p[i], s[i], p[i + 1], s[i + 1], lifo) {
      if i < |result| {
        assert r[i] == result[i] && p[i] == pending[i] && s[i] == seen[i];
        assert p[i + 1] == pending[i + 1] && s[i + 1] == seen[i + 1];
        assert Step(result[i], pending[i], seen[i], pending[i + 1], seen[i + 1], lifo);
      }
    }
  }

  /** Two runs from the same start agree on their first `i` steps: the
      work lists and visited sets before step `i` are the same, and so are
      the nodes listed so far. */
  lemma {:induction false} OrderAgrees(start: Node, r1: seq<Node>, p1: seq<seq<Node>>, s1: seq<set<NodeKey>>,
                                       r2: seq<Node>, p2: seq<seq<Node>>, s2: seq<set<NodeKey>>, lifo: bool, i: nat)
    requires Order(start, r1, p1, s1, lifo) && Order(start, r2, p2, s2, lifo)
    requires i <= |r1| && i <= |r2|
    ensures p1[i] == p2[i] && s1[i] == s2[i] && r1[..i] == r2[..i]
    ensures i < |r1| ==> p1[i] != []
    ensures i < |r2| ==> p2[i] != []
  {
    if i < |r1| {
      assert Step(r1[i], p1[i], s1[i], p1[i + 1], s1[i + 1], lifo);
    }
    if i < |r2| {
      assert Step(r2[i], p2[i], s2[i], p2[i + 1], s2[i + 1], lifo);
    }
    if i > 0 {
      var j := i - 1;
      OrderAgrees(start, r1, p1, s1, r2, p2, s2, lifo, j);
      assert Step(r1[j], p1[j], s1[j], p1[j + 1], s1[j + 1], lifo);
      assert Step(r2[j], p2[j], s2[j], p2[j + 1], s2[j + 1], lifo);
      assert r1[..i] == r1[..j] + [r1[j]] && r2[..i] == r2[..j] + [r2[j]];
    }
  }

  /** A finished run is determined by the graph and the start node: two
      runs that both end with an empty work list list the same nodes, in
      the same order. */
  lemma OrderDetermined(start: Node, r1: seq<Node>, p1: seq<seq<Node>>, s1: seq<set<NodeKey>>,
                        r2: seq<Node>, p2: seq<seq<Node>>, s2: seq<set<NodeKey>>, lifo: bool)
    requires Order(start, r1, p1, s1, lifo) && p1[|r1|] == []
    requires Order(start, r2, p2, s2, lifo) && p2[|r2|] == []
    ensures r1 == r2
  {
    if |r1| < |r2| {
      OrderAgrees(start, r1, p1, s1, r2, p2, s2, lifo, |r1|);
      assert false;
    } else if |r2| < |r1| {
      OrderAgrees(start, r1, p1, s1, r2, p2, s2, lifo, |r2|);
      assert false;
    } else {
      OrderAgrees(start, r1, p1, s1, r2, p2, s2, lifo, |r1|);
      assert r1 == r1[..|r1|] && r2 == r2[..|r2|];
    }
  }

  /** The inner loop of `bfs`: every not yet visited target of an edge of
      `current` is marked visited and queued, in edge order. With `done` the
      nodes already taken off the queue (the last of them `current`), the
      discovered nodes are `done + queue`. */
  method EnqueueNeighbours(current: Node, visited: set<NodeKey>, queue: seq<Node>,
                           ghost done: seq<Node>, ghost U: set<Node>, ghost parent: seq<int>)
    returns (visited': set<NodeKey>, queue': seq<Node>, ghost parent': seq<int>)
    requires Closed(U) && |done| > 0 && done[|done| - 1] == current
    requires Traversal(U, done + queue, parent, visited) && Fifo(parent, |done| - 1)
    requires visited <= KeysIn(U)
    ensures queue' == queue + Fresh(Targets(current.edges), visited).0
    ensures visited' == Fresh(Targets(current.edges), visited).1
    ensures Appended(parent, parent', |done| - 1)
    ensures Traversal(U, done + queue', parent', visited') && Fifo(parent', |done| - 1)
    ensures visited' <= KeysIn(U)
    ensures Expanded(current, visited')
  {
    ghost var T := Targets(current.edges);
    visited', queue', parent' := visited, queue, parent;
    var i := 0;
    while i < |current.edges|
      invariant i <= |current.edges|
      invariant queue' == queue + Fresh(T[..i], visited).0 && visited' == Fresh(T[..i], visited).1
      invariant Appended(parent, parent', |done| - 1)
      invariant Traversal(U, done + queue', parent', visited') && Fifo(parent', |done| - 1)
      invariant visited' <= KeysIn(U)
    {
      var neighbour := current.edges[i].toNode;
      assert T[i] == neighbour;
      FreshAdvance(T, i, visited, queue, queue', visited');
      if neighbour.Key() !in visited' {
        assert Traversal(U, done + (queue' + [neighbour]), parent' + [|done| - 1], visited' + {neighbour.Key()})
          && Fifo(parent' + [|done| - 1], |done| - 1) && visited' + {neighbour.Key()} <= KeysIn(U) by {
          Enqueue(U, done, queue', parent', visited', i);
        }
        assert Appended(parent, parent' + [|done| - 1], |done| - 1) by {
          AppendedStep(parent, parent', |done| - 1);
        }
        parent' := parent' + [|done| - 1];
        visited' := visited' + {neighbour.Key()};
        queue' := queue' + [neighbour];
      }
      i := i + 1;
    }
    assert T[..i] == T;
    assert Expanded(current, visited') by {
      FreshFacts(T, visited);
      TargetsAt(current.edges);
    }
  }

  /** Expanding `current` after `prev` keeps every expanded node expanded,
      since the visited set only grows. */
  lemma ExpandedKept(prev: seq<Node>, current: Node, visited0: set<NodeKey>, visited: set<NodeKey>)
    requires forall j :: 0 <= j < |prev| ==> Expanded(prev[j], visited0)
    requires Expanded(current, visited) && visited0 <= visited
    ensures forall j :: 0 <= j < |prev + [current]| ==> Expanded((prev + [current])[j], visited)
  {
    forall j | 0 <= j < |prev + [current]| ensures Expanded((prev + [current])[j], visited) {
      if j < |prev| {
        assert (prev + [current])[j] == prev[j] && Expanded(prev[j], visited0);
      }
    }
  }

  /** A traversal whose work list ran empty: every target of a listed node
      is listed, and, when no two nodes of `U` are equal, so is every node
      reachable from `start`. */
  lemma Exhausted(U: set<Node>, start: Node, result: seq<Node>, visited: set<NodeKey>)
    requires Closed(U) && Counted(result, visited) && start in result
    requires forall n :: n in result ==> n in U
    requires forall j :: 0 <= j < |result| ==> Expanded(result[j], visited)
    ensures forall j :: 0 <= j < |result| ==> Expanded(result[j], KeySet(result))
    ensures UniqueKeys(U) ==> forall n :: Reachable(Snapshot(U), start, n) ==> n in result
  {
    VisitedKeys(result, visited);
    if UniqueKeys(U) {
      VisitedHoldsReachable(U, start, result);
    }
  }

  /** `bfs(startNode)`: the nodes reachable from `startNode`, in the order a
      FIFO queue first meets them. A node is marked visited when it is queued,
      so no node (up to `equals`) is listed twice. `U` is any set of nodes that
      holds `start` and is closed under edge targets (the reachable part of
      the heap is one). */
  method Bfs(start: Node, ghost U: set<Node>)
    returns (result: seq<Node>, ghost parent: seq<int>, ghost queues: seq<seq<Node>>, ghost seen: seq<set<NodeKey>>)
    requires start in U && Closed(U)
    ensures Order(start, result, queues, seen, false) && queues[|result|] == []
    ensures |result| > 0 && result[0] == start
    ensures Discovered(result, parent) && Fifo(parent, |result| - 1)
    ensures Unequal(result)
    ensures forall j :: 0 <= j < |result| ==> Expanded(result[j], KeySet(result))
    ensures forall n :: n in result ==> n in U && Reachable(Snapshot(U), start, n)
    ensures UniqueKeys(U) ==> forall n :: Reachable(Snapshot(U), start, n) ==> n in result
  {
    ghost var KU := KeysIn(U);
    result := [];
    var queue := [start];
    var visited := {start.Key()};
    parent, queues, seen := [0], [queue], [visited];
    while queue != []
      invariant Order(start, result, queues, seen, false) && queues[|result|] == queue && seen[|result|] == visited
      invariant Traversal(U, result + queue, parent, visited) && Fifo(parent, |result| - 1)
      invariant |result + queue| > 0 && (result + queue)[0] == start
      invariant visited <= KU
      invariant forall j :: 0 <= j < |result| ==> Expanded(result[j], visited)
      decreases |KU| - |result|
    {
      assert |result| < |KU| by { SubsetSize(visited, KU); }
      var current := queue[0];
      ghost var prev, visited0, order := result, visited, result + queue;
      queue := queue[1..];
      result := result + [current];
      assert result + queue == order;
      assert Fifo(parent, |result| - 1) by { FifoWiden(parent, |prev| - 1, |result| - 1); }
      visited, queue, parent := EnqueueNeighbours(current, visited, queue, result, U, parent);
      assert Order(start, result, queues + [queue], seen + [visited], false) by {
        OrderStep(start, prev, queues, seen, false, queue, visited);
      }
      queues, seen := queues + [queue], seen + [visited];
      assert visited0 <= visited by { FreshFacts(Targets(current.edges), visited0); }
      ExpandedKept(prev, current, visited0, visited);
    }
    assert result + queue == result;
    Exhausted(U, start, result, visited);
    DiscoveredReachable(U, result, parent);
  }

  /** The inner loop of `dfs`: every not yet visited target of an edge of
      `current` is marked visited and pushed on the stack, in edge order, so
      the last one pushed is on top. With `done` the nodes already popped,
      `done + stack` holds each visited key once; `found` lists the same nodes
      in the order they were discovered, `current` at position `p`. */
  method PushNeighbours(current: Node, visited: set<NodeKey>, stack: seq<Node>,
                        ghost done: seq<Node>, ghost U: set<Node>,
                        ghost found: seq<Node>, ghost parent: seq<int>, ghost p: int)
    returns (visited': set<NodeKey>, stack': seq<Node>, ghost found': seq<Node>, ghost parent': seq<int>)
    requires Closed(U) && 0 <= p < |found| && found[p] == current
    requires Reached(U, found, parent) && Counted(done + stack, visited)
    requires forall n :: n in done + stack ==> n in found
    requires visited <= KeysIn(U)
    ensures Reached(U, found', parent') && Counted(done + stack', visited')
    ensures forall n :: n in done + stack' ==> n in found'
    ensures visited' <= KeysIn(U)
    ensures |found'| >= |found| && found'[..|found|] == found
    ensures stack' == Reversed(Fresh(Targets(current.edges), visited).0) + stack
    ensures visited' == Fresh(Targets(current.edges), visited).1
    ensures Expanded(current, visited')
  {
    ghost var T := Targets(current.edges);
    visited', stack', found', parent' := visited, stack, found, parent;
    var i := 0;
    while i < |current.edges|
      invariant i <= |current.edges|
      invariant Reached(U, found', parent') && Counted(done + stack', visited')
      invariant forall n :: n in done + stack' ==> n in found'
      invariant visited' <= KeysIn(U)
      invariant |found'| >= |found| && found'[..|found|] == found
      invariant stack' == Reversed(Fresh(T[..i], visited).0) + stack && visited' == Fresh(T[..i], visited).1
    {
      var neighbour := current.edges[i].toNode;
      PushAdvance(T, i, visited, stack, stack', visited');
      if neighbour.Key() !in visited' {
        assert found'[p] == current;
        assert Reached(U, found' + [neighbour], parent' + [p]) by {
          DiscoverStep(U, found', parent', p, i);
        }
        assert Counted(done + ([neighbour] + stack'), visited' + {neighbour.Key()}) by {
          CountStep(done, neighbour, stack', visited');
        }
        assert neighbour in U by { assert current in found'; assert current.edges[i] in current.edges; }
        found', parent' := found' + [neighbour], parent' + [p];
        visited' := visited' + {neighbour.Key()};
        stack' := [neighbour] + stack';
      }
      i := i + 1;
    }
    assert T[..i] == T;
    assert Expanded(current, visited') by {
      FreshFacts(T, visited);
      TargetsAt(current.edges);
    }
  }

  /** `dfs(startNode)`: the nodes reachable from `startNode`, in the order a
      LIFO stack pops them. As in `bfs`, a node is marked visited when it is
      pushed, so no node (up to `equals`) is listed twice. */
  method Dfs(start: Node, ghost U: set<Node>)
    returns (result: seq<Node>, ghost stacks: seq<seq<Node>>, ghost seen: seq<set<NodeKey>>)
    requires start in U && Closed(U)
    ensures Order(start, result, stacks, seen, true) && stacks[|result|] == []
    ensures |result| > 0 && result[0] == start
    ensures Unequal(result)
    ensures forall j :: 0 <= j < |result| ==> Expanded(result[j], KeySet(result))
    ensures forall n :: n in result ==> n in U && Reachable(Snapshot(U), start, n)
    ensures UniqueKeys(U) ==> forall n :: Reachable(Snapshot(U), start, n) ==> n in result
  {
    ghost var KU := KeysIn(U);
    result := [];
    var stack := [start];
    var visited := {start.Key()};
    ghost var found, parent := [start], [0];
    stacks, seen := [stack], [visited];
    while stack != []
      invariant Order(start, result, stacks, seen, true) && stacks[|result|] == stack && seen[|result|] == visited
      invariant Reached(U, found, parent) && |found| > 0 && found[0] == start
      invariant Counted(result + stack, visited)
      invariant forall n :: n in result + stack ==> n in found
      invariant visited <= KU
      invariant result == [] ==> stack == [start]
      invariant result != [] ==> result[0] == start
      invariant forall j :: 0 <= j < |result| ==> Expanded(result[j], visited)
      decreases |KU| - |result|
    {
      assert |result| < |KU| by { SubsetSize(visited, KU); }
      var current := stack[0];
      ghost var prev, visited0, order := result, visited, result + stack;
      assert current in order;
      ghost var p :| 0 <= p < |found| && found[p] == current;
      stack := stack[1..];
      result := result + [current];
      assert result + stack == order;
      visited, stack, found, parent := PushNeighbours(current, visited, stack, result, U, found, parent, p);
      assert Order(start, result, stacks + [stack], seen + [visited], true) by {
        OrderStep(start, prev, stacks, seen, true, stack, visited);
      }
      stacks, seen := stacks + [stack], seen + [visited];
      assert visited0 <= visited by { FreshFacts(Targets(current.edges), visited0); }
      ExpandedKept(prev, current, visited0, visited);
    }
    assert result + stack == result;
    Exhausted(U, start, result, visited);
    DiscoveredReachable(U, found, parent);
    forall n | n in result ensures n in U && Reachable(Snapshot(U), start, n) {
      var k :| 0 <= k < |found| && found[k] == n;
    }
  }

  // ---------------------------------------------------------------- dijkstra

  /** Tentative distances keyed like Java's `HashMap`; `None` stands for
      `Double.POSITIVE_INFINITY`. */
  type Distances = map<NodeKey, Option<int>>

  /** The vertices `dijkstra` works on: the graph's node list and the source. */
  ghost function Vertices(nodes: seq<Node>, source: Node): set<Node> {
    (set n | n in nodes) + {source}
  }

  /** `G` is the snapshot of `V`, as `Snapshot` computes it. */
  ghost predicate Describes(G: Digraph<Node>, V: set<Node>)
    reads V`edges, EdgesOf(V)
  {
    G.Keys == V && forall n :: n in V ==>
      assert forall e :: e in n.edges ==> e in EdgesOf(V); G[n] == ArcsOf(n.edges)
  }

  /** Every queued node has a finite tentative distance. */
  predicate Finite(pq: seq<Node>, dist: Distances)
    reads pq`data, pq`name
  {
    forall n :: n in pq ==> n.Key() in dist && dist[n.Key()].Some?
  }

  /** The entry `poll` takes off the priority queue: one of least tentative
      distance (the first such). */
  function MinIndex(pq: seq<Node>, dist: Distances): (m: nat)
    reads pq`data, pq`name
    requires pq != [] && Finite(pq, dist)
    ensures m < |pq|
    ensures forall i :: 0 <= i < |pq| ==> dist[pq[m].Key()].value <= dist[pq[i].Key()].value
    ensures forall i :: 0 <= i < m ==> dist[pq[m].Key()].value < dist[pq[i].Key()].value
  {
    if |pq| == 1 then 0
    else
      var m := MinIndex(pq[..|pq| - 1], dist);
      if dist[pq[|pq| - 1].Key()].value < dist[pq[m].Key()].value then |pq| - 1 else m
  }

  /** The first loop of `dijkstra`: every node of the graph starts at infinity. */
  method InitDistances(nodes: seq<Node>) returns (dist: Distances)
    ensures dist.Keys == KeySet(nodes)
    ensures forall k :: k in dist ==> dist[k] == None
  {
    dist := map[];
    var i := 0;
    while i < |nodes|
      invariant i <= |nodes|
      invariant dist.Keys == KeySet(nodes[..i])
      invariant forall k :: k in dist ==> dist[k] == None
    {
      assert nodes[..i + 1] == nodes[..i] + [nodes[i]];
      dist := dist[nodes[i].Key() := None];
      i := i + 1;
    }
    assert nodes[..i] == nodes;
  }

  /** Every node ever queued lies in `V` and was discovered through an edge,
      starting from `source`; every queued node has a finite distance. */
  ghost predicate Queue(V: set<Node>, source: Node, pq: seq<Node>, dist: Distances,
                        found: seq<Node>, parent: seq<int>)
    reads found`edges, pq`data, pq`name
  {
    && Reached(V, found, parent) && |found| > 0 && found[0] == source
    && Finite(pq, dist) && (forall n :: n in pq ==> n in found)
  }

  /** Distances settle in increasing order: no settled node is further than
      `last`, the distance of the node settled most recently, and no queued
      node is nearer. */
  ghost predicate Monotone(S: set<Node>, pq: seq<Node>, dist: Distances, last: int, visited: set<NodeKey>)
    reads S`data, S`name, pq`data, pq`name
  {
    && (forall n :: n in S ==> n.Key() in visited && n.Key() in dist && dist[n.Key()].Some? && dist[n.Key()].value <= last)
    && (forall n :: n in pq ==> n.Key() in dist && dist[n.Key()].Some? && last <= dist[n.Key()].value)
  }

  /** Every arc out of a settled node is non-negative and has been relaxed. */
  ghost predicate Relaxed(G: Digraph<Node>, S: set<Node>, dist: Distances)
    reads S`data, S`name, set n, j | n in S && n in G && 0 <= j < |G[n]| :: G[n][j].to
  {
    forall n, j :: n in S && n in G && 0 <= j < |G[n]| ==>
      && 0 <= G[n][j].w && n.Key() in dist && dist[n.Key()].Some?
      && G[n][j].to.Key() in dist && dist[G[n][j].to.Key()].Some?
      && dist[G[n][j].to.Key()].value <= dist[n.Key()].value + G[n][j].w
  }

  /** With unique keys: the visited keys are the keys of the settled nodes. */
  ghost predicate Identified(V: set<Node>, S: set<Node>, visited: set<NodeKey>)
    reads V`data, V`name
  {
    S <= V && forall n :: n in V && n.Key() in visited ==> n in S
  }

  /** Marking a node of `V` visited and settling it keeps the visited keys
      those of the settled nodes, because no other node of `V` has its key. */
  lemma IdentifiedStep(V: set<Node>, S: set<Node>, visited: set<NodeKey>, owner: map<NodeKey, Node>, u: Node)
    requires Owned(owner, V) && Identified(V, S, visited) && u in V
    ensures Identified(V, S + {u}, visited + {u.Key()})
  {
    forall n | n in V && n.Key() in visited + {u.Key()} ensures n in S + {u} {
      if n.Key() == u.Key() {
        assert owner[n.Key()] == n && owner[u.Key()] == u;
      }
    }
  }

  /** Adding a new key grows a key set by one. */
  lemma Grows(visited: set<NodeKey>, k: NodeKey)
    requires k !in visited
    ensures |visited + {k}| == |visited| + 1
  {
  }

  /** With unique keys: every finite distance is the weight of some walk. */
  ghost predicate Witnesses(G: Digraph<Node>, source: Node, V: set<Node>, dist: Distances)
    reads V`data, V`name
  {
    forall n :: n in V && n.Key() in dist && dist[n.Key()].Some? ==> Witnessed(G, source, n, dist[n.Key()].value)
  }

  /** With unique keys: every unsettled node with a finite distance is queued. */
  ghost predicate Frontier(V: set<Node>, S: set<Node>, pq: seq<Node>, dist: Distances)
    reads V`data, V`name
  {
    forall n :: n in V && n !in S && n.Key() in dist && dist[n.Key()].Some? ==> n in pq
  }

  /** With unique keys and no negative arc reachable: settled distances are
      lower bounds. */
  ghost predicate Optimal(G: Digraph<Node>, source: Node, S: set<Node>, dist: Distances)
    reads S`data, S`name
  {
    forall n :: n in S ==> n.Key() in dist && dist[n.Key()].Some? && LowerBound(G, source, n, dist[n.Key()].value)
  }

  /** Before the first node is settled the queue holds the source alone, at
      distance 0; after, the source is settled. */
  ghost predicate Started(source: Node, S: set<Node>, pq: seq<Node>, dist: Distances, visited: set<NodeKey>)
    reads source`data, source`name
  {
    && (S == {} ==> visited == {} && pq == [source] && source.Key() in dist && dist[source.Key()] == Some(0))
    && (S != {} ==> source in S)
  }

  /** The inner loop of `dijkstra` for the node `u` just settled at distance
      `last`: each edge in order is checked for a negative weight (which ends
      the run with its weight) and relaxed. `found[pu]` is `u`. */
  method Relax(u: Node, dist: Distances, pq: seq<Node>,
               ghost V: set<Node>, ghost G: Digraph<Node>, ghost source: Node, ghost S: set<Node>,
               ghost visited: set<NodeKey>, ghost last: int, ghost uk: bool, ghost owner: map<NodeKey, Node>,
               ghost nonneg: bool, ghost found: seq<Node>, ghost parent: seq<int>, ghost pu: int)
    returns (neg: Option<int>, dist': Distances, pq': seq<Node>, ghost found': seq<Node>, ghost parent': seq<int>)
    requires G.Keys == V && u in V && G[u] == ArcsOf(u.edges) && Closed(V) && (forall n :: n in V ==> n.Key() in dist)
    requires u in S && S <= V && 0 <= pu < |found| && found[pu] == u
    requires Queue(V, source, pq, dist, found, parent) && Monotone(S, pq, dist, last, visited)
    requires u.Key() in dist && dist[u.Key()] == Some(last)
    requires Relaxed(G, S - {u}, dist)
    requires uk ==> Owned(owner, V) && Witnesses(G, source, V, dist) && Frontier(V, S, pq, dist)
    requires uk && nonneg ==> Optimal(G, source, S, dist)
    ensures neg.Some? ==> neg.value < 0
    ensures neg.Some? ==>
      exists i :: 0 <= i < |u.edges| && u.edges[i].weight == neg.value && forall j :: 0 <= j < i ==> 0 <= u.edges[j].weight
    ensures neg.None? ==> dist'.Keys == dist.Keys && Queue(V, source, pq', dist', found', parent')
    ensures neg.None? ==> Monotone(S, pq', dist', last, visited) && Relaxed(G, S, dist')
    ensures neg.None? && uk ==> Witnesses(G, source, V, dist') && Frontier(V, S, pq', dist')
    ensures neg.None? && uk && nonneg ==> Optimal(G, source, S, dist')
  {
    neg, dist', pq', found', parent' := None, dist, pq, found, parent;
    var i := 0;
    while i < |u.edges|
      invariant i <= |u.edges|
      invariant dist'.Keys == dist.Keys && Queue(V, source, pq', dist', found', parent')
      invariant |found'| >= |found| && found'[pu] == u
      invariant Monotone(S, pq', dist', last, visited) && Relaxed(G, S - {u}, dist')
      invariant dist'[u.Key()] == Some(last)
      invariant Offered(u, i, dist', last)
      invariant uk ==> Witnesses(G, source, V, dist') && Frontier(V, S, pq', dist')
      invariant uk && nonneg ==> Optimal(G, source, S, dist')
    {
      if u.edges[i].weight < 0 {
        return Some(u.edges[i].weight), dist', pq', found', parent';
      }
      ghost var d0 := dist';
      dist', pq', found', parent' := RelaxEdge(u, i, dist', pq', V, G, source, S, visited, last, uk, owner, nonneg, found', parent', pu);
      OfferedStep(u, i, d0, dist', last);
      i := i + 1;
    }
    RelaxedAll(G, V, S, u, dist', last);
  }

  /** The first `n` edges of `u` are non-negative and have offered their
      targets the distance `last` plus their weight: each target's distance
      is finite and at most that. */
  ghost predicate Offered(u: Node, n: int, dist: Distances, last: int)
    reads u, u.edges, set e | e in u.edges :: e.toNode
  {
    && 0 <= n <= |u.edges|
    && forall j :: 0 <= j < n ==>
      && 0 <= u.edges[j].weight && u.edges[j].toNode.Key() in dist && dist[u.edges[j].toNode.Key()].Some?
      && dist[u.edges[j].toNode.Key()].value <= last + u.edges[j].weight
  }

  /** Relaxing edge `i` extends `Offered` by one edge, because distances only
      drop. */
  lemma OfferedStep(u: Node, i: int, d0: Distances, d1: Distances, last: int)
    requires Offered(u, i, d0, last) && i < |u.edges| && 0 <= u.edges[i].weight && d0.Keys == d1.Keys
    requires forall k :: k in d0 && d0[k].Some? ==> d1[k].Some? && d1[k].value <= d0[k].value
    requires var t := u.edges[i].toNode;
      t.Key() in d1 && d1[t.Key()].Some? && d1[t.Key()].value <= last + u.edges[i].weight
    ensures Offered(u, i + 1, d1, last)
  {
    forall j | 0 <= j < i + 1
      ensures && u.edges[j].toNode.Key() in d1 && d1[u.edges[j].toNode.Key()].Some?
              && d1[u.edges[j].toNode.Key()].value <= last + u.edges[j].weight
    {
      if j < i {
        var k := u.edges[j].toNode.Key();
        assert k in d0 && d0[k].Some?;
      }
    }
  }

  /** One step of the inner loop: the edge `i` of `u`, of non-negative weight
      `w` and target `t`, offers `t` the distance `last + w`; when that is less
      than `t`'s current one (or `t`'s is infinite) it is recorded and `t` is
      queued again. Distances only ever drop. */
  method RelaxEdge(u: Node, i: int, dist: Distances, pq: seq<Node>,
                   ghost V: set<Node>, ghost G: Digraph<Node>, ghost source: Node, ghost S: set<Node>,
                   ghost visited: set<NodeKey>, ghost last: int, ghost uk: bool, ghost owner: map<NodeKey, Node>,
                   ghost nonneg: bool, ghost found: seq<Node>, ghost parent: seq<int>, ghost pu: int)
    returns (dist': Distances, pq': seq<Node>, ghost found': seq<Node>, ghost parent': seq<int>)
    requires G.Keys == V && u in V && G[u] == ArcsOf(u.edges) && Closed(V) && (forall n :: n in V ==> n.Key() in dist)
    requires u in S && S <= V && 0 <= i < |u.edges| && 0 <= u.edges[i].weight
    requires 0 <= pu < |found| && found[pu] == u
    requires Queue(V, source, pq, dist, found, parent) && Monotone(S, pq, dist, last, visited)
    requires dist[u.Key()] == Some(last) && Relaxed(G, S - {u}, dist)
    requires uk ==> Owned(owner, V) && Witnesses(G, source, V, dist) && Frontier(V, S, pq, dist)
    requires uk && nonneg ==> Optimal(G, source, S, dist)
    ensures dist'.Keys == dist.Keys && Queue(V, source, pq', dist', found', parent')
    ensures |found'| >= |found| && found'[pu] == u
    ensures Monotone(S, pq', dist', last, visited) && Relaxed(G, S - {u}, dist')
    ensures dist'[u.Key()] == Some(last)
    ensures forall k :: k in dist && dist[k].Some? ==> dist'[k].Some? && dist'[k].value <= dist[k].value
    ensures var t := u.edges[i].toNode;
      t.Key() in dist' && dist'[t.Key()].Some? && dist'[t.Key()].value <= last + u.edges[i].weight
    ensures uk ==> Witnesses(G, source, V, dist') && Frontier(V, S, pq', dist')
    ensures uk && nonneg ==> Optimal(G, source, S, dist')
  {
    dist', pq', found', parent' := dist, pq, found, parent;
    var neighbour := u.edges[i].toNode;
    assert neighbour in V by { assert u.edges[i] in u.edges; }
    var newDist := dist[u.Key()].value + u.edges[i].weight;
    assert newDist == last + u.edges[i].weight;
    var k := neighbour.Key();
    if dist[k].None? || newDist < dist[k].value {
      dist', pq' := dist[k := Some(newDist)], pq + [neighbour];
      found', parent' := found + [neighbour], parent + [pu];
      RelaxMonotone(S, pq, dist, dist', last, visited, neighbour, newDist);
      RelaxedLower(G, S - {u}, dist, dist', neighbour, newDist);
      RelaxQueue(V, source, pq, dist, dist', found, parent, u, pu, i);
      if uk {
        RelaxWitness(V, G, source, S, u, i, dist, dist', pq, last, owner, neighbour, newDist);
        if nonneg {
          OptimalKept(G, source, S, dist, dist');
        }
      }
    }
  }

  /** Queueing the target of `u`'s edge `i` records its discovery from `u`. */
  lemma RelaxQueue(V: set<Node>, source: Node, pq: seq<Node>, dist: Distances, dist': Distances,
                   found: seq<Node>, parent: seq<int>, u: Node, pu: int, i: int)
    requires Closed(V) && Queue(V, source, pq, dist, found, parent)
    requires 0 <= pu < |found| && found[pu] == u && 0 <= i < |u.edges|
    requires Finite(pq + [u.edges[i].toNode], dist')
    ensures Queue(V, source, pq + [u.edges[i].toNode], dist', found + [u.edges[i].toNode], parent + [pu])
    ensures (found + [u.edges[i].toNode])[pu] == u
  {
    DiscoverStep(V, found, parent, pu, i);
  }

  /** Settled distances that stay put stay lower bounds. */
  lemma OptimalKept(G: Digraph<Node>, source: Node, S: set<Node>, dist: Distances, dist': Distances)
    requires Optimal(G, source, S, dist) && dist.Keys <= dist'.Keys
    requires forall n :: n in S ==> dist'[n.Key()] == dist[n.Key()]
    ensures Optimal(G, source, S, dist')
  {
  }

  /** One relaxation lowers the distance of `t`, the target of an edge of the
      node `u` settled at `last`, to `d >= last`. Settled distances stay put,
      since none exceeds `last`, and the queue, with `t` added, stays finite
      and no nearer than `last`. */
  lemma RelaxMonotone(S: set<Node>, pq: seq<Node>, dist: Distances, dist': Distances,
                      last: int, visited: set<NodeKey>, t: Node, d: int)
    requires Monotone(S, pq, dist, last, visited) && Finite(pq, dist) && t.Key() in dist
    requires last <= d && (dist[t.Key()].None? || d < dist[t.Key()].value)
    requires dist' == dist[t.Key() := Some(d)]
    ensures forall n :: n in S ==> dist'[n.Key()] == dist[n.Key()]
    ensures Finite(pq + [t], dist') && Monotone(S, pq + [t], dist', last, visited)
  {
  }

  /** Lowering distances of unsettled nodes keeps the settled ones relaxed. */
  lemma RelaxedLower(G: Digraph<Node>, S: set<Node>, dist: Distances, dist': Distances, t: Node, d: int)
    requires Relaxed(G, S, dist) && t.Key() in dist && (dist[t.Key()].None? || d < dist[t.Key()].value)
    requires dist' == dist[t.Key() := Some(d)]
    requires forall n :: n in S && n.Key() in dist ==> dist'[n.Key()] == dist[n.Key()]
    ensures Relaxed(G, S, dist')
  {
  }

  /** With unique keys, the lowered distance of `t` is witnessed by the walk to
      `u` followed by the edge, and `t`, queued again, keeps the frontier. */
  lemma RelaxWitness(V: set<Node>, G: Digraph<Node>, source: Node, S: set<Node>, u: Node, i: int,
                     dist: Distances, dist': Distances, pq: seq<Node>, last: int, owner: map<NodeKey, Node>,
                     t: Node, d: int)
    requires Owned(owner, V) && G.Keys == V && u in V && G[u] == ArcsOf(u.edges) && Closed(V) && 0 <= i < |u.edges|
    requires u.Key() in dist && dist[u.Key()] == Some(last)
    requires Witnesses(G, source, V, dist) && Frontier(V, S, pq, dist)
    requires t == u.edges[i].toNode && d == last + u.edges[i].weight && dist' == dist[t.Key() := Some(d)]
    ensures Witnesses(G, source, V, dist') && Frontier(V, S, pq + [t], dist')
  {
    var k := t.Key();
    assert t in V by { assert u.edges[i] in u.edges; }
    var a := G[u][i];
    assert a == Arc(t, u.edges[i].weight);
    WitnessStep(G, source, u, last, a);
    forall n | n in V && n.Key() in dist' && dist'[n.Key()].Some?
      ensures Witnessed(G, source, n, dist'[n.Key()].value)
    {
      if n.Key() == k {
        assert n == t;
      }
    }
    forall n | n in V && n !in S && n.Key() in dist' && dist'[n.Key()].Some?
      ensures n in pq + [t]
    {
      if n.Key() == k {
        assert n == t;
      }
    }
  }

  /** Once every edge of `u` has been checked and relaxed, all of `S` is relaxed. */
  lemma RelaxedAll(G: Digraph<Node>, V: set<Node>, S: set<Node>, u: Node, dist: Distances, last: int)
    requires u in G && G[u] == ArcsOf(u.edges) && u in S && S <= V && Relaxed(G, S - {u}, dist)
    requires u.Key() in dist && dist[u.Key()] == Some(last)
    requires Offered(u, |u.edges|, dist, last)
    ensures Relaxed(G, S, dist)
  {
    forall n, j | n in S && n in G && 0 <= j < |G[n]|
      ensures && 0 <= G[n][j].w && n.Key() in dist && dist[n.Key()].Some?
              && G[n][j].to.Key() in dist && dist[G[n][j].to.Key()].Some?
              && dist[G[n][j].to.Key()].value <= dist[n.Key()].value + G[n][j].w
    {
      if n != u {
        assert n in S - {u};
      }
    }
  }

  /** Some arc of weight `w` leaves a node reachable from `source`. */
  ghost predicate NegativeArc(G: Digraph<Node>, source: Node, w: int) {
    exists v, a :: Reachable(G, source, v) && v in G && a in G[v] && a.w == w
  }

  /** The map `dijkstra` returns is right for every vertex: finite exactly
      for the nodes reachable from `source`, and then their distance. */
  ghost predicate ShortestDistances(G: Digraph<Node>, source: Node, V: set<Node>, dist: Distances)
    reads V`data, V`name
  {
    forall n :: n in V ==>
      && n.Key() in dist
      && (dist[n.Key()].Some? <==> Reachable(G, source, n))
      && (dist[n.Key()].Some? ==> IsShortest(G, source, n, dist[n.Key()].value))
  }

  /** The state right after the source is queued at distance 0. */
  lemma Initially(G: Digraph<Node>, V: set<Node>, source: Node, dist: Distances)
    requires Describes(G, V) && source in V && UniqueKeys(V)
    requires forall k :: k in dist ==> dist[k] == (if k == source.Key() then Some(0) else None)
    ensures Witnesses(G, source, V, dist) && Frontier(V, {}, [source], dist)
  {
    EmptyWalk(G, source);
  }

  /** The node `poll` returns, when not yet visited, settles at its current
      distance: a lower bound on every walk to it. */
  lemma SettleCurrent(G: Digraph<Node>, V: set<Node>, source: Node, S: set<Node>, dist: Distances, u: Node)
    requires Describes(G, V) && Closed(V) && S <= V && u in V && u !in S && NonNegativeFrom(G, source)
    requires source in S && Optimal(G, source, S, dist) && Relaxed(G, S, dist)
    requires u.Key() in dist && dist[u.Key()].Some?
    requires forall y :: y in V && y !in S && y.Key() in dist && dist[y.Key()].Some? ==>
      dist[u.Key()].value <= dist[y.Key()].value
    ensures LowerBound(G, source, u, dist[u.Key()].value)
  {
    var D := map n | n in V && n.Key() in dist && dist[n.Key()].Some? :: dist[n.Key()].value;
    forall x, a | x in S && x in G && a in G[x] ensures a.to in D && D[a.to] <= D[x] + a.w {
      var j :| 0 <= j < |G[x]| && G[x][j] == a;
      assert x.edges[j] in x.edges;
    }
    SettleNext(G, source, S, D, u);
  }

  /** Removing entry `m` of a list loses that entry and nothing else. */
  lemma Removed(pq: seq<Node>, m: nat)
    requires m < |pq|
    ensures forall n :: n in pq[..m] + pq[m + 1..] ==> n in pq
    ensures forall n :: n in pq ==> n == pq[m] || n in pq[..m] + pq[m + 1..]
  {
    var rest := pq[..m] + pq[m + 1..];
    forall n | n in pq ensures n == pq[m] || n in rest {
      var j :| 0 <= j < |pq| && pq[j] == n;
      if j < m { assert rest[j] == n; } else if j > m { assert rest[j - 1] == n; }
    }
  }

  /** Polling entry `m` keeps the frontier once that entry counts as settled. */
  lemma FrontierPop(V: set<Node>, S: set<Node>, pq: seq<Node>, dist: Distances, m: nat)
    requires m < |pq| && Frontier(V, S, pq, dist)
    ensures Frontier(V, S + {pq[m]}, pq[..m] + pq[m + 1..], dist)
  {
    Removed(pq, m);
  }

  /** Polling an entry that is settled already keeps the frontier. */
  lemma FrontierSkip(V: set<Node>, S: set<Node>, pq: seq<Node>, dist: Distances, m: nat)
    requires m < |pq| && pq[m] in S && Frontier(V, S, pq, dist)
    ensures Frontier(V, S, pq[..m] + pq[m + 1..], dist)
  {
    Removed(pq, m);
  }

  /** A negative edge out of a discovered node is a negative arc reachable
      from the source. */
  lemma NegativeFound(G: Digraph<Node>, V: set<Node>, source: Node, found: seq<Node>, parent: seq<int>, p: int, i: int)
    requires Describes(G, V) && Closed(V) && Reached(V, found, parent) && |found| > 0 && found[0] == source
    requires 0 <= p < |found| && 0 <= i < |found[p].edges|
    ensures NegativeArc(G, source, found[p].edges[i].weight)
  {
    assert G == Snapshot(V);
    DiscoveredReachable(V, found, parent);
    var u := found[p];
    assert u in V && G[u][i] in G[u];
  }

  /** Taking the node `poll` returns, `pq[m]`, with a key not yet visited:
      it becomes the node settled last, and the distances still settle in
      increasing order. */
  lemma Settle(S: set<Node>, pq: seq<Node>, dist: Distances, visited: set<NodeKey>, last: int, m: nat)
    requires pq != [] && Finite(pq, dist) && m == MinIndex(pq, dist) && pq[m].Key() !in visited
    requires Monotone(S, pq, dist, last, visited)
    ensures var u, rest := pq[m], pq[..m] + pq[m + 1..];
      u !in S && Monotone(S + {u}, rest, dist, dist[u.Key()].value, visited + {u.Key()})
  {
    var u, rest := pq[m], pq[..m] + pq[m + 1..];
    Removed(pq, m);
    forall n | n in rest ensures dist[u.Key()].value <= dist[n.Key()].value {
      var j :| 0 <= j < |pq| && pq[j] == n;
    }
  }

  /** With unique keys and no negative arc reachable, the settled node's
      distance is a lower bound: for the source, the first node settled, since
      no walk weighs less than 0; for any later node, by `SettleNext`. */
  lemma SettleOptimal(G: Digraph<Node>, V: set<Node>, source: Node, S: set<Node>, pq: seq<Node>,
                      dist: Distances, m: nat)
    requires Describes(G, V) && Closed(V) && S <= V && (forall n :: n in pq ==> n in V)
    requires pq != [] && Finite(pq, dist) && m == MinIndex(pq, dist) && pq[m] !in S
    requires Relaxed(G, S, dist) && Started(source, S, pq, dist, {}) && Frontier(V, S, pq, dist)
    requires NonNegativeFrom(G, source) && Optimal(G, source, S, dist)
    ensures Optimal(G, source, S + {pq[m]}, dist)
  {
    var u := pq[m];
    if S == {} {
      SourceBound(G, source);
    } else {
      forall y | y in V && y !in S && y.Key() in dist && dist[y.Key()].Some?
        ensures dist[u.Key()].value <= dist[y.Key()].value
      {
        var j :| 0 <= j < |pq| && pq[j] == y;
      }
      SettleCurrent(G, V, source, S, dist, u);
    }
  }

  /** When the queue runs dry every settled node has had its arcs relaxed, so
      the settled nodes are closed under arcs: they are the reachable ones,
      none of them has a negative arc, and their distances are shortest. */
  lemma Finished(G: Digraph<Node>, V: set<Node>, source: Node, S: set<Node>, dist: Distances)
    requires Describes(G, V) && Closed(V) && S <= V && source in S && (forall n :: n in V ==> n.Key() in dist)
    requires forall n :: n in S ==> dist[n.Key()].Some?
    requires Relaxed(G, S, dist) && Witnesses(G, source, V, dist) && Frontier(V, S, [], dist)
    requires NonNegativeFrom(G, source) ==> Optimal(G, source, S, dist)
    ensures NonNegativeFrom(G, source) && ShortestDistances(G, source, V, dist)
  {
    forall x, a | x in S && x in G && a in G[x] ensures a.to in S {
      var j :| 0 <= j < |G[x]| && G[x][j] == a;
      assert x.edges[j] in x.edges;
    }
    assert ClosedUnder(G, S);
    forall v | Reachable(G, source, v) ensures v in S {
      ClosedHoldsReachable(G, S, source, v);
    }
    forall v, a | Reachable(G, source, v) && v in G && a in G[v] ensures a.w >= 0 {
      var j :| 0 <= j < |G[v]| && G[v][j] == a;
    }
    assert NonNegativeFrom(G, source);
    forall n | n in V
      ensures n.Key() in dist
      ensures dist[n.Key()].Some? <==> Reachable(G, source, n)
      ensures dist[n.Key()].Some? ==> IsShortest(G, source, n, dist[n.Key()].value)
    {
      if dist[n.Key()].Some? {
        var p :| IsWalk(G, source, p) && End(source, p) == n && Weight(p) == dist[n.Key()].value;
      }
    }
  }

  /** The main loop of `dijkstra`, from the state where only `source` is
      queued, at distance 0. It ends with the weight of the first negative
      edge met, or with the final distances. */
  method Search(source: Node, dist0: Distances, ghost V: set<Node>, ghost G: Digraph<Node>,
                ghost uk: bool, ghost owner: map<NodeKey, Node>, ghost nonneg: bool)
    returns (neg: Option<int>, dist: Distances)
    requires Describes(G, V) && Closed(V) && source in V && (forall n :: n in V ==> n.Key() in dist0)
    requires dist0[source.Key()] == Some(0)
    requires uk ==> Owned(owner, V) && Witnesses(G, source, V, dist0) && Frontier(V, {}, [source], dist0)
    requires nonneg == NonNegativeFrom(G, source)
    ensures neg.Some? ==> neg.value < 0 && NegativeArc(G, source, neg.value)
    ensures neg.None? ==> dist.Keys == dist0.Keys
    ensures neg.None? && uk ==> NonNegativeFrom(G, source) && ShortestDistances(G, source, V, dist)
  {
    neg, dist := None, dist0;
    var pq := [source];
    var visited: set<NodeKey> := {};
    ghost var K := dist0.Keys;
    ghost var S: set<Node>, last := {}, 0;
    ghost var found, parent := [source], [0];
    while pq != []
      invariant neg.None? && dist.Keys == K && visited <= K && S <= V
      invariant Queue(V, source, pq, dist, found, parent) && Monotone(S, pq, dist, last, visited)
      invariant Relaxed(G, S, dist) && Started(source, S, pq, dist, visited)
      invariant uk ==> Identified(V, S, visited) && Witnesses(G, source, V, dist) && Frontier(V, S, pq, dist)
      invariant uk && nonneg ==> Optimal(G, source, S, dist)
      decreases |K| - |visited|, |pq|
    {
      ghost var visited0, pq0 := visited, pq;
      neg, dist, pq, visited, S, last, found, parent :=
        Poll(source, dist, pq, visited, V, G, uk, owner, nonneg, S, last, found, parent);
      if neg.Some? {
        return;
      }
      SubsetSize(visited, K);
    }
    if uk {
      Finished(G, V, source, S, dist);
    }
  }

  /** One round of the main loop of `dijkstra`: poll the nearest queued node,
      and skip it when its key is visited or else expand it. Either the
      visited keys grow or the queue shrinks. */
  method Poll(source: Node, dist: Distances, pq: seq<Node>, visited: set<NodeKey>,
              ghost V: set<Node>, ghost G: Digraph<Node>, ghost uk: bool, ghost owner: map<NodeKey, Node>,
              ghost nonneg: bool, ghost S: set<Node>, ghost last: int, ghost found: seq<Node>, ghost parent: seq<int>)
    returns (neg: Option<int>, dist': Distances, pq': seq<Node>, visited': set<NodeKey>,
             ghost S': set<Node>, ghost last': int, ghost found': seq<Node>, ghost parent': seq<int>)
    requires Describes(G, V) && Closed(V) && (forall n :: n in V ==> n.Key() in dist)
    requires uk ==> Owned(owner, V)
    requires nonneg == NonNegativeFrom(G, source)
    requires pq != [] && visited <= dist.Keys && S <= V
    requires Queue(V, source, pq, dist, found, parent) && Monotone(S, pq, dist, last, visited)
    requires Relaxed(G, S, dist) && Started(source, S, pq, dist, visited)
    requires uk ==> Identified(V, S, visited) && Witnesses(G, source, V, dist) && Frontier(V, S, pq, dist)
    requires uk && nonneg ==> Optimal(G, source, S, dist)
    ensures neg.Some? ==> neg.value < 0 && NegativeArc(G, source, neg.value)
    ensures neg.None? ==> dist'.Keys == dist.Keys && visited' <= dist.Keys && S' <= V
    ensures neg.None? ==> Queue(V, source, pq', dist', found', parent') && Monotone(S', pq', dist', last', visited')
    ensures neg.None? ==> Relaxed(G, S', dist') && Started(source, S', pq', dist', visited')
    ensures neg.None? && uk ==> Identified(V, S', visited') && Witnesses(G, source, V, dist') && Frontier(V, S', pq', dist')
    ensures neg.None? && uk && nonneg ==> Optimal(G, source, S', dist')
    ensures neg.None? ==> |visited'| > |visited| || (visited' == visited && |pq'| < |pq|)
  {
    var m := MinIndex(pq, dist);
    var current := pq[m];
    if current.Key() in visited {
      neg, dist', pq', visited' := None, dist, pq[..m] + pq[m + 1..], visited;
      S', last', found', parent' := S, last, found, parent;
      Removed(pq, m);
      if uk {
        assert current in found && current in V;
        assert current in S;
        FrontierSkip(V, S, pq, dist, m);
      }
      return;
    }
    neg, dist', pq', visited', S', last', found', parent' :=
      Expand(source, dist, pq, m, visited, V, G, uk, owner, nonneg, S, last, found, parent);
  }

  /** Expanding the polled node `pq[m]`, whose key is not visited: mark it
      visited, settle it, and relax its edges. */
  method Expand(source: Node, dist: Distances, pq: seq<Node>, m: nat, visited: set<NodeKey>,
              ghost V: set<Node>, ghost G: Digraph<Node>, ghost uk: bool, ghost owner: map<NodeKey, Node>,
              ghost nonneg: bool, ghost S: set<Node>, ghost last: int, ghost found: seq<Node>, ghost parent: seq<int>)
    returns (neg: Option<int>, dist': Distances, pq': seq<Node>, visited': set<NodeKey>,
             ghost S': set<Node>, ghost last': int, ghost found': seq<Node>, ghost parent': seq<int>)
    requires Describes(G, V) && Closed(V) && (forall n :: n in V ==> n.Key() in dist)
    requires uk ==> Owned(owner, V)
    requires nonneg == NonNegativeFrom(G, source)
    requires pq != [] && visited <= dist.Keys && S <= V
    requires Queue(V, source, pq, dist, found, parent) && Monotone(S, pq, dist, last, visited)
    requires Relaxed(G, S, dist) && Started(source, S, pq, dist, visited)
    requires uk ==> Identified(V, S, visited) && Witnesses(G, source, V, dist) && Frontier(V, S, pq, dist)
    requires uk && nonneg ==> Optimal(G, source, S, dist)
    requires m == MinIndex(pq, dist) && pq[m].Key() !in visited
    ensures neg.Some? ==> neg.value < 0 && NegativeArc(G, source, neg.value)
    ensures neg.None? ==> dist'.Keys == dist.Keys && visited' <= dist.Keys && S' <= V
    ensures neg.None? ==> Queue(V, source, pq', dist', found', parent') && Monotone(S', pq', dist', last', visited')
    ensures neg.None? ==> Relaxed(G, S', dist') && Started(source, S', pq', dist', visited')
    ensures neg.None? && uk ==> Identified(V, S', visited') && Witnesses(G, source, V, dist') && Frontier(V, S', pq', dist')
    ensures neg.None? && uk && nonneg ==> Optimal(G, source, S', dist')
    ensures neg.None? ==> |visited'| == |visited| + 1
  {
    var current := pq[m];
    assert current in pq;
    ghost var pu :| 0 <= pu < |found| && found[pu] == current;
    Settling(G, V, source, pq, m, dist, visited, uk, owner, nonneg, S, last, found, parent);
    visited' := visited + {current.Key()};
    S', last' := S + {current}, dist[current.Key()].value;
    neg, dist', pq', found', parent' :=
      Relax(current, dist, pq[..m] + pq[m + 1..], V, G, source, S', visited', last', uk, owner, nonneg, found, parent, pu);
    if neg.Some? {
      ghost var i :| 0 <= i < |current.edges| && current.edges[i].weight == neg.value;
      NegativeFound(G, V, source, found, parent, pu, i);
    }
  }

  /** Settling the polled node `u = pq[m]`: the state after marking it
      visited meets what relaxing its edges needs. */
  lemma Settling(G: Digraph<Node>, V: set<Node>, source: Node, pq: seq<Node>, m: nat, dist: Distances,
                 visited: set<NodeKey>, uk: bool, owner: map<NodeKey, Node>, nonneg: bool,
                 S: set<Node>, last: int, found: seq<Node>, parent: seq<int>)
    requires Describes(G, V) && Closed(V) && (forall n :: n in V ==> n.Key() in dist)
    requires uk ==> Owned(owner, V)
    requires nonneg == NonNegativeFrom(G, source)
    requires pq != [] && visited <= dist.Keys && S <= V
    requires Queue(V, source, pq, dist, found, parent) && Monotone(S, pq, dist, last, visited)
    requires Relaxed(G, S, dist) && Started(source, S, pq, dist, visited)
    requires uk ==> Identified(V, S, visited) && Witnesses(G, source, V, dist) && Frontier(V, S, pq, dist)
    requires uk && nonneg ==> Optimal(G, source, S, dist)
    requires m == MinIndex(pq, dist) && pq[m].Key() !in visited
    ensures var u, rest, S', visited' := pq[m], pq[..m] + pq[m + 1..], S + {pq[m]}, visited + {pq[m].Key()};
      && u in V && G[u] == ArcsOf(u.edges) && u in S' && S' <= V && source in S'
      && visited' <= dist.Keys && |visited'| == |visited| + 1
      && Queue(V, source, rest, dist, found, parent) && Monotone(S', rest, dist, dist[u.Key()].value, visited')
      && Relaxed(G, S' - {u}, dist)
      && (uk ==> Identified(V, S', visited') && Frontier(V, S', rest, dist))
      && (uk && nonneg ==> Optimal(G, source, S', dist))
  {
    var u, rest := pq[m], pq[..m] + pq[m + 1..];
    Removed(pq, m);
    assert u in found && u in V;
    Settle(S, pq, dist, visited, last, m);
    if uk {
      FrontierPop(V, S, pq, dist, m);
      IdentifiedStep(V, S, visited, owner, u);
      if nonneg {
        SettleOptimal(G, V, source, S, pq, dist, m);
      }
    }
    Grows(visited, u.Key());
    AddRemove(S, u);
  }

  /** Adding a new element and removing it again gives the set back. */
  lemma AddRemove<T>(S: set<T>, u: T)
    requires u !in S
    ensures (S + {u}) - {u} == S
  {
  }

  /** `dijkstra(graph, sourceNode)` over the graph's node list `nodes`: the
      shortest distance from `source` to every node, keyed like Java's
      `HashMap`, with `None` for the unreachable ones. A source that is not in
      the list is refused; a negative edge out of a node it expands ends the
      run with that weight. The nodes must be closed under edge targets, by
      object identity: every edge of a member leads to a member. That is
      stronger than Java needs, which fails only when an expanded node has an
      edge to a node equal to no member (`distances.get` then gives null). */
  method Dijkstra(nodes: seq<Node>, source: Node?) returns (r: Result<Distances>)
    requires source != null && Contains(nodes, source) ==> Closed(Vertices(nodes, source))
    ensures r == Failure(InvalidArgument(SourceNotInGraph)) <==> source == null || !Contains(nodes, source)
    ensures r.Success? ==> r.value.Keys == KeySet(nodes)
    ensures r.Failure? && r.error.NegativeWeight? ==>
      source != null && r.error.weight < 0 && NegativeArc(Snapshot(Vertices(nodes, source)), source, r.error.weight)
    ensures r.Success? ==> source != null
    ensures r.Success? && UniqueKeys(Vertices(nodes, source)) ==>
      && NonNegativeFrom(Snapshot(Vertices(nodes, source)), source)
      && ShortestDistances(Snapshot(Vertices(nodes, source)), source, Vertices(nodes, source), r.value)
    ensures source != null && Contains(nodes, source) && UniqueKeys(Vertices(nodes, source)) ==>
      (r.Success? <==> NonNegativeFrom(Snapshot(Vertices(nodes, source)), source))
  {
    if source == null || !Contains(nodes, source) {
      return Failure(InvalidArgument(SourceNotInGraph));
    }
    r := Run(nodes, source);
  }

  /** `dijkstra` once the source is known to be part of the graph. */
  method Run(nodes: seq<Node>, source: Node) returns (r: Result<Distances>)
    requires Contains(nodes, source) && Closed(Vertices(nodes, source))
    ensures r.Success? ==> r.value.Keys == KeySet(nodes)
    ensures r.Failure? ==> r.error.NegativeWeight? && r.error.weight < 0
    ensures r.Failure? ==> NegativeArc(Snapshot(Vertices(nodes, source)), source, r.error.weight)
    ensures r.Success? && UniqueKeys(Vertices(nodes, source)) ==>
      && NonNegativeFrom(Snapshot(Vertices(nodes, source)), source)
      && ShortestDistances(Snapshot(Vertices(nodes, source)), source, Vertices(nodes, source), r.value)
  {
    var dist := InitDistances(nodes);
    ghost var uk, owner := Start(nodes, source, dist);
    dist := dist[source.Key() := Some(0)];
    ghost var V := Vertices(nodes, source);
    ghost var G := Snapshot(V);
    label Searching:
    var neg;
    neg, dist := Search(source, dist, V, G, uk, owner, NonNegativeFrom(G, source));
    SnapshotUnchanged@Searching(V);
    UniqueKeysUnchanged@Searching(V);
    KeySetUnchanged@Searching(nodes);
    if neg.Some? {
      return Failure(NegativeWeight(neg.value));
    }
    return Success(dist);
  }

  /** The state `dijkstra` starts its loop from: every key at infinity but
      the source's, at 0. */
  lemma Start(nodes: seq<Node>, source: Node, dist: Distances) returns (uk: bool, owner: map<NodeKey, Node>)
    requires Contains(nodes, source) && Closed(Vertices(nodes, source))
    requires dist.Keys == KeySet(nodes) && forall k :: k in dist ==> dist[k] == None
    ensures var V, d := Vertices(nodes, source), dist[source.Key() := Some(0)];
      && Describes(Snapshot(V), V) && Closed(V) && source in V && d.Keys == KeySet(nodes)
      && (forall n :: n in V ==> n.Key() in d) && d[source.Key()] == Some(0)
      && uk == UniqueKeys(V)
      && (uk ==> Owned(owner, V) && Witnesses(Snapshot(V), source, V, d) && Frontier(V, {}, [source], d))
  {
    assert source.Key() in dist by {
      var i :| 0 <= i < |nodes| && nodes[i].data == source.data && nodes[i].name == source.name;
      assert nodes[i] in nodes && nodes[i].Key() == source.Key();
    }
    var V := Vertices(nodes, source);
    uk := UniqueKeys(V);
    owner := map[];
    if uk {
      owner := OwnerOf(V);
      Initially(Snapshot(V), V, source, dist[source.Key() := Some(0)]);
    }
  }
}
