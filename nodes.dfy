/** Nodes and edges of the graph library (Node.java, Edge.java).

    The element type `T` of the Java classes is fixed to `int`. Node equality
    is Java's value equality on the pair (data, name), captured by `NodeKey`;
    list membership and removal go through that equality, exactly as Java's
    `List.contains`, `List.remove(Object)` and `removeIf` do. */
module Nodes {
  import opened Errors
  import opened Paths

  /** What `Node.equals` and `Node.hashCode` look at. */
  datatype NodeKey = NodeKey(data: int, name: string)

  /** A directed, weighted link. The endpoints are fixed at construction; only
      the weight can change. */
  class Edge {
    const fromNode: Node
    const toNode: Node
    var weight: int

    /** `Edge(fromNode, toNode, weight)`. Java's null check on the
        endpoints is carried by the non-null types of the parameters. */
    constructor (fromNode: Node, toNode: Node, weight: int)
      ensures this.fromNode == fromNode && this.toNode == toNode
      ensures this.weight == weight
    {
      this.fromNode := fromNode;
      this.toNode := toNode;
      this.weight := weight;
    }

    /** `Edge(fromNode, toNode)`: the default weight is 1. */
    constructor Unit(fromNode: Node, toNode: Node)
      ensures this.fromNode == fromNode && this.toNode == toNode
      ensures weight == 1
    {
      this.fromNode := fromNode;
      this.toNode := toNode;
      this.weight := 1;
    }

    method SetWeight(weight: int)
      modifies this`weight
      ensures this.weight == weight
    {
      this.weight := weight;
    }
  }

  class Node {
    var data: int
    var name: string
    /** Outgoing edges, in insertion order. */
    var edges: seq<Edge>
    /** Targets of the outgoing edges, kept beside `edges`. */
    var neighbors: seq<Node>

    /** `Node(data, name)` once both arguments are known to be non-null. */
    constructor (data: int, name: string)
      ensures this.data == data && this.name == name
      ensures edges == [] && neighbors == []
    {
      this.data := data;
      this.name := name;
      this.edges := [];
      this.neighbors := [];
    }

    /** `Node(T data, String name)`: rejects a null argument. */
    static method Create(data: Option<int>, name: Option<string>) returns (r: Result<Node>)
      ensures r.Failure? <==> data.None? || name.None?
      ensures r.Failure? ==> r.error == InvalidArgument(DataOrNameNull)
      ensures r.Success? ==> fresh(r.value) && r.value.data == data.value && r.value.name == name.value
      ensures r.Success? ==> r.value.edges == [] && r.value.neighbors == []
    {
      if data.None? || name.None? {
        return Failure(InvalidArgument(DataOrNameNull));
      }
      var n := new Node(data.value, name.value);
      r := Success(n);
    }

    /** `Node(T data)`: delegates with the name `"n" + data` (which reads
        "nnull" for a null `data`, which the delegate then rejects). */
    static method CreateDefault(data: Option<int>) returns (r: Result<Node>)
      ensures r.Failure? <==> data.None?
      ensures r.Failure? ==> r.error == InvalidArgument(DataOrNameNull)
      ensures r.Success? ==> fresh(r.value) && r.value.data == data.value
      ensures r.Success? ==> r.value.name == DefaultName(data) && r.value.edges == [] && r.value.neighbors == []
    {
      r := Create(data, Some(DefaultName(data)));
    }

    function Key(): NodeKey
      reads this`data, this`name
    {
      NodeKey(data, name)
    }

    /** `equals`: the same object, or the same data and the same name. */
    predicate Equals(other: Node)
      reads this`data, this`name, other`data, other`name
      ensures Equals(other) <==> Key() == other.Key()
    {
      this == other || (data == other.data && name == other.name)
    }

    /** `hashCode`: `Objects.hash(data, name)` in 32-bit arithmetic, as an
        unsigned bit pattern. */
    function HashCode(): (h: int)
      reads this`data, this`name
      ensures 0 <= h < Word
    {
      (31 * ((31 + Wrap(data)) % Word) + StringHash(name)) % Word
    }

    method SetName(name: Option<string>) returns (r: Outcome)
      modifies this`name
      ensures name.None? ==> r == Fail(InvalidArgument(NameNull)) && this.name == old(this.name)
      ensures name.Some? ==> r == Pass && this.name == name.value
    {
      if name.None? {
        return Fail(InvalidArgument(NameNull));
      }
      this.name := name.value;
      r := Pass;
    }

    method SetData(data: Option<int>) returns (r: Outcome)
      modifies this`data
      ensures data.None? ==> r == Fail(InvalidArgument(DataNull)) && this.data == old(this.data)
      ensures data.Some? ==> r == Pass && this.data == data.value
    {
      if data.None? {
        return Fail(InvalidArgument(DataNull));
      }
      this.data := data.value;
      r := Pass;
    }

    /** `neighbors` lists the targets of `edges`, position by position, and
        every edge starts here. */
    ghost predicate Lockstep()
      reads this`edges, this`neighbors
    {
      Targets(edges) == neighbors && forall e :: e in edges ==> e.fromNode == this
    }

    /** No two neighbours are equal. */
    ghost predicate DistinctNeighbors()
      reads this`neighbors, neighbors`data, neighbors`name
    {
      DistinctKeys(KeysOf(neighbors))
    }

    /** `connect(toNode, weight)`: appends one edge and one neighbour, unless the
        target is null or already a neighbour, in which case nothing changes. */
    method Connect(toNode: Node?, weight: int) returns (r: Outcome)
      modifies this`edges, this`neighbors
      ensures toNode == null ==> r == Fail(InvalidArgument(TargetNull))
      ensures toNode != null && old(Contains(neighbors, toNode)) ==> r == Fail(InvalidArgument(AlreadyConnected))
      ensures r.Fail? ==> edges == old(edges) && neighbors == old(neighbors)
      ensures r.Pass? <==> toNode != null && !old(Contains(neighbors, toNode))
      ensures r.Pass? ==> EdgeAppended(this, toNode, weight)
      ensures old(Lockstep()) ==> Lockstep()
    {
      if toNode == null {
        return Fail(InvalidArgument(TargetNull));
      }
      if Contains(neighbors, toNode) {
        return Fail(InvalidArgument(AlreadyConnected));
      }
      var e := new Edge(this, toNode, weight);
      TargetsAppend(edges, e);
      edges := edges + [e];
      neighbors := neighbors + [toNode];
      r := Pass;
    }

    /** `disconnect(toNode)`: removes every edge whose target equals `toNode`
        and the first equal neighbour, unless the target is null or not a
        neighbour, in which case nothing changes. The two lists stay in step
        when the neighbours were pairwise unequal. */
    method Disconnect(toNode: Node?) returns (r: Outcome)
      modifies this`edges, this`neighbors
      ensures toNode == null ==> r == Fail(InvalidArgument(TargetNull))
      ensures toNode != null && !old(Contains(neighbors, toNode)) ==> r == Fail(InvalidArgument(NotConnected))
      ensures r.Fail? ==> edges == old(edges) && neighbors == old(neighbors)
      ensures r.Pass? <==> toNode != null && old(Contains(neighbors, toNode))
      ensures r.Pass? ==> EdgesRemoved(this, toNode)
      ensures old(Lockstep() && DistinctNeighbors()) ==> Lockstep()
    {
      if toNode == null {
        return Fail(InvalidArgument(TargetNull));
      }
      if !Contains(neighbors, toNode) {
        return Fail(InvalidArgument(NotConnected));
      }
      var kept, rest := EdgesNotTo(edges, toNode), RemoveFirst(neighbors, toNode);
      DisconnectFacts(this, toNode);
      edges, neighbors := kept, rest;
      r := Pass;
    }
  }

  /** `n.connect(t, w)` succeeded: exactly one fresh edge n→t of weight `w`
      and the neighbour `t` were appended, and earlier entries are as before. */
  twostate predicate EdgeAppended(n: Node, t: Node, w: int)
    reads n, n.edges
  {
    && n.neighbors == old(n.neighbors) + [t]
    && |n.edges| == |old(n.edges)| + 1
    && n.edges == old(n.edges) + [n.edges[|old(n.edges)|]]
    && Made(n.edges[|old(n.edges)|], n, t, w)
  }

  /** `n.disconnect(t)` succeeded: every edge to a node equal to `t` and the
      first neighbour equal to `t` are gone, the rest in their old order. */
  twostate predicate EdgesRemoved(n: Node, t: Node)
    reads n
  {
    var k := old(t.Key());
    && n.edges == Without(old(n.edges), old(KeysOf(Targets(n.edges))), k)
    && n.neighbors == DropFirst(old(n.neighbors), old(KeysOf(n.neighbors)), k)
  }

  /** `n.disconnect(n)` succeeded twice in a row: the second removal acts on
      what the first left. */
  twostate predicate RemovedTwice(n: Node)
    reads n
  {
    var k := old(n.Key());
    var E1 := Without(old(n.edges), old(KeysOf(Targets(n.edges))), k);
    var N1 := DropFirst(old(n.neighbors), old(KeysOf(n.neighbors)), k);
    && n.edges == Without(E1, old(KeysOf(Targets(E1))), k)
    && n.neighbors == DropFirst(N1, old(KeysOf(N1)), k)
  }

  /** What `disconnect` keeps comes from the old edges, and when the
      neighbours were pairwise unequal the kept edges lead to exactly the
      remaining neighbours. */
  lemma DisconnectFacts(n: Node, t: Node)
    ensures forall e :: e in EdgesNotTo(n.edges, t) ==> e in n.edges
    ensures n.Lockstep() && n.DistinctNeighbors() ==> Targets(EdgesNotTo(n.edges, t)) == RemoveFirst(n.neighbors, t)
    ensures KeysOf(Targets(EdgesNotTo(n.edges, t))) == Without(KeysOf(Targets(n.edges)), KeysOf(Targets(n.edges)), t.Key())
    ensures KeysOf(RemoveFirst(n.neighbors, t)) == DropFirst(KeysOf(n.neighbors), KeysOf(n.neighbors), t.Key())
  {
    var ks, k := KeysOf(n.neighbors), t.Key();
    WithoutKeys(n.edges, k);
    DropFirstKeys(n.neighbors, k);
    WithoutSubset(n.edges, KeysOf(Targets(n.edges)), k);
    if n.Lockstep() && n.DistinctNeighbors() {
      DisconnectKeepsLockstep(n.edges, ks, k);
    }
  }

  /** `e` is an edge created since the old state, from `n` to `t` with weight `w`. */
  twostate predicate Made(new e: Edge, n: Node, t: Node?, w: int)
    reads e
  {
    fresh(e) && e.fromNode == n && e.toNode == t && e.weight == w
  }

  /** `validateNodesInGraph(a, b)` on a graph whose node list is `nodes`:
      the message it throws, if any. */
  function Validate(nodes: seq<Node>, a: Node?, b: Node?): (m: Option<Message>)
    reads nodes`data, nodes`name, Just(a)`data, Just(a)`name, Just(b)`data, Just(b)`name
    ensures m == None <==> a != null && b != null && Contains(nodes, a) && Contains(nodes, b)
    ensures m != None ==> m == Some(NodesNull) || m == Some(NotMembers)
  {
    if a == null || b == null then Some(NodesNull)
    else if !Contains(nodes, a) || !Contains(nodes, b) then Some(NotMembers)
    else None
  }

  /** `connect(from, t)` on a graph whose node list is `nodes` is not refused
      when `from`'s neighbours are `N`: both are members and no neighbour
      equals `t`. */
  predicate Admits(nodes: seq<Node>, N: seq<Node>, from: Node, t: Node?)
    reads nodes`data, nodes`name, from`data, from`name, Just(t)`data, Just(t)`name, N`data, N`name
  {
    Validate(nodes, from, t).None? && t != null && !Contains(N, t)
  }

  /** The object behind a nullable reference, as a frame. */
  function Just(x: Node?): set<Node> {
    if x == null then {} else {x}
  }

  /** The arguments of a weighted batch `connect` pass its up-front check. */
  predicate Batch(from: Node?, toNodes: Option<seq<Node?>>, weights: Option<seq<int>>) {
    from != null && toNodes.Some? && weights.Some? && |toNodes.value| == |weights.value|
  }

  /** The non-null entries of a nullable list, as a frame. */
  function Present(s: Option<seq<Node?>>): set<Node> {
    if s.None? then {} else set n: Node | n in s.value
  }

  /** The keys of the targets of a batch, `None` for a null entry. */
  ghost function TargetKeys(ts: seq<Node?>): (ks: seq<Option<NodeKey>>)
    reads Present(Some(ts))`data, Present(Some(ts))`name
    ensures |ks| == |ts| && forall j :: 0 <= j < |ts| ==> ks[j] == if ts[j] == null then None else Some(ts[j].Key())
  {
    if ts == [] then [] else [if ts[0] == null then None else Some(ts[0].Key())] + TargetKeys(ts[1..])
  }

  /** The neighbours of a nullable node, as a frame. */
  function NeighborsOf(x: Node?): set<Node>
    reads Just(x)`neighbors
  {
    if x == null then {} else set n | n in x.neighbors
  }

  /** The outgoing edges of a nullable node, as a frame. */
  function OutEdges(x: Node?): set<Edge>
    reads Just(x)`edges
  {
    if x == null then {} else set e | e in x.edges
  }

  const Word: int := 0x1_0000_0000

  /** A Java `int` value as an unsigned 32-bit pattern. */
  function Wrap(x: int): (r: int)
    ensures 0 <= r < Word && (r - x) % Word == 0
  {
    x % Word
  }

  /** `String.hashCode`: s[0]*31^(n-1) + ... + s[n-1], modulo 2^32. */
  function StringHash(s: string): (h: int)
    ensures 0 <= h < Word
  {
    if s == [] then 0 else (31 * StringHash(s[..|s| - 1]) + s[|s| - 1] as int) % Word
  }

  /** Equal nodes have equal hash codes. */
  lemma HashCodeConsistent(a: Node, b: Node)
    requires a.Equals(b)
    ensures a.HashCode() == b.HashCode()
  {
  }

  /** The decimal rendering of an integer, as `String.valueOf` prints it. */
  function Decimal(n: int): (s: string)
    ensures |s| > 0
    ensures forall i :: (if n < 0 then 1 else 0) <= i < |s| ==> '0' <= s[i] <= '9'
    ensures n < 0 <==> s[0] == '-'
  {
    if n < 0 then "-" + Digits(-n) else Digits(n)
  }

  /** The decimal digits of a natural number, most significant first. */
  function Digits(n: nat): (s: string)
    ensures |s| > 0 && forall i :: 0 <= i < |s| ==> '0' <= s[i] <= '9'
  {
    if n < 10 then [(n + '0' as int) as char]
    else Digits(n / 10) + [(n % 10 + '0' as int) as char]
  }

  /** The number a string of decimal digits denotes. */
  function DigitValue(s: string): nat
    requires forall i :: 0 <= i < |s| ==> '0' <= s[i] <= '9'
  {
    if s == [] then 0 else 10 * DigitValue(s[..|s| - 1]) + (s[|s| - 1] as int - '0' as int)
  }

  /** The digits denote the number they were made from, and there is no
      leading zero. */
  lemma {:induction false} DigitsRoundTrip(n: nat)
    ensures DigitValue(Digits(n)) == n
    ensures Digits(n)[0] == '0' ==> n == 0
  {
    if n >= 10 {
      DigitsRoundTrip(n / 10);
      var s := Digits(n);
      assert s[..|s| - 1] == Digits(n / 10);
    }
  }

  /** Different integers print differently. */
  lemma DecimalInjective(a: int, b: int)
    ensures Decimal(a) == Decimal(b) <==> a == b
  {
    if Decimal(a) == Decimal(b) {
      if a < 0 {
        assert Digits(-a) == Decimal(a)[1..] == Decimal(b)[1..] == Digits(-b);
        DigitsRoundTrip(-a);
        DigitsRoundTrip(-b);
      } else {
        DigitsRoundTrip(a);
        DigitsRoundTrip(b);
      }
    }
  }

  /** The name `"n" + data` that the one-argument constructor gives. */
  function DefaultName(data: Option<int>): (s: string)
    ensures |s| > 1 && s[0] == 'n'
  {
    "n" + match data { case None => "null" case Some(d) => Decimal(d) }
  }

  /** Nodes made with different data get different default names. */
  lemma DefaultNameInjective(a: Option<int>, b: Option<int>)
    ensures DefaultName(a) == DefaultName(b) <==> a == b
  {
    if DefaultName(a) == DefaultName(b) {
      assert DefaultName(a)[1..] == DefaultName(b)[1..];
      if a.Some? && b.Some? {
        DecimalInjective(a.value, b.value);
      }
    }
  }

  /** The targets of a list of edges, in order. */
  function Targets(es: seq<Edge>): (ts: seq<Node>)
    ensures |ts| == |es|
  {
    seq(|es|, i requires 0 <= i < |es| => es[i].toNode)
  }

  lemma {:induction false} TargetsAt(es: seq<Edge>)
    ensures forall i :: 0 <= i < |es| ==> Targets(es)[i] == es[i].toNode
  {
    if es != [] {
      TargetsAt(es[..|es| - 1]);
    }
  }

  lemma TargetsAppend(es: seq<Edge>, e: Edge)
    ensures Targets(es + [e]) == Targets(es) + [e.toNode]
  {
    assert (es + [e])[..|es|] == es;
  }

  lemma TargetsConcat(a: seq<Edge>, b: seq<Edge>)
    ensures Targets(a + b) == Targets(a) + Targets(b)
  {
    TargetsAt(a + b);
    TargetsAt(a);
    TargetsAt(b);
    assert forall i :: 0 <= i < |a + b| ==> Targets(a + b)[i] == (Targets(a) + Targets(b))[i];
  }

  /** The keys of a list of nodes, in order: every comparison of nodes in the
      Java library (`equals`, `contains`, `remove`, `removeIf`) reads these. */
  function KeysOf(s: seq<Node>): (ks: seq<NodeKey>)
    reads s`data, s`name
    ensures |ks| == |s|
  {
    if s == [] then [] else KeysOf(s[..|s| - 1]) + [s[|s| - 1].Key()]
  }

  /** Keys read in two states agree when no node's data or name changed. */
  twostate lemma {:induction false} KeysFrame(s: seq<Node>)
    requires unchanged(s`data, s`name)
    ensures KeysOf(s) == old(KeysOf(s))
  {
    if s != [] {
      KeysFrame(s[..|s| - 1]);
    }
  }

  lemma {:induction false} KeysAt(s: seq<Node>)
    ensures forall i :: 0 <= i < |s| ==> KeysOf(s)[i] == s[i].Key()
  {
    if s != [] {
      KeysAt(s[..|s| - 1]);
    }
  }

  lemma KeysOfAppend(s: seq<Node>, x: Node)
    ensures KeysOf(s + [x]) == KeysOf(s) + [x.Key()]
  {
  }

  /** No key occurs twice. */
  ghost predicate DistinctKeys(ks: seq<NodeKey>) {
    forall i, j :: 0 <= i < j < |ks| ==> ks[i] != ks[j]
  }

  /** `s.contains(x)`: some element equals `x`. */
  predicate Contains(s: seq<Node>, x: Node)
    reads s`data, s`name, x`data, x`name
  {
    exists i :: 0 <= i < |s| && s[i].data == x.data && s[i].name == x.name
  }

  /** `contains` compares keys. */
  lemma ContainsKey(s: seq<Node>, x: Node)
    ensures Contains(s, x) <==> x.Key() in KeysOf(s)
  {
    if x.Key() in KeysOf(s) {
      var i :| 0 <= i < |s| && KeysOf(s)[i] == x.Key();
    }
  }

  /** The position of the first `k` in `ks`, as `indexOf` finds it. */
  function FirstIndex(ks: seq<NodeKey>, k: NodeKey): (r: Option<nat>)
    ensures r.Some? ==> r.value < |ks| && ks[r.value] == k && k !in ks[..r.value]
    ensures r.None? <==> k !in ks
  {
    if ks == [] then None
    else if ks[0] == k then Some(0)
    else match FirstIndex(ks[1..], k) {
      case None => None
      case Some(i) =>
        assert ks[..i + 1] == [ks[0]] + ks[1..][..i];
        Some(i + 1)
    }
  }

  /** Drops the element at the first position whose key is `k`, if any. */
  function DropFirst<T>(xs: seq<T>, ks: seq<NodeKey>, k: NodeKey): (r: seq<T>)
    requires |ks| == |xs|
    ensures k in ks ==> |r| == |xs| - 1
    ensures k !in ks ==> r == xs
  {
    match FirstIndex(ks, k) {
      case None => xs
      case Some(i) => xs[..i] + xs[i + 1..]
    }
  }

  /** Keeps, in order, the elements whose key is not `k`. */
  function Without<T>(xs: seq<T>, ks: seq<NodeKey>, k: NodeKey): (r: seq<T>)
    requires |ks| == |xs|
    ensures |r| <= |xs|
  {
    if xs == [] then []
    else (if ks[0] == k then [] else [xs[0]]) + Without(xs[1..], ks[1..], k)
  }

  /** `s.remove(x)`: drops the first element equal to `x`, if any. */
  function RemoveFirst(s: seq<Node>, x: Node): (r: seq<Node>)
    reads s`data, s`name, x`data, x`name
    ensures Contains(s, x) ==> |r| == |s| - 1
    ensures !Contains(s, x) ==> r == s
  {
    ContainsKey(s, x);
    DropFirst(s, KeysOf(s), x.Key())
  }

  /** `es.removeIf(e -> e.getToNode().equals(x))`: keeps, in order, the edges
      whose target differs from `x`. */
  function EdgesNotTo(es: seq<Edge>, x: Node): (r: seq<Edge>)
    reads Targets(es)`data, Targets(es)`name, x`data, x`name
    ensures |r| <= |es|
  {
    Without(es, KeysOf(Targets(es)), x.Key())
  }

  /** The first edge whose target equals `x`, as the update-weight loops find it. */
  function FirstEdgeTo(es: seq<Edge>, x: Node): (r: Option<nat>)
    reads Targets(es)`data, Targets(es)`name, x`data, x`name
    ensures r.Some? ==> r.value < |es| && es[r.value].toNode.Equals(x)
    ensures r.Some? ==> forall j :: 0 <= j < r.value ==> !es[j].toNode.Equals(x)
    ensures r.None? ==> forall j :: 0 <= j < |es| ==> !es[j].toNode.Equals(x)
  {
    KeysAt(Targets(es));
    TargetsAt(es);
    var ks := KeysOf(Targets(es));
    var r := FirstIndex(ks, x.Key());
    assert r.Some? ==> forall j :: 0 <= j < r.value ==> ks[j] in ks[..r.value];
    r
  }

  /** The loop both `updateEdgeWeight` methods run over the edges of `a`:
      set the weight of the first edge to a node equal to `b` and stop.
      `found` is that edge's index, if any; no other weight changes. */
  method SetFirstWeight(a: Node, b: Node, weight: int) returns (found: Option<nat>)
    modifies OutEdges(a)`weight
    ensures found == old(FirstEdgeTo(a.edges, b))
    ensures found.Some? ==> a.edges[found.value].weight == weight
    ensures forall e :: e in OutEdges(a) && (found.None? || e != a.edges[found.value]) ==> e.weight == old(e.weight)
  {
    ghost var first := FirstEdgeTo(a.edges, b);
    var i := 0;
    while i < |a.edges|
      invariant i <= |a.edges|
      invariant forall j :: 0 <= j < i ==> !a.edges[j].toNode.Equals(b)
      invariant forall e :: e in OutEdges(a) ==> e.weight == old(e.weight)
    {
      if a.edges[i].toNode.Equals(b) {
        a.edges[i].SetWeight(weight);
        assert first == Some(i);
        return Some(i);
      }
      i := i + 1;
    }
    return None;
  }

  /** Keeps, in order, the elements whose key is not in `K`: what is left of a
      list after one `removeIf` for each key of `K`. */
  function Keep<T>(xs: seq<T>, ks: seq<NodeKey>, K: seq<NodeKey>): (r: seq<T>)
    requires |ks| == |xs|
    ensures |r| == Kept(ks, K)
  {
    if xs == [] then []
    else (if ks[0] in K then [] else [xs[0]]) + Keep(xs[1..], ks[1..], K)
  }

  /** How many keys of `ks` lie outside `K`. */
  function Kept(ks: seq<NodeKey>, K: seq<NodeKey>): nat {
    if ks == [] then 0 else (if ks[0] in K then 0 else 1) + Kept(ks[1..], K)
  }

  /** `remove` once for each key of `rs`, in order, on a list whose keys are
      `ks`: the list left and its keys. */
  function DropEach<T>(xs: seq<T>, ks: seq<NodeKey>, rs: seq<NodeKey>): (r: (seq<T>, seq<NodeKey>))
    requires |ks| == |xs|
    ensures |r.0| == |r.1|
    decreases |rs|
  {
    if rs == [] then (xs, ks)
    else
      var p := DropEach(xs, ks, rs[..|rs| - 1]);
      (DropFirst(p.0, p.1, rs[|rs| - 1]), DropFirst(p.1, p.1, rs[|rs| - 1]))
  }

  /** One more `removeIf` after several: the kept keys grow by one. */
  lemma {:induction false} KeepThenWithout<T>(xs: seq<T>, ks: seq<NodeKey>, K: seq<NodeKey>, k: NodeKey)
    requires |ks| == |xs|
    ensures Without(Keep(xs, ks, K), Keep(ks, ks, K), k) == Keep(xs, ks, K + [k])
  {
    if xs != [] {
      var a, b := Keep(xs[1..], ks[1..], K), Keep(ks[1..], ks[1..], K);
      KeepThenWithout(xs[1..], ks[1..], K, k);
      if ks[0] !in K {
        assert Keep(xs, ks, K) == [xs[0]] + a && Keep(ks, ks, K) == [ks[0]] + b;
        assert ([xs[0]] + a)[1..] == a && ([ks[0]] + b)[1..] == b;
        assert Without([xs[0]] + a, [ks[0]] + b, k) == (if ks[0] == k then [] else [xs[0]]) + Without(a, b, k);
      } else {
        assert Keep(xs, ks, K) == a && Keep(ks, ks, K) == b;
        assert Keep(xs, ks, K + [k]) == Keep(xs[1..], ks[1..], K + [k]);
      }
    }
  }

  /** Appending to a list leaves its entries and prefixes where they were. */
  lemma AppendPrefix<T>(R: seq<T>, X: seq<T>, j: nat)
    requires j <= |R|
    ensures (R + X)[..j] == R[..j]
    ensures j < |R| ==> (R + X)[j] == R[j]
  {
  }

  /** Keeping no key away changes nothing. */
  lemma {:induction false} KeepNone<T>(xs: seq<T>, ks: seq<NodeKey>)
    requires |ks| == |xs|
    ensures Keep(xs, ks, []) == xs
  {
    if xs != [] {
      KeepNone(xs[1..], ks[1..]);
    }
  }

  /** The target keys of the edges `Keep` retains are the kept target keys. */
  lemma {:induction false} KeepKeys(es: seq<Edge>, K: seq<NodeKey>)
    ensures KeysOf(Targets(Keep(es, KeysOf(Targets(es)), K))) == Keep(KeysOf(Targets(es)), KeysOf(Targets(es)), K)
  {
    if es != [] {
      var ks := KeysOf(Targets(es));
      assert [es[0]] + es[1..] == es;
      KeysTargetsCons(es[0], es[1..]);
      assert ks[1..] == KeysOf(Targets(es[1..]));
      KeepKeys(es[1..], K);
      var rest := Keep(es[1..], ks[1..], K);
      if ks[0] in K {
        assert Keep(es, ks, K) == rest;
        assert Keep(ks, ks, K) == Keep(ks[1..], ks[1..], K);
      } else {
        assert Keep(es, ks, K) == [es[0]] + rest;
        assert Keep(ks, ks, K) == [ks[0]] + Keep(ks[1..], ks[1..], K);
        KeysTargetsCons(es[0], rest);
      }
    }
  }

  /** The target keys of the edges `Without` retains are the retained target keys. */
  lemma {:induction false} WithoutKeys(es: seq<Edge>, k: NodeKey)
    ensures KeysOf(Targets(Without(es, KeysOf(Targets(es)), k))) == Without(KeysOf(Targets(es)), KeysOf(Targets(es)), k)
  {
    if es != [] {
      var ks := KeysOf(Targets(es));
      assert [es[0]] + es[1..] == es;
      KeysTargetsCons(es[0], es[1..]);
      assert ks[1..] == KeysOf(Targets(es[1..]));
      WithoutKeys(es[1..], k);
      var rest := Without(es[1..], ks[1..], k);
      if ks[0] == k {
        assert Without(es, ks, k) == rest;
        assert Without(ks, ks, k) == Without(ks[1..], ks[1..], k);
      } else {
        assert Without(es, ks, k) == [es[0]] + rest;
        assert Without(ks, ks, k) == [ks[0]] + Without(ks[1..], ks[1..], k);
        KeysTargetsCons(es[0], rest);
      }
    }
  }

  lemma KeysTargetsCons(e: Edge, es: seq<Edge>)
    ensures KeysOf(Targets([e] + es)) == [e.toNode.Key()] + KeysOf(Targets(es))
  {
    var a, b := KeysOf(Targets([e] + es)), [e.toNode.Key()] + KeysOf(Targets(es));
    KeysAt(Targets([e] + es));
    KeysAt(Targets(es));
    TargetsAt([e] + es);
    TargetsAt(es);
    forall i | 0 <= i < |a| ensures a[i] == b[i] {
      if i > 0 {
        assert ([e] + es)[i] == es[i - 1];
      }
    }
  }

  /** The keys of the neighbours `DropEach` leaves are the keys it reports. */
  lemma {:induction false} DropEachKeys(s: seq<Node>, rs: seq<NodeKey>)
    ensures KeysOf(DropEach(s, KeysOf(s), rs).0) == DropEach(s, KeysOf(s), rs).1
    decreases |rs|
  {
    if rs != [] {
      var p := DropEach(s, KeysOf(s), rs[..|rs| - 1]);
      DropEachKeys(s, rs[..|rs| - 1]);
      DropFirstKeys(p.0, rs[|rs| - 1]);
    }
  }

  /** `removeIf` removes exactly the elements whose key is `k`. */
  lemma {:induction false} WithoutExactly<T>(xs: seq<T>, ks: seq<NodeKey>, k: NodeKey)
    requires |ks| == |xs|
    ensures forall x :: x in Without(xs, ks, k) ==> exists i :: 0 <= i < |xs| && xs[i] == x && ks[i] != k
    ensures forall i :: 0 <= i < |xs| && ks[i] != k ==> xs[i] in Without(xs, ks, k)
  {
    if xs != [] {
      WithoutExactly(xs[1..], ks[1..], k);
      forall x | x in Without(xs, ks, k) ensures exists i :: 0 <= i < |xs| && xs[i] == x && ks[i] != k {
        if x !in Without(xs[1..], ks[1..], k) {
          assert xs[0] == x && ks[0] != k;
        } else {
          var i :| 0 <= i < |xs[1..]| && xs[1..][i] == x && ks[1..][i] != k;
          assert xs[i + 1] == x && ks[i + 1] != k;
        }
      }
      forall i | 0 <= i < |xs| && ks[i] != k ensures xs[i] in Without(xs, ks, k) {
        if i > 0 {
          assert xs[i] == xs[1..][i - 1] && ks[i] == ks[1..][i - 1];
        }
      }
    }
  }

  /** What `removeIf` keeps comes from the original list. */
  lemma {:induction false} WithoutSubset<T>(xs: seq<T>, ks: seq<NodeKey>, k: NodeKey)
    requires |ks| == |xs|
    ensures forall x :: x in Without(xs, ks, k) ==> x in xs
  {
    if xs != [] {
      WithoutSubset(xs[1..], ks[1..], k);
    }
  }

  /** Filtering distributes over `+`: `removeIf` keeps the relative order. */
  lemma {:induction false} WithoutConcat<T>(a: seq<T>, ka: seq<NodeKey>, b: seq<T>, kb: seq<NodeKey>, k: NodeKey)
    requires |ka| == |a| && |kb| == |b|
    ensures Without(a + b, ka + kb, k) == Without(a, ka, k) + Without(b, kb, k)
  {
    if a == [] {
      assert a + b == b && ka + kb == kb;
    } else {
      assert (a + b)[1..] == a[1..] + b && (ka + kb)[1..] == ka[1..] + kb;
      WithoutConcat(a[1..], ka[1..], b, kb, k);
    }
  }

  lemma {:induction false} WithoutAbsent<T>(xs: seq<T>, ks: seq<NodeKey>, k: NodeKey)
    requires |ks| == |xs| && k !in ks
    ensures Without(xs, ks, k) == xs
  {
    if xs != [] {
      WithoutAbsent(xs[1..], ks[1..], k);
    }
  }

  /** When `k` occurs only at `i`, filtering drops just that element. */
  lemma WithoutSingle<T>(xs: seq<T>, ks: seq<NodeKey>, k: NodeKey, i: nat)
    requires |ks| == |xs| && i < |xs| && ks[i] == k
    requires k !in ks[..i] && k !in ks[i + 1..]
    ensures Without(xs, ks, k) == xs[..i] + xs[i + 1..]
  {
    assert xs == xs[..i] + xs[i..] && ks == ks[..i] + ks[i..];
    WithoutConcat(xs[..i], ks[..i], xs[i..], ks[i..], k);
    WithoutAbsent(xs[..i], ks[..i], k);
    assert xs[i..][1..] == xs[i + 1..] && ks[i..][1..] == ks[i + 1..];
    WithoutAbsent(xs[i + 1..], ks[i + 1..], k);
  }

  /** With distinct keys, dropping every element keyed `k` and dropping the
      first one agree: `disconnect` then keeps `edges` and `neighbors` in step. */
  lemma DisconnectKeepsLockstep(es: seq<Edge>, ks: seq<NodeKey>, k: NodeKey)
    requires |ks| == |es| && DistinctKeys(ks)
    ensures Targets(Without(es, ks, k)) == DropFirst(Targets(es), ks, k)
  {
    match FirstIndex(ks, k) {
      case None =>
        WithoutAbsent(es, ks, k);
      case Some(i) =>
        assert k !in ks[i + 1..] by {
          forall j | i + 1 <= j < |ks| ensures ks[j] != k {
            assert ks[i] == k;
          }
        }
        WithoutSingle(es, ks, k, i);
        TargetsConcat(es[..i], es[i + 1..]);
        TargetsAt(es);
        TargetsAt(es[..i]);
        TargetsAt(es[i + 1..]);
        assert Targets(es[..i]) == Targets(es)[..i];
        assert Targets(es[i + 1..]) == Targets(es)[i + 1..];
    }
  }

  /** The keys of what `remove` leaves are the keys with the first `k` dropped. */
  lemma DropFirstKeys(s: seq<Node>, k: NodeKey)
    ensures KeysOf(DropFirst(s, KeysOf(s), k)) == DropFirst(KeysOf(s), KeysOf(s), k)
  {
    match FirstIndex(KeysOf(s), k) {
      case None =>
      case Some(i) =>
        KeysAt(s);
        KeysAt(s[..i] + s[i + 1..]);
        assert KeysOf(s[..i] + s[i + 1..]) == KeysOf(s)[..i] + KeysOf(s)[i + 1..];
    }
  }

  /** `connect` appends only a key not yet present, so it keeps the
      neighbours pairwise unequal. */
  lemma ConnectKeepsDistinct(s: seq<Node>, x: Node)
    requires DistinctKeys(KeysOf(s)) && !Contains(s, x)
    ensures DistinctKeys(KeysOf(s + [x]))
  {
    KeysOfAppend(s, x);
    ContainsKey(s, x);
  }

  /** `disconnect` keeps the neighbours pairwise unequal. */
  lemma DisconnectKeepsDistinct(s: seq<Node>, x: Node)
    requires DistinctKeys(KeysOf(s))
    ensures DistinctKeys(KeysOf(RemoveFirst(s, x)))
  {
    DropFirstKeys(s, x.Key());
    DropFirstKeepsDistinct(KeysOf(s), x.Key());
  }

  /** Removing a present node from pairwise unequal neighbours leaves none
      equal to it, so a second `disconnect` from it is refused. */
  lemma RemoveFirstGone(s: seq<Node>, x: Node)
    requires DistinctKeys(KeysOf(s)) && Contains(s, x)
    ensures !Contains(RemoveFirst(s, x), x)
  {
    var ks, k := KeysOf(s), x.Key();
    ContainsKey(s, x);
    DropFirstKeys(s, k);
    ContainsKey(RemoveFirst(s, x), x);
    var i := FirstIndex(ks, k).value;
    assert DropFirst(ks, ks, k) == ks[..i] + ks[i + 1..];
    forall j | 0 <= j < |ks| && j != i ensures ks[j] != k {}
  }

  lemma DropFirstKeepsDistinct(ks: seq<NodeKey>, k: NodeKey)
    requires DistinctKeys(ks)
    ensures DistinctKeys(DropFirst(ks, ks, k))
  {
    match FirstIndex(ks, k) {
      case None =>
      case Some(m) =>
        var r := ks[..m] + ks[m + 1..];
        forall i, j | 0 <= i < j < |r| ensures r[i] != r[j] {
          var i', j' := if i < m then i else i + 1, if j < m then j else j + 1;
          assert r[i] == ks[i'] && r[j] == ks[j'];
        }
    }
  }

  /** With two edges to equal targets (possible once a rename has made two
      distinct nodes equal), `disconnect` drops both edges but only one
      neighbour: the two lists fall out of step. */
  lemma DisconnectDesyncsOnEqualNeighbors(es: seq<Edge>, k: NodeKey)
    requires |es| == 2
    ensures Without(es, [k, k], k) == []
    ensures DropFirst(Targets(es), [k, k], k) == [es[1].toNode]
    ensures Targets(Without(es, [k, k], k)) != DropFirst(Targets(es), [k, k], k)
  {
    assert FirstIndex([k, k], k) == Some(0);
    assert Targets(es)[1..] == [es[1].toNode];
  }

  /** A fresh `connect` followed by `disconnect` of the same target gives
      back the lists the node had before. */
  lemma ConnectThenDisconnectRestores(es: seq<Edge>, ks: seq<NodeKey>, e: Edge, k: NodeKey)
    requires |ks| == |es| && k !in ks
    ensures Without(es + [e], ks + [k], k) == es
    ensures DropFirst(Targets(es) + [e.toNode], ks + [k], k) == Targets(es)
  {
    WithoutConcat(es, ks, [e], [k], k);
    WithoutAbsent(es, ks, k);
    assert FirstIndex(ks + [k], k) == Some(|ks|) by {
      assert (ks + [k])[..|ks|] == ks;
    }
    assert (Targets(es) + [e.toNode])[..|ks|] == Targets(es);
  }

  /** The node lists of both graph classes: every node keeps its two lists
      in step, and every edge ends at a node of the list. */
  ghost predicate WellFormed(ns: seq<Node>)
    reads ns`edges, ns`neighbors
  {
    && (forall n :: n in ns ==> n.Lockstep())
    && Closed(set n | n in ns)
  }

  /** `addNode` appends a node without edges, which keeps the list well formed. */
  lemma WellFormedAppend(ns: seq<Node>, n: Node)
    requires n.edges == [] && n.neighbors == []
    ensures WellFormed(ns) ==> WellFormed(ns + [n])
  {
    assert (set m | m in ns + [n]) == (set m | m in ns) + {n};
  }

  /** Every outgoing edge of a node in `U` ends in `U`. */
  ghost predicate Closed(U: set<Node>)
    reads U`edges
  {
    forall n, e :: n in U && e in n.edges ==> e.toNode in U
  }

  /** The edge objects owned by the nodes of `U`. */
  ghost function EdgesOf(U: set<Node>): set<Edge>
    reads U`edges
  {
    set n, e | n in U && e in n.edges :: e
  }

  /** The arcs (target, current weight) of a list of edges. */
  ghost function ArcsOf(es: seq<Edge>): (r: seq<Arc<Node>>)
    reads es
    ensures |r| == |es|
  {
    seq(|es|, i requires 0 <= i < |es| reads es => Arc(es[i].toNode, es[i].weight))
  }

  /** The value of the heap graph spanned by `U`: each node with its arcs. */
  ghost function Snapshot(U: set<Node>): (G: Digraph<Node>)
    reads U`edges, EdgesOf(U)
    ensures G.Keys == U
    ensures forall n :: n in U ==> G[n] == ArcsOf(n.edges)
  {
    map n | n in U :: assert forall e :: e in n.edges ==> e in EdgesOf(U); ArcsOf(n.edges)
  }

  /** The snapshot of `U` stays the same while the nodes of `U` and their
      edges do. */
  twostate lemma SnapshotUnchanged(U: set<Node>)
    requires unchanged(U) && unchanged(old(EdgesOf(U)))
    ensures Snapshot(U) == old(Snapshot(U))
  {
  }
}
