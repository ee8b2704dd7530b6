/** `DirectedGraph` (DirectedGraph.java) with the default batch methods of the
    `Graph` interface (Graph.java) that it inherits. */
module Directed {
  import opened Errors
  import opened Nodes

  class DirectedGraph {
    /** The graph's own node list, in insertion order. */
    var nodes: seq<Node>

    ghost function Members(): set<Node>
      reads this`nodes
    {
      set n | n in nodes
    }

    /** Every member keeps its two lists in step, and every edge of a member
        ends at a member. */
    ghost predicate Valid()
      reads this`nodes, nodes`edges, nodes`neighbors
    {
      WellFormed(nodes)
    }

    /** A change confined to the lists of member `n`, which keeps them in
        step and adds only edges to members, keeps the graph valid. */
    twostate lemma OwnListsKeepValid(n: Node)
      requires old(Valid()) && nodes == old(nodes) && n in nodes && n.Lockstep()
      requires forall e :: e in n.edges ==> e in old(n.edges) || e.toNode in nodes
      requires forall m :: m in nodes && m != n ==> m.edges == old(m.edges) && m.neighbors == old(m.neighbors)
      ensures Valid()
    {
    }

    constructor ()
      ensures nodes == [] && Valid()
    {
      nodes := [];
    }

    /** `getNodes`: a copy of the node list. A Dafny sequence is a value, so a
        caller can never change the graph's list through it. */
    method GetNodes() returns (r: seq<Node>)
      ensures r == nodes
    {
      r := nodes;
    }

    /** `addNode(data)`: rejects null data, otherwise appends a fresh node
        named `"n" + data` and returns it. */
    method AddNode(data: Option<int>) returns (r: Result<Node>)
      modifies this`nodes
      ensures data.None? ==> r == Failure(InvalidArgument(NodeDataNull)) && nodes == old(nodes)
      ensures data.Some? ==> r.Success? && fresh(r.value) && nodes == old(nodes) + [r.value]
      ensures data.Some? ==> r.value.Key() == NodeKey(data.value, DefaultName(data))
      ensures data.Some? ==> r.value.edges == [] && r.value.neighbors == []
      ensures old(Valid()) ==> Valid()
    {
      if data.None? {
        return Failure(InvalidArgument(NodeDataNull));
      }
      var n := new Node(data.value, DefaultName(data));
      WellFormedAppend(nodes, n);
      nodes := nodes + [n];
      r := Success(n);
    }

    /** `addNode(data, name)`: the node constructor rejects a null argument;
        otherwise a fresh node is appended and returned. */
    method AddNodeNamed(data: Option<int>, name: Option<string>) returns (r: Result<Node>)
      modifies this`nodes
      ensures r.Failure? <==> data.None? || name.None?
      ensures r.Failure? ==> r.error == InvalidArgument(DataOrNameNull) && nodes == old(nodes)
      ensures r.Success? ==> fresh(r.value) && nodes == old(nodes) + [r.value]
      ensures r.Success? ==> r.value.Key() == NodeKey(data.value, name.value)
      ensures r.Success? ==> r.value.edges == [] && r.value.neighbors == []
      ensures old(Valid()) ==> Valid()
    {
      r := Node.Create(data, name);
      if r.Success? {
        WellFormedAppend(nodes, r.value);
        nodes := nodes + [r.value];
      }
    }

    /** The message `connect(from, to, w)` throws, if any: a failed
        membership check, or a target that is already a neighbour. */
    function ConnectRefusal(from: Node?, to: Node?): (m: Option<Message>)
      reads this`nodes, nodes`data, nodes`name, Just(from)`data, Just(from)`name, Just(to)`data, Just(to)`name
      reads Just(from)`neighbors, NeighborsOf(from)`data, NeighborsOf(from)`name
    {
      var v := Validate(nodes, from, to);
      if v.Some? then v
      else if Contains(from.neighbors, to) then Some(AlreadyConnected)
      else None
    }

    /** `connect(from, to, weight)`: after the membership check, delegates to
        `from.connect`. Only `from`'s lists can change. */
    method Connect(from: Node?, to: Node?, weight: int) returns (r: Outcome)
      modifies Just(from)`edges, Just(from)`neighbors
      ensures r.Pass? <==> old(ConnectRefusal(from, to)).None?
      ensures r.Pass? ==> EdgeAppended(from, to, weight)
      ensures r.Fail? ==> ConnectRefusal(from, to).Some? && r == Fail(InvalidArgument(ConnectRefusal(from, to).value))
      ensures r.Fail? && from != null ==> from.edges == old(from.edges) && from.neighbors == old(from.neighbors)
      ensures old(Valid()) && (r.Fail? || (from in old(nodes) && to in old(nodes))) ==> Valid()
    {
      var m := Validate(nodes, from, to);
      if m.Some? {
        return Fail(InvalidArgument(m.value));
      }
      r := from.Connect(to, weight);
      if old(Valid()) && from in nodes && to in nodes {
        OwnListsKeepValid(from);
      }
    }

    /** The message `disconnect(from, to)` throws, if any: a failed
        membership check, or a target that is not a neighbour. */
    function DisconnectRefusal(from: Node?, to: Node?): (m: Option<Message>)
      reads this`nodes, nodes`data, nodes`name, Just(from)`data, Just(from)`name, Just(to)`data, Just(to)`name
      reads Just(from)`neighbors, NeighborsOf(from)`data, NeighborsOf(from)`name
    {
      var v := Validate(nodes, from, to);
      if v.Some? then v
      else if !Contains(from.neighbors, to) then Some(NotConnected)
      else None
    }

    /** `disconnect(from, to)`: after the membership check, delegates to
        `from.disconnect`. Only `from`'s lists can change. The lists stay in
        step when `from`'s neighbours were pairwise unequal. */
    method Disconnect(from: Node?, to: Node?) returns (r: Outcome)
      modifies Just(from)`edges, Just(from)`neighbors
      ensures r.Pass? <==> old(DisconnectRefusal(from, to)).None?
      ensures r.Pass? ==> from != null && to != null && EdgesRemoved(from, to)
      ensures r.Fail? ==> DisconnectRefusal(from, to).Some? && r == Fail(InvalidArgument(DisconnectRefusal(from, to).value))
      ensures r.Fail? && from != null ==> from.edges == old(from.edges) && from.neighbors == old(from.neighbors)
      ensures old(Valid()) && from in old(nodes) && old(from.DistinctNeighbors()) ==> Valid()
    {
      var m := Validate(nodes, from, to);
      if m.Some? {
        return Fail(InvalidArgument(m.value));
      }
      ghost var es, ks := from.edges, KeysOf(Targets(from.edges));
      r := from.Disconnect(to);
      if old(Valid()) && from in nodes && old(from.DistinctNeighbors()) {
        WithoutSubset(es, ks, to.Key());
        OwnListsKeepValid(from);
      }
    }

    /** `updateNodeData(node, newData)`: rejects null arguments and non-members,
        otherwise sets the data of the node object passed in. */
    method UpdateNodeData(node: Node?, newData: Option<int>) returns (r: Outcome)
      modifies Just(node)`data
      ensures node == null || newData.None? ==> r == Fail(InvalidArgument(NodeOrDataNull))
      ensures node != null && newData.Some? && !old(Contains(nodes, node)) ==> r == Fail(InvalidArgument(NotMember))
      ensures r.Pass? <==> node != null && newData.Some? && old(Contains(nodes, node))
      ensures r.Pass? ==> node.data == newData.value
      ensures r.Fail? && node != null ==> node.data == old(node.data)
      ensures old(Valid()) ==> Valid()
    {
      if node == null || newData.None? {
        return Fail(InvalidArgument(NodeOrDataNull));
      }
      if !Contains(nodes, node) {
        return Fail(InvalidArgument(NotMember));
      }
      r := node.SetData(newData);
    }

    /** `updateEdgeWeight(from, to, w)`: after the membership check, sets the
        weight of the first edge from `from` to a node equal to `to`; when
        there is none, fails and changes nothing. */
    method UpdateEdgeWeight(from: Node?, to: Node?, weight: int) returns (r: Outcome)
      modifies OutEdges(from)`weight
      ensures var m := old(Validate(nodes, from, to)); m.Some? ==> r == Fail(InvalidArgument(m.value))
      ensures old(Validate(nodes, from, to)).None? && old(FirstEdgeTo(from.edges, to)).None? ==> r == Fail(InvalidArgument(EdgeMissing))
      ensures r.Pass? <==> old(Validate(nodes, from, to)).None? && old(FirstEdgeTo(from.edges, to)).Some?
      ensures r.Pass? ==> from.edges[old(FirstEdgeTo(from.edges, to)).value].weight == weight
      ensures forall e :: e in OutEdges(from) && !(r.Pass? && e == from.edges[old(FirstEdgeTo(from.edges, to)).value]) ==> e.weight == old(e.weight)
      ensures old(Valid()) ==> Valid()
    {
      var m := Validate(nodes, from, to);
      if m.Some? {
        return Fail(InvalidArgument(m.value));
      }
      var found := SetFirstWeight(from, to, weight);
      if found.None? {
        return Fail(InvalidArgument(EdgeMissing));
      }
      r := Pass;
    }

    /** `connect(from, to)`: `connect` with the default weight 1. */
    method ConnectUnit(from: Node?, to: Node?) returns (r: Outcome)
      modifies Just(from)`edges, Just(from)`neighbors
      ensures r.Pass? <==> old(ConnectRefusal(from, to)).None?
      ensures r.Pass? ==> EdgeAppended(from, to, 1)
      ensures r.Fail? ==> ConnectRefusal(from, to).Some? && r == Fail(InvalidArgument(ConnectRefusal(from, to).value))
      ensures r.Fail? && from != null ==> from.edges == old(from.edges) && from.neighbors == old(from.neighbors)
      ensures old(Valid()) && (r.Fail? || (from in old(nodes) && to in old(nodes))) ==> Valid()
    {
      r := Connect(from, to, 1);
    }

    /** One step of a batch `connect`: `connect(from, t, w)`, applied exactly
        when it is admitted, in which case it appends the edge `e`. */
    method ConnectNext(from: Node, t: Node?, w: int) returns (s: Outcome, ghost e: Edge?)
      modifies from`edges, from`neighbors
      ensures s.Pass? <==> old(Admits(nodes, from.neighbors, from, t))
      ensures s.Pass? ==> e != null && from.edges == old(from.edges) + [e] && from.neighbors == old(from.neighbors) + [t] && Made(e, from, t, w)
      ensures s.Fail? ==> var m := ConnectRefusal(from, t); m.Some? && s == Fail(InvalidArgument(m.value))
      ensures s.Fail? ==> from.edges == old(from.edges) && from.neighbors == old(from.neighbors)
    {
      s := Connect(from, t, w);
      e := if s.Pass? then from.edges[|from.edges| - 1] else null;
    }

    /** `connect(from, toNodes, weights)`: rejects null arguments and lists of
        different sizes up front, then connects `from` to each target with its
        weight, in order. The first failing step ends the batch with its error;
        the steps before it stay applied. `applied` counts the steps that took
        effect. */
    method ConnectAll(from: Node?, toNodes: Option<seq<Node?>>, weights: Option<seq<int>>)
      returns (r: Outcome, ghost applied: nat, ghost added: seq<Edge>)
      modifies Just(from)`edges, Just(from)`neighbors
      ensures !Batch(from, toNodes, weights) ==> r == Fail(InvalidArgument(InvalidNodesOrWeights)) && applied == 0
      ensures !Batch(from, toNodes, weights) && from != null ==> from.edges == old(from.edges) && from.neighbors == old(from.neighbors)
      ensures Batch(from, toNodes, weights) ==>
        && applied <= |toNodes.value| && |added| == applied
        && (r.Pass? <==> applied == |toNodes.value|)
        && from.edges == old(from.edges) + added
        && from.neighbors == old(from.neighbors) + toNodes.value[..applied]
        && (forall j :: 0 <= j < applied ==> Made(added[j], from, toNodes.value[j], weights.value[j]))
        && forall j :: 0 <= j < applied ==> old(Admits(nodes, from.neighbors + toNodes.value[..j], from, toNodes.value[j]))
      ensures Batch(from, toNodes, weights) && r.Fail? ==>
        var m := ConnectRefusal(from, toNodes.value[applied]); m.Some? && r == Fail(InvalidArgument(m.value))
    {
      if from == null || toNodes.None? || weights.None? || |toNodes.value| != |weights.value| {
        return Fail(InvalidArgument(InvalidNodesOrWeights)), 0, [];
      }
      var ts, ws := toNodes.value, weights.value;
      r, added := Pass, [];
      var i := 0;
      while i < |ts|
        invariant i <= |ts| && |added| == i && r == Pass
        invariant from.edges == old(from.edges) + added
        invariant from.neighbors == old(from.neighbors) + ts[..i]
        invariant forall j :: 0 <= j < i ==> Made(added[j], from, ts[j], ws[j])
        invariant forall j :: 0 <= j < i ==> old(Admits(nodes, from.neighbors + ts[..j], from, ts[j]))
      {
        label Step:
        var s, e := ConnectNext(from, ts[i], ws[i]);
        if s.Fail? {
          r := s;
          break;
        }
        assert old(Admits(nodes, from.neighbors + ts[..i], from, ts[i])) by {
          assert old@Step(Admits(nodes, from.neighbors, from, ts[i]));
        }
        added := added + [e];
        i := i + 1;
      }
      applied := i;
    }

    /** One step of the batch `disconnect`: `disconnect(from, t)` after the
        keys `R` have been removed from the original lists `E0` and `N0`,
        whose keys are `K0` and `J0`. */
    method DisconnectNext(from: Node, t: Node?, ghost E0: seq<Edge>, ghost K0: seq<NodeKey>,
                          ghost N0: seq<Node>, ghost J0: seq<NodeKey>, ghost R: seq<NodeKey>, ghost M: seq<NodeKey>) returns (s: Outcome)
      modifies from`edges, from`neighbors
      requires K0 == KeysOf(Targets(E0)) && J0 == KeysOf(N0) && M == KeysOf(nodes)
      requires from.edges == Keep(E0, K0, R) && from.neighbors == DropEach(N0, J0, R).0
      ensures s.Pass? <==> from.Key() in M && t != null && t.Key() in M && t.Key() in DropEach(N0, J0, R).1
      ensures s.Fail? ==> DisconnectRefusal(from, t).Some? && s == Fail(InvalidArgument(DisconnectRefusal(from, t).value))
      ensures s.Fail? ==> from.edges == old(from.edges) && from.neighbors == old(from.neighbors)
      ensures s.Pass? ==>
        && t != null
        && from.edges == Keep(E0, K0, R + [t.Key()])
        && from.neighbors == DropEach(N0, J0, R + [t.Key()]).0
    {
      assert KeysOf(Targets(from.edges)) == Keep(K0, K0, R) by {
        KeepKeys(E0, R);
      }
      assert KeysOf(from.neighbors) == DropEach(N0, J0, R).1 by {
        DropEachKeys(N0, R);
      }
      ContainsKey(nodes, from);
      if t != null {
        ContainsKey(from.neighbors, t);
        ContainsKey(nodes, t);
      }
      s := Disconnect(from, t);
      if s.Pass? {
        KeepThenWithout(E0, K0, R, t.Key());
      }
    }



    /** `connect(from, toNodes)`: rejects null arguments up front, then
        connects `from` to each target with weight 1, in order. The first
        failing step ends the batch with its error; the steps before it stay
        applied, creating the edges `added`. */
    method ConnectAllUnit(from: Node?, toNodes: Option<seq<Node?>>)
      returns (r: Outcome, ghost applied: nat, ghost added: seq<Edge>)
      modifies Just(from)`edges, Just(from)`neighbors
      ensures from == null || toNodes.None? ==> r == Fail(InvalidArgument(InvalidNodes)) && applied == 0
      ensures from != null && toNodes.None? ==> from.edges == old(from.edges) && from.neighbors == old(from.neighbors)
      ensures from != null && toNodes.Some? ==>
        && applied <= |toNodes.value| && |added| == applied
        && (r.Pass? <==> applied == |toNodes.value|)
        && from.edges == old(from.edges) + added
        && from.neighbors == old(from.neighbors) + toNodes.value[..applied]
        && (forall j :: 0 <= j < applied ==> Made(added[j], from, toNodes.value[j], 1))
        && forall j :: 0 <= j < applied ==> old(Admits(nodes, from.neighbors + toNodes.value[..j], from, toNodes.value[j]))
      ensures from != null && toNodes.Some? && r.Fail? ==>
        var m := ConnectRefusal(from, toNodes.value[applied]); m.Some? && r == Fail(InvalidArgument(m.value))
    {
      if from == null || toNodes.None? {
        return Fail(InvalidArgument(InvalidNodes)), 0, [];
      }
      var ts := toNodes.value;
      r, added := Pass, [];
      var i := 0;
      while i < |ts|
        invariant i <= |ts| && |added| == i && r == Pass
        invariant from.edges == old(from.edges) + added
        invariant from.neighbors == old(from.neighbors) + ts[..i]
        invariant forall j :: 0 <= j < i ==> Made(added[j], from, ts[j], 1)
        invariant forall j :: 0 <= j < i ==> old(Admits(nodes, from.neighbors + ts[..j], from, ts[j]))
      {
        label Step:
        var s, e := ConnectNext(from, ts[i], 1);
        if s.Fail? {
          r := s;
          break;
        }
        assert old(Admits(nodes, from.neighbors + ts[..i], from, ts[i])) by {
          assert old@Step(Admits(nodes, from.neighbors, from, ts[i]));
        }
        added := added + [e];
        i := i + 1;
      }
      applied := i;
    }

    /** `disconnect(from, toNodes)`: rejects null arguments up front, then
        disconnects `from` from each target in order. The first failing step
        ends the batch with its error; the steps before it stay applied. The
        edges left are those whose target's key is none of the `removed` keys;
        the neighbours are what one `remove` per removed key leaves. */
    method DisconnectAll(from: Node?, toNodes: Option<seq<Node?>>)
      returns (r: Outcome, ghost applied: nat, ghost removed: seq<NodeKey>)
      modifies Just(from)`edges, Just(from)`neighbors
      ensures from == null || toNodes.None? ==> r == Fail(InvalidArgument(InvalidNodes)) && applied == 0
      ensures from != null && toNodes.None? ==> from.edges == old(from.edges) && from.neighbors == old(from.neighbors)
      ensures from != null && toNodes.Some? ==>
        var N0, J0, M, f, ks := old(from.neighbors), old(KeysOf(from.neighbors)), old(KeysOf(nodes)), old(from.Key()), old(TargetKeys(toNodes.value));
        && applied <= |toNodes.value| && |removed| == applied
        && (r.Pass? <==> applied == |toNodes.value|)
        && Unhooked(N0, J0, M, f, ks, removed)
        && from.edges == Keep(old(from.edges), old(KeysOf(Targets(from.edges))), removed)
        && from.neighbors == DropEach(N0, J0, removed).0
        && (r.Fail? ==> !Unhooks(M, f, ks[applied], DropEach(N0, J0, removed).1))
      ensures from != null && toNodes.Some? && r.Fail? ==>
        var m := DisconnectRefusal(from, toNodes.value[applied]); m.Some? && r == Fail(InvalidArgument(m.value))
    {
      if from == null || toNodes.None? {
        return Fail(InvalidArgument(InvalidNodes)), 0, [];
      }
      var ts := toNodes.value;
      ghost var E0, N0 := from.edges, from.neighbors;
      ghost var K0, J0, M, f, ks := KeysOf(Targets(E0)), KeysOf(N0), KeysOf(nodes), from.Key(), TargetKeys(ts);
      KeepNone(E0, K0);
      r, removed := Pass, [];
      var i := 0;
      while i < |ts|
        invariant i <= |ts| && |removed| == i && r == Pass
        invariant from.edges == Keep(E0, K0, removed)
        invariant from.neighbors == DropEach(N0, J0, removed).0
        invariant Unhooked(N0, J0, M, f, ks, removed)
      {
        KeysFrame(Targets(E0));
        KeysFrame(N0);
        KeysFrame(nodes);
        var s;
        s, removed := DisconnectAt(from, ts, i, E0, K0, N0, J0, M, f, ks, removed);
        if s.Fail? {
          r := s;
          break;
        }
        i := i + 1;
      }
      applied := i;
    }

    /** Step `i` of a batch `disconnect(from, ts)`, once the steps before
        it removed the keys `R` from the lists `E0` and `N0` of `from`, whose
        keys are `K0` and `J0`; `M` are the members' keys, `f` the key of
        `from` and `ks` those of the targets. */
    method DisconnectAt(from: Node, ts: seq<Node?>, i: nat, ghost E0: seq<Edge>, ghost K0: seq<NodeKey>, ghost N0: seq<Node>,
                        ghost J0: seq<NodeKey>, ghost M: seq<NodeKey>, ghost f: NodeKey, ghost ks: seq<Option<NodeKey>>,
                        ghost R: seq<NodeKey>)
      returns (s: Outcome, ghost R1: seq<NodeKey>)
      modifies from`edges, from`neighbors
      requires |R| == i < |ts| == |ks| && f == from.Key()
      requires ks[i] == if ts[i] == null then None else Some(ts[i].Key())
      requires K0 == KeysOf(Targets(E0)) && J0 == KeysOf(N0) && M == KeysOf(nodes)
      requires from.edges == Keep(E0, K0, R) && from.neighbors == DropEach(N0, J0, R).0
      requires Unhooked(N0, J0, M, f, ks, R)
      ensures from.edges == Keep(E0, K0, R1) && from.neighbors == DropEach(N0, J0, R1).0
      ensures s.Pass? ==> |R1| == i + 1 && Unhooked(N0, J0, M, f, ks, R1)
      ensures s.Fail? ==> R1 == R && !Unhooks(M, f, ks[i], DropEach(N0, J0, R).1)
      ensures s.Fail? ==> DisconnectRefusal(from, ts[i]).Some? && s == Fail(InvalidArgument(DisconnectRefusal(from, ts[i]).value))
    {
      var t := ts[i];
      s := DisconnectNext(from, t, E0, K0, N0, J0, R, M);
      if s.Fail? {
        R1 := R;
      } else {
        R1 := R + [t.Key()];
        UnhookStep(N0, J0, M, f, ks, R, t.Key());
      }
    }

    /** A batch `disconnect` step from a node with key `f` to a target with
        key `k` (`None` for null) is applied when both keys belong to members
        (`M`) and `k` is among the neighbour keys `J` left by the steps before. */
    static predicate Unhooks(M: seq<NodeKey>, f: NodeKey, k: Option<NodeKey>, J: seq<NodeKey>) {
      f in M && k.Some? && k.value in M && k.value in J
    }

    /** The keys `R` are those of the first `|R|` targets (keys `ks`) of a
        batch `disconnect` from a node with key `f`, each step applied: on the
        list `N0`, whose keys are `J0`, among members with keys `M`, each step
        found its key among what removing the keys before it left. */
    static ghost predicate Unhooked(N0: seq<Node>, J0: seq<NodeKey>, M: seq<NodeKey>, f: NodeKey, ks: seq<Option<NodeKey>>, R: seq<NodeKey>)
      requires |J0| == |N0|
    {
      && |R| <= |ks|
      && forall j :: 0 <= j < |R| ==> ks[j] == Some(R[j]) && Unhooks(M, f, ks[j], DropEach(N0, J0, R[..j]).1)
    }

    /** One more applied step keeps `Unhooked`. */
    static lemma UnhookStep(N0: seq<Node>, J0: seq<NodeKey>, M: seq<NodeKey>, f: NodeKey, ks: seq<Option<NodeKey>>, R: seq<NodeKey>, k: NodeKey)
      requires |J0| == |N0| && |R| < |ks| && Unhooked(N0, J0, M, f, ks, R)
      requires ks[|R|] == Some(k) && Unhooks(M, f, Some(k), DropEach(N0, J0, R).1)
      ensures Unhooked(N0, J0, M, f, ks, R + [k])
    {
      forall j | 0 <= j < |R| + 1 ensures ks[j] == Some((R + [k])[j]) && Unhooks(M, f, ks[j], DropEach(N0, J0, (R + [k])[..j]).1) {
        AppendPrefix(R, [k], j);
      }
    }
  }
}
