/** `UndirectedGraph` (UndirectedGraph.java): every connection is made, removed
    and reweighted on both of its end nodes, one after the other. */
module Undirected {
  import opened Errors
  import opened Nodes

  /** The lists of a nullable node are as they were. */
  twostate predicate ListsKept(n: Node?)
    reads Just(n)
  {
    n != null ==> n.edges == old(n.edges) && n.neighbors == old(n.neighbors)
  }

  class UndirectedGraph {
    /** The graph's own node list, in insertion order. */
    var nodes: seq<Node>

    /** Every member keeps its two lists in step, and every edge of a member
        ends at a member. */
    ghost predicate Valid()
      reads this`nodes, nodes`edges, nodes`neighbors
    {
      WellFormed(nodes)
    }

    /** A change confined to the lists of the members in `U`, which keeps
        them in step and adds only edges to members, keeps the graph valid. */
    twostate lemma OwnListsKeepValid(U: set<Node>)
      requires old(Valid()) && nodes == old(nodes)
      requires forall n :: n in U ==> n in nodes && n.Lockstep()
      requires forall n, e :: n in U && e in n.edges ==> e in old(n.edges) || e.toNode in nodes
      requires forall m :: m in nodes && m !in U ==> m.edges == old(m.edges) && m.neighbors == old(m.neighbors)
      ensures Valid()
    {
    }

    /** No two members are equal: the graph never holds two nodes with the
        same data and name. */
    ghost predicate UniqueMembers()
      reads this`nodes, nodes`data, nodes`name
    {
      forall a, b {:trigger a.Key(), b.Key()} :: a in nodes && b in nodes && a != b ==> a.Key() != b.Key()
    }

    /** Every connection between members runs both ways with one weight: the
        first edge from `a` to a node equal to `b` exists exactly when the
        first edge back from `b` to a node equal to `a` does, and they weigh
        the same. */
    ghost predicate Symmetric()
      reads this`nodes, set a, o | a in nodes && o in Parts(a) :: o
    {
      forall a, b {:trigger WeightTo(a, b.Key())} :: a in nodes && b in nodes ==> WeightTo(a, b.Key()) == WeightTo(b, a.Key())
    }

    /** In a valid graph, a member lists `b` among its neighbours exactly
        when it has an edge to a node equal to `b`. */
    lemma Linked(a: Node, b: Node)
      requires Valid() && a in nodes
      ensures Contains(a.neighbors, b) <==> WeightTo(a, b.Key()).Some?
    {
      assert a.Lockstep();
      ContainsKey(a.neighbors, b);
      KeyedKeys(a.edges, b.Key());
    }

    /** In a symmetric graph, `a` lists `b` among its neighbours exactly when
        `b` lists `a`. */
    lemma Mirrored(a: Node, b: Node)
      requires Valid() && Symmetric() && a in nodes && b in nodes
      ensures Contains(a.neighbors, b) <==> Contains(b.neighbors, a)
    {
      Linked(a, b);
      Linked(b, a);
    }

    /** Every edge of a member of a valid graph ends at a member. */
    lemma MembersClosed()
      requires Valid()
      ensures forall x, e :: x in nodes && e in x.edges ==> e.toNode in nodes
    {
      forall x, e | x in nodes && e in x.edges ensures e.toNode in nodes {
        assert x in set n | n in nodes;
      }
    }

    /** A change that keeps the members and their keys, and every weight
        between members except the two between `p.0` and `p.1`, which both
        become `p.2`, keeps the graph symmetric. */
    twostate lemma SymmetryKept(p: (Node, Node, Option<int>))
      requires old(Symmetric() && UniqueMembers()) && nodes == old(nodes) && p.0 in nodes && p.1 in nodes
      requires forall x :: x in nodes ==> x.Key() == old(x.Key())
      requires forall x, k :: x in nodes ==>
        WeightTo(x, k) == if (x == p.0 && k == p.1.Key()) || (x == p.1 && k == p.0.Key()) then p.2 else old(WeightTo(x, k))
      ensures Symmetric() && UniqueMembers()
    {
      forall a, b | a in nodes && b in nodes ensures WeightTo(a, b.Key()) == WeightTo(b, a.Key()) {
        assert old(WeightTo(a, b.Key())) == old(WeightTo(b, a.Key()));
      }
    }

    /** Every old edge of a member ended at a member. */
    twostate lemma OldMembersClosed()
      requires old(Valid()) && nodes == old(nodes)
      ensures forall x, e :: x in nodes && e in old(x.edges) ==> e.toNode in nodes
    {
      forall x, e | x in nodes && e in old(x.edges) ensures e.toNode in nodes {
        assert x in old(set n | n in nodes);
      }
    }

    /** A change that leaves every member's edge list, every edge of a member
        and every member's data and name as they were keeps the graph
        symmetric. */
    twostate lemma ListsKeepSymmetric()
      requires old(Valid() && Symmetric() && UniqueMembers()) && nodes == old(nodes)
      requires forall x :: x in nodes ==> x.edges == old(x.edges) && unchanged(x`data, x`name)
      requires forall x, e :: x in nodes && e in x.edges ==> e.weight == old(e.weight)
      ensures Symmetric() && UniqueMembers()
    {
      OldMembersClosed();
      forall x, k | x in nodes ensures WeightTo(x, k) == old(WeightTo(x, k)) {
        KeyedFrame(x.edges);
      }
      forall a, b | a in nodes && b in nodes ensures WeightTo(a, b.Key()) == WeightTo(b, a.Key()) {
        assert old(WeightTo(a, b.Key())) == old(WeightTo(b, a.Key()));
      }
    }

    /** `addNode` appends a node without edges whose key no member has: the
        graph stays symmetric and its members stay unequal. */
    twostate lemma AddKeepsSymmetric(new f: Node)
      requires old(Valid() && Symmetric() && UniqueMembers()) && nodes == old(nodes) + [f] && f.edges == []
      requires forall x :: x in old(nodes) ==> x.edges == old(x.edges) && unchanged(x`data, x`name) && x.Key() != f.Key()
      requires forall x, e :: x in old(nodes) && e in x.edges ==> e.weight == old(e.weight)
      ensures Symmetric() && UniqueMembers()
    {
      var N := old(nodes);
      forall x, e | x in N && e in old(x.edges) ensures e.toNode in N {
        assert x in old(set n | n in nodes);
      }
      forall x, k | x in N ensures WeightTo(x, k) == old(WeightTo(x, k)) {
        KeyedFrame(x.edges);
      }
      assert forall k :: WeightTo(f, k).None? by {
        assert Keyed(f.edges) == [];
      }
      forall x | x in N ensures WeightTo(x, f.Key()).None? {
        NoEdgeToKey(x.edges, f.Key());
      }
      forall a, b | a in nodes && b in nodes ensures WeightTo(a, b.Key()) == WeightTo(b, a.Key()) {
        if a != f && b != f {
          assert a in N && b in N;
          assert old(WeightTo(a, b.Key())) == old(WeightTo(b, a.Key()));
        }
      }
      forall a, b | a in nodes && b in nodes && a != b ensures a.Key() != b.Key() {
        if a != f && b != f {
          assert a in N && b in N;
        }
      }
    }

    /** The two steps of `connect(p.0, p.1, p.2)` on members that were not
        connected: an edge appended each way (one only, when `p.0 == p.1`),
        nothing else changed. The graph stays symmetric. */
    twostate lemma AppendKeepsSymmetric(p: (Node, Node, int))
      requires old(Valid() && Symmetric() && UniqueMembers()) && nodes == old(nodes)
      requires p.0 in nodes && p.1 in nodes && old(WeightTo(p.0, p.1.Key())).None?
      requires EdgeAppended(p.0, p.1, p.2) && (p.0 != p.1 ==> EdgeAppended(p.1, p.0, p.2))
      requires forall x :: x in nodes && x != p.0 && x != p.1 ==> x.edges == old(x.edges)
      requires forall x :: x in nodes ==> unchanged(x`data, x`name)
      requires forall x, e :: x in nodes && e in old(x.edges) ==> e.weight == old(e.weight)
      ensures Symmetric() && UniqueMembers()
    {
      OldMembersClosed();
      var a, b := p.0, p.1;
      forall x, k | x in nodes
        ensures WeightTo(x, k) == if (x == a && k == b.Key()) || (x == b && k == a.Key()) then Some(p.2) else old(WeightTo(x, k))
      {
        var E := old(x.edges);
        KeyedFrame(E);
        if x == a || x == b {
          var e := x.edges[|E|];
          KeyedAppend(E, e);
          WeightInAppend(old(Keyed(E)), (e.toNode.Key(), p.2), k);
        }
      }
      SymmetryKept((a, b, Some(p.2)));
    }

    /** The steps of `disconnect(p.0, p.1)` on connected members: the edges
        to `p.1` removed from `p.0` and, when the two differ, the edges to
        `p.0` removed from `p.1`; for `p.0 == p.1`, one removal or two.
        Nothing else changed. The graph stays symmetric. */
    twostate lemma RemoveKeepsSymmetric(p: (Node, Node))
      requires old(Valid() && Symmetric() && UniqueMembers()) && nodes == old(nodes)
      requires p.0 in nodes && p.1 in nodes
      requires p.0 != p.1 ==> EdgesRemoved(p.0, p.1) && EdgesRemoved(p.1, p.0)
      requires p.0 == p.1 ==> EdgesRemoved(p.0, p.0) || RemovedTwice(p.0)
      requires forall x :: x in nodes && x != p.0 && x != p.1 ==> x.edges == old(x.edges)
      requires forall x :: x in nodes ==> unchanged(x`data, x`name)
      requires forall x, e :: x in nodes && e in old(x.edges) ==> e.weight == old(e.weight)
      ensures Symmetric() && UniqueMembers()
    {
      RemovedViews(p);
      SymmetryKept((p.0, p.1, None));
    }

    /** The weights between members after the steps of `disconnect(p.0, p.1)`
        on members: the weights between `p.0` and `p.1` are gone, and every
        other weight is as before. */
    twostate lemma RemovedViews(p: (Node, Node))
      requires old(Valid()) && nodes == old(nodes)
      requires p.0 in nodes && p.1 in nodes
      requires p.0 != p.1 ==> EdgesRemoved(p.0, p.1) && EdgesRemoved(p.1, p.0)
      requires p.0 == p.1 ==> EdgesRemoved(p.0, p.0) || RemovedTwice(p.0)
      requires forall x :: x in nodes && x != p.0 && x != p.1 ==> x.edges == old(x.edges)
      requires forall x :: x in nodes ==> unchanged(x`data, x`name)
      requires forall x, e :: x in nodes && e in old(x.edges) ==> e.weight == old(e.weight)
      ensures forall k :: WeightTo(p.0, k) == if k == p.1.Key() then None else old(WeightTo(p.0, k))
      ensures forall k :: WeightTo(p.1, k) == if k == p.0.Key() then None else old(WeightTo(p.1, k))
      ensures forall x, k :: x in nodes && x != p.0 && x != p.1 ==> WeightTo(x, k) == old(WeightTo(x, k))
    {
      OldMembersClosed();
      RemovalWeights((p.0, p.1));
      RemovalWeights((p.1, p.0));
      WeightsKept((p.0, p.1));
    }

    /** Members other than `p.0` and `p.1` whose lists, edge weights and
        target keys are as before keep their weights. */
    twostate lemma WeightsKept(p: (Node, Node))
      requires nodes == old(nodes)
      requires forall x :: x in nodes && x != p.0 && x != p.1 ==> x.edges == old(x.edges)
      requires forall x :: x in nodes ==> unchanged(x`data, x`name)
      requires forall x, e :: x in nodes && e in old(x.edges) ==> e.weight == old(e.weight) && e.toNode in nodes
      ensures forall x, k :: x in nodes && x != p.0 && x != p.1 ==> WeightTo(x, k) == old(WeightTo(x, k))
    {
      forall x, k | x in nodes && x != p.0 && x != p.1 ensures WeightTo(x, k) == old(WeightTo(x, k)) {
        KeyedFrame(x.edges);
      }
    }

    /** In a symmetric graph an edge from `a` to a node equal to `b` has an
        edge back from `b` to a node equal to `a`. */
    lemma BackEdge(a: Node, b: Node)
      requires Valid() && Symmetric() && UniqueMembers() && a in nodes && b in nodes
      requires FirstEdgeTo(a.edges, b).Some?
      ensures FirstEdgeTo(b.edges, a).Some?
    {
      var i := FirstEdgeTo(a.edges, b).value;
      assert a.Lockstep() && b.Lockstep();
      WeightInFirst(Keyed(a.edges), i, b.Key());
      assert WeightTo(b, a.Key()).Some?;
      WeightInFound(Keyed(b.edges), a.Key());
    }

    /** `updateEdgeWeight(p.0, p.1, p.2)` on members of a symmetric graph,
        after its two loops found `p.3` and `p.4`: whether or not there was
        an edge, the graph stays symmetric, and when there was one, there was
        one back as well. */
    twostate lemma WeightsSetKeepSymmetric(p: (Node, Node, int, Option<nat>, Option<nat>))
      requires old(Valid() && Symmetric() && UniqueMembers()) && nodes == old(nodes)
      requires p.0 in nodes && p.1 in nodes
      requires forall x :: x in nodes ==> x.edges == old(x.edges) && unchanged(x`data, x`name)
      requires forall x, e :: x in old(nodes) && e in old(x.edges) && e !in old(OutEdges(p.0)) && e !in old(OutEdges(p.1)) ==> e.weight == old(e.weight)
      requires old(FirstEdgeTo(p.0.edges, p.1)).Some? ==> old(FirstEdgeTo(p.1.edges, p.0)).Some?
      requires p.3 == old(FirstEdgeTo(p.0.edges, p.1))
      requires p.3.None? ==> forall e :: e in OutEdges(p.0) + OutEdges(p.1) ==> e.weight == old(e.weight)
      requires p.3.Some? ==>
        && p.4 == old(FirstEdgeTo(p.1.edges, p.0))
        && p.0.edges[p.3.value].weight == p.2
        && (p.4.Some? ==> p.1.edges[p.4.value].weight == p.2)
        && forall e :: e in OutEdges(p.0) + OutEdges(p.1) && e != p.0.edges[p.3.value] && (p.4.None? || e != p.1.edges[p.4.value]) ==>
             e.weight == old(e.weight)
      ensures Symmetric() && UniqueMembers()
      ensures p.3.Some? ==> p.4.Some?
    {
      assert OutEdges(p.0) == old(OutEdges(p.0)) && OutEdges(p.1) == old(OutEdges(p.1));
      if p.3.None? {
        ListsKeepSymmetric();
      } else {
        ReweightKeepsSymmetric((p.0, p.1, p.2, p.3.value, p.4.value));
      }
    }

    /** The two steps of `updateEdgeWeight(p.0, p.1, p.2)` when `p.0` has an
        edge to a node equal to `p.1`: that first edge and the first edge back
        take the weight, nothing else changed. The graph stays symmetric. */
    twostate lemma ReweightKeepsSymmetric(p: (Node, Node, int, nat, nat))
      requires old(Valid() && Symmetric() && UniqueMembers()) && nodes == old(nodes)
      requires p.0 in nodes && p.1 in nodes
      requires forall x :: x in nodes ==> x.edges == old(x.edges) && unchanged(x`data, x`name)
      requires forall x, e :: x in nodes && e in x.edges && e !in OutEdges(p.0) && e !in OutEdges(p.1) ==> e.weight == old(e.weight)
      requires old(FirstEdgeTo(p.0.edges, p.1)) == Some(p.3) && old(FirstEdgeTo(p.1.edges, p.0)) == Some(p.4)
      requires p.0.edges[p.3].weight == p.2 && p.1.edges[p.4].weight == p.2
      requires forall e :: e in OutEdges(p.0) + OutEdges(p.1) && e != p.0.edges[p.3] && e != p.1.edges[p.4] ==> e.weight == old(e.weight)
      ensures Symmetric() && UniqueMembers()
    {
      ReweightFacts((p.0, p.1, p.2));
      ReweightedViews(p);
    }

    /** What the two steps of `updateEdgeWeight(p.0, p.1, p.2)` leave behind
        in a valid graph, in terms of keys: the first edge from `p.0` to a
        node equal to `p.1` and the first edge back carry `p.2`, and every
        other edge of a member kept its weight. */
    twostate lemma ReweightFacts(p: (Node, Node, int))
      requires old(Valid()) && nodes == old(nodes)
      requires p.0 in nodes && p.1 in nodes
      requires forall x :: x in nodes ==> x.edges == old(x.edges) && unchanged(x`data, x`name)
      requires forall x, e :: x in nodes && e in x.edges && e !in OutEdges(p.0) && e !in OutEdges(p.1) ==> e.weight == old(e.weight)
      requires var i, j := old(FirstEdgeTo(p.0.edges, p.1)), old(FirstEdgeTo(p.1.edges, p.0));
        && i.Some? && j.Some? && p.0.edges[i.value].weight == p.2 && p.1.edges[j.value].weight == p.2
        && forall e :: e in OutEdges(p.0) + OutEdges(p.1) && e != p.0.edges[i.value] && e != p.1.edges[j.value] ==>
             e.weight == old(e.weight)
      ensures forall x, e :: x in nodes && e in old(x.edges) ==> e.toNode in nodes
      ensures forall x, e :: x in nodes && e in x.edges && !(x == p.0 && e.toNode.Key() == p.1.Key()) && !(x == p.1 && e.toNode.Key() == p.0.Key()) ==>
        e.weight == old(e.weight)
      ensures var i, j := old(FirstEdgeTo(p.0.edges, p.1)).value, old(FirstEdgeTo(p.1.edges, p.0)).value;
        && i < |p.0.edges| && p.0.edges[i].toNode.Key() == p.1.Key() && p.0.edges[i].weight == p.2
        && (forall m :: 0 <= m < i ==> p.0.edges[m].toNode.Key() != p.1.Key())
        && j < |p.1.edges| && p.1.edges[j].toNode.Key() == p.0.Key() && p.1.edges[j].weight == p.2
        && (forall m :: 0 <= m < j ==> p.1.edges[m].toNode.Key() != p.0.Key())
    {
      var a, b := p.0, p.1;
      var i, j := old(FirstEdgeTo(a.edges, b)), old(FirstEdgeTo(b.edges, a));
      OldMembersClosed();
      FirstsKept((a, b));
      var ea, eb := a.edges[i.value], b.edges[j.value];
      assert forall x :: x in nodes ==> forall e :: e in x.edges ==> e.fromNode == x by {
        assert forall x :: x in nodes ==> old(x.Lockstep());
      }
      assert ea.fromNode == a && eb.fromNode == b;
      assert forall x, e :: x in nodes && e in x.edges && e != ea && e != eb ==> e.weight == old(e.weight) by {
        assert forall e :: e in OutEdges(a) + OutEdges(b) <==> e in a.edges || e in b.edges;
      }
      OthersUnchanged((nodes, a, b, ea, eb));
    }

    /** In a valid graph whose members kept their lists, data and names, the
        first edges between `p.0` and `p.1` are still the first ones with
        those keys. */
    twostate lemma FirstsKept(p: (Node, Node))
      requires old(Valid()) && nodes == old(nodes)
      requires p.0 in nodes && p.1 in nodes
      requires forall x :: x in nodes ==> x.edges == old(x.edges) && unchanged(x`data, x`name)
      requires old(FirstEdgeTo(p.0.edges, p.1)).Some? && old(FirstEdgeTo(p.1.edges, p.0)).Some?
      ensures var i, j := old(FirstEdgeTo(p.0.edges, p.1)).value, old(FirstEdgeTo(p.1.edges, p.0)).value;
        && i < |p.0.edges| && p.0.edges[i].toNode.Key() == p.1.Key()
        && (forall m :: 0 <= m < i ==> p.0.edges[m].toNode.Key() != p.1.Key())
        && j < |p.1.edges| && p.1.edges[j].toNode.Key() == p.0.Key()
        && (forall m :: 0 <= m < j ==> p.1.edges[m].toNode.Key() != p.0.Key())
    {
      OldMembersClosed();
      assert forall x, e :: x in nodes && e in x.edges ==> unchanged(e.toNode`data, e.toNode`name);
      FirstKept((p.0, p.1));
      FirstKept((p.1, p.0));
    }

    /** The weights between members after the first edge from `p.0` to
        `p.1`, at `p.3`, and the first edge back, at `p.4`, took the weight
        `p.2`, and no other edge of a member that matters changed: only the
        two weights between `p.0` and `p.1` differ, and both are `p.2`. */
    twostate lemma ReweightedViews(p: (Node, Node, int, nat, nat))
      requires old(UniqueMembers() && Symmetric()) && nodes == old(nodes) && p.0 in nodes && p.1 in nodes
      requires forall x :: x in nodes ==> x.edges == old(x.edges) && unchanged(x`data, x`name)
      requires forall x, e :: x in nodes && e in old(x.edges) ==> e.toNode in nodes
      requires forall x, e :: x in nodes && e in x.edges && !(x == p.0 && e.toNode.Key() == p.1.Key()) && !(x == p.1 && e.toNode.Key() == p.0.Key()) ==>
        e.weight == old(e.weight)
      requires p.3 < |p.0.edges| && p.0.edges[p.3].toNode.Key() == p.1.Key() && p.0.edges[p.3].weight == p.2
      requires forall m :: 0 <= m < p.3 ==> p.0.edges[m].toNode.Key() != p.1.Key()
      requires p.4 < |p.1.edges| && p.1.edges[p.4].toNode.Key() == p.0.Key() && p.1.edges[p.4].weight == p.2
      requires forall m :: 0 <= m < p.4 ==> p.1.edges[m].toNode.Key() != p.0.Key()
      ensures Symmetric() && UniqueMembers()
    {
      var a, b := p.0, p.1;
      Reweighted((a, b.Key(), p.2, p.3));
      Reweighted((b, a.Key(), p.2, p.4));
      forall x, k | x in nodes
        ensures WeightTo(x, k) == if (x == a && k == b.Key()) || (x == b && k == a.Key()) then Some(p.2) else old(WeightTo(x, k))
      {
        if x != a && x != b {
          KeyedFrame(x.edges);
        }
      }
      SymmetryKept((a, b, Some(p.2)));
    }

    /** No member has the key `k`. */
    ghost predicate NewKey(k: NodeKey)
      reads this`nodes, nodes`data, nodes`name
    {
      forall x :: x in nodes ==> x.Key() != k
    }

    constructor ()
      ensures nodes == [] && Valid() && UniqueMembers() && Symmetric()
    {
      nodes := [];
    }

    /** `getNodes`: a copy of the node list. */
    method GetNodes() returns (r: seq<Node>)
      ensures r == nodes
    {
      r := nodes;
    }

    /** `addNode(data)`: no check of its own; the node constructor rejects
        null data. Otherwise a fresh node named `"n" + data` is appended. */
    method AddNode(data: Option<int>) returns (r: Result<Node>)
      modifies this`nodes
      ensures data.None? ==> r == Failure(InvalidArgument(DataOrNameNull)) && nodes == old(nodes)
      ensures data.Some? ==> r.Success? && fresh(r.value) && nodes == old(nodes) + [r.value]
      ensures data.Some? ==> r.value.Key() == NodeKey(data.value, DefaultName(data))
      ensures data.Some? ==> r.value.edges == [] && r.value.neighbors == []
      ensures old(Valid()) ==> Valid()
      ensures old(Valid() && UniqueMembers() && Symmetric()) && (data.Some? ==> old(NewKey(NodeKey(data.value, DefaultName(data))))) ==>
        UniqueMembers() && Symmetric()
    {
      r := Node.CreateDefault(data);
      if r.Success? {
        WellFormedAppend(nodes, r.value);
        nodes := nodes + [r.value];
        if old(Valid() && UniqueMembers() && Symmetric() && NewKey(NodeKey(data.value, DefaultName(data)))) {
          AddKeepsSymmetric(r.value);
        }
      } else if old(Valid() && UniqueMembers() && Symmetric()) {
        ListsKeepSymmetric();
      }
    }

    /** `addNode(data, name)`: rejects null data itself, then the node
        constructor rejects a null name; otherwise a fresh node is appended. */
    method AddNodeNamed(data: Option<int>, name: Option<string>) returns (r: Result<Node>)
      modifies this`nodes
      ensures data.None? ==> r == Failure(InvalidArgument(NodeDataNull))
      ensures data.Some? && name.None? ==> r == Failure(InvalidArgument(DataOrNameNull))
      ensures r.Failure? ==> nodes == old(nodes)
      ensures r.Success? <==> data.Some? && name.Some?
      ensures r.Success? ==> fresh(r.value) && nodes == old(nodes) + [r.value]
      ensures r.Success? ==> r.value.Key() == NodeKey(data.value, name.value)
      ensures r.Success? ==> r.value.edges == [] && r.value.neighbors == []
      ensures old(Valid()) ==> Valid()
      ensures old(Valid() && UniqueMembers() && Symmetric()) && (r.Success? ==> old(NewKey(NodeKey(data.value, name.value)))) ==>
        UniqueMembers() && Symmetric()
    {
      if data.None? {
        if old(Valid() && UniqueMembers() && Symmetric()) {
          ListsKeepSymmetric();
        }
        return Failure(InvalidArgument(NodeDataNull));
      }
      r := Node.Create(data, name);
      if r.Success? {
        WellFormedAppend(nodes, r.value);
        nodes := nodes + [r.value];
        if old(Valid() && UniqueMembers() && Symmetric() && NewKey(NodeKey(data.value, name.value))) {
          AddKeepsSymmetric(r.value);
        }
      } else if old(Valid() && UniqueMembers() && Symmetric()) {
        ListsKeepSymmetric();
      }
    }

    /** `connect(node1, node2, weight)`: after the membership check,
        `node1.connect(node2)` and then `node2.connect(node1)`. The two steps
        are not atomic: when the second is refused, the first stays applied,
        and a self-loop `connect(a, a)` always ends that way. */
    method Connect(node1: Node?, node2: Node?, weight: int) returns (r: Outcome)
      modifies Just(node1)`edges, Just(node1)`neighbors, Just(node2)`edges, Just(node2)`neighbors
      ensures var m := old(Validate(nodes, node1, node2));
        m.Some? ==> r == Fail(InvalidArgument(m.value)) && ListsKept(node1) && ListsKept(node2)
      ensures old(Validate(nodes, node1, node2)).None? && old(Contains(node1.neighbors, node2)) ==>
        r == Fail(InvalidArgument(AlreadyConnected)) && ListsKept(node1) && ListsKept(node2)
      ensures old(Validate(nodes, node1, node2)).None? && !old(Contains(node1.neighbors, node2)) ==>
        EdgeAppended(node1, node2, weight)
      ensures old(Validate(nodes, node1, node2)).None? && !old(Contains(node1.neighbors, node2)) && node1 == node2 ==>
        r == Fail(InvalidArgument(AlreadyConnected))
      ensures old(Validate(nodes, node1, node2)).None? && !old(Contains(node1.neighbors, node2)) && node1 != node2 ==>
        && (r.Pass? <==> !old(Contains(node2.neighbors, node1)))
        && (r.Pass? ==> EdgeAppended(node2, node1, weight))
        && (r.Fail? ==> r == Fail(InvalidArgument(AlreadyConnected)) && ListsKept(node2))
      ensures old(Valid()) && node1 in old(nodes) && node2 in old(nodes) ==> Valid()
      ensures old(Valid() && UniqueMembers() && Symmetric()) && node1 in old(nodes) && node2 in old(nodes) ==>
        && UniqueMembers() && Symmetric()
        && (node1 != node2 ==> (r.Pass? <==> !old(Contains(node1.neighbors, node2))))
    {
      var m := Validate(nodes, node1, node2);
      if m.Some? {
        return Fail(InvalidArgument(m.value));
      }
      ghost var sym := Valid() && UniqueMembers() && Symmetric() && node1 in nodes && node2 in nodes;
      if sym {
        assert (Contains(node1.neighbors, node2) <==> Contains(node2.neighbors, node1))
          && (Contains(node1.neighbors, node2) <==> WeightTo(node1, node2.Key()).Some?) by {
          Mirrored(node1, node2);
          Linked(node1, node2);
        }
      }
      r := ConnectPair(node1, node2, weight);
      if sym {
        assert UniqueMembers() && Symmetric() by {
          if !old(Contains(node1.neighbors, node2)) {
            AppendKeepsSymmetric((node1, node2, weight));
          } else {
            ListsKeepSymmetric();
          }
        }
      }
    }

    /** The two steps of `connect` on two nodes that passed the membership
        check: `node1.connect(node2)` and, only when it succeeds,
        `node2.connect(node1)`. */
    method ConnectPair(node1: Node, node2: Node, weight: int) returns (r: Outcome)
      modifies node1`edges, node1`neighbors, node2`edges, node2`neighbors
      ensures old(Contains(node1.neighbors, node2)) ==>
        r == Fail(InvalidArgument(AlreadyConnected)) && ListsKept(node1) && ListsKept(node2)
      ensures !old(Contains(node1.neighbors, node2)) ==> EdgeAppended(node1, node2, weight)
      ensures !old(Contains(node1.neighbors, node2)) && node1 == node2 ==> r == Fail(InvalidArgument(AlreadyConnected))
      ensures !old(Contains(node1.neighbors, node2)) && node1 != node2 ==>
        && (r.Pass? <==> !old(Contains(node2.neighbors, node1)))
        && (r.Pass? ==> EdgeAppended(node2, node1, weight))
        && (r.Fail? ==> r == Fail(InvalidArgument(AlreadyConnected)) && ListsKept(node2))
      ensures old(Valid()) && node1 in old(nodes) && node2 in old(nodes) ==> Valid()
    {
      r := node1.Connect(node2, weight);
      if r.Pass? {
        assert node1.neighbors[|node1.neighbors| - 1] == node2;
        r := node2.Connect(node1, weight);
      }
      if old(Valid()) && node1 in nodes && node2 in nodes {
        OwnListsKeepValid({node1, node2});
      }
    }

    /** `connect(node1, node2)`: `connect` with the default weight 1. */
    method ConnectUnit(node1: Node?, node2: Node?) returns (r: Outcome)
      modifies Just(node1)`edges, Just(node1)`neighbors, Just(node2)`edges, Just(node2)`neighbors
      ensures var m := old(Validate(nodes, node1, node2));
        m.Some? ==> r == Fail(InvalidArgument(m.value)) && ListsKept(node1) && ListsKept(node2)
      ensures old(Validate(nodes, node1, node2)).None? && old(Contains(node1.neighbors, node2)) ==>
        r == Fail(InvalidArgument(AlreadyConnected)) && ListsKept(node1) && ListsKept(node2)
      ensures old(Validate(nodes, node1, node2)).None? && !old(Contains(node1.neighbors, node2)) ==>
        EdgeAppended(node1, node2, 1)
      ensures old(Validate(nodes, node1, node2)).None? && !old(Contains(node1.neighbors, node2)) && node1 == node2 ==>
        r == Fail(InvalidArgument(AlreadyConnected))
      ensures old(Validate(nodes, node1, node2)).None? && !old(Contains(node1.neighbors, node2)) && node1 != node2 ==>
        && (r.Pass? <==> !old(Contains(node2.neighbors, node1)))
        && (r.Pass? ==> EdgeAppended(node2, node1, 1))
        && (r.Fail? ==> r == Fail(InvalidArgument(AlreadyConnected)) && ListsKept(node2))
      ensures old(Valid()) && node1 in old(nodes) && node2 in old(nodes) ==> Valid()
      ensures old(Valid() && UniqueMembers() && Symmetric()) && node1 in old(nodes) && node2 in old(nodes) ==>
        && UniqueMembers() && Symmetric()
        && (node1 != node2 ==> (r.Pass? <==> !old(Contains(node1.neighbors, node2))))
    {
      r := Connect(node1, node2, 1);
    }

    /** `disconnect(node1, node2)`: after the membership check,
        `node1.disconnect(node2)` and then `node2.disconnect(node1)`, again not
        atomic. For a self-loop `disconnect(a, a)` the second step looks for
        `a` among what the first left, so with pairwise unequal neighbours it
        is refused after the first has been applied. */
    method Disconnect(node1: Node?, node2: Node?) returns (r: Outcome)
      modifies Just(node1)`edges, Just(node1)`neighbors, Just(node2)`edges, Just(node2)`neighbors
      ensures var m := old(Validate(nodes, node1, node2));
        m.Some? ==> r == Fail(InvalidArgument(m.value)) && ListsKept(node1) && ListsKept(node2)
      ensures old(Validate(nodes, node1, node2)).None? && !old(Contains(node1.neighbors, node2)) ==>
        r == Fail(InvalidArgument(NotConnected)) && ListsKept(node1) && ListsKept(node2)
      ensures old(Validate(nodes, node1, node2)).None? && old(Contains(node1.neighbors, node2)) && node1 != node2 ==>
        && EdgesRemoved(node1, node2)
        && (r.Pass? <==> old(Contains(node2.neighbors, node1)))
        && (r.Pass? ==> EdgesRemoved(node2, node1))
        && (r.Fail? ==> r == Fail(InvalidArgument(NotConnected)) && ListsKept(node2))
      ensures old(Validate(nodes, node1, node2)).None? && old(Contains(node1.neighbors, node2)) && node1 == node2 ==>
        && (r.Pass? <==> old(Contains(RemoveFirst(node1.neighbors, node1), node1)))
        && (r.Fail? ==> r == Fail(InvalidArgument(NotConnected)) && EdgesRemoved(node1, node1))
        && (r.Pass? ==> RemovedTwice(node1))
      ensures old(Validate(nodes, node1, node2)).None? && node1 == node2 && old(node1.DistinctNeighbors()) ==> r.Fail?
      ensures old(Valid()) && node1 in old(nodes) && node2 in old(nodes) ==>
        old(node1.DistinctNeighbors() && node2.DistinctNeighbors()) ==> Valid()
      ensures old(Valid() && UniqueMembers() && Symmetric()) && node1 in old(nodes) && node2 in old(nodes) ==>
        && UniqueMembers() && Symmetric()
        && (node1 != node2 ==> (r.Pass? <==> old(Contains(node1.neighbors, node2))))
    {
      var m := Validate(nodes, node1, node2);
      if m.Some? {
        return Fail(InvalidArgument(m.value));
      }
      ghost var sym := Valid() && UniqueMembers() && Symmetric() && node1 in nodes && node2 in nodes;
      if sym {
        assert Contains(node1.neighbors, node2) <==> Contains(node2.neighbors, node1) by {
          Mirrored(node1, node2);
        }
      }
      if node1 == node2 {
        r := DisconnectSelf(node1);
      } else {
        r := DisconnectPair(node1, node2);
      }
      if sym {
        assert UniqueMembers() && Symmetric() by {
          if !old(Contains(node1.neighbors, node2)) {
            ListsKeepSymmetric();
          } else {
            RemoveKeepsSymmetric((node1, node2));
          }
        }
      }
    }

    /** `disconnect(node1, node2)` on two distinct node objects: the first
        step, and only when it succeeds, the second. */
    method DisconnectPair(node1: Node, node2: Node) returns (r: Outcome)
      requires node1 != node2
      modifies node1`edges, node1`neighbors, node2`edges, node2`neighbors
      ensures !old(Contains(node1.neighbors, node2)) ==>
        r == Fail(InvalidArgument(NotConnected)) && ListsKept(node1) && ListsKept(node2)
      ensures old(Contains(node1.neighbors, node2)) ==>
        && EdgesRemoved(node1, node2)
        && (r.Pass? <==> old(Contains(node2.neighbors, node1)))
        && (r.Pass? ==> EdgesRemoved(node2, node1))
        && (r.Fail? ==> r == Fail(InvalidArgument(NotConnected)) && ListsKept(node2))
      ensures old(Valid()) && node1 in old(nodes) && node2 in old(nodes) ==>
        old(node1.DistinctNeighbors() && node2.DistinctNeighbors()) ==> Valid()
      ensures forall x: Node :: old(allocated(x)) ==> x.data == old(x.data) && x.name == old(x.name)
      ensures forall x :: x in nodes && x != node1 && x != node2 ==> x.edges == old(x.edges)
      ensures forall e: Edge :: old(allocated(e)) ==> e.weight == old(e.weight)
    {
      ghost var k1 := node1.Key();
      ghost var E2, N2 := node2.edges, node2.neighbors;
      ContainsKey(N2, node1);
      r := DisconnectSide(node1, node2);
      if r.Fail? {
        return;
      }
      assert node2.edges == E2 && node2.neighbors == N2;
      KeysFrame(Targets(E2));
      KeysFrame(N2);
      assert Contains(N2, node1) == old(Contains(N2, node1)) by {
        ContainsKey(N2, node1);
      }
      assert node2.DistinctNeighbors() == old(node2.DistinctNeighbors());
      r := DisconnectSide(node2, node1);
      if r.Pass? {
        assert node2.edges == Without(E2, old(KeysOf(Targets(E2))), k1);
        assert node2.neighbors == DropFirst(N2, old(KeysOf(N2)), k1);
      }
    }

    /** `disconnect(node, node)`: both steps act on the lists of `node`, so
        the second looks for `node` among what the first left. */
    method DisconnectSelf(node: Node) returns (r: Outcome)
      modifies node`edges, node`neighbors
      ensures !old(Contains(node.neighbors, node)) ==> r == Fail(InvalidArgument(NotConnected)) && ListsKept(node)
      ensures old(Contains(node.neighbors, node)) ==>
        && (r.Pass? <==> old(Contains(RemoveFirst(node.neighbors, node), node)))
        && (r.Fail? ==> r == Fail(InvalidArgument(NotConnected)) && EdgesRemoved(node, node))
        && (r.Pass? ==> RemovedTwice(node))
      ensures old(node.DistinctNeighbors()) ==> r.Fail?
      ensures old(Valid()) && node in old(nodes) && old(node.DistinctNeighbors()) ==> Valid()
      ensures forall x: Node :: old(allocated(x)) ==> x.data == old(x.data) && x.name == old(x.name)
      ensures forall x :: x in nodes && x != node ==> x.edges == old(x.edges)
      ensures forall e: Edge :: old(allocated(e)) ==> e.weight == old(e.weight)
    {
      ghost var rest := RemoveFirst(node.neighbors, node);
      ghost var k, E1 := node.Key(), Without(node.edges, KeysOf(Targets(node.edges)), node.Key());
      ghost var K1, J1 := KeysOf(Targets(E1)), KeysOf(rest);
      ContainsKey(node.neighbors, node);
      ContainsKey(rest, node);
      if node.DistinctNeighbors() && Contains(node.neighbors, node) {
        RemoveFirstGone(node.neighbors, node);
      }
      r := DisconnectSide(node, node);
      if r.Fail? {
        return;
      }
      assert node.neighbors == rest;
      assert Contains(rest, node) == old(Contains(rest, node)) by {
        KeysFrame(rest);
        ContainsKey(rest, node);
      }
      assert node.edges == E1;
      assert KeysOf(Targets(E1)) == K1 by {
        KeysFrame(Targets(E1));
      }
      assert KeysOf(rest) == J1 by {
        KeysFrame(rest);
      }
      r := DisconnectSide(node, node);
      if r.Pass? {
        assert node.edges == Without(E1, K1, k) && node.neighbors == DropFirst(rest, J1, k);
      }
    }

    /** One side of `disconnect`: `a.disconnect(b)`, seen as a step on the
        graph. A refused step changes nothing; a step on a member whose
        neighbours are pairwise unequal keeps the graph valid. */
    method DisconnectSide(a: Node, b: Node) returns (r: Outcome)
      modifies a`edges, a`neighbors
      ensures r.Pass? <==> old(Contains(a.neighbors, b))
      ensures r.Fail? ==> r == Fail(InvalidArgument(NotConnected)) && a.edges == old(a.edges) && a.neighbors == old(a.neighbors)
      ensures r.Pass? ==> EdgesRemoved(a, b)
      ensures old(Valid()) && (r.Fail? || (a in nodes && old(a.DistinctNeighbors()))) ==> Valid()
      ensures forall x: Node :: old(allocated(x)) ==> x.data == old(x.data) && x.name == old(x.name)
      ensures forall x :: x in nodes && x != a ==> x.edges == old(x.edges)
      ensures forall e: Edge :: old(allocated(e)) ==> e.weight == old(e.weight)
    {
      ghost var es, ks := a.edges, KeysOf(Targets(a.edges));
      r := a.Disconnect(b);
      if old(Valid()) && r.Pass? && a in nodes && old(a.DistinctNeighbors()) {
        WithoutSubset(es, ks, b.Key());
        OwnListsKeepValid({a});
      }
    }

    /** `updateNodeData(node, newData)`: rejects null arguments and non-members,
        otherwise sets the data of the node object passed in. */
    method UpdateNodeData(node: Node?, newData: Option<int>) returns (r: Outcome)
      modifies Just(node)`data
      ensures node == null || newData.None? ==> r == Fail(InvalidArgument(NodeOrDataNull))
      ensures node != null && newData.Some? && !old(Contains(nodes, node)) ==> r == Fail(InvalidArgument(NotMember))
      ensures r.Pass? <==> node != null && newData.Some? && old(Contains(nodes, node))
      ensures r.Pass? ==> node.data == newData.value
      ensures r.Fail? && node != null ==> node.data == old(node.data)
      ensures old(Valid()) ==> Valid()
    {
      if node == null || newData.None? {
        return Fail(InvalidArgument(NodeOrDataNull));
      }
      if !Contains(nodes, node) {
        return Fail(InvalidArgument(NotMember));
      }
      r := node.SetData(newData);
    }

    /** `updateEdgeWeight(node1, node2, w)`: after the membership check, sets
        the weight of the first edge from `node1` to a node equal to `node2`,
        failing (and changing nothing) when there is none; then sets the
        weight of the first edge back from `node2` to a node equal to
        `node1`, if there is one. No other weight changes. */
    method UpdateEdgeWeight(node1: Node?, node2: Node?, weight: int) returns (r: Outcome)
      modifies OutEdges(node1)`weight, OutEdges(node2)`weight
      ensures var m := old(Validate(nodes, node1, node2)); m.Some? ==> r == Fail(InvalidArgument(m.value))
      ensures old(Validate(nodes, node1, node2)).None? && old(FirstEdgeTo(node1.edges, node2)).None? ==>
        r == Fail(InvalidArgument(EdgeMissing))
      ensures r.Pass? <==> old(Validate(nodes, node1, node2)).None? && old(FirstEdgeTo(node1.edges, node2)).Some?
      ensures r.Fail? ==> forall e :: e in OutEdges(node1) + OutEdges(node2) ==> e.weight == old(e.weight)
      ensures r.Pass? ==>
        var i, j := old(FirstEdgeTo(node1.edges, node2)).value, old(FirstEdgeTo(node2.edges, node1));
        && node1.edges[i].weight == weight
        && (j.Some? ==> node2.edges[j.value].weight == weight)
        && forall e :: e in OutEdges(node1) + OutEdges(node2) && e != node1.edges[i] && (j.None? || e != node2.edges[j.value]) ==>
             e.weight == old(e.weight)
      ensures old(Valid()) ==> Valid()
      ensures old(Valid() && UniqueMembers() && Symmetric()) && node1 in old(nodes) && node2 in old(nodes) ==>
        && UniqueMembers() && Symmetric()
        && (r.Pass? ==> old(FirstEdgeTo(node2.edges, node1)).Some?)
    {
      var m := Validate(nodes, node1, node2);
      if m.Some? {
        return Fail(InvalidArgument(m.value));
      }
      var found, back := SetWeights(node1, node2, weight);
      if found.None? {
        return Fail(InvalidArgument(EdgeMissing));
      }
      r := Pass;
    }

    /** The two loops of `updateEdgeWeight` on `node1` and `node2`, seen from
        the graph: on members of a symmetric graph they keep it symmetric, and
        when the first loop finds an edge, the second finds the edge back. */
    method SetWeights(node1: Node, node2: Node, weight: int) returns (found: Option<nat>, back: Option<nat>)
      modifies OutEdges(node1)`weight, OutEdges(node2)`weight
      ensures found == old(FirstEdgeTo(node1.edges, node2))
      ensures found.None? ==> back.None? && forall e :: e in OutEdges(node1) + OutEdges(node2) ==> e.weight == old(e.weight)
      ensures found.Some? ==>
        && back == old(FirstEdgeTo(node2.edges, node1))
        && node1.edges[found.value].weight == weight
        && (back.Some? ==> node2.edges[back.value].weight == weight)
        && forall e :: e in OutEdges(node1) + OutEdges(node2) && e != node1.edges[found.value] && (back.None? || e != node2.edges[back.value]) ==>
             e.weight == old(e.weight)
      ensures old(Valid() && UniqueMembers() && Symmetric()) && node1 in old(nodes) && node2 in old(nodes) ==>
        && UniqueMembers() && Symmetric()
        && (found.Some? ==> back.Some?)
    {
      ghost var sym := Valid() && UniqueMembers() && Symmetric() && node1 in nodes && node2 in nodes;
      if sym && FirstEdgeTo(node1.edges, node2).Some? {
        BackEdge(node1, node2);
      }
      found, back := SetBothWeights(node1, node2, weight);
      if sym {
        WeightsSetKeepSymmetric((node1, node2, weight, found, back));
      }
    }

    /** The message a two-sided `connect(from, t)` on members ends with when
        it is refused: the membership check's, or else that a neighbour is
        already there. */
    function ConnectRefusal(from: Node?, t: Node?): (m: Message)
      reads this`nodes, nodes`data, nodes`name, Just(from)`data, Just(from)`name, Just(t)`data, Just(t)`name
      ensures m == AlreadyConnected || Validate(nodes, from, t) == Some(m)
    {
      var v := Validate(nodes, from, t);
      if v.Some? then v.value else AlreadyConnected
    }

    /** One step of a batch `connect`: the two-sided `connect(from, t, w)`,
        seen from `from`, which gains the edge `e` when the first half is
        applied. */
    method ConnectNext(from: Node, t: Node?, w: int) returns (s: Outcome, ghost e: Option<Edge>)
      modifies from`edges, from`neighbors, Just(t)`edges, Just(t)`neighbors
      ensures e.None? ==> s.Fail? && from.edges == old(from.edges) && from.neighbors == old(from.neighbors)
      ensures e.Some? ==>
        && from.edges == old(from.edges) + [e.value] && from.neighbors == old(from.neighbors) + [t]
        && Made(e.value, from, t, w)
      ensures s.Fail? ==> s == Fail(InvalidArgument(ConnectRefusal(from, t)))
      ensures e.Some? <==> old(Admits(nodes, from.neighbors, from, t))
      ensures s.Pass? <==> old(Admits(nodes, from.neighbors, from, t)) && t != from && !old(Contains(t.neighbors, from))
    {
      var n := |from.edges|;
      s := Connect(from, t, w);
      e := if |from.edges| > n then Some(from.edges[n]) else None;
    }

    /** `connect(from, toNodes, weights)` inherited from `Graph`: the up-front
        check, then the two-sided `connect` of each target with its weight,
        in order. The first refused step ends the batch with its error; the
        steps before it stay applied, and so does the first half of the
        refused step when only its second half was refused. `added` holds
        the edges the applied steps appended to `from`, `half` the edge of
        such a first half. */
    method ConnectAll(from: Node?, toNodes: Option<seq<Node?>>, weights: Option<seq<int>>)
      returns (r: Outcome, ghost applied: nat, ghost added: seq<Edge>, ghost half: Option<Edge>)
      modifies Just(from)`edges, Just(from)`neighbors, Present(toNodes)`edges, Present(toNodes)`neighbors
      ensures !Batch(from, toNodes, weights) ==> r == Fail(InvalidArgument(InvalidNodesOrWeights)) && applied == 0
      ensures !Batch(from, toNodes, weights) ==> ListsKept(from) && forall t :: t in Present(toNodes) ==> ListsKept(t)
      ensures Batch(from, toNodes, weights) ==>
        && applied == |added| <= |toNodes.value| && (r.Pass? <==> applied == |toNodes.value|)
        && (half.Some? ==> r.Fail?)
        && from.edges == old(from.edges) + added + Opt(half)
        && from.neighbors == old(from.neighbors) + toNodes.value[..applied] + (if half.Some? then [toNodes.value[applied]] else [])
        && (forall j :: 0 <= j < applied ==> toNodes.value[j] != null && Made(added[j], from, toNodes.value[j], weights.value[j]))
        && (forall j :: 0 <= j < applied ==> Joins(toNodes.value, j, from))
      ensures Batch(from, toNodes, weights) && r.Fail? ==>
        && r == Fail(InvalidArgument(ConnectRefusal(from, toNodes.value[applied])))
        && (half.Some? <==> old(Admits(nodes, from.neighbors + toNodes.value[..applied], from, toNodes.value[applied])))
        && (half.Some? ==> Made(half.value, from, toNodes.value[applied], weights.value[applied]))
        && !Joins(toNodes.value, applied, from)
    {
      if from == null || toNodes.None? || weights.None? || |toNodes.value| != |weights.value| {
        return Fail(InvalidArgument(InvalidNodesOrWeights)), 0, [], None;
      }
      r, applied, added, half := ConnectEach(from, toNodes.value, weights.value);
    }

    /** `connect(from, toNodes)` inherited from `Graph`: the up-front check,
        then the two-sided `connect` of each target with weight 1, in order,
        ending at the first refused step as the weighted batch does. */
    method ConnectAllUnit(from: Node?, toNodes: Option<seq<Node?>>)
      returns (r: Outcome, ghost applied: nat, ghost added: seq<Edge>, ghost half: Option<Edge>)
      modifies Just(from)`edges, Just(from)`neighbors, Present(toNodes)`edges, Present(toNodes)`neighbors
      ensures from == null || toNodes.None? ==> r == Fail(InvalidArgument(InvalidNodes)) && applied == 0
      ensures from == null || toNodes.None? ==> ListsKept(from) && forall t :: t in Present(toNodes) ==> ListsKept(t)
      ensures from != null && toNodes.Some? ==>
        && applied == |added| <= |toNodes.value| && (r.Pass? <==> applied == |toNodes.value|)
        && (half.Some? ==> r.Fail?)
        && from.edges == old(from.edges) + added + Opt(half)
        && from.neighbors == old(from.neighbors) + toNodes.value[..applied] + (if half.Some? then [toNodes.value[applied]] else [])
        && (forall j :: 0 <= j < applied ==> toNodes.value[j] != null && Made(added[j], from, toNodes.value[j], 1))
        && (forall j :: 0 <= j < applied ==> Joins(toNodes.value, j, from))
      ensures from != null && toNodes.Some? && r.Fail? ==>
        && r == Fail(InvalidArgument(ConnectRefusal(from, toNodes.value[applied])))
        && (half.Some? <==> old(Admits(nodes, from.neighbors + toNodes.value[..applied], from, toNodes.value[applied])))
        && (half.Some? ==> Made(half.value, from, toNodes.value[applied], 1))
        && !Joins(toNodes.value, applied, from)
    {
      if from == null || toNodes.None? {
        return Fail(InvalidArgument(InvalidNodes)), 0, [], None;
      }
      r, applied, added, half := ConnectEach(from, toNodes.value, seq(|toNodes.value|, _ => 1));
    }

    /** The loop of both batch `connect`s: the two-sided `connect` of each
        `ts[j]` with weight `ws[j]`, in order, until one is refused. */
    method ConnectEach(from: Node, ts: seq<Node?>, ws: seq<int>)
      returns (r: Outcome, ghost applied: nat, ghost added: seq<Edge>, ghost half: Option<Edge>)
      requires |ts| == |ws|
      modifies from`edges, from`neighbors, ts`edges, ts`neighbors
      ensures applied == |added| <= |ts| && (r.Pass? <==> applied == |ts|) && (half.Some? ==> r.Fail?)
      ensures from.edges == old(from.edges) + added + Opt(half)
      ensures from.neighbors == old(from.neighbors) + ts[..applied] + (if half.Some? then [ts[applied]] else [])
      ensures forall j :: 0 <= j < applied ==> ts[j] != null && Made(added[j], from, ts[j], ws[j])
      ensures forall j :: 0 <= j < applied ==> Joins(ts, j, from)
      ensures r.Fail? ==>
        && r == Fail(InvalidArgument(ConnectRefusal(from, ts[applied])))
        && (half.Some? <==> old(Admits(nodes, from.neighbors + ts[..applied], from, ts[applied])))
        && (half.Some? ==> Made(half.value, from, ts[applied], ws[applied]))
        && !Joins(ts, applied, from)
    {
      r, added, half := Pass, [], None;
      ghost var E0, N0 := from.edges, from.neighbors;
      var i := 0;
      while i < |ts|
        invariant i <= |ts| && |added| == i && r == Pass
        invariant from.edges == E0 + added
        invariant from.neighbors == N0 + ts[..i]
        invariant forall j :: 0 <= j < i ==> ts[j] != null && Made(added[j], from, ts[j], ws[j])
        invariant forall j :: 0 <= j < i ==> Joins(ts, j, from)
        invariant forall k :: i <= k < |ts| && Unmet(from, ts, k, i) ==> ts[k].neighbors == old(ts[k].neighbors)
      {
        StepJudged((from, ts, i));
        var s, e := ConnectNext(from, ts[i], ws[i]);
        if s.Fail? {
          r, half := s, e;
          break;
        }
        added := added + [e.value];
        i := i + 1;
      }
      applied := i;
    }

    /** Step `i` of a batch `connect(from, ts, ...)`, judged where it starts:
        the edges and neighbour lists the steps before it changed do not
        alter whether its first half is admitted, nor, when it is, whether
        `ts[i]` lists a node equal to `from`. */
    twostate lemma StepJudged(p: (Node, seq<Node?>, nat))
      requires p.2 < |p.1| && forall j :: 0 <= j < p.2 ==> p.1[j] != null
      requires p.0.neighbors == old(p.0.neighbors) + p.1[..p.2]
      requires unchanged(this`nodes) && forall n: Node :: old(allocated(n)) ==> n.data == old(n.data) && n.name == old(n.name)
      requires var t := p.1[p.2]; t != null && t != p.0 && (forall m :: 0 <= m < p.2 ==> p.1[m] != t) ==> t.neighbors == old(t.neighbors)
      ensures Admits(nodes, p.0.neighbors, p.0, p.1[p.2]) == old(Admits(nodes, p.0.neighbors + p.1[..p.2], p.0, p.1[p.2]))
      ensures var t := p.1[p.2];
        Joins(p.1, p.2, p.0) <==> Admits(nodes, p.0.neighbors, p.0, t) && t != p.0 && !Contains(t.neighbors, p.0)
    {
      var (from, ts, i) := p;
      var t := ts[i];
      if Admits(nodes, from.neighbors, from, t) && t != from {
        forall m | 0 <= m < i ensures ts[m] != t {
          assert from.neighbors[|old(from.neighbors)| + m] == ts[m];
        }
      }
    }

    /** Step `j` of a batch `connect(from, ts, ...)` is applied in full, as
        judged in the state before the batch: its first half is admitted
        after the steps before it, and `ts[j]` is another node that did not
        list a node equal to `from`. */
    twostate predicate Joins(ts: seq<Node?>, j: nat, from: Node)
      requires j < |ts| && forall m :: 0 <= m < j ==> ts[m] != null
      reads this
    {
      && ts[j] != null && ts[j] != from
      && old(Admits(nodes, from.neighbors + ts[..j], from, ts[j]))
      && !old(Contains(ts[j].neighbors, from))
    }

    /** The message a two-sided `disconnect(from, t)` ends with when it is
        refused: the membership check's, or else that a neighbour is missing. */
    function DisconnectRefusal(from: Node?, t: Node?): (m: Message)
      reads this`nodes, nodes`data, nodes`name, Just(from)`data, Just(from)`name, Just(t)`data, Just(t)`name
      ensures m == NotConnected || Validate(nodes, from, t) == Some(m)
    {
      var v := Validate(nodes, from, t);
      if v.Some? then v.value else NotConnected
    }

    /** The first half of `disconnect` from a node with key `f` to one with
        key `k` passes when the members' keys are `M` and the keys of the
        first node's neighbours are `J`: both are members, and `k` is among
        `J`. */
    static predicate FirstHalf(M: seq<NodeKey>, f: NodeKey, k: NodeKey, J: seq<NodeKey>) {
      f in M && k in M && k in J
    }

    /** One step of a batch `disconnect`: the two-sided `disconnect(from, t)`
        once the keys `R` have been removed from the original lists `E0` and
        `N0` of `from`, whose keys are `K0` and `J0`. `R1` adds the keys this
        step removed from `from`: none when the first half is refused, the
        key of `t` once, or twice for a self-loop whose second half also
        found `t`. In a symmetric graph a step between two members other
        than a self-loop is refused only at its first half. */
    method DisconnectNext(from: Node, t: Node?, ghost E0: seq<Edge>, ghost K0: seq<NodeKey>, ghost N0: seq<Node>,
                          ghost J0: seq<NodeKey>, ghost R: seq<NodeKey>, ghost M: seq<NodeKey>, ghost f: NodeKey,
                          ghost kt: Option<NodeKey>)
      returns (s: Outcome, ghost R1: seq<NodeKey>)
      modifies from`edges, from`neighbors, Just(t)`edges, Just(t)`neighbors
      requires K0 == KeysOf(Targets(E0)) && J0 == KeysOf(N0) && M == KeysOf(nodes)
      requires f == from.Key() && kt == if t == null then None else Some(t.Key())
      requires from.edges == Keep(E0, K0, R) && from.neighbors == DropEach(N0, J0, R).0
      ensures from.edges == Keep(E0, K0, R1) && from.neighbors == DropEach(N0, J0, R1).0
      ensures R1 == R <==> kt.None? || !FirstHalf(M, f, kt.value, DropEach(N0, J0, R).1)
      ensures R1 != R ==> kt.Some? && R1 == R + (if s.Pass? && t == from then [kt.value, kt.value] else [kt.value])
      ensures t == from && R1 != R ==> (s.Pass? <==> f in DropEach(N0, J0, R + [f]).1)
      ensures s.Pass? ==> R1 != R
      ensures s.Fail? ==> s == Fail(InvalidArgument(DisconnectRefusal(from, t)))
      ensures t != null && t != from && R1 != R ==> (s.Pass? <==> old(Contains(t.neighbors, from)))
    {
      ghost var k := if kt.None? then f else kt.value;
      ghost var Ra := R + [k];
      ghost var Rb := R + [k, k];
      assert Rb == Ra + [k];
      RemoveNext(E0, N0, R, k);
      RemoveNext(E0, N0, Ra, k);
      ghost var n;
      s, n := DisconnectStep(from, t);
      if n == 0 {
        R1 := R;
      } else {
        R1 := if n == 1 then Ra else Rb;
      }
    }

    /** One more key `k` removed from the lists that removing `R` left of
        `E0` and `N0`, as the two-sided `disconnect` removes it. */
    static lemma RemoveNext(E0: seq<Edge>, N0: seq<Node>, R: seq<NodeKey>, k: NodeKey)
      ensures var K0, J0 := KeysOf(Targets(E0)), KeysOf(N0);
        var E, p := Keep(E0, K0, R), DropEach(N0, J0, R);
        && KeysOf(p.0) == p.1
        && Without(E, KeysOf(Targets(E)), k) == Keep(E0, K0, R + [k])
        && DropFirst(p.0, p.1, k) == DropEach(N0, J0, R + [k]).0
        && DropFirst(p.1, p.1, k) == DropEach(N0, J0, R + [k]).1
    {
      KeysFacts(E0, N0, R);
      KeepThenWithout(E0, KeysOf(Targets(E0)), R, k);
      assert (R + [k])[..|R|] == R;
    }

    /** The keys of what `Keep` and `DropEach` leave of `E0` and `N0`. */
    static lemma KeysFacts(E0: seq<Edge>, N0: seq<Node>, R: seq<NodeKey>)
      ensures KeysOf(Targets(Keep(E0, KeysOf(Targets(E0)), R))) == Keep(KeysOf(Targets(E0)), KeysOf(Targets(E0)), R)
      ensures KeysOf(DropEach(N0, KeysOf(N0), R).0) == DropEach(N0, KeysOf(N0), R).1
    {
      KeepKeys(E0, R);
      DropEachKeys(N0, R);
    }

    /** The two-sided `disconnect(from, t)`, seen from `from`: `n` counts the
        removals applied to `from`'s lists. None are applied exactly when the
        first half is refused; a self-loop's second half then passes exactly
        when `from` still lists itself after the first removal. */
    method DisconnectStep(from: Node, t: Node?) returns (s: Outcome, ghost n: nat)
      modifies from`edges, from`neighbors, Just(t)`edges, Just(t)`neighbors
      ensures n == 0 <==> t == null || !FirstHalf(old(KeysOf(nodes)), old(from.Key()), old(t.Key()), old(KeysOf(from.neighbors)))
      ensures n == 0 ==> s.Fail? && ListsKept(from)
      ensures n == 1 ==> t != null && EdgesRemoved(from, t)
      ensures n == 2 ==> t == from && RemovedTwice(from)
      ensures n <= 2 && (n > 1 <==> s.Pass? && t == from)
      ensures t == from && n > 0 ==>
        var J := old(KeysOf(from.neighbors));
        (s.Pass? <==> old(from.Key()) in DropFirst(J, J, old(from.Key())))
      ensures s.Pass? ==> t != null && n > 0
      ensures t != null && t != from && n > 0 ==> (s.Pass? <==> old(Contains(t.neighbors, from)))
      ensures s.Fail? ==> s == Fail(InvalidArgument(DisconnectRefusal(from, t)))
    {
      ghost var first := t != null && Validate(nodes, from, t).None? && Contains(from.neighbors, t);
      assert first <==> t != null && FirstHalf(KeysOf(nodes), from.Key(), t.Key(), KeysOf(from.neighbors)) by {
        ContainsKey(nodes, from);
        if t != null {
          ContainsKey(nodes, t);
          ContainsKey(from.neighbors, t);
        }
      }
      if t == from {
        assert Contains(RemoveFirst(from.neighbors, from), from) <==> from.Key() in DropFirst(KeysOf(from.neighbors), KeysOf(from.neighbors), from.Key()) by {
          ContainsKey(RemoveFirst(from.neighbors, from), from);
          DropFirstKeys(from.neighbors, from.Key());
        }
      }
      ghost var back := t != null && Contains(t.neighbors, from);
      s := Disconnect(from, t);
      assert first && t != from ==> (s.Pass? <==> back);
      assert DisconnectRefusal(from, t) == old(DisconnectRefusal(from, t)) by {
        assert unchanged(this`nodes, nodes`data, nodes`name, Just(from)`data, Just(from)`name, Just(t)`data, Just(t)`name);
      }
      if !first {
        n := 0;
      } else if s.Pass? && t == from {
        n := 2;
      } else {
        n := 1;
      }
    }

    /** The neighbours of the targets of a batch, as a frame. */
    static ghost function NeighborsOfAll(ts: seq<Node?>): (L: set<Node>)
      reads Present(Some(ts))
      ensures forall j, n :: 0 <= j < |ts| && ts[j] != null && n in ts[j].neighbors ==> n in L
    {
      set t, n | t in Present(Some(ts)) && n in t.neighbors :: n
    }

    /** Whether each target of a batch lists a node equal to `from`. */
    static ghost function BackLinks(from: Node, ts: seq<Node?>): (bs: seq<bool>)
      reads from, Present(Some(ts)), NeighborsOfAll(ts)
      ensures |bs| == |ts| && forall j :: 0 <= j < |ts| ==> bs[j] == (ts[j] != null && Contains(ts[j].neighbors, from))
    {
      seq(|ts|, j requires 0 <= j < |ts| reads from, Present(Some(ts)), NeighborsOfAll(ts) => ts[j] != null && Contains(ts[j].neighbors, from))
    }

    /** Step `j` of a batch `disconnect(from, ts)` was applied, where `from`
        has key `f` and neighbours `N0` with keys `J0`, among members with
        keys `M`, and `marks[j]` keys had been removed before it: it passed
        its first half on the keys those left and removed one key, and for a
        self-loop found it again among the keys the first removal left and
        removed it a second time. */
    static ghost predicate StepUnlinked(from: Node, f: NodeKey, ts: seq<Node?>, ks: seq<Option<NodeKey>>, bs: seq<bool>, j: nat, N0: seq<Node>,
                                        J0: seq<NodeKey>, M: seq<NodeKey>, removed: seq<NodeKey>, marks: seq<nat>)
      requires |J0| == |N0| && j < |ts| == |ks| == |bs|
    {
      var t := ts[j];
      && j + 1 < |marks| && marks[j + 1] <= |removed|
      && t != null && marks[j + 1] == marks[j] + (if t == from then 2 else 1)
      && marks[j] < |removed| && ks[j] == Some(removed[marks[j]])
      && (Unmet(from, ts, j, j) ==> bs[j])
      && FirstHalf(M, f, removed[marks[j]], DropEach(N0, J0, removed[..marks[j]]).1)
      && (t == from ==> removed[marks[j] + 1] == f && f in DropEach(N0, J0, removed[..marks[j] + 1]).1)
    }

    /** The `n` applied steps of a batch `disconnect(from, ts)`, `marks[j]`
        counting the keys removed before step `j`. */
    static ghost predicate Unlinked(from: Node, f: NodeKey, ts: seq<Node?>, ks: seq<Option<NodeKey>>, bs: seq<bool>, n: nat, N0: seq<Node>,
                                    J0: seq<NodeKey>, M: seq<NodeKey>, removed: seq<NodeKey>, marks: seq<nat>)
      requires |J0| == |N0| && |ts| == |ks| == |bs|
    {
      && n <= |ts| && |marks| == n + 1 && marks[0] == 0
      && (forall j :: 0 <= j <= n ==> marks[j] <= |removed|)
      && forall j :: 0 <= j < n ==> StepUnlinked(from, f, ts, ks, bs, j, N0, J0, M, removed, marks)
    }

    /** An applied step stays applied when further keys are removed after it
        and further marks are recorded. */
    static lemma StepKept(from: Node, f: NodeKey, ts: seq<Node?>, ks: seq<Option<NodeKey>>, bs: seq<bool>, j: nat, N0: seq<Node>, J0: seq<NodeKey>,
                          M: seq<NodeKey>, R: seq<NodeKey>, marks: seq<nat>, X: seq<NodeKey>, Y: seq<nat>)
      requires |J0| == |N0| && j < |ts| == |ks| == |bs| && StepUnlinked(from, f, ts, ks, bs, j, N0, J0, M, R, marks)
      ensures StepUnlinked(from, f, ts, ks, bs, j, N0, J0, M, R + X, marks + Y)
      ensures (R + X)[marks[j]] == R[marks[j]]
    {
      var marks' := marks + Y;
      assert marks'[j] == marks[j] && marks'[j + 1] == marks[j + 1];
      AppendPrefix(R, X, marks[j]);
      if ts[j] == from {
        AppendPrefix(R, X, marks[j] + 1);
      }
    }

    /** The applied steps stay applied when further keys are removed after
        them: the refused step's first half, if it passed. */
    static lemma UnlinkedKept(from: Node, f: NodeKey, ts: seq<Node?>, ks: seq<Option<NodeKey>>, bs: seq<bool>, n: nat, N0: seq<Node>,
                              J0: seq<NodeKey>, M: seq<NodeKey>, R: seq<NodeKey>, marks: seq<nat>, X: seq<NodeKey>)
      requires |J0| == |N0| && |ts| == |ks| == |bs| && Unlinked(from, f, ts, ks, bs, n, N0, J0, M, R, marks)
      ensures Unlinked(from, f, ts, ks, bs, n, N0, J0, M, R + X, marks)
    {
      forall j | 0 <= j < n
        ensures StepUnlinked(from, f, ts, ks, bs, j, N0, J0, M, R + X, marks)
      {
        StepKept(from, f, ts, ks, bs, j, N0, J0, M, R, marks, X, []);
        assert marks + [] == marks;
      }
    }

    /** Step `i` of a batch `disconnect` applied, removing the key `k` once
        or, for a self-loop, twice: the applied steps grow by one. */
    static lemma UnlinkStep(from: Node, f: NodeKey, ts: seq<Node?>, ks: seq<Option<NodeKey>>, bs: seq<bool>, i: nat, N0: seq<Node>,
                            J0: seq<NodeKey>, M: seq<NodeKey>, R: seq<NodeKey>, marks: seq<nat>, k: NodeKey, X: seq<NodeKey>)
      requires |J0| == |N0| && i < |ts| == |ks| == |bs| && Unlinked(from, f, ts, ks, bs, i, N0, J0, M, R, marks) && marks[i] == |R|
      requires Unmet(from, ts, i, i) ==> bs[i]
      requires ts[i] != null && ks[i] == Some(k) && FirstHalf(M, f, k, DropEach(N0, J0, R).1)
      requires X == (if ts[i] == from then [k, k] else [k])
      requires ts[i] == from ==> k == f && f in DropEach(N0, J0, R + [f]).1
      ensures Unlinked(from, f, ts, ks, bs, i + 1, N0, J0, M, R + X, marks + [|R + X|])
    {
      var R1, marks' := R + X, marks + [|R + X|];
      forall j | 0 <= j <= i + 1 ensures marks'[j] <= |R1| {
        if j <= i {
          assert marks'[j] == marks[j];
        }
      }
      forall j | 0 <= j < i
        ensures StepUnlinked(from, f, ts, ks, bs, j, N0, J0, M, R1, marks')
      {
        StepKept(from, f, ts, ks, bs, j, N0, J0, M, R, marks, X, [|R1|]);
      }
      assert R1[..|R|] == R && R1[|R|] == k;
      if ts[i] == from {
        assert R1[..|R| + 1] == R + [k];
      }
      assert StepUnlinked(from, f, ts, ks, bs, i, N0, J0, M, R1, marks');
    }

    /** Entry `k` of a batch's targets is a node other than `from` that no
        entry before `i` names: no step before `i` has touched its lists. */
    static predicate Unmet(from: Node, ts: seq<Node?>, k: nat, i: nat)
      requires k < |ts| && i <= |ts|
    {
      ts[k] != null && ts[k] != from && forall m :: 0 <= m < i ==> ts[m] != ts[k]
    }

    /** A neighbour list no step has changed lists a node equal to `x`
        exactly when it did before them. */
    twostate lemma NeighborsKept(p: (Node, Node))
      requires p.0.neighbors == old(p.0.neighbors) && unchanged(p.0.neighbors`data, p.0.neighbors`name, p.1`data, p.1`name)
      ensures Contains(p.0.neighbors, p.1) == old(Contains(p.0.neighbors, p.1))
    {
    }

    /** When no node's key changed and the targets after `i` that no step
        named kept their neighbour lists, they still list `from` exactly
        when they did. */
    twostate lemma LinksKept(p: (Node, seq<Node?>, nat, seq<bool>))
      requires p.2 < |p.1| == |p.3|
      requires forall n: Node :: old(allocated(n)) ==> n.data == old(n.data) && n.name == old(n.name)
      requires forall k :: p.2 < k < |p.1| && Unmet(p.0, p.1, k, k) ==> p.1[k].neighbors == old(p.1[k].neighbors)
      requires forall k :: p.2 <= k < |p.1| && Unmet(p.0, p.1, k, k) ==> old(p.3[k] <==> Contains(p.1[k].neighbors, p.0))
      ensures forall k :: p.2 < k < |p.1| && Unmet(p.0, p.1, k, k) ==> (p.3[k] <==> Contains(p.1[k].neighbors, p.0))
    {
      var (from, ts, i, bs) := p;
      forall k | i < k < |ts| && Unmet(from, ts, k, k) ensures bs[k] <==> Contains(ts[k].neighbors, from) {
        NeighborsKept((ts[k], from));
      }
    }

    /** The refused step `i` of a batch `disconnect(from, ts)`, taken after
        `a` keys had been removed, removed one more exactly when its first
        half passed: then, for a self-loop, no neighbour equal to `from` was
        left, and a target no earlier step named did not list `from`
        (`back`). */
    static predicate Refused(from: Node, f: NodeKey, ts: seq<Node?>, ks: seq<Option<NodeKey>>, i: nat, N0: seq<Node>,
                             J0: seq<NodeKey>, M: seq<NodeKey>, removed: seq<NodeKey>, a: nat, back: bool)
      requires |J0| == |N0| && i < |ts| == |ks|
    {
      && a <= |removed| <= a + 1
      && (|removed| == a + 1 <==> ks[i].Some? && FirstHalf(M, f, ks[i].value, DropEach(N0, J0, removed[..a]).1))
      && (|removed| == a + 1 ==> ks[i] == Some(removed[a]))
      && (|removed| == a + 1 && ts[i] == from ==> f !in DropEach(N0, J0, removed).1)
      && (|removed| == a + 1 && Unmet(from, ts, i, i) ==> !back)
    }

    /** What step `i` of a batch `disconnect` leaves, from what the
        two-sided `disconnect` reports about its first half, its back half
        and a self-loop's second removal: the applied steps grow by one when
        it passes, and its refusal is recorded when it fails. */
    static lemma StepOutcome(from: Node, f: NodeKey, ts: seq<Node?>, ks: seq<Option<NodeKey>>, bs: seq<bool>, i: nat,
                             N0: seq<Node>, J0: seq<NodeKey>, M: seq<NodeKey>, R: seq<NodeKey>, marks: seq<nat>,
                             R1: seq<NodeKey>, pass: bool)
      requires |J0| == |N0| && i < |ts| == |ks| == |bs|
      requires Unlinked(from, f, ts, ks, bs, i, N0, J0, M, R, marks) && marks[i] == |R|
      requires ks[i].None? <==> ts[i] == null
      requires ts[i] == from ==> ks[i] == Some(f)
      requires R1 == R <==> ks[i].None? || !FirstHalf(M, f, ks[i].value, DropEach(N0, J0, R).1)
      requires R1 != R ==> ks[i].Some? && R1 == R + (if pass && ts[i] == from then [ks[i].value, ks[i].value] else [ks[i].value])
      requires ts[i] == from && R1 != R ==> (pass <==> f in DropEach(N0, J0, R + [f]).1)
      requires pass ==> R1 != R
      requires Unmet(from, ts, i, i) && R1 != R ==> (pass <==> bs[i])
      ensures pass ==> Unlinked(from, f, ts, ks, bs, i + 1, N0, J0, M, R1, marks + [|R1|])
      ensures !pass ==> Unlinked(from, f, ts, ks, bs, i, N0, J0, M, R1, marks) && Refused(from, f, ts, ks, i, N0, J0, M, R1, marks[i], bs[i])
    {
      if !pass {
        if R1 != R {
          UnlinkedKept(from, f, ts, ks, bs, i, N0, J0, M, R, marks, [ks[i].value]);
        }
        assert R1[..marks[i]] == R;
      } else {
        var k := ks[i].value;
        var X := if ts[i] == from then [k, k] else [k];
        UnlinkStep(from, f, ts, ks, bs, i, N0, J0, M, R, marks, k, X);
      }
    }

    /** Step `i` of a batch `disconnect(from, ts)`, once the steps before it
        removed the keys `R` from the lists `E0` and `N0` of `from`: the
        two-sided `disconnect(from, ts[i])`. `bs[i]` says whether the target
        lists `from`, when no earlier step named it. */
    method DisconnectAt(from: Node, ts: seq<Node?>, i: nat, ghost E0: seq<Edge>, ghost K0: seq<NodeKey>, ghost N0: seq<Node>,
                        ghost J0: seq<NodeKey>, ghost M: seq<NodeKey>, ghost f: NodeKey, ghost ks: seq<Option<NodeKey>>, ghost bs: seq<bool>,
                        ghost R: seq<NodeKey>, ghost marks: seq<nat>)
      returns (s: Outcome, ghost R1: seq<NodeKey>)
      modifies from`edges, from`neighbors, Just(ts[i])`edges, Just(ts[i])`neighbors
      requires i < |ts| == |ks| == |bs| && f == from.Key()
      requires K0 == KeysOf(Targets(E0)) && J0 == KeysOf(N0) && M == KeysOf(nodes)
      requires from.edges == Keep(E0, K0, R) && from.neighbors == DropEach(N0, J0, R).0
      requires Unlinked(from, f, ts, ks, bs, i, N0, J0, M, R, marks) && marks[i] == |R|
      requires ks[i] == if ts[i] == null then None else Some(ts[i].Key())
      requires forall k :: i <= k < |ts| && Unmet(from, ts, k, k) ==> (bs[k] <==> Contains(ts[k].neighbors, from))
      ensures from.edges == Keep(E0, K0, R1) && from.neighbors == DropEach(N0, J0, R1).0
      ensures s.Pass? ==> Unlinked(from, f, ts, ks, bs, i + 1, N0, J0, M, R1, marks + [|R1|])
      ensures s.Fail? ==>
        && s == Fail(InvalidArgument(DisconnectRefusal(from, ts[i])))
        && Unlinked(from, f, ts, ks, bs, i, N0, J0, M, R1, marks)
        && Refused(from, f, ts, ks, i, N0, J0, M, R1, marks[i], bs[i])
      ensures forall k :: i < k < |ts| && Unmet(from, ts, k, k) ==> (bs[k] <==> Contains(ts[k].neighbors, from))
    {
      s, R1 := DisconnectNext(from, ts[i], E0, K0, N0, J0, R, M, f, ks[i]);
      assert forall k :: i < k < |ts| && Unmet(from, ts, k, k) ==> (bs[k] <==> Contains(ts[k].neighbors, from)) by {
        LinksKept((from, ts, i, bs));
      }
      StepOutcome(from, f, ts, ks, bs, i, N0, J0, M, R, marks, R1, s.Pass?);
    }

    /** `disconnect(from, toNodes)` inherited from `Graph`: the up-front check,
        then the two-sided `disconnect` of each target, in order. The first
        refused step ends the batch with its error; the steps before it stay
        applied. `removed` lists the keys removed from `from`'s lists, and
        `marks[j]` how many of them the steps before step `j` removed. An
        applied step to a target no earlier step named found `from` among
        that target's neighbours. */
    method DisconnectAll(from: Node?, toNodes: Option<seq<Node?>>)
      returns (r: Outcome, ghost applied: nat, ghost removed: seq<NodeKey>, ghost marks: seq<nat>)
      modifies Just(from)`edges, Just(from)`neighbors, Present(toNodes)`edges, Present(toNodes)`neighbors
      ensures from == null || toNodes.None? ==> r == Fail(InvalidArgument(InvalidNodes)) && applied == 0
      ensures from == null || toNodes.None? ==> ListsKept(from) && forall t :: t in Present(toNodes) ==> ListsKept(t)
      ensures from != null && toNodes.Some? ==>
        var ts, N0, J0, M, f, ks := toNodes.value, old(from.neighbors), old(KeysOf(from.neighbors)), old(KeysOf(nodes)),
                                   old(from.Key()), old(TargetKeys(toNodes.value));
        && applied <= |ts| && (r.Pass? <==> applied == |ts|)
        && Unlinked(from, f, ts, ks, old(BackLinks(from, ts)), applied, N0, J0, M, removed, marks)
        && from.edges == Keep(old(from.edges), old(KeysOf(Targets(from.edges))), removed)
        && from.neighbors == DropEach(N0, J0, removed).0
        && (r.Pass? ==> |removed| == marks[applied])
        && (r.Fail? ==>
             && r == Fail(InvalidArgument(DisconnectRefusal(from, ts[applied])))
             && Refused(from, f, ts, ks, applied, N0, J0, M, removed, marks[applied], old(BackLinks(from, ts))[applied]))
    {
      if from == null || toNodes.None? {
        return Fail(InvalidArgument(InvalidNodes)), 0, [], [0];
      }
      var ts := toNodes.value;
      ghost var E0, N0 := from.edges, from.neighbors;
      ghost var K0, J0, M, f, ks := KeysOf(Targets(E0)), KeysOf(N0), KeysOf(nodes), from.Key(), TargetKeys(ts);
      ghost var bs := BackLinks(from, ts);
      KeepNone(E0, K0);
      r, removed, marks := Pass, [], [0];
      var i := 0;
      while i < |ts|
        invariant i <= |ts| && r == Pass
        invariant Unlinked(from, f, ts, ks, bs, i, N0, J0, M, removed, marks) && marks[i] == |removed|
        invariant from.edges == Keep(E0, K0, removed)
        invariant from.neighbors == DropEach(N0, J0, removed).0
        invariant forall k :: i <= k < |ts| && Unmet(from, ts, k, k) ==> (bs[k] <==> Contains(ts[k].neighbors, from))
      {
        KeysFrame(Targets(E0));
        KeysFrame(N0);
        KeysFrame(nodes);
        var s;
        s, removed := DisconnectAt(from, ts, i, E0, K0, N0, J0, M, f, ks, bs, removed, marks);
        if s.Fail? {
          r := s;
          break;
        }
        marks := marks + [|removed|];
        i := i + 1;
      }
      applied := i;
    }
  }

  /** The two loops of `updateEdgeWeight` on members `node1` and `node2`:
      the first edge from `node1` to a node equal to `node2` takes the weight,
      and only when there is one, so does the first edge back from `node2`. */
  method SetBothWeights(node1: Node, node2: Node, weight: int) returns (found: Option<nat>, back: Option<nat>)
    modifies OutEdges(node1)`weight, OutEdges(node2)`weight
    ensures found == old(FirstEdgeTo(node1.edges, node2))
    ensures found.None? ==> back.None? && forall e :: e in OutEdges(node1) + OutEdges(node2) ==> e.weight == old(e.weight)
    ensures found.Some? ==>
      && back == old(FirstEdgeTo(node2.edges, node1))
      && node1.edges[found.value].weight == weight
      && (back.Some? ==> node2.edges[back.value].weight == weight)
      && forall e :: e in OutEdges(node1) + OutEdges(node2) && e != node1.edges[found.value] && (back.None? || e != node2.edges[back.value]) ==>
           e.weight == old(e.weight)
  {
    ghost var back0 := FirstEdgeTo(node2.edges, node1);
    found := SetFirstWeight(node1, node2, weight);
    if found.None? {
      return found, None;
    }
    ghost var e1 := node1.edges[found.value];
    assert FirstEdgeTo(node2.edges, node1) == back0;
    back := SetFirstWeight(node2, node1, weight);
    assert e1.weight == weight;
  }

  /** The target nodes of a list of edges, as a frame. */
  function Ends(es: seq<Edge>): set<Node> {
    set e | e in es :: e.toNode
  }

  /** A node, its edges and their targets: the objects `WeightTo` looks at. */
  ghost function Parts(a: Node): set<object>
    reads a
  {
    {a as object} + (set e: Edge | e in a.edges :: e as object) + (set n | n in Ends(a.edges) :: n as object)
  }

  /** The (target key, weight) pair of each edge, in order: what the
      equality-based lookups of `updateEdgeWeight` and `connect` see. */
  function Keyed(es: seq<Edge>): (r: seq<(NodeKey, int)>)
    reads es, Ends(es)`data, Ends(es)`name
    ensures |r| == |es| && forall j :: 0 <= j < |es| ==> r[j] == (es[j].toNode.Key(), es[j].weight)
  {
    if es == [] then [] else [(es[0].toNode.Key(), es[0].weight)] + Keyed(es[1..])
  }

  /** When every edge sits in the list of its `fromNode` and only `p.3`,
      from `p.1` to `p.2`, and `p.4`, back, changed weight, every other edge
      of the nodes `p.0` kept its weight. */
  twostate lemma OthersUnchanged(p: (seq<Node>, Node, Node, Edge, Edge))
    requires forall x :: x in p.0 ==> x.edges == old(x.edges) && forall e :: e in x.edges ==> e.fromNode == x
    requires p.3.fromNode == p.1 && p.3.toNode.Key() == p.2.Key() && p.4.fromNode == p.2 && p.4.toNode.Key() == p.1.Key()
    requires forall x, e :: x in p.0 && e in x.edges && e != p.3 && e != p.4 ==> e.weight == old(e.weight)
    ensures forall x, e :: x in p.0 && e in x.edges && !(x == p.1 && e.toNode.Key() == p.2.Key()) && !(x == p.2 && e.toNode.Key() == p.1.Key()) ==>
      e.weight == old(e.weight)
  {
  }

  /** The first edge of `p.0` to a node equal to `p.1`, seen after a change
      that kept the keys involved: still the first with that key. */
  twostate lemma FirstKept(p: (Node, Node))
    requires p.0.edges == old(p.0.edges) && unchanged(p.1`data, p.1`name)
    requires forall e :: e in p.0.edges ==> unchanged(e.toNode`data, e.toNode`name)
    requires old(FirstEdgeTo(p.0.edges, p.1)).Some?
    ensures var i := old(FirstEdgeTo(p.0.edges, p.1)).value;
      && i < |p.0.edges| && p.0.edges[i].toNode.Key() == p.1.Key()
      && forall m :: 0 <= m < i ==> p.0.edges[m].toNode.Key() != p.1.Key()
  {
    FirstEdgeFrame((p.0.edges, p.1));
  }

  /** Where the first edge to `p.1` sits depends only on the keys of the
      targets and of `p.1`. */
  twostate lemma FirstEdgeFrame(p: (seq<Edge>, Node))
    requires forall e :: e in p.0 ==> unchanged(e.toNode`data, e.toNode`name)
    requires unchanged(p.1`data, p.1`name)
    ensures FirstEdgeTo(p.0, p.1) == old(FirstEdgeTo(p.0, p.1))
  {
    var es := p.0;
    forall m | 0 <= m < |es| ensures es[m].toNode.Key() == old(es[m].toNode.Key()) {
      assert es[m] in es;
    }
  }

  /** The pairs read in two states agree when no edge weight and no target's
      data or name changed. */
  twostate lemma {:induction false} KeyedFrame(es: seq<Edge>)
    requires forall e :: e in es ==> e.weight == old(e.weight) && unchanged(e.toNode`data, e.toNode`name)
    ensures Keyed(es) == old(Keyed(es))
  {
    if es != [] {
      assert forall e :: e in es[1..] ==> e in es;
      KeyedFrame(es[1..]);
    }
  }

  /** The weight paired with the first occurrence of key `k`, if any. */
  function WeightIn(s: seq<(NodeKey, int)>, k: NodeKey): Option<int> {
    if s == [] then None
    else if s[0].0 == k then Some(s[0].1)
    else WeightIn(s[1..], k)
  }

  /** The weight of the first edge of `a` to a node equal to a node with key
      `k`: the edge `updateEdgeWeight(a, b, w)` reweights when `b` has key `k`. */
  ghost function WeightTo(a: Node, k: NodeKey): Option<int>
    reads Parts(a)
  {
    assert forall e :: e in a.edges ==> e in Parts(a);
    assert forall n :: n in Ends(a.edges) ==> n in Parts(a);
    WeightIn(Keyed(a.edges), k)
  }

  /** A key is found exactly when some pair carries it. */
  lemma {:induction false} WeightInFound(s: seq<(NodeKey, int)>, k: NodeKey)
    ensures WeightIn(s, k).Some? <==> exists j :: 0 <= j < |s| && s[j].0 == k
  {
    if s != [] {
      WeightInFound(s[1..], k);
      if exists j :: 0 <= j < |s| && s[j].0 == k {
        var j :| 0 <= j < |s| && s[j].0 == k;
        if j > 0 { assert s[1..][j - 1].0 == k; }
      }
      if exists j :: 0 <= j < |s[1..]| && s[1..][j].0 == k {
        var j :| 0 <= j < |s[1..]| && s[1..][j].0 == k;
        assert s[j + 1].0 == k;
      }
    }
  }

  /** The first pair with key `k` decides. */
  lemma {:induction false} WeightInFirst(s: seq<(NodeKey, int)>, i: nat, k: NodeKey)
    requires i < |s| && s[i].0 == k && forall j :: 0 <= j < i ==> s[j].0 != k
    ensures WeightIn(s, k) == Some(s[i].1)
  {
    if i > 0 {
      WeightInFirst(s[1..], i - 1, k);
    }
  }

  /** Appending a pair only adds a key not found before. */
  lemma {:induction false} WeightInAppend(s: seq<(NodeKey, int)>, p: (NodeKey, int), k: NodeKey)
    ensures WeightIn(s + [p], k) == if WeightIn(s, k).Some? then WeightIn(s, k) else if p.0 == k then Some(p.1) else None
  {
    if s != [] {
      assert (s + [p])[1..] == s[1..] + [p];
      WeightInAppend(s[1..], p, k);
    }
  }

  /** Changing only weights paired with `kb` leaves every other key's weight. */
  lemma {:induction false} WeightInReweighted(s: seq<(NodeKey, int)>, t: seq<(NodeKey, int)>, kb: NodeKey, k: NodeKey)
    requires |s| == |t| && forall j :: 0 <= j < |s| ==> t[j].0 == s[j].0 && (s[j].0 != kb ==> t[j].1 == s[j].1)
    ensures k != kb ==> WeightIn(t, k) == WeightIn(s, k)
    ensures WeightIn(s, k).None? <==> WeightIn(t, k).None?
  {
    if s != [] {
      WeightInReweighted(s[1..], t[1..], kb, k);
    }
  }

  /** An appended edge adds one pair at the end. */
  lemma KeyedAppend(es: seq<Edge>, e: Edge)
    ensures Keyed(es + [e]) == Keyed(es) + [(e.toNode.Key(), e.weight)]
  {
  }

  /** Removing the edges to nodes with key `k` removes that key and keeps
      every other key's weight. */
  lemma {:induction false} WeightInWithout(es: seq<Edge>, ks: seq<NodeKey>, k: NodeKey, k': NodeKey)
    requires |ks| == |es| && forall j :: 0 <= j < |es| ==> ks[j] == es[j].toNode.Key()
    ensures WeightIn(Keyed(Without(es, ks, k)), k') == if k' == k then None else WeightIn(Keyed(es), k')
  {
    if es != [] {
      WeightInWithout(es[1..], ks[1..], k, k');
      var rest := Without(es[1..], ks[1..], k);
      if ks[0] != k {
        assert Keyed([es[0]] + rest)[1..] == Keyed(rest);
      } else {
        assert Without(es, ks, k) == rest;
      }
    }
  }

  /** A list of edges whose only changed weights are on edges to nodes with
      key `p.1`, the first of which, at `p.3`, now weighs `p.2`: the weight
      to `p.1` is `p.2`, and every other weight is as before. */
  twostate lemma Reweighted(p: (Node, NodeKey, int, nat))
    requires p.0.edges == old(p.0.edges)
    requires forall e :: e in p.0.edges ==> unchanged(e.toNode`data, e.toNode`name)
    requires forall e :: e in p.0.edges && e.toNode.Key() != p.1 ==> e.weight == old(e.weight)
    requires p.3 < |p.0.edges| && p.0.edges[p.3].toNode.Key() == p.1 && p.0.edges[p.3].weight == p.2
    requires forall j :: 0 <= j < p.3 ==> p.0.edges[j].toNode.Key() != p.1
    ensures forall k :: WeightTo(p.0, k) == if k == p.1 then Some(p.2) else old(WeightTo(p.0, k))
  {
    var es := p.0.edges;
    var s, t := old(Keyed(es)), Keyed(es);
    forall j | 0 <= j < |s| ensures t[j].0 == s[j].0 && (s[j].0 != p.1 ==> t[j].1 == s[j].1) {
      assert es[j] in es && s[j] == (old(es[j].toNode.Key()), old(es[j].weight));
    }
    forall k {
      WeightInReweighted(s, t, p.1, k);
    }
    WeightInFirst(t, p.3, p.1);
  }

  /** `p.0.disconnect(p.1)` once, or twice when `p.1` is `p.0` itself, with
      the weights and the target keys of the old edges of `p.0` kept, takes
      the key of `p.1` out of the weights of `p.0` and keeps every other
      key's weight. */
  twostate lemma RemovalWeights(p: (Node, Node))
    requires EdgesRemoved(p.0, p.1) || (p.0 == p.1 && RemovedTwice(p.0))
    requires unchanged(p.1`data, p.1`name)
    requires forall e :: e in old(p.0.edges) ==> e.weight == old(e.weight) && unchanged(e.toNode`data, e.toNode`name)
    ensures forall k :: WeightTo(p.0, k) == if k == p.1.Key() then None else old(WeightTo(p.0, k))
  {
    var x := p.0;
    var E, kx := old(x.edges), p.1.Key();
    KeyedFrame(E);
    TargetsAt(E);
    KeysFrame(Targets(E));
    WithoutWeights(E, kx);
    var E1 := Without(E, KeysOf(Targets(E)), kx);
    if x.edges != E1 {
      WithoutSubset(E, KeysOf(Targets(E)), kx);
      TargetsAt(E1);
      KeysFrame(Targets(E1));
      WithoutWeights(E1, kx);
    }
  }

  /** Removing the edges to nodes with key `k`, as `disconnect` does: that
      key is gone and every other key keeps its weight. */
  lemma WithoutWeights(es: seq<Edge>, k: NodeKey)
    ensures forall k' :: WeightIn(Keyed(Without(es, KeysOf(Targets(es)), k)), k') == if k' == k then None else WeightIn(Keyed(es), k')
  {
    KeysAt(Targets(es));
    TargetsAt(es);
    forall k' {
      WeightInWithout(es, KeysOf(Targets(es)), k, k');
    }
  }

  /** No edge leads to a node with key `k`: no weight is found for it. */
  lemma NoEdgeToKey(es: seq<Edge>, k: NodeKey)
    requires forall e :: e in es ==> e.toNode.Key() != k
    ensures WeightIn(Keyed(es), k).None?
  {
    KeyedKeys(es, k);
    KeysAt(Targets(es));
    TargetsAt(es);
    forall j | 0 <= j < |es| ensures KeysOf(Targets(es))[j] != k {
      assert es[j] in es;
    }
  }

  /** The keys of the targets are the keys the pairs carry. */
  lemma KeyedKeys(es: seq<Edge>, k: NodeKey)
    ensures k in KeysOf(Targets(es)) <==> WeightIn(Keyed(es), k).Some?
  {
    KeysAt(Targets(es));
    TargetsAt(es);
    WeightInFound(Keyed(es), k);
    if k in KeysOf(Targets(es)) {
      var j :| 0 <= j < |es| && KeysOf(Targets(es))[j] == k;
      assert Keyed(es)[j].0 == k;
    }
  }
}
