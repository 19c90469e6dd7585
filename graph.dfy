/**
 * The graph store: a mutable directed labelled multigraph kept as an
 * adjacency map from each node to the set of its outgoing edges.
 *
 * The pure functions over adjacency maps give the meaning of each mutator;
 * the class DirectedLabeledGraph holds the map in a field and its methods
 * update it in place, each one proved to produce exactly the map the
 * matching function describes.
 */
module Graph {
  import opened Wrappers

  /** A node; two nodes are the same node exactly when their labels are equal. */
  datatype Node<N> = Node(name: N)

  /** An outgoing edge: its name and its destination. Its source is the node
      whose adjacency set holds it. Equality is on (name, destination). */
  datatype Edge<N, E> = Edge(name: E, destination: Node<N>)

  /** The adjacency map: its keys are the nodes of the graph. */
  type Adjacency<N(==), E(==)> = map<Node<N>, set<Edge<N, E>>>

  /** The representation invariant: every edge's destination is itself a node. */
  ghost predicate NoDanglingEdges<N, E>(adj: Adjacency<N, E>) {
    forall n, e | n in adj && e in adj[n] :: e.destination in adj
  }

  /** The outgoing edges of n, or none when n is not a node. */
  function Out<N(==), E(==)>(adj: Adjacency<N, E>, n: Node<N>): set<Edge<N, E>> {
    if n in adj then adj[n] else {}
  }

  /** The graph after addNode(n): n is a node, with no edges if it is new. */
  function AddNodeTo<N(==), E(==)>(adj: Adjacency<N, E>, n: Node<N>): (r: Adjacency<N, E>)
    ensures r.Keys == adj.Keys + {n}
    ensures n !in adj ==> r[n] == {}
    ensures forall m | m in adj :: r[m] == adj[m]
  {
    if n in adj then adj else adj[n := {}]
  }

  /** The graph after addEdge(name, source, destination): both endpoints are
      nodes and the source's set also holds Edge(name, destination). */
  function AddEdgeTo<N(==), E(==)>(adj: Adjacency<N, E>, name: E, source: Node<N>, destination: Node<N>): (r: Adjacency<N, E>)
    ensures r.Keys == adj.Keys + {source, destination}
    ensures r[source] == Out(adj, source) + {Edge(name, destination)}
    ensures forall m | m in r && m != source :: r[m] == Out(adj, m)
  {
    var withSource := AddNodeTo(adj, source);
    var withBoth := AddNodeTo(withSource, destination);
    withBoth[source := withBoth[source] + {Edge(name, destination)}]
  }

  /** The graph after removeEdge(name, source, destination): the node set is
      unchanged and only that one edge is gone. */
  function RemoveEdgeFrom<N(==), E(==)>(adj: Adjacency<N, E>, name: E, source: Node<N>, destination: Node<N>): (r: Adjacency<N, E>)
    ensures r.Keys == adj.Keys
    ensures source in adj ==> r[source] == adj[source] - {Edge(name, destination)}
    ensures forall m | m in adj && m != source :: r[m] == adj[m]
  {
    if source in adj then adj[source := adj[source] - {Edge(name, destination)}] else adj
  }

  /** An edge set without the edges that point at n (the removeIf of fixGraph). */
  function WithoutEdgesTo<N(==), E(==)>(edges: set<Edge<N, E>>, n: Node<N>): (r: set<Edge<N, E>>)
    ensures r <= edges
    ensures forall e | e in edges :: e in r <==> e.destination != n
  {
    set e | e in edges && e.destination != n
  }

  /** The graph after fixGraph(n): every edge pointing at n is gone, every node
      stays, and no other edge changes. */
  function RemoveEdgesTo<N(==), E(==)>(adj: Adjacency<N, E>, n: Node<N>): (r: Adjacency<N, E>)
    ensures r.Keys == adj.Keys
    ensures forall m | m in adj :: r[m] == WithoutEdgesTo(adj[m], n)
  {
    map m | m in adj :: WithoutEdgesTo(adj[m], n)
  }

  /** The graph after removeNode(n): n's own entry is dropped and then every
      edge pointing at n is swept away. */
  function RemoveNodeFrom<N(==), E(==)>(adj: Adjacency<N, E>, n: Node<N>): (r: Adjacency<N, E>)
    ensures r.Keys == adj.Keys - {n}
    ensures forall m | m in r :: r[m] <= adj[m]
    ensures forall m, e | m in r && e in adj[m] :: e in r[m] <==> e.destination != n
  {
    RemoveEdgesTo(adj - {n}, n)
  }

  /** Every mutator keeps the representation invariant. */
  lemma MutatorsPreserveNoDanglingEdges<N, E>(adj: Adjacency<N, E>, n: Node<N>, name: E, source: Node<N>, destination: Node<N>)
    requires NoDanglingEdges(adj)
    ensures NoDanglingEdges(AddNodeTo(adj, n))
    ensures NoDanglingEdges(AddEdgeTo(adj, name, source, destination))
    ensures NoDanglingEdges(RemoveEdgeFrom(adj, name, source, destination))
    ensures NoDanglingEdges(RemoveNodeFrom(adj, n))
  {
    RemoveNodePreservesNoDanglingEdges(adj, n);
  }

  /** The cascade of removeNode restores the invariant that dropping n's entry
      alone would break. */
  lemma RemoveNodePreservesNoDanglingEdges<N, E>(adj: Adjacency<N, E>, n: Node<N>)
    requires NoDanglingEdges(adj)
    ensures NoDanglingEdges(RemoveNodeFrom(adj, n))
  {
    var r := RemoveNodeFrom(adj, n);
    forall m: Node<N>, e: Edge<N, E> | m in r && e in r[m] ensures e.destination in r {
      assert e in adj[m] && e.destination != n;
    }
  }

  /** After removeNode(n) no edge anywhere points at n (the cascade). */
  lemma RemoveNodeCascades<N, E>(adj: Adjacency<N, E>, n: Node<N>)
    ensures n !in RemoveNodeFrom(adj, n)
    ensures forall m, e | m in RemoveNodeFrom(adj, n) && e in RemoveNodeFrom(adj, n)[m] :: e.destination != n
  {
  }

  /** Adding a fresh node and removing it again gives back the original graph. */
  lemma AddThenRemoveNode<N, E>(adj: Adjacency<N, E>, n: Node<N>)
    requires NoDanglingEdges(adj)
    requires n !in adj
    ensures RemoveNodeFrom(AddNodeTo(adj, n), n) == adj
  {
    var r := RemoveNodeFrom(AddNodeTo(adj, n), n);
    assert r.Keys == adj.Keys;
    forall m | m in adj ensures r[m] == adj[m] {
      forall e | e in adj[m] ensures e.destination != n {
        assert e.destination in adj;
      }
    }
  }

  /** Removing a node without incident edges only deletes it from the node set. */
  lemma RemoveIsolatedNode<N, E>(adj: Adjacency<N, E>, n: Node<N>)
    requires n in adj && adj[n] == {}
    requires forall m, e | m in adj && e in adj[m] :: e.destination != n
    ensures RemoveNodeFrom(adj, n) == adj - {n}
  {
    var r := RemoveNodeFrom(adj, n);
    forall m | m in r ensures r[m] == adj[m] {
      assert forall e :: e in r[m] <==> e in adj[m];
    }
  }

  /** Adding an edge that is already there leaves the graph unchanged. */
  lemma AddExistingEdge<N, E>(adj: Adjacency<N, E>, name: E, source: Node<N>, destination: Node<N>)
    requires NoDanglingEdges(adj)
    requires Edge(name, destination) in Out(adj, source)
    ensures AddEdgeTo(adj, name, source, destination) == adj
  {
    var r := AddEdgeTo(adj, name, source, destination);
    assert r.Keys == adj.Keys;
    forall m | m in adj ensures r[m] == adj[m] {
      if m == source {
        assert r[m] == adj[m] + {Edge(name, destination)};
      }
    }
  }

  /** Adding the same edge twice is the same as adding it once. */
  lemma AddEdgeIdempotent<N, E>(adj: Adjacency<N, E>, name: E, source: Node<N>, destination: Node<N>)
    requires NoDanglingEdges(adj)
    ensures AddEdgeTo(AddEdgeTo(adj, name, source, destination), name, source, destination)
         == AddEdgeTo(adj, name, source, destination)
  {
    var once := AddEdgeTo(adj, name, source, destination);
    MutatorsPreserveNoDanglingEdges(adj, source, name, source, destination);
    AddExistingEdge(once, name, source, destination);
  }

  /** The out-edges of any node after addEdge: the new edge appears at the source only. */
  lemma OutAfterAddEdge<N, E>(adj: Adjacency<N, E>, name: E, source: Node<N>, destination: Node<N>, m: Node<N>)
    ensures Out(AddEdgeTo(adj, name, source, destination), m)
         == Out(adj, m) + (if m == source then {Edge(name, destination)} else {})
  {
  }

  /** Pointwise half of AddEdgesCommute. */
  lemma AddEdgesCommuteAt<N, E>(adj: Adjacency<N, E>, n1: E, s1: Node<N>, d1: Node<N>, n2: E, s2: Node<N>, d2: Node<N>, m: Node<N>)
    ensures Out(AddEdgeTo(AddEdgeTo(adj, n1, s1, d1), n2, s2, d2), m) == Out(AddEdgeTo(AddEdgeTo(adj, n2, s2, d2), n1, s1, d1), m)
  {
    OutAfterAddEdge(adj, n1, s1, d1, m);
    OutAfterAddEdge(adj, n2, s2, d2, m);
    OutAfterAddEdge(AddEdgeTo(adj, n1, s1, d1), n2, s2, d2, m);
    OutAfterAddEdge(AddEdgeTo(adj, n2, s2, d2), n1, s1, d1, m);
  }

  /** The graph does not depend on the order in which two edges are added. */
  lemma AddEdgesCommute<N, E>(adj: Adjacency<N, E>, n1: E, s1: Node<N>, d1: Node<N>, n2: E, s2: Node<N>, d2: Node<N>)
    ensures AddEdgeTo(AddEdgeTo(adj, n1, s1, d1), n2, s2, d2) == AddEdgeTo(AddEdgeTo(adj, n2, s2, d2), n1, s1, d1)
  {
    var a := AddEdgeTo(AddEdgeTo(adj, n1, s1, d1), n2, s2, d2);
    var b := AddEdgeTo(AddEdgeTo(adj, n2, s2, d2), n1, s1, d1);
    assert a.Keys == b.Keys;
    forall m | m in a ensures Out(a, m) == Out(b, m) {
      AddEdgesCommuteAt(adj, n1, s1, d1, n2, s2, d2, m);
    }
    SameOut(a, b);
  }

  /** Two adjacencies with the same nodes and the same edges out of each node are equal. */
  lemma SameOut<N, E>(a: Adjacency<N, E>, b: Adjacency<N, E>)
    requires a.Keys == b.Keys
    requires forall m | m in a :: Out(a, m) == Out(b, m)
    ensures a == b
  {
    assert forall m | m in a :: a[m] == Out(a, m) && b[m] == Out(b, m);
  }

  /** Two edges between the same pair with different labels both survive, and
      a self-loop is an ordinary edge of its node. */
  lemma ParallelEdgesAndSelfLoops<N, E>(adj: Adjacency<N, E>, n1: E, n2: E, source: Node<N>, destination: Node<N>)
    requires n1 != n2
    ensures Out(AddEdgeTo(AddEdgeTo(adj, n1, source, destination), n2, source, destination), source)
         == Out(adj, source) + {Edge(n1, destination), Edge(n2, destination)}
    ensures NoDanglingEdges(adj) ==> NoDanglingEdges(AddEdgeTo(adj, n1, source, source))
    ensures Out(AddEdgeTo(adj, n1, source, source), source) == Out(adj, source) + {Edge(n1, source)}
  {
    if NoDanglingEdges(adj) {
      MutatorsPreserveNoDanglingEdges(adj, source, n1, source, source);
    }
  }

  /** Removing an edge just added (between existing nodes) restores the graph. */
  lemma AddThenRemoveEdge<N, E>(adj: Adjacency<N, E>, name: E, source: Node<N>, destination: Node<N>)
    requires source in adj && destination in adj
    requires Edge(name, destination) !in adj[source]
    ensures RemoveEdgeFrom(AddEdgeTo(adj, name, source, destination), name, source, destination) == adj
  {
    var r := RemoveEdgeFrom(AddEdgeTo(adj, name, source, destination), name, source, destination);
    assert r.Keys == adj.Keys;
    forall m | m in adj ensures r[m] == adj[m] {
      if m == source {
        assert r[m] == adj[m] + {Edge(name, destination)} - {Edge(name, destination)};
      }
    }
  }

  /** The edges of a set that lead to c. */
  function EdgesTo<N(==), E(==)>(edges: set<Edge<N, E>>, c: Node<N>): set<Edge<N, E>> {
    set e | e in edges && e.destination == c
  }

  /** One more edge adds one edge into its own destination and none into any
      other node. */
  lemma EdgesToAdd<N, E>(edges: set<Edge<N, E>>, edge: Edge<N, E>, c: Node<N>)
    requires edge !in edges
    ensures |EdgesTo(edges + {edge}, c)| == |EdgesTo(edges, c)| + if edge.destination == c then 1 else 0
  {
    if edge.destination == c {
      assert EdgesTo(edges + {edge}, c) == EdgesTo(edges, c) + {edge};
    } else {
      assert EdgesTo(edges + {edge}, c) == EdgesTo(edges, c);
    }
  }

  /** Some edge of the set leads to c exactly when some label does. */
  lemma EdgesToNonEmpty<N, E>(edges: set<Edge<N, E>>, c: Node<N>)
    ensures |EdgesTo(edges, c)| > 0 <==> exists l :: Edge(l, c) in edges
  {
    if exists l :: Edge(l, c) in edges {
      var l :| Edge(l, c) in edges;
      assert Edge(l, c) in EdgesTo(edges, c);
    }
  }

  /** A list that holds each node once per edge into it lists exactly the
      destinations of the edges. */
  lemma ChildrenMembers<N, E>(children: seq<Node<N>>, edges: set<Edge<N, E>>)
    requires forall c :: multiset(children)[c] == |EdgesTo(edges, c)|
    ensures forall c :: c in children <==> exists l :: Edge(l, c) in edges
  {
    forall c ensures c in children <==> exists l :: Edge(l, c) in edges {
      EdgesToNonEmpty(edges, c);
    }
  }

  /** Listing one more edge's destination keeps "each node is listed once
      per edge into it". */
  lemma ChildrenStep<N, E>(children: seq<Node<N>>, edges: set<Edge<N, E>>, edge: Edge<N, E>)
    requires edge !in edges
    requires forall c :: multiset(children)[c] == |EdgesTo(edges, c)|
    ensures forall c :: multiset(children + [edge.destination])[c] == |EdgesTo(edges + {edge}, c)|
  {
    forall c ensures multiset(children + [edge.destination])[c] == |EdgesTo(edges + {edge}, c)| {
      EdgesToAdd(edges, edge, c);
    }
  }

  /**
   * DirectedLabeledGraph: the mutable graph. The field adj is the adjacency
   * map; its key set is the node set.
   */
  class DirectedLabeledGraph<N(==), E(==)> {
    var adj: Adjacency<N, E>

    /** checkRep: every edge's destination is a node of this graph. */
    ghost predicate Valid()
      reads this
    {
      NoDanglingEdges(adj)
    }

    /** A new graph with no nodes and no edges. */
    constructor ()
      ensures Valid()
      ensures adj == map[]
    {
      adj := map[];
    }

    /** addNode: true and a new edgeless node when node is absent; false and no
        change when it is already present. */
    method AddNode(node: Node<N>) returns (added: bool)
      requires Valid()
      modifies this
      ensures Valid()
      ensures added <==> node !in old(adj)
      ensures adj == AddNodeTo(old(adj), node)
    {
      if node in adj {
        return false;
      }
      adj := adj[node := {}];
      return true;
    }

    /** addEdge: registers a missing source and destination first, then adds
        the edge; the result says whether the edge was new. */
    method AddEdge(name: E, source: Node<N>, destination: Node<N>) returns (added: bool)
      requires Valid()
      modifies this
      ensures Valid()
      ensures added <==> Edge(name, destination) !in Out(old(adj), source)
      ensures adj == AddEdgeTo(old(adj), name, source, destination)
    {
      var edge := Edge(name, destination);
      if source !in adj {
        var ignored := AddNode(source);
      }
      if destination !in adj {
        var ignored := AddNode(destination);
      }
      var s := adj[source];
      added := edge !in s;
      adj := adj[source := s + {edge}];
    }

    /** removeEdge: false when the source is absent or the edge does not exist;
        the node set never changes. */
    method RemoveEdge(name: E, source: Node<N>, destination: Node<N>) returns (removed: bool)
      requires Valid()
      modifies this
      ensures Valid()
      ensures removed <==> Edge(name, destination) in Out(old(adj), source)
      ensures adj == RemoveEdgeFrom(old(adj), name, source, destination)
    {
      if source !in adj {
        return false;
      }
      var edge := Edge(name, destination);
      var s := adj[source];
      removed := edge in s;
      adj := adj[source := s - {edge}];
    }

    /** removeNode: drops the node's entry and sweeps away every edge into it;
        false and no change when the node is absent. */
    method RemoveNode(node: Node<N>) returns (removed: bool)
      requires Valid()
      modifies this
      ensures Valid()
      ensures removed <==> node in old(adj)
      ensures adj == if removed then RemoveNodeFrom(old(adj), node) else old(adj)
    {
      removed := node in adj;
      if removed {
        ghost var before := adj;
        adj := adj - {node};
        FixGraph(node);
        RemoveNodePreservesNoDanglingEdges(before, node);
      }
    }

    /** fixGraph: visits every node (in unspecified order) and removes its edges
        that point at node. */
    method FixGraph(node: Node<N>)
      modifies this
      ensures adj == RemoveEdgesTo(old(adj), node)
    {
      var keys := adj.Keys;
      while keys != {}
        invariant keys <= adj.Keys
        invariant adj.Keys == old(adj).Keys
        invariant forall m | m in adj :: adj[m] == if m in keys then old(adj)[m] else WithoutEdgesTo(old(adj)[m], node)
        decreases keys
      {
        var source :| source in keys;
        adj := adj[source := WithoutEdgesTo(adj[source], node)];
        keys := keys - {source};
      }
    }

    /** listChildren: one entry per outgoing edge, holding its destination (in
        the unspecified order of the edge set); an error when node is absent. */
    method ListChildren(node: Node<N>) returns (r: Result<seq<Node<N>>>)
      requires Valid()
      ensures r.Err? <==> node !in adj
      ensures r.Ok? ==> |r.value| == |adj[node]|
      ensures r.Ok? ==> forall c :: c in r.value <==> exists l :: Edge(l, c) in adj[node]
      ensures r.Ok? ==> forall c :: multiset(r.value)[c] == |EdgesTo(adj[node], c)|
    {
      if node !in adj {
        return Err(IllegalArgument);
      }
      var edges := adj[node];
      var children := [];
      var rest := edges;
      ghost var done: set<Edge<N, E>> := {};
      while rest != {}
        invariant done + rest == edges && done !! rest
        invariant |children| == |done|
        invariant forall c :: multiset(children)[c] == |EdgesTo(done, c)|
        decreases rest
      {
        var edge :| edge in rest;
        ChildrenStep(children, done, edge);
        children := children + [edge.destination];
        done := done + {edge};
        rest := rest - {edge};
      }
      ChildrenMembers(children, edges);
      return Ok(children);
    }

    /** getNodes (and the node iterator): the node set. */
    function GetNodes(): (nodes: set<Node<N>>)
      reads this
      ensures nodes == adj.Keys
    {
      adj.Keys
    }

    /** getNodeByName: the node whose label is name, or None when there is none. */
    method GetNodeByName(name: N) returns (r: Option<Node<N>>)
      ensures r.Some? ==> r.value in adj && r.value.name == name
      ensures r.None? ==> forall n | n in adj :: n.name != name
    {
      var keys := adj.Keys;
      while keys != {}
        invariant keys <= adj.Keys
        invariant forall n | n in adj && n !in keys :: n.name != name
        decreases keys
      {
        var node :| node in keys;
        if node.name == name {
          return Some(node);
        }
        keys := keys - {node};
      }
      return None;
    }

    /** getEdgesBetween: exactly the labels of the edges from source to
        destination; an error when either node is absent. */
    method GetEdgesBetween(source: Node<N>, destination: Node<N>) returns (r: Result<set<E>>)
      ensures r.Err? <==> source !in adj || destination !in adj
      ensures r.Ok? ==> forall l :: l in r.value <==> Edge(l, destination) in adj[source]
    {
      if source !in adj || destination !in adj {
        return Err(IllegalArgument);
      }
      var between: set<E> := {};
      var edges := adj[source];
      var rest := edges;
      while rest != {}
        invariant rest <= edges
        invariant forall l :: l in between <==> Edge(l, destination) in edges - rest
        decreases rest
      {
        var edge :| edge in rest;
        if edge.destination == destination {
          between := between + {edge.name};
        }
        rest := rest - {edge};
      }
      return Ok(between);
    }

    /** getEdges: a copy of node's outgoing edge set; an error when the node is
        absent. */
    function GetEdges(node: Node<N>): (r: Result<set<Edge<N, E>>>)
      reads this
      ensures r.Err? <==> node !in adj
      ensures r.Ok? ==> r.value == adj[node]
    {
      if node in adj then Ok(adj[node]) else Err(IllegalArgument)
    }

    /** clear: the graph becomes the empty graph. */
    method Clear()
      requires Valid()
      modifies this
      ensures Valid()
      ensures adj == map[]
    {
      adj := map[];
    }

    /** equals: two graphs are equal exactly when their adjacency maps are. */
    function Equals(other: DirectedLabeledGraph<N, E>): (r: bool)
      reads this, other
      ensures r <==> (adj.Keys == other.adj.Keys && forall n | n in adj :: adj[n] == other.adj[n])
    {
      adj == other.adj
    }
  }
}
