/**
 * CampusPaths.findPath: Dijkstra's least-cost path search over a
 * DirectedLabeledGraph whose edge labels are the edge weights.
 *
 * A path is a start label and a sequence of segments, each naming the label
 * it leads to and what it costs. The search keeps a priority queue of
 * candidate paths (modelled as a multiset, popped at any path of least
 * cost) and a set of finished nodes; it returns the first popped path that
 * reaches end, skips popped paths to finished nodes, and extends the others
 * along every edge to an unfinished node.
 */
module CampusPaths {
  import opened Wrappers
  import opened Graph
  import opened Sets

  // ---------------------------------------------------------------------
  // Paths
  // ---------------------------------------------------------------------

  /** One step of a path: the label it leads to and its cost. */
  datatype Segment<E> = Segment(destination: E, cost: real)

  /** A start label and the segments that follow it. */
  datatype Path<E> = Path(start: E, segments: seq<Segment<E>>)

  /** The label a path ends at. */
  function End<E>(p: Path<E>): E {
    if p.segments == [] then p.start else p.segments[|p.segments| - 1].destination
  }

  /** The path without its last segment. */
  function Prefix<E>(p: Path<E>): (r: Path<E>)
    requires p.segments != []
    ensures r.start == p.start && |r.segments| == |p.segments| - 1
  {
    Path(p.start, p.segments[..|p.segments| - 1])
  }

  /** The total cost: the sum of the segment costs. */
  function Cost<E>(p: Path<E>): real
    decreases |p.segments|
  {
    if p.segments == [] then 0.0 else Cost(Prefix(p)) + p.segments[|p.segments| - 1].cost
  }

  /** Path.extend: one more segment at the end. */
  function Extend<E>(p: Path<E>, destination: E, cost: real): Path<E> {
    Path(p.start, p.segments + [Segment(destination, cost)])
  }

  /** Every segment follows an edge of the graph from the previous end, and
      costs that edge's weight. */
  ghost predicate IsPathIn<E>(adj: Adjacency<E, real>, p: Path<E>)
    decreases |p.segments|
  {
    p.segments == [] ||
    (IsPathIn(adj, Prefix(p)) &&
     var last := p.segments[|p.segments| - 1];
     Edge(last.cost, Node(last.destination)) in Out(adj, Node(End(Prefix(p)))))
  }

  /** Every edge weight is non-negative, as the search demands of its
      graph. */
  ghost predicate NonNegative<E>(adj: Adjacency<E, real>) {
    forall n, e | n in adj && e in adj[n] :: e.name >= 0.0
  }

  /** p costs no more than any path of the graph between the same two
      labels. */
  ghost predicate Shortest<E(!new)>(adj: Adjacency<E, real>, p: Path<E>) {
    forall w | IsPathIn(adj, w) && w.start == p.start && End(w) == End(p) :: Cost(p) <= Cost(w)
  }

  /** What extending a path does. */
  lemma ExtendFacts<E>(adj: Adjacency<E, real>, p: Path<E>, destination: E, cost: real)
    ensures Extend(p, destination, cost).segments != []
    ensures Prefix(Extend(p, destination, cost)) == p
    ensures Extend(p, destination, cost).start == p.start
    ensures End(Extend(p, destination, cost)) == destination
    ensures Cost(Extend(p, destination, cost)) == Cost(p) + cost
    ensures IsPathIn(adj, Extend(p, destination, cost))
        <==> IsPathIn(adj, p) && Edge(cost, Node(destination)) in Out(adj, Node(End(p)))
  {
    assert (p.segments + [Segment(destination, cost)])[..|p.segments|] == p.segments;
  }

  /** With non-negative weights a path costs at least nothing, and at least
      as much as its prefix. */
  lemma {:induction false} CostNonNegative<E>(adj: Adjacency<E, real>, p: Path<E>)
    requires NonNegative(adj) && IsPathIn(adj, p)
    ensures Cost(p) >= 0.0
    ensures p.segments != [] ==> Cost(Prefix(p)) <= Cost(p)
    decreases |p.segments|
  {
    if p.segments != [] {
      CostNonNegative(adj, Prefix(p));
      var last := p.segments[|p.segments| - 1];
      var n := Node(End(Prefix(p)));
      assert n in adj && Edge(last.cost, Node(last.destination)) in adj[n];
    }
  }

  /** A path with at least one segment ends at a node of the graph. */
  lemma PathEndsInGraph<E>(adj: Adjacency<E, real>, p: Path<E>)
    requires NoDanglingEdges(adj) && IsPathIn(adj, p) && p.segments != []
    ensures Node(End(p)) in adj
  {
    var last := p.segments[|p.segments| - 1];
    assert Node(End(Prefix(p))) in adj;
  }

  /** A non-empty queue has a path of least cost to pop. */
  lemma {:induction false} MinExists<E>(a: multiset<Path<E>>) returns (m: Path<E>)
    requires a != multiset{}
    ensures m in a && forall q | q in a :: Cost(m) <= Cost(q)
    decreases |a|
  {
    var x :| x in a;
    var rest := a - multiset{x};
    if rest == multiset{} {
      m := x;
    } else {
      var y := MinExists(rest);
      m := if Cost(x) <= Cost(y) then x else y;
    }
    forall q | q in a ensures Cost(m) <= Cost(q) {
      assert q == x || q in a - multiset{x};
    }
  }

  // ---------------------------------------------------------------------
  // The state of the search
  // ---------------------------------------------------------------------

  /** Every candidate path starts at s and is a path of the graph. */
  ghost predicate Candidates<E(!new)>(adj: Adjacency<E, real>, s: E, active: multiset<Path<E>>) {
    forall q | q in active :: q.start == s && IsPathIn(adj, q)
  }

  /** settled[x] is the path x was expanded with: a path of the graph from
      s to x that no other such path undercuts. */
  ghost predicate Settled<E(!new)>(adj: Adjacency<E, real>, s: E, finished: set<Node<E>>, settled: map<Node<E>, Path<E>>) {
    settled.Keys == finished &&
    forall x | x in settled ::
      settled[x].start == s && IsPathIn(adj, settled[x]) && Node(End(settled[x])) == x && Shortest(adj, settled[x])
  }

  /** The queue holds the path to start until start is finished, and the
      extension of every settled path along every edge to an unfinished
      node. */
  ghost predicate Frontier<E(!new)>(adj: Adjacency<E, real>, s: E, active: multiset<Path<E>>,
                                  finished: set<Node<E>>, settled: map<Node<E>, Path<E>>) {
    (Node(s) !in finished ==> Path(s, []) in active) &&
    forall x, e | x in settled && e in Out(adj, x) && e.destination !in finished ::
      Extend(settled[x], e.destination.name, e.name) in active
  }

  /** Everything the loop of findPath keeps. */
  ghost predicate Searching<E(!new)>(adj: Adjacency<E, real>, s: E, t: E, active: multiset<Path<E>>,
                                   finished: set<Node<E>>, settled: map<Node<E>, Path<E>>) {
    Candidates(adj, s, active) && Settled(adj, s, finished, settled) && Frontier(adj, s, active, finished, settled) &&
    Node(t) !in finished && finished <= adj.Keys &&
    (Node(s) !in adj ==> finished == {} && forall q | q in active :: q == Path(s, []))
  }

  /** Any path of the graph from s to an unfinished node costs at least as
      much as some path in the queue. */
  lemma {:induction false} FrontierWitness<E(!new)>(adj: Adjacency<E, real>, s: E, active: multiset<Path<E>>,
                                               finished: set<Node<E>>, settled: map<Node<E>, Path<E>>, w: Path<E>)
    requires NonNegative(adj)
    requires Settled(adj, s, finished, settled) && Frontier(adj, s, active, finished, settled)
    requires w.start == s && IsPathIn(adj, w) && Node(End(w)) !in finished
    ensures exists q :: q in active && Cost(q) <= Cost(w)
    decreases |w.segments|
  {
    CostNonNegative(adj, w);
    if Node(s) !in finished {
      assert Cost(Path(s, [])) == 0.0;
    } else {
      var front := Prefix(w);
      var last := w.segments[|w.segments| - 1];
      var x := Node(End(front));
      if x !in finished {
        FrontierWitness(adj, s, active, finished, settled, front);
      } else {
        var e := Edge(last.cost, Node(last.destination));
        assert e in Out(adj, x) && e.destination !in finished;
        var q := Extend(settled[x], e.destination.name, e.name);
        ExtendFacts(adj, settled[x], e.destination.name, e.name);
        assert End(settled[x]) == End(front);
        assert Cost(settled[x]) <= Cost(front);
        assert q in active && Cost(q) <= Cost(w);
      }
    }
  }

  /** A popped path of least cost to an unfinished node is a shortest path
      to it. */
  lemma PoppedIsShortest<E(!new)>(adj: Adjacency<E, real>, s: E, active: multiset<Path<E>>,
                            finished: set<Node<E>>, settled: map<Node<E>, Path<E>>, p: Path<E>)
    requires NonNegative(adj)
    requires Settled(adj, s, finished, settled) && Frontier(adj, s, active, finished, settled)
    requires p.start == s && Node(End(p)) !in finished
    requires forall q | q in active :: Cost(p) <= Cost(q)
    ensures Shortest(adj, p)
  {
    forall w | IsPathIn(adj, w) && w.start == p.start && End(w) == End(p) ensures Cost(p) <= Cost(w) {
      FrontierWitness(adj, s, active, finished, settled, w);
    }
  }

  /** An empty queue means no path of the graph reaches t. */
  lemma ExhaustedIsUnreachable<E(!new)>(adj: Adjacency<E, real>, s: E, t: E,
                                  finished: set<Node<E>>, settled: map<Node<E>, Path<E>>)
    requires NonNegative(adj)
    requires Searching(adj, s, t, multiset{}, finished, settled)
    ensures forall w | IsPathIn(adj, w) && w.start == s :: End(w) != t
  {
    forall w | IsPathIn(adj, w) && w.start == s ensures End(w) != t {
      if End(w) == t {
        FrontierWitness(adj, s, multiset{}, finished, settled, w);
      }
    }
  }

  /** The state before the first iteration. */
  lemma InitialState<E(!new)>(adj: Adjacency<E, real>, s: E, t: E)
    ensures Searching(adj, s, t, multiset{Path(s, [])}, {}, map[])
  {
  }

  /** The `continue` branch: a popped path to a finished node is dropped. */
  lemma SkipKeepsState<E(!new)>(adj: Adjacency<E, real>, s: E, t: E, active: multiset<Path<E>>,
                          finished: set<Node<E>>, settled: map<Node<E>, Path<E>>, p: Path<E>)
    requires Searching(adj, s, t, active, finished, settled)
    requires p in active && Node(End(p)) in finished
    ensures Searching(adj, s, t, active - multiset{p}, finished, settled)
  {
    var rest := active - multiset{p};
    forall x, e | x in settled && e in Out(adj, x) && e.destination !in finished
      ensures Extend(settled[x], e.destination.name, e.name) in rest
    {
      ExtendFacts(adj, settled[x], e.destination.name, e.name);
    }
    if Node(s) !in finished {
      assert End(Path(s, [])) == s;
    }
  }

  /** Expanding: the popped path p to an unfinished node v other than t
      settles v, once its extensions along the edges of v to unfinished
      nodes are in the queue. */
  lemma ExpandKeepsState<E(!new)>(adj: Adjacency<E, real>, s: E, t: E, active: multiset<Path<E>>,
                            finished: set<Node<E>>, settled: map<Node<E>, Path<E>>, p: Path<E>)
    requires Searching(adj, s, t, active, finished, settled)
    requires p in active && Shortest(adj, p)
    requires Node(End(p)) !in finished && End(p) != t && Node(End(p)) in adj
    ensures var active' := (active - multiset{p}) + multiset(Extensions(p, Out(adj, Node(End(p))), finished));
      Searching(adj, s, t, active', finished + {Node(End(p))}, settled[Node(End(p)) := p])
  {
    var active' := (active - multiset{p}) + multiset(Extensions(p, Out(adj, Node(End(p))), finished));
    ExtensionsAreCandidates(adj, s, active, p, finished);
    SettleKeepsSettled(adj, s, finished, settled, p);
    SettleKeepsFrontier(adj, s, active, finished, settled, p, active');
  }

  /** The paths the loop over v's edges queues: p extended along each edge to a node not
      yet finished. */
  ghost function Extensions<E>(p: Path<E>, edges: set<Edge<E, real>>, finished: set<Node<E>>): set<Path<E>> {
    set e | e in edges && e.destination !in finished :: Extend(p, e.destination.name, e.name)
  }

  /** The extensions of a candidate along its end's edges are candidates. */
  lemma ExtensionsAreCandidates<E(!new)>(adj: Adjacency<E, real>, s: E, active: multiset<Path<E>>,
                                         p: Path<E>, finished: set<Node<E>>)
    requires Candidates(adj, s, active) && p in active
    ensures Candidates(adj, s, (active - multiset{p}) + multiset(Extensions(p, Out(adj, Node(End(p))), finished)))
  {
    forall q | q in (active - multiset{p}) + multiset(Extensions(p, Out(adj, Node(End(p))), finished))
      ensures q.start == s && IsPathIn(adj, q)
    {
      if q !in active - multiset{p} {
        var e :| e in Out(adj, Node(End(p))) && e.destination !in finished && q == Extend(p, e.destination.name, e.name);
        ExtendFacts(adj, p, e.destination.name, e.name);
      }
    }
  }

  /** One more edge adds its extension, when it leads to an unfinished
      node, and that extension is new. */
  lemma ExtensionsStep<E>(p: Path<E>, done: set<Edge<E, real>>, e: Edge<E, real>, finished: set<Node<E>>)
    requires e !in done
    ensures e.destination in finished ==> Extensions(p, done + {e}, finished) == Extensions(p, done, finished)
    ensures e.destination !in finished ==>
      Extensions(p, done + {e}, finished) == Extensions(p, done, finished) + {Extend(p, e.destination.name, e.name)} &&
      Extend(p, e.destination.name, e.name) !in Extensions(p, done, finished)
  {
    forall e' | e' in done && e'.destination !in finished
      ensures Extend(p, e'.destination.name, e'.name) != Extend(p, e.destination.name, e.name)
    {
      ExtendFacts(map[], p, e.destination.name, e.name);
      ExtendFacts(map[], p, e'.destination.name, e'.name);
    }
  }

  /** Adding a new element to a set adds one occurrence to its multiset. */
  lemma MultisetOfAdd<T>(a: set<T>, x: T)
    requires x !in a
    ensures multiset(a + {x}) == multiset(a) + multiset{x}
  {
  }

  /** Settling the end of a shortest path keeps Settled. */
  lemma SettleKeepsSettled<E(!new)>(adj: Adjacency<E, real>, s: E, finished: set<Node<E>>,
                                    settled: map<Node<E>, Path<E>>, p: Path<E>)
    requires Settled(adj, s, finished, settled)
    requires p.start == s && IsPathIn(adj, p) && Shortest(adj, p)
    ensures Settled(adj, s, finished + {Node(End(p))}, settled[Node(End(p)) := p])
  {
    var v := Node(End(p));
    var settled' := settled[v := p];
    forall x | x in settled'
      ensures settled'[x].start == s && IsPathIn(adj, settled'[x]) && Node(End(settled'[x])) == x
      ensures Shortest(adj, settled'[x])
    {
      if x != v {
        assert settled'[x] == settled[x];
      }
    }
  }

  /** Settling v := End(p) keeps Frontier once p's extensions along the
      edges of v are queued. */
  lemma SettleKeepsFrontier<E(!new)>(adj: Adjacency<E, real>, s: E, active: multiset<Path<E>>,
                                     finished: set<Node<E>>, settled: map<Node<E>, Path<E>>, p: Path<E>,
                                     active': multiset<Path<E>>)
    requires Frontier(adj, s, active, finished, settled)
    requires p in active && Node(End(p)) !in finished && settled.Keys == finished
    requires active - multiset{p} <= active'
    requires forall e | e in Out(adj, Node(End(p))) && e.destination !in finished ::
      Extend(p, e.destination.name, e.name) in active'
    ensures Frontier(adj, s, active', finished + {Node(End(p))}, settled[Node(End(p)) := p])
  {
    var v := Node(End(p));
    var finished', settled' := finished + {v}, settled[v := p];
    forall x, e | x in settled' && e in Out(adj, x) && e.destination !in finished'
      ensures Extend(settled'[x], e.destination.name, e.name) in active'
    {
      if x != v {
        var q := Extend(settled[x], e.destination.name, e.name);
        ExtendFacts(adj, settled[x], e.destination.name, e.name);
        assert q in active - multiset{p};
      }
    }
    if Node(s) !in finished' {
      assert Path(s, []) in active - multiset{p};
    }
  }

  /**
   * findPath: a least-cost path from start to end, when one exists.
   *
   * Fails (getEdges throws) exactly when start is not a node of the graph
   * and differs from end. Otherwise the result is the zero-segment path
   * when start == end; a path of the graph from start to end that costs no
   * more than any other when end is reachable; and nothing when it is not.
   */
  method FindPath<E(==,!new)>(start: E, end: E, graph: DirectedLabeledGraph<E, real>) returns (r: Result<Option<Path<E>>>)
    requires graph.Valid() && NonNegative(graph.adj)
    ensures r.Err? <==> start != end && Node(start) !in graph.adj
    ensures start == end ==> r == Ok(Some(Path(start, [])))
    ensures r.Ok? && r.value.Some? ==>
      var p := r.value.value;
      p.start == start && End(p) == end && IsPathIn(graph.adj, p) && Shortest(graph.adj, p)
    ensures r.Ok? && r.value.None? ==> forall w | IsPathIn(graph.adj, w) && w.start == start :: End(w) != end
  {
    ghost var adj := graph.adj;
    var active: multiset<Path<E>> := multiset{Path(start, [])};
    var finished: set<Node<E>> := {};
    ghost var settled: map<Node<E>, Path<E>> := map[];
    InitialState(adj, start, end);
    while active != multiset{}
      invariant Searching(adj, start, end, active, finished, settled)
      invariant start == end ==> active == multiset{Path(start, [])}
      decreases |adj.Keys - finished|, |active|
    {
      ghost var least := MinExists(active);
      var minPath :| minPath in active && forall q | q in active :: Cost(minPath) <= Cost(q);
      var minDest := End(minPath);
      if minDest == end {
        PoppedIsShortest(adj, start, active, finished, settled, minPath);
        return Ok(Some(minPath));
      }
      if Node(minDest) in finished {
        SkipKeepsState(adj, start, end, active, finished, settled, minPath);
        active := active - multiset{minPath};
        continue;
      }
      var edges := graph.GetEdges(Node(minDest));
      if edges.Err? {
        if minPath.segments != [] {
          PathEndsInGraph(adj, minPath);
        }
        return Err(IllegalArgument);
      }
      PoppedIsShortest(adj, start, active, finished, settled, minPath);
      ExpandKeepsState(adj, start, end, active, finished, settled, minPath);
      active := active - multiset{minPath};
      active := QueueExtensions(active, minPath, edges.value, finished);
      FewerLeft(adj.Keys, finished, Node(minDest));
      finished := finished + {Node(minDest)};
      settled := settled[Node(minDest) := minPath];
    }
    ExhaustedIsUnreachable(adj, start, end, finished, settled);
    return Ok(None);
  }

  /** The for loop over the edges of minPath's end: queue the extension of minPath along every edge to a
      node not yet finished. */
  method QueueExtensions<E(==)>(active: multiset<Path<E>>, minPath: Path<E>, edges: set<Edge<E, real>>,
                                finished: set<Node<E>>) returns (r: multiset<Path<E>>)
    ensures r == active + multiset(Extensions(minPath, edges, finished))
  {
    r := active;
    var rest := edges;
    while rest != {}
      invariant rest <= edges
      invariant r == active + multiset(Extensions(minPath, edges - rest, finished))
      decreases |rest|
    {
      var e :| e in rest;
      ghost var done := edges - rest;
      ExtensionsStep(minPath, done, e, finished);
      if e.destination !in finished {
        MultisetOfAdd(Extensions(minPath, done, finished), Extend(minPath, e.destination.name, e.name));
        r := r + multiset{Extend(minPath, e.destination.name, e.name)};
      }
      rest := rest - {e};
      assert edges - rest == done + {e};
    }
  }
}
