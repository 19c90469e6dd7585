/**
 * The Marvel social network: a graph whose nodes are characters and whose
 * edges are the books two characters appear in together, and the
 * breadth-first search that finds a shortest chain of books between two
 * characters.
 */
module MarvelPaths {
  import opened Wrappers
  import opened Graph
  import opened Sets

  type Character = Node<string>
  type Link = Edge<string, string>

  // ---------------------------------------------------------------------
  // Ordering of labels and edges
  // ---------------------------------------------------------------------

  /** Java's String.compareTo: the difference of the first pair of differing
      characters, or else the difference of the lengths. */
  function CompareStrings(a: string, b: string): (c: int)
    ensures |a| == 0 ==> c == -|b|
    ensures |b| == 0 ==> c == |a|
  {
    if |a| == 0 || |b| == 0 then |a| - |b|
    else if a[0] != b[0] then a[0] as int - b[0] as int
    else CompareStrings(a[1..], b[1..])
  }

  /** compareTo is zero exactly on equal strings. */
  lemma {:induction false} CompareStringsZero(a: string, b: string)
    ensures CompareStrings(a, b) == 0 <==> a == b
  {
    if |a| != 0 && |b| != 0 && a[0] == b[0] {
      CompareStringsZero(a[1..], b[1..]);
      assert a == [a[0]] + a[1..] && b == [b[0]] + b[1..];
    }
  }

  /** Swapping the operands of compareTo negates the result. */
  lemma {:induction false} CompareStringsAntisymmetric(a: string, b: string)
    ensures CompareStrings(a, b) == -CompareStrings(b, a)
  {
    if |a| != 0 && |b| != 0 && a[0] == b[0] {
      CompareStringsAntisymmetric(a[1..], b[1..]);
    }
  }

  /** "compareTo below zero" is transitive. */
  lemma {:induction false} CompareStringsTransitive(a: string, b: string, c: string)
    requires CompareStrings(a, b) < 0 && CompareStrings(b, c) < 0
    ensures CompareStrings(a, c) < 0
  {
    if |a| != 0 && |b| != 0 && |c| != 0 && a[0] == b[0] && b[0] == c[0] {
      CompareStringsTransitive(a[1..], b[1..], c[1..]);
    }
  }

  /** The comparator of expansion order: sortEdgeDestination, then
      sortEdgeNames (Comparator.thenComparing). */
  function CompareLinks(a: Link, b: Link): (c: int)
    ensures c == 0 <==> a == b
    ensures c < 0 ==> CompareStrings(a.destination.name, b.destination.name) <= 0
    ensures a.destination == b.destination ==> c == CompareStrings(a.name, b.name)
  {
    CompareStringsZero(a.destination.name, b.destination.name);
    CompareStringsZero(a.name, b.name);
    var byDestination := CompareStrings(a.destination.name, b.destination.name);
    if byDestination != 0 then byDestination else CompareStrings(a.name, b.name)
  }

  /** a sorts strictly before b. */
  predicate LinkBefore(a: Link, b: Link) {
    CompareLinks(a, b) < 0
  }

  /** The expansion order is a strict total order on edges: ascending
      destination label, ties broken by ascending edge label. */
  lemma LinkOrderIsStrictTotal(a: Link, b: Link, c: Link)
    ensures !LinkBefore(a, a)
    ensures a != b ==> LinkBefore(a, b) || LinkBefore(b, a)
    ensures LinkBefore(a, b) ==> !LinkBefore(b, a)
    ensures LinkBefore(a, b) && LinkBefore(b, c) ==> LinkBefore(a, c)
    ensures LinkBefore(a, b) ==> CompareStrings(a.destination.name, b.destination.name) <= 0
  {
    CompareStringsZero(a.name, a.name);
    CompareStringsZero(a.destination.name, a.destination.name);
    CompareStringsZero(a.name, b.name);
    CompareStringsZero(a.destination.name, b.destination.name);
    CompareStringsZero(b.destination.name, c.destination.name);
    CompareStringsZero(a.destination.name, c.destination.name);
    CompareStringsAntisymmetric(a.name, b.name);
    CompareStringsAntisymmetric(a.destination.name, b.destination.name);
    if LinkBefore(a, b) && LinkBefore(b, c) {
      var ad, bd, cd := a.destination.name, b.destination.name, c.destination.name;
      if CompareStrings(ad, bd) < 0 && CompareStrings(bd, cd) < 0 {
        CompareStringsTransitive(ad, bd, cd);
      } else if CompareStrings(ad, bd) < 0 {
        assert bd == cd;
      } else if CompareStrings(bd, cd) < 0 {
        assert ad == bd;
      } else {
        assert ad == bd && bd == cd;
        CompareStringsTransitive(a.name, b.name, c.name);
      }
    }
  }

  /** Strictly ascending in the expansion order. */
  predicate SortedLinks(s: seq<Link>) {
    forall i, j | 0 <= i < j < |s| :: LinkBefore(s[i], s[j])
  }

  /** s with e put in its place (the list insertion the library sort performs). */
  function InsertLink(s: seq<Link>, e: Link): (r: seq<Link>)
    requires SortedLinks(s) && e !in s
    ensures SortedLinks(r)
    ensures |r| == |s| + 1
    ensures forall x :: x in r <==> x in s || x == e
  {
    if |s| == 0 then [e]
    else if LinkBefore(e, s[0]) then
      assert forall j | 0 <= j < |s| :: LinkBefore(e, s[j]) by {
        forall j | 0 <= j < |s| ensures LinkBefore(e, s[j]) {
          if j > 0 {
            LinkOrderIsStrictTotal(e, s[0], s[j]);
          }
        }
      }
      [e] + s
    else
      LinkOrderIsStrictTotal(e, s[0], e);
      var tail := InsertLink(s[1..], e);
      assert forall x | x in tail :: LinkBefore(s[0], x);
      [s[0]] + tail
  }

  /** The copied edge list sorted with the destination-then-label comparator: every edge of the set
      exactly once, in strictly ascending expansion order. */
  method SortLinks(edges: set<Link>) returns (sorted: seq<Link>)
    ensures SortedLinks(sorted)
    ensures |sorted| == |edges|
    ensures forall e :: e in sorted <==> e in edges
  {
    sorted := [];
    var rest := edges;
    while rest != {}
      invariant rest <= edges
      invariant SortedLinks(sorted)
      invariant |sorted| == |edges - rest|
      invariant forall e :: e in sorted <==> e in edges - rest
      decreases rest
    {
      var e :| e in rest;
      assert edges - (rest - {e}) == (edges - rest) + {e};
      sorted := InsertLink(sorted, e);
      rest := rest - {e};
    }
  }

  // ---------------------------------------------------------------------
  // Walks
  // ---------------------------------------------------------------------

  /** The i-th vertex of the walk w from start: start itself, then the
      destination of each edge in turn. */
  function Vertex(start: Character, w: seq<Link>, i: nat): Character
    requires i <= |w|
  {
    if i == 0 then start else w[i - 1].destination
  }

  /** Where the walk ends. */
  function Last(start: Character, w: seq<Link>): Character {
    Vertex(start, w, |w|)
  }

  /** w is a walk of the graph from start: it is empty, or a walk from start
      followed by an edge of the graph that leaves that walk's end. */
  ghost predicate IsWalk(adj: Adjacency<string, string>, start: Character, w: seq<Link>)
    decreases |w|
  {
    |w| == 0 || (IsWalk(adj, start, w[..|w| - 1]) && w[|w| - 1] in Out(adj, Last(start, w[..|w| - 1])))
  }

  /** Every edge of a walk leaves the vertex before it: the first edge leaves
      start and each later edge leaves the previous edge's destination. */
  lemma {:induction false} WalkStep(adj: Adjacency<string, string>, start: Character, w: seq<Link>, i: nat)
    requires IsWalk(adj, start, w) && i < |w|
    ensures w[i] in Out(adj, Vertex(start, w, i))
    decreases |w|
  {
    var prefix := w[..|w| - 1];
    if i < |w| - 1 {
      WalkStep(adj, start, prefix, i);
      assert prefix[i] == w[i];
      assert Vertex(start, prefix, i) == Vertex(start, w, i);
    }
  }

  /** Appending an edge that leaves the end of a walk gives a walk ending at
      its destination (newPath.add(edge)). */
  lemma ExtendWalk(adj: Adjacency<string, string>, start: Character, w: seq<Link>, e: Link)
    requires IsWalk(adj, start, w)
    requires e in Out(adj, Last(start, w))
    ensures IsWalk(adj, start, w + [e])
    ensures Last(start, w + [e]) == e.destination
  {
    assert (w + [e])[..|w|] == w;
  }

  // ---------------------------------------------------------------------
  // The order of walks
  // ---------------------------------------------------------------------

  /** v comes before w, two walks of the same length, when the first edge
      in which they differ comes first in the expansion order: the
      comparator of the edge lists, extended lexicographically. It is
      defined through prefixes, the way walks are built. */
  predicate WalkBefore(v: seq<Link>, w: seq<Link>)
    decreases |v|
  {
    && |v| == |w|
    && |v| > 0
    && (|| WalkBefore(v[..|v| - 1], w[..|w| - 1])
        || (v[..|v| - 1] == w[..|w| - 1] && LinkBefore(v[|v| - 1], w[|w| - 1])))
  }

  /** Comparing two walks extended by one edge each: the prefixes decide,
      and the new edges break a tie. */
  lemma WalkBeforeSnoc(a: seq<Link>, b: seq<Link>, x: Link, y: Link)
    ensures WalkBefore(a + [x], b + [y]) <==> |a| == |b| && (WalkBefore(a, b) || (a == b && LinkBefore(x, y)))
  {
    assert (a + [x])[..|a|] == a;
    assert (b + [y])[..|b|] == b;
  }

  /** The order of walks is transitive. */
  lemma {:induction false} WalkBeforeTransitive(a: seq<Link>, b: seq<Link>, c: seq<Link>)
    requires WalkBefore(a, b) && WalkBefore(b, c)
    ensures WalkBefore(a, c)
    decreases |a|
  {
    var n := |a| - 1;
    if WalkBefore(a[..n], b[..n]) && WalkBefore(b[..n], c[..n]) {
      WalkBeforeTransitive(a[..n], b[..n], c[..n]);
    }
    LinkOrderIsStrictTotal(a[n], b[n], c[n]);
  }

  /** No walk comes before itself. */
  lemma {:induction false} WalkBeforeIrreflexive(a: seq<Link>)
    ensures !WalkBefore(a, a)
    decreases |a|
  {
    if |a| > 0 {
      WalkBeforeIrreflexive(a[..|a| - 1]);
      LinkOrderIsStrictTotal(a[|a| - 1], a[|a| - 1], a[|a| - 1]);
    }
  }

  /** Of two different walks of the same length, one comes first. */
  lemma {:induction false} WalkBeforeTotal(a: seq<Link>, b: seq<Link>)
    requires |a| == |b| && a != b
    ensures WalkBefore(a, b) || WalkBefore(b, a)
    decreases |a|
  {
    var n := |a| - 1;
    assert a == a[..n] + [a[n]] && b == b[..n] + [b[n]];
    if a[..n] != b[..n] {
      WalkBeforeTotal(a[..n], b[..n]);
    }
    LinkOrderIsStrictTotal(a[n], b[n], a[n]);
  }

  /** The order of walks is a strict total order on walks of the same
      length. */
  lemma WalkOrderIsStrictTotal(a: seq<Link>, b: seq<Link>, c: seq<Link>)
    ensures !WalkBefore(a, a)
    ensures |a| == |b| && a != b ==> WalkBefore(a, b) || WalkBefore(b, a)
    ensures WalkBefore(a, b) ==> !WalkBefore(b, a)
    ensures WalkBefore(a, b) && WalkBefore(b, c) ==> WalkBefore(a, c)
  {
    WalkBeforeIrreflexive(a);
    if |a| == |b| && a != b {
      WalkBeforeTotal(a, b);
    }
    if WalkBefore(a, b) && WalkBefore(b, a) {
      WalkBeforeTransitive(a, b, a);
    }
    if WalkBefore(a, b) && WalkBefore(b, c) {
      WalkBeforeTransitive(a, b, c);
    }
  }

  /** v is w, or comes before it. */
  predicate WalkAtMost(v: seq<Link>, w: seq<Link>) {
    v == w || WalkBefore(v, w)
  }

  // ---------------------------------------------------------------------
  // The search state of findPath
  // ---------------------------------------------------------------------

  /** Every discovered node maps to a walk from start that ends at it, and
      start maps to the empty walk. */
  ghost predicate Discovered(adj: Adjacency<string, string>, start: Character, paths: map<Character, seq<Link>>) {
    && start in paths
    && paths[start] == []
    && forall n | n in paths :: IsWalk(adj, start, paths[n]) && Last(start, paths[n]) == n
  }

  /** Every edge out of an expanded node leads to a discovered node whose
      recorded walk is at most one edge longer. */
  ghost predicate Expanded(adj: Adjacency<string, string>, paths: map<Character, seq<Link>>, done: set<Character>) {
    && done <= paths.Keys
    && forall u, e | u in done && e in Out(adj, u) ::
         e.destination in paths && |paths[e.destination]| <= |paths[u]| + 1
  }

  /** Each discovered node is either expanded or waiting in the queue, which
      holds each node at most once. */
  ghost predicate Partition(paths: map<Character, seq<Link>>, queue: seq<Character>, done: set<Character>) {
    && (forall i | 0 <= i < |queue| :: queue[i] !in done)
    && (forall i, j | 0 <= i < j < |queue| :: queue[i] != queue[j])
    && (forall n | n in paths :: n in done || n in queue)
  }

  /** The queue holds discovered nodes: the first mid of them have walks of
      length level, the rest of length level + 1, and no discovered node
      lies beyond level + 1. */
  ghost predicate Layered(paths: map<Character, seq<Link>>, queue: seq<Character>, level: nat, mid: nat) {
    && mid <= |queue|
    && (forall i | 0 <= i < |queue| ::
          queue[i] in paths && |paths[queue[i]]| == if i < mid then level else level + 1)
    && (forall n | n in paths :: |paths[n]| <= level + 1)
  }

  /** The state inside the for loop over the sorted edges while curr is expanded. */
  ghost predicate Expanding(adj: Adjacency<string, string>, start: Character, paths: map<Character, seq<Link>>,
                            queue: seq<Character>, done: set<Character>, curr: Character, level: nat, mid: nat) {
    && Discovered(adj, start, paths)
    && Expanded(adj, paths, done)
    && curr in paths && |paths[curr]| == level && curr !in done
    && Partition(paths, queue, done + {curr})
    && Layered(paths, queue, level, mid)
    && forall n | n in paths :: n == start || n in adj
  }

  /** The state at the head of the while loop over the queue. */
  ghost predicate Searching(adj: Adjacency<string, string>, start: Character, end: Character,
                            paths: map<Character, seq<Link>>, queue: seq<Character>, done: set<Character>,
                            level: nat, mid: nat) {
    && Discovered(adj, start, paths)
    && Expanded(adj, paths, done)
    && Partition(paths, queue, done)
    && Layered(paths, queue, level, mid)
    && (|queue| > 0 ==> mid > 0)
    && (forall n | n in paths :: n == start || n in adj)
    && end !in done
    && (start == end || start !in adj ==> queue == [start] && done == {})
  }

  /** Discovering the destination of an edge out of the node being expanded
      (the body of the containsKey check) keeps the search state: the destination gets the
      expanded node's walk plus that edge and joins the back of the queue. */
  lemma DiscoverKeepsState(adj: Adjacency<string, string>, start: Character,
                           paths: map<Character, seq<Link>>, queue: seq<Character>,
                           done: set<Character>, curr: Character, level: nat, mid: nat, edge: Link)
    requires NoDanglingEdges(adj)
    requires Expanding(adj, start, paths, queue, done, curr, level, mid)
    requires edge in Out(adj, curr) && edge.destination !in paths
    ensures Expanding(adj, start, paths[edge.destination := paths[curr] + [edge]],
                      queue + [edge.destination], done, curr, level, mid)
  {
    DiscoverKeepsWalks(adj, start, paths, curr, edge);
    DiscoverKeepsExpanded(adj, paths, done, curr, edge);
    DiscoverKeepsPartition(paths, queue, done + {curr}, curr, edge);
    DiscoverKeepsLayers(paths, queue, level, mid, curr, edge);
  }

  lemma DiscoverKeepsWalks(adj: Adjacency<string, string>, start: Character,
                           paths: map<Character, seq<Link>>, curr: Character, edge: Link)
    requires Discovered(adj, start, paths)
    requires curr in paths && edge in Out(adj, curr) && edge.destination !in paths
    ensures Discovered(adj, start, paths[edge.destination := paths[curr] + [edge]])
  {
    ExtendWalk(adj, start, paths[curr], edge);
  }

  lemma DiscoverKeepsExpanded(adj: Adjacency<string, string>, paths: map<Character, seq<Link>>,
                              done: set<Character>, curr: Character, edge: Link)
    requires Expanded(adj, paths, done)
    requires curr in paths && edge.destination !in paths
    ensures Expanded(adj, paths[edge.destination := paths[curr] + [edge]], done)
  {
  }

  lemma DiscoverKeepsPartition(paths: map<Character, seq<Link>>, queue: seq<Character>,
                               seen: set<Character>, curr: Character, edge: Link)
    requires Partition(paths, queue, seen)
    requires forall i | 0 <= i < |queue| :: queue[i] in paths
    requires curr in paths && edge.destination !in paths && edge.destination !in seen
    ensures Partition(paths[edge.destination := paths[curr] + [edge]], queue + [edge.destination], seen)
  {
    var queue' := queue + [edge.destination];
    assert forall i | 0 <= i < |queue| :: queue'[i] == queue[i];
  }

  lemma DiscoverKeepsLayers(paths: map<Character, seq<Link>>, queue: seq<Character>,
                            level: nat, mid: nat, curr: Character, edge: Link)
    requires Layered(paths, queue, level, mid)
    requires curr in paths && |paths[curr]| == level && edge.destination !in paths
    ensures Layered(paths[edge.destination := paths[curr] + [edge]], queue + [edge.destination], level, mid)
  {
    var paths' := paths[edge.destination := paths[curr] + [edge]];
    var queue' := queue + [edge.destination];
    assert forall i | 0 <= i < |queue| :: queue'[i] == queue[i] && paths'[queue[i]] == paths[queue[i]];
  }

  /** Along any walk from start, the first vertex that is not expanded is
      discovered, with a recorded walk no longer than its position; if all of
      them are expanded, so is the i-th one. */
  lemma {:induction false} FirstUnexpanded(adj: Adjacency<string, string>, start: Character,
                                           paths: map<Character, seq<Link>>, done: set<Character>,
                                           w: seq<Link>, i: nat) returns (k: nat)
    requires IsWalk(adj, start, w) && i <= |w|
    requires start in paths && paths[start] == []
    requires Expanded(adj, paths, done)
    ensures k <= i
    ensures Vertex(start, w, k) in paths && |paths[Vertex(start, w, k)]| <= k
    ensures Vertex(start, w, k) !in done || k == i
  {
    if i == 0 {
      return 0;
    }
    k := FirstUnexpanded(adj, start, paths, done, w, i - 1);
    if Vertex(start, w, k) in done {
      assert k == i - 1;
      WalkStep(adj, start, w, i - 1);
      k := i;
    }
  }

  /** The node at the head of the queue has a recorded walk no longer than
      any walk that reaches it. */
  lemma HeadIsShortest(adj: Adjacency<string, string>, start: Character, paths: map<Character, seq<Link>>,
                       queue: seq<Character>, done: set<Character>, level: nat, mid: nat, w: seq<Link>)
    requires Discovered(adj, start, paths) && Expanded(adj, paths, done)
    requires Partition(paths, queue, done) && Layered(paths, queue, level, mid) && mid > 0
    requires IsWalk(adj, start, w) && Last(start, w) == queue[0]
    ensures |paths[queue[0]]| <= |w|
  {
    var k := FirstUnexpanded(adj, start, paths, done, w, |w|);
    var x := Vertex(start, w, k);
    if x !in done {
      var j :| 0 <= j < |queue| && queue[j] == x;
    }
  }

  /** Once nothing waits in the queue, no walk from start reaches a node
      that was never expanded. */
  lemma ExhaustedIsUnreachable(adj: Adjacency<string, string>, start: Character, paths: map<Character, seq<Link>>,
                               done: set<Character>, target: Character, w: seq<Link>)
    requires Discovered(adj, start, paths) && Expanded(adj, paths, done)
    requires paths.Keys <= done && target !in done
    requires IsWalk(adj, start, w)
    ensures Last(start, w) != target
  {
    var k := FirstUnexpanded(adj, start, paths, done, w, |w|);
  }

  /** When the node at the head of the queue is end (the early return), its recorded
      walk is a shortest walk from start to end. */
  lemma FoundIsShortest(adj: Adjacency<string, string>, start: Character, end: Character,
                        paths: map<Character, seq<Link>>, queue: seq<Character>, done: set<Character>,
                        level: nat, mid: nat)
    requires Searching(adj, start, end, paths, queue, done, level, mid) && |queue| > 0 && queue[0] == end
    ensures end in paths && IsWalk(adj, start, paths[end]) && Last(start, paths[end]) == end
    ensures forall w | IsWalk(adj, start, w) && Last(start, w) == end :: |paths[end]| <= |w|
  {
    forall w | IsWalk(adj, start, w) && Last(start, w) == end
      ensures |paths[end]| <= |w|
    {
      HeadIsShortest(adj, start, paths, queue, done, level, mid, w);
    }
  }

  /** When the queue runs empty (the final return of null), end cannot be reached. */
  lemma ExhaustedNotFound(adj: Adjacency<string, string>, start: Character, end: Character,
                          paths: map<Character, seq<Link>>, done: set<Character>, level: nat, mid: nat)
    requires Searching(adj, start, end, paths, [], done, level, mid)
    ensures forall w | IsWalk(adj, start, w) :: Last(start, w) != end
    ensures start != end && start in adj
  {
    forall w | IsWalk(adj, start, w)
      ensures Last(start, w) != end
    {
      ExhaustedIsUnreachable(adj, start, paths, done, end, w);
    }
  }

  /** The state before the first iteration: start is
      discovered with the empty walk and is the only node in the queue. */
  lemma InitialState(adj: Adjacency<string, string>, start: Character, end: Character)
    ensures Searching(adj, start, end, map[start := []], [start], {}, 0, 1)
  {
  }

  /** Taking the head off the queue (nodeQueue.remove) leaves the expansion state for
      that node. */
  lemma PopKeepsState(adj: Adjacency<string, string>, start: Character, end: Character,
                      paths: map<Character, seq<Link>>, queue: seq<Character>, done: set<Character>,
                      level: nat, mid: nat)
    requires Searching(adj, start, end, paths, queue, done, level, mid) && |queue| > 0
    ensures Expanding(adj, start, paths, queue[1..], done, queue[0], level, mid - 1)
  {
    var rest := queue[1..];
    assert forall i | 0 <= i < |rest| :: rest[i] == queue[i + 1];
    forall n | n in paths
      ensures n in done + {queue[0]} || n in rest
    {
      if n !in done && n != queue[0] {
        var j :| 0 <= j < |queue| && queue[j] == n;
        assert rest[j - 1] == n;
      }
    }
  }

  /** After the edge loop every edge out of curr is accounted for, so curr
      counts as expanded. */
  lemma FinishExpansion(adj: Adjacency<string, string>, paths: map<Character, seq<Link>>,
                        done: set<Character>, curr: Character, level: nat, edgeList: seq<Link>)
    requires Expanded(adj, paths, done) && curr in paths && |paths[curr]| == level
    requires forall n | n in paths :: |paths[n]| <= level + 1
    requires forall e | e in Out(adj, curr) :: e in edgeList
    requires forall e | e in edgeList :: e.destination in paths
    ensures Expanded(adj, paths, done + {curr})
  {
  }

  /** When the nodes of the current level are used up, the queue holds only
      the next level. */
  lemma NextLevel(paths: map<Character, seq<Link>>, queue: seq<Character>, level: nat)
    requires Layered(paths, queue, level, 0)
    ensures Layered(paths, queue, level + 1, |queue|)
  {
  }

  /** After the edge loop the search state holds again, with curr expanded;
      when the current level is used up the next one starts. */
  lemma FinishKeepsState(adj: Adjacency<string, string>, start: Character, end: Character,
                         paths: map<Character, seq<Link>>, queue: seq<Character>, done: set<Character>,
                         curr: Character, level: nat, mid: nat, edgeList: seq<Link>)
    returns (level': nat, mid': nat)
    requires Expanding(adj, start, paths, queue, done, curr, level, mid)
    requires curr != end && end !in done && curr in adj
    requires start == end || start !in adj ==> curr == start
    requires forall e | e in Out(adj, curr) :: e in edgeList
    requires forall e | e in edgeList :: e.destination in paths
    ensures Searching(adj, start, end, paths, queue, done + {curr}, level', mid')
    ensures mid' == if mid == 0 && queue != [] then |queue| else mid
  {
    FinishExpansion(adj, paths, done, curr, level, edgeList);
    if mid == 0 && queue != [] {
      NextLevel(paths, queue, level);
      level', mid' := level + 1, |queue|;
    } else {
      level', mid' := level, mid;
    }
  }

  // ---------------------------------------------------------------------
  // The order in which findPath discovers walks
  // ---------------------------------------------------------------------

  /** Every discovered node's recorded walk comes first, in the order of
      walks, among the walks from start to it of the same length. */
  ghost predicate Least(adj: Adjacency<string, string>, start: Character, paths: map<Character, seq<Link>>) {
    forall w | IsWalk(adj, start, w) && Last(start, w) in paths && |w| == |paths[Last(start, w)]| ::
      WalkAtMost(paths[Last(start, w)], w)
  }

  /** Nodes of the same layer wait in the queue in the order of their
      walks. */
  ghost predicate LayersInOrder(paths: map<Character, seq<Link>>, queue: seq<Character>) {
    forall i, j | 0 <= i < j < |queue| && queue[i] in paths && queue[j] in paths &&
                  |paths[queue[i]]| == |paths[queue[j]]| ::
      WalkBefore(paths[queue[i]], paths[queue[j]])
  }

  /** w is a walk one edge longer than parent whose prefix comes before
      parent, or is parent itself followed by one of the edges in used. */
  predicate FromEarlier(w: seq<Link>, parent: seq<Link>, used: seq<Link>) {
    w != [] && (WalkBefore(w[..|w| - 1], parent) || (w[..|w| - 1] == parent && w[|w| - 1] in used))
  }

  /** The walks of the next layer were found from nodes whose walks come
      before that of every node still waiting in the current layer. */
  ghost predicate AheadOfLayer(paths: map<Character, seq<Link>>, queue: seq<Character>, mid: nat) {
    forall i, j | 0 <= i < mid <= j < |queue| && queue[i] in paths && queue[j] in paths ::
      FromEarlier(paths[queue[j]], paths[queue[i]], [])
  }

  /** While curr is expanded: its walk comes before that of every node
      still waiting in its layer. */
  ghost predicate CurrFirst(paths: map<Character, seq<Link>>, queue: seq<Character>, mid: nat, curr: Character) {
    forall i | 0 <= i < mid && i < |queue| && queue[i] in paths && curr in paths ::
      WalkBefore(paths[curr], paths[queue[i]])
  }

  /** While curr is expanded: the walks of the next layer were found from
      nodes before curr, or from curr along one of the edges in used. */
  ghost predicate ChildrenInOrder(paths: map<Character, seq<Link>>, queue: seq<Character>, mid: nat,
                                  curr: Character, used: seq<Link>) {
    forall j | mid <= j < |queue| && queue[j] in paths && curr in paths ::
      FromEarlier(paths[queue[j]], paths[curr], used)
  }

  /** The order part of the state at the head of the while loop. */
  ghost predicate Ordered(adj: Adjacency<string, string>, start: Character, paths: map<Character, seq<Link>>,
                          queue: seq<Character>, mid: nat) {
    Least(adj, start, paths) && LayersInOrder(paths, queue) && AheadOfLayer(paths, queue, mid)
  }

  /** The order part of the state inside the for loop over curr's sorted
      edges, the edges in used being handled. */
  ghost predicate ExpandingOrdered(adj: Adjacency<string, string>, start: Character,
                                   paths: map<Character, seq<Link>>, queue: seq<Character>, mid: nat,
                                   curr: Character, used: seq<Link>) {
    && Least(adj, start, paths)
    && LayersInOrder(paths, queue)
    && CurrFirst(paths, queue, mid, curr)
    && ChildrenInOrder(paths, queue, mid, curr, used)
  }

  /** A walk found before parent + [e] comes before it in the order of
      walks, when every edge in used comes before e. */
  lemma FromEarlierBefore(w: seq<Link>, parent: seq<Link>, used: seq<Link>, e: Link)
    requires FromEarlier(w, parent, used)
    requires forall x | x in used :: LinkBefore(x, e)
    ensures WalkBefore(w, parent + [e])
  {
    var n := |w| - 1;
    assert w == w[..n] + [w[n]];
    WalkBeforeSnoc(w[..n], parent, w[n], e);
  }

  /** The start alone, with the empty walk, is in order. */
  lemma InitialOrder(adj: Adjacency<string, string>, start: Character)
    ensures Ordered(adj, start, map[start := []], [start], 1)
  {
  }

  /** Taking the head off the queue: it comes before the rest of its layer,
      and the next layer was found from nodes before it. */
  lemma PopKeepsOrder(adj: Adjacency<string, string>, start: Character, paths: map<Character, seq<Link>>,
                      queue: seq<Character>, level: nat, mid: nat)
    requires Ordered(adj, start, paths, queue, mid) && Layered(paths, queue, level, mid) && mid > 0
    ensures ExpandingOrdered(adj, start, paths, queue[1..], mid - 1, queue[0], [])
  {
    var rest := queue[1..];
    assert forall i | 0 <= i < |rest| :: rest[i] == queue[i + 1];
    forall i | 0 <= i < mid - 1 && i < |rest| && rest[i] in paths
      ensures WalkBefore(paths[queue[0]], paths[rest[i]])
    {
      assert rest[i] == queue[i + 1];
    }
    forall j | mid - 1 <= j < |rest| && rest[j] in paths
      ensures FromEarlier(paths[rest[j]], paths[queue[0]], [])
    {
      assert rest[j] == queue[j + 1];
    }
  }

  /** Discovering the destination of the k-th edge keeps the walks in
      order: it joins the back of the queue, after the next layer's walks
      found so far. */
  lemma DiscoverKeepsOrder(adj: Adjacency<string, string>, start: Character,
                           paths: map<Character, seq<Link>>, queue: seq<Character>, done: set<Character>,
                           curr: Character, level: nat, mid: nat, edgeList: seq<Link>, k: nat)
    requires Expanding(adj, start, paths, queue, done, curr, level, mid)
    requires k < |edgeList| && edgeList[k] in Out(adj, curr) && edgeList[k].destination !in paths
    requires ExpandingOrdered(adj, start, paths, queue, mid, curr, edgeList[..k])
    requires SortedLinks(edgeList) && forall e | e in Out(adj, curr) :: e in edgeList
    requires forall i | 0 <= i < k :: edgeList[i].destination in paths
    ensures ExpandingOrdered(adj, start, paths[edgeList[k].destination := paths[curr] + [edgeList[k]]],
                             queue + [edgeList[k].destination], mid, curr, edgeList[..k + 1])
  {
    DiscoverKeepsLeast(adj, start, paths, queue, done, curr, level, mid, edgeList, k);
    DiscoverKeepsQueueOrder(paths, queue, curr, level, mid, edgeList, k);
  }

  /** The queue part of DiscoverKeepsOrder: the new walk comes after every
      walk of the next layer found so far. */
  lemma DiscoverKeepsQueueOrder(paths: map<Character, seq<Link>>, queue: seq<Character>,
                                curr: Character, level: nat, mid: nat, edgeList: seq<Link>, k: nat)
    requires Layered(paths, queue, level, mid) && curr in paths && |paths[curr]| == level
    requires k < |edgeList| && edgeList[k].destination !in paths && SortedLinks(edgeList)
    requires LayersInOrder(paths, queue) && CurrFirst(paths, queue, mid, curr)
    requires ChildrenInOrder(paths, queue, mid, curr, edgeList[..k])
    ensures var paths', queue' := paths[edgeList[k].destination := paths[curr] + [edgeList[k]]],
                                  queue + [edgeList[k].destination];
      && LayersInOrder(paths', queue')
      && CurrFirst(paths', queue', mid, curr)
      && ChildrenInOrder(paths', queue', mid, curr, edgeList[..k + 1])
  {
    var e := edgeList[k];
    var v := e.destination;
    var paths' := paths[v := paths[curr] + [e]];
    var queue' := queue + [v];
    assert forall x | x in edgeList[..k] :: LinkBefore(x, e);
    assert forall i | 0 <= i < |queue| :: queue'[i] == queue[i] && paths'[queue[i]] == paths[queue[i]];
    forall i | 0 <= i < |queue| && |paths[queue[i]]| == level + 1
      ensures WalkBefore(paths[queue[i]], paths'[v])
    {
      FromEarlierBefore(paths[queue[i]], paths[curr], edgeList[..k], e);
    }
    assert paths'[v][..|paths'[v]| - 1] == paths[curr];
    assert e in edgeList[..k + 1];
    assert forall x | x in edgeList[..k] :: x in edgeList[..k + 1];
  }

  /** Skipping the k-th edge, whose destination is discovered already,
      keeps the walks in order. */
  lemma SkipKeepsOrder(adj: Adjacency<string, string>, start: Character,
                       paths: map<Character, seq<Link>>, queue: seq<Character>, mid: nat,
                       curr: Character, edgeList: seq<Link>, k: nat)
    requires k < |edgeList|
    requires ExpandingOrdered(adj, start, paths, queue, mid, curr, edgeList[..k])
    ensures ExpandingOrdered(adj, start, paths, queue, mid, curr, edgeList[..k + 1])
  {
    assert forall x | x in edgeList[..k] :: x in edgeList[..k + 1];
  }

  /** The new walk plus edge is the first among all walks to its
      destination of its length; every other recorded walk is unchanged. */
  lemma DiscoverKeepsLeast(adj: Adjacency<string, string>, start: Character,
                           paths: map<Character, seq<Link>>, queue: seq<Character>, done: set<Character>,
                           curr: Character, level: nat, mid: nat, edgeList: seq<Link>, k: nat)
    requires Expanding(adj, start, paths, queue, done, curr, level, mid)
    requires Least(adj, start, paths) && CurrFirst(paths, queue, mid, curr)
    requires SortedLinks(edgeList) && forall e | e in Out(adj, curr) :: e in edgeList
    requires k < |edgeList| && edgeList[k] in Out(adj, curr) && edgeList[k].destination !in paths
    requires forall i | 0 <= i < k :: edgeList[i].destination in paths
    ensures Least(adj, start, paths[edgeList[k].destination := paths[curr] + [edgeList[k]]])
  {
    var e := edgeList[k];
    var v := e.destination;
    var paths' := paths[v := paths[curr] + [e]];
    forall w | IsWalk(adj, start, w) && Last(start, w) in paths' && |w| == |paths'[Last(start, w)]|
      ensures WalkAtMost(paths'[Last(start, w)], w)
    {
      if Last(start, w) == v {
        assert Last(start, paths[curr]) == curr;
        NewWalkIsLeast(adj, start, paths, queue, done, curr, level, mid, edgeList, k, w);
      }
    }
  }

  /** Any walk of length level + 1 to the destination of the k-th edge
      comes no earlier than curr's walk plus that edge: its prefix reaches a
      node of curr's layer, whose walk comes no earlier than curr's, and
      when that node is curr itself the edges before the k-th lead
      elsewhere. */
  lemma NewWalkIsLeast(adj: Adjacency<string, string>, start: Character,
                       paths: map<Character, seq<Link>>, queue: seq<Character>, done: set<Character>,
                       curr: Character, level: nat, mid: nat, edgeList: seq<Link>, k: nat, w: seq<Link>)
    requires start in paths && paths[start] == [] && Expanded(adj, paths, done)
    requires Partition(paths, queue, done + {curr}) && Layered(paths, queue, level, mid)
    requires curr in paths && |paths[curr]| == level && Last(start, paths[curr]) == curr && curr !in done
    requires Least(adj, start, paths) && CurrFirst(paths, queue, mid, curr)
    requires SortedLinks(edgeList) && forall e | e in Out(adj, curr) :: e in edgeList
    requires k < |edgeList| && edgeList[k].destination !in paths
    requires forall i | 0 <= i < k :: edgeList[i].destination in paths
    requires IsWalk(adj, start, w) && Last(start, w) == edgeList[k].destination && |w| == level + 1
    ensures WalkAtMost(paths[curr] + [edgeList[k]], w)
  {
    var prefix, x := SplitWalk(adj, start, w);
    PenultimateInLayer(adj, start, paths, queue, done, curr, level, mid, prefix, x);
    ExtensionAtMost(adj, start, paths, queue, mid, curr, edgeList, k, prefix, x);
  }

  /** A non-empty walk is a shorter walk followed by an edge out of its
      end. */
  lemma SplitWalk(adj: Adjacency<string, string>, start: Character, w: seq<Link>) returns (prefix: seq<Link>, x: Link)
    requires IsWalk(adj, start, w) && w != []
    ensures w == prefix + [x] && |prefix| == |w| - 1
    ensures IsWalk(adj, start, prefix) && x in Out(adj, Last(start, prefix))
    ensures Last(start, w) == x.destination
  {
    prefix, x := w[..|w| - 1], w[|w| - 1];
  }

  /** The step of NewWalkIsLeast once the walk is split into a prefix of
      curr's length ending in curr's layer and a last edge x. */
  lemma ExtensionAtMost(adj: Adjacency<string, string>, start: Character,
                        paths: map<Character, seq<Link>>, queue: seq<Character>, mid: nat,
                        curr: Character, edgeList: seq<Link>, k: nat, prefix: seq<Link>, x: Link)
    requires Least(adj, start, paths) && CurrFirst(paths, queue, mid, curr)
    requires curr in paths && Last(start, paths[curr]) == curr && |paths[curr]| == |prefix|
    requires SortedLinks(edgeList) && forall e | e in Out(adj, curr) :: e in edgeList
    requires k < |edgeList| && edgeList[k].destination !in paths
    requires forall i | 0 <= i < k :: edgeList[i].destination in paths
    requires IsWalk(adj, start, prefix) && x in Out(adj, Last(start, prefix))
    requires x.destination == edgeList[k].destination
    requires Last(start, prefix) in paths && |paths[Last(start, prefix)]| == |prefix|
    requires Last(start, prefix) == curr || exists i | 0 <= i < mid && i < |queue| :: queue[i] == Last(start, prefix)
    ensures WalkAtMost(paths[curr] + [edgeList[k]], prefix + [x])
  {
    PrefixAtMost(adj, start, paths, queue, mid, curr, prefix);
    if paths[curr] == prefix {
      LastEdgeAtMost(paths, edgeList, k, x);
    }
    WalkBeforeSnoc(paths[curr], prefix, edgeList[k], x);
  }

  /** A walk of curr's length to curr or to a node still waiting in curr's
      layer comes no earlier than curr's walk, and equals it only at curr. */
  lemma PrefixAtMost(adj: Adjacency<string, string>, start: Character,
                     paths: map<Character, seq<Link>>, queue: seq<Character>, mid: nat,
                     curr: Character, prefix: seq<Link>)
    requires Least(adj, start, paths) && CurrFirst(paths, queue, mid, curr)
    requires curr in paths && Last(start, paths[curr]) == curr
    requires IsWalk(adj, start, prefix)
    requires Last(start, prefix) in paths && |paths[Last(start, prefix)]| == |prefix|
    requires Last(start, prefix) == curr || exists i | 0 <= i < mid && i < |queue| :: queue[i] == Last(start, prefix)
    ensures WalkAtMost(paths[curr], prefix)
    ensures paths[curr] == prefix ==> Last(start, prefix) == curr
  {
    var u := Last(start, prefix);
    assert WalkAtMost(paths[u], prefix);
    if u != curr {
      assert WalkBefore(paths[curr], paths[u]);
      if WalkBefore(paths[u], prefix) {
        WalkBeforeTransitive(paths[curr], paths[u], prefix);
      }
    }
  }

  /** An edge of the sorted list to the same destination as the k-th, whose
      predecessors all lead to discovered nodes, is the k-th or comes after
      it. */
  lemma LastEdgeAtMost(paths: map<Character, seq<Link>>, edgeList: seq<Link>, k: nat, x: Link)
    requires SortedLinks(edgeList) && k < |edgeList| && edgeList[k].destination !in paths
    requires forall i | 0 <= i < k :: edgeList[i].destination in paths
    requires x in edgeList && x.destination == edgeList[k].destination
    ensures x == edgeList[k] || LinkBefore(edgeList[k], x)
  {
    var i :| 0 <= i < |edgeList| && edgeList[i] == x;
    assert i >= k;
  }

  /** The walk of length level that a walk to an undiscovered node extends
      ends at a node of curr's layer that is not expanded: curr or one of
      the nodes still waiting in that layer. */
  lemma PenultimateInLayer(adj: Adjacency<string, string>, start: Character,
                           paths: map<Character, seq<Link>>, queue: seq<Character>, done: set<Character>,
                           curr: Character, level: nat, mid: nat, prefix: seq<Link>, x: Link)
    requires start in paths && paths[start] == [] && Expanded(adj, paths, done)
    requires Partition(paths, queue, done + {curr}) && Layered(paths, queue, level, mid)
    requires curr in paths && |paths[curr]| == level
    requires IsWalk(adj, start, prefix) && |prefix| == level
    requires x in Out(adj, Last(start, prefix)) && x.destination !in paths
    ensures Last(start, prefix) in paths && |paths[Last(start, prefix)]| == level
    ensures Last(start, prefix) == curr || exists i | 0 <= i < mid && i < |queue| :: queue[i] == Last(start, prefix)
  {
    var kk := FirstUnexpanded(adj, start, paths, done, prefix, level);
    var y := Vertex(start, prefix, kk);
    if y !in done {
      LayerOf(paths, queue, done, curr, level, mid, y);
    }
    assert kk == level;
    var u := Last(start, prefix);
    assert u !in done;
    LayerOf(paths, queue, done, curr, level, mid, u);
  }

  /** A discovered node that is not expanded is curr or waits in the
      queue, and so lies in curr's layer or the next. */
  lemma LayerOf(paths: map<Character, seq<Link>>, queue: seq<Character>, done: set<Character>,
                curr: Character, level: nat, mid: nat, y: Character)
    requires Partition(paths, queue, done + {curr}) && Layered(paths, queue, level, mid)
    requires curr in paths && |paths[curr]| == level
    requires y in paths && y !in done
    ensures |paths[y]| >= level
    ensures |paths[y]| == level ==> y == curr || exists i | 0 <= i < mid && i < |queue| :: queue[i] == y
  {
    if y != curr {
      var i :| 0 <= i < |queue| && queue[i] == y;
    }
  }

  /** After the for loop the walks are in order for the next pass of the
      while loop: the next layer was found from nodes up to curr, all of
      which come before the nodes still waiting in curr's layer. */
  lemma FinishKeepsOrder(adj: Adjacency<string, string>, start: Character,
                         paths: map<Character, seq<Link>>, queue: seq<Character>, mid: nat,
                         curr: Character, used: seq<Link>, mid': nat)
    requires curr in paths && ExpandingOrdered(adj, start, paths, queue, mid, curr, used)
    requires mid' == if mid == 0 && queue != [] then |queue| else mid
    ensures Ordered(adj, start, paths, queue, mid')
  {
    forall i, j | 0 <= i < mid' <= j < |queue| && queue[i] in paths && queue[j] in paths
      ensures FromEarlier(paths[queue[j]], paths[queue[i]], [])
    {
      var w := paths[queue[j]];
      if WalkBefore(w[..|w| - 1], paths[curr]) {
        WalkBeforeTransitive(w[..|w| - 1], paths[curr], paths[queue[i]]);
      }
    }
  }

  /** The walk recorded for end comes first among the walks to end of its
      length. */
  lemma FoundIsLeast(adj: Adjacency<string, string>, start: Character, end: Character,
                     paths: map<Character, seq<Link>>, queue: seq<Character>, mid: nat)
    requires Ordered(adj, start, paths, queue, mid) && end in paths
    ensures forall w | IsWalk(adj, start, w) && Last(start, w) == end && |w| == |paths[end]| ::
      WalkAtMost(paths[end], w)
  {
  }

  // ---------------------------------------------------------------------
  // findPath
  // ---------------------------------------------------------------------

  /** What expanding a node with walk parent and edges edges does to paths
      and the queue: every recorded walk stays as it was, each newly
      recorded walk is parent followed by one of the edges, and the new
      nodes, and only they, join the back of the queue. */
  ghost predicate Extends(paths: map<Character, seq<Link>>, queue: seq<Character>,
                          paths': map<Character, seq<Link>>, queue': seq<Character>,
                          parent: seq<Link>, edges: set<Link>) {
    && (forall n | n in paths :: n in paths' && paths'[n] == paths[n])
    && (forall n | n in paths' && n !in paths :: exists e | e in edges :: e.destination == n && paths'[n] == parent + [e])
    && queue <= queue'
    && (forall i | |queue| <= i < |queue'| :: queue'[i] in paths' && queue'[i] !in paths)
    && (forall n | n in paths' && n !in paths :: exists i | |queue| <= i < |queue'| :: queue'[i] == n)
  }

  /** Nothing done yet. */
  lemma ExtendsNothing(paths: map<Character, seq<Link>>, queue: seq<Character>, parent: seq<Link>, edges: set<Link>)
    ensures Extends(paths, queue, paths, queue, parent, edges)
  {
  }

  /** Recording parent plus one more edge e to a new node, and queueing
      that node. */
  lemma ExtendsStep(paths: map<Character, seq<Link>>, queue: seq<Character>,
                    paths1: map<Character, seq<Link>>, queue1: seq<Character>,
                    parent: seq<Link>, edges: set<Link>, e: Link)
    requires Extends(paths, queue, paths1, queue1, parent, edges)
    requires e in edges && e.destination !in paths1
    ensures Extends(paths, queue, paths1[e.destination := parent + [e]], queue1 + [e.destination], parent, edges)
  {
    var v := e.destination;
    var paths2, queue2 := paths1[v := parent + [e]], queue1 + [v];
    assert forall i | 0 <= i < |queue1| :: queue2[i] == queue1[i];
    assert queue2[|queue1|] == v;
    forall n | n in paths2 && n !in paths
      ensures exists i | |queue| <= i < |queue2| :: queue2[i] == n
    {
      if n != v {
        var i :| |queue| <= i < |queue1| && queue1[i] == n;
        assert queue2[i] == n;
      }
    }
  }

  /** The state of the for loop over curr's sorted edges after its first k
      passes, paths0 and queue0 being paths and the queue before it. */
  ghost predicate InForLoop(adj: Adjacency<string, string>, start: Character,
                            paths0: map<Character, seq<Link>>, queue0: seq<Character>,
                            paths: map<Character, seq<Link>>, queue: seq<Character>, done: set<Character>,
                            curr: Character, level: nat, mid: nat, edgeList: seq<Link>, k: nat) {
    && k <= |edgeList|
    && Expanding(adj, start, paths, queue, done, curr, level, mid)
    && (forall i | 0 <= i < k :: edgeList[i].destination in paths)
    && ExpandingOrdered(adj, start, paths, queue, mid, curr, edgeList[..k])
    && curr in paths0
    && Extends(paths0, queue0, paths, queue, paths0[curr], Out(adj, curr))
  }

  /** One pass of the for loop over the sorted edges, for the k-th edge of
      the list: when its destination is still undiscovered (not a key of
      paths), it records the current node's walk plus that edge and joins
      the back of the queue. paths0 and queue0 are paths and the queue
      before the for loop. */
  method Discover(ghost adj: Adjacency<string, string>, ghost start: Character,
                  paths: map<Character, seq<Link>>, queue: seq<Character>, ghost done: set<Character>,
                  curr: Character, ghost level: nat, ghost mid: nat, edgeList: seq<Link>, k: nat,
                  ghost paths0: map<Character, seq<Link>>, ghost queue0: seq<Character>)
    returns (paths': map<Character, seq<Link>>, queue': seq<Character>)
    requires NoDanglingEdges(adj)
    requires k < |edgeList| && edgeList[k] in Out(adj, curr)
    requires SortedLinks(edgeList) && forall e | e in Out(adj, curr) :: e in edgeList
    requires InForLoop(adj, start, paths0, queue0, paths, queue, done, curr, level, mid, edgeList, k)
    ensures InForLoop(adj, start, paths0, queue0, paths', queue', done, curr, level, mid, edgeList, k + 1)
    ensures edgeList[k].destination !in paths ==>
      paths' == paths[edgeList[k].destination := paths[curr] + [edgeList[k]]] && queue' == queue + [edgeList[k].destination]
    ensures edgeList[k].destination in paths ==> paths' == paths && queue' == queue
  {
    var edge := edgeList[k];
    var dest := edge.destination;
    if dest !in paths {
      DiscoverKeepsState(adj, start, paths, queue, done, curr, level, mid, edge);
      DiscoverKeepsOrder(adj, start, paths, queue, done, curr, level, mid, edgeList, k);
      ExtendsStep(paths0, queue0, paths, queue, paths0[curr], Out(adj, curr), edge);
      paths' := paths[dest := paths[curr] + [edge]];
      queue' := queue + [dest];
    } else {
      SkipKeepsOrder(adj, start, paths, queue, mid, curr, edgeList, k);
      paths', queue' := paths, queue;
    }
  }

  /** The for loop over the sorted list of curr's edges:
      afterwards every edge's destination is discovered. */
  method ExpandEdges(ghost adj: Adjacency<string, string>, ghost start: Character,
                     paths: map<Character, seq<Link>>, queue: seq<Character>, ghost done: set<Character>,
                     curr: Character, ghost level: nat, ghost mid: nat, edgeList: seq<Link>)
    returns (paths': map<Character, seq<Link>>, queue': seq<Character>)
    requires NoDanglingEdges(adj)
    requires Expanding(adj, start, paths, queue, done, curr, level, mid)
    requires forall e | e in edgeList :: e in Out(adj, curr)
    requires SortedLinks(edgeList) && forall e | e in Out(adj, curr) :: e in edgeList
    requires ExpandingOrdered(adj, start, paths, queue, mid, curr, [])
    ensures Expanding(adj, start, paths', queue', done, curr, level, mid)
    ensures forall e | e in edgeList :: e.destination in paths'
    ensures ExpandingOrdered(adj, start, paths', queue', mid, curr, edgeList)
    ensures Extends(paths, queue, paths', queue', paths[curr], Out(adj, curr))
  {
    paths', queue' := paths, queue;
    var k := 0;
    assert edgeList[..0] == [];
    ExtendsNothing(paths, queue, paths[curr], Out(adj, curr));
    while k < |edgeList|
      invariant InForLoop(adj, start, paths, queue, paths', queue', done, curr, level, mid, edgeList, k)
    {
      paths', queue' := Discover(adj, start, paths', queue', done, curr, level, mid, edgeList, k, paths, queue);
      k := k + 1;
    }
    assert edgeList[..k] == edgeList;
  }

  /** The rest of the while loop's body once curr's edges are fetched: the
      edges sorted, then the for loop over them. */
  method ExpandNode(ghost adj: Adjacency<string, string>, ghost start: Character, ghost end: Character,
                    paths: map<Character, seq<Link>>, queue: seq<Character>, ghost done: set<Character>,
                    curr: Character, ghost level: nat, ghost mid: nat, edges: set<Link>)
    returns (paths': map<Character, seq<Link>>, queue': seq<Character>, ghost level': nat, ghost mid': nat)
    requires NoDanglingEdges(adj)
    requires Expanding(adj, start, paths, queue, done, curr, level, mid)
    requires ExpandingOrdered(adj, start, paths, queue, mid, curr, [])
    requires curr != end && end !in done && curr in adj && edges == adj[curr]
    requires start == end || start !in adj ==> curr == start
    ensures Searching(adj, start, end, paths', queue', done + {curr}, level', mid')
    ensures Ordered(adj, start, paths', queue', mid')
    ensures Extends(paths, queue, paths', queue', paths[curr], edges)
    ensures forall e | e in edges :: e.destination in paths'
  {
    var edgeList := SortLinks(edges);
    paths', queue' := ExpandEdges(adj, start, paths, queue, done, curr, level, mid, edgeList);
    level', mid' := FinishKeepsState(adj, start, end, paths', queue', done, curr, level, mid, edgeList);
    FinishKeepsOrder(adj, start, paths', queue', mid, curr, edgeList, mid');
  }

  /**
   * findPath: breadth-first search from start, expanding each node's edges
   * in ascending expansion order. The result is an error when start is not a
   * node (and differs from end); otherwise a shortest walk to end, or None
   * when end cannot be reached.
   */
  method FindPath(start: string, end: string, graph: DirectedLabeledGraph<string, string>)
    returns (r: Result<Option<seq<Link>>>)
    requires graph.Valid()
    ensures r.Err? <==> start != end && Node(start) !in graph.adj
    ensures start == end ==> r == Ok(Some([]))
    ensures r.Ok? && r.value.Some? ==>
      IsWalk(graph.adj, Node(start), r.value.value) && Last(Node(start), r.value.value) == Node(end)
    ensures r.Ok? && r.value.Some? ==>
      forall w | IsWalk(graph.adj, Node(start), w) && Last(Node(start), w) == Node(end) :: |r.value.value| <= |w|
    ensures r.Ok? && r.value.Some? ==>
      forall w | IsWalk(graph.adj, Node(start), w) && Last(Node(start), w) == Node(end) &&
                 |w| == |r.value.value| :: WalkAtMost(r.value.value, w)
    ensures r.Ok? && r.value.None? ==>
      forall w | IsWalk(graph.adj, Node(start), w) :: Last(Node(start), w) != Node(end)
  {
    var startNode, endNode := Node(start), Node(end);
    ghost var adj := graph.adj;
    var queue := [startNode];
    var paths := map[startNode := []];
    ghost var done: set<Character> := {};
    ghost var level: nat, mid: nat := 0, 1;
    ghost var universe := adj.Keys + {startNode};
    InitialState(adj, startNode, endNode);
    InitialOrder(adj, startNode);
    while queue != []
      invariant Searching(adj, startNode, endNode, paths, queue, done, level, mid)
      invariant Ordered(adj, startNode, paths, queue, mid)
      decreases |universe - done|
    {
      PopKeepsState(adj, startNode, endNode, paths, queue, done, level, mid);
      PopKeepsOrder(adj, startNode, paths, queue, level, mid);
      var curr := queue[0];
      if curr == endNode {
        FoundIsShortest(adj, startNode, endNode, paths, queue, done, level, mid);
        FoundIsLeast(adj, startNode, endNode, paths, queue, mid);
      }
      queue := queue[1..];
      if curr == endNode {
        return Ok(Some(paths[curr]));
      }
      var edges := graph.GetEdges(curr);
      if edges.Err? {
        return Err(IllegalArgument);
      }
      paths, queue, level, mid := ExpandNode(adj, startNode, endNode, paths, queue, done, curr, level, mid - 1,
                                             edges.value);
      FewerLeft(universe, done, curr);
      done := done + {curr};
    }
    ExhaustedNotFound(adj, startNode, endNode, paths, done, level, mid);
    return Ok(None);
  }

  // ---------------------------------------------------------------------
  // buildGraph
  // ---------------------------------------------------------------------

  /** The nodes of the characters in a list. */
  function NodesOf(names: seq<string>): set<Character> {
    set x | x in names :: Node(x)
  }

  /** Every character listed under some book. */
  function Characters(books: map<string, seq<string>>): set<Character> {
    set b, x | b in books && x in books[b] :: Node(x)
  }

  /** The edges labelled book from the character named x to every other
      character of ys. */
  function Targets(book: string, ys: seq<string>, x: string): set<Link> {
    set y | y in ys && y != x :: Edge(book, Node(y))
  }

  /** The edges of character n in the network: one edge labelled with the
      book to every other character of every book that lists n. */
  function CoAppearances(books: map<string, seq<string>>, n: Character): set<Link> {
    set b, y | b in books && n.name in books[b] && y in books[b] && y != n.name :: Edge(b, Node(y))
  }

  /** The network graph of a book-to-characters map: its nodes are the
      characters, and n's edges are its co-appearances. */
  function Network(books: map<string, seq<string>>): (adj: Adjacency<string, string>)
    ensures adj.Keys == Characters(books)
  {
    map n | n in Characters(books) :: CoAppearances(books, n)
  }

  /** An edge labelled b from x to y exists exactly when book b lists both x
      and y and they are different characters. */
  lemma NetworkEdge(books: map<string, seq<string>>, b: string, x: string, y: string)
    ensures Edge(b, Node(y)) in Out(Network(books), Node(x))
        <==> b in books && x in books[b] && y in books[b] && x != y
  {
    if b in books && x in books[b] && y in books[b] && x != y {
      assert Node(x) in Characters(books);
      assert Edge(b, Node(y)) in CoAppearances(books, Node(x));
    }
  }

  /** Edges of the network come in pairs: a to b in book B exactly when b to
      a in book B. */
  lemma NetworkSymmetric(books: map<string, seq<string>>, b: string, x: string, y: string)
    ensures Edge(b, Node(y)) in Out(Network(books), Node(x)) <==> Edge(b, Node(x)) in Out(Network(books), Node(y))
  {
    NetworkEdge(books, b, x, y);
    NetworkEdge(books, b, y, x);
  }

  /** The network has no self-loops and no dangling edges. */
  lemma NetworkShape(books: map<string, seq<string>>)
    ensures NoDanglingEdges(Network(books))
    ensures forall n, e | n in Network(books) && e in Network(books)[n] :: e.destination != n
  {
    var adj := Network(books);
    forall n: Character, e: Link | n in adj && e in adj[n]
      ensures e.destination in adj && e.destination != n
    {
      var b, y :| b in books && n.name in books[b] && y in books[b] && y != n.name && e == Edge(b, Node(y));
      assert Node(y) in Characters(books);
    }
  }

  /** Adding one more book to the map adds its characters as nodes. */
  lemma NetworkAddBookKeys(books: map<string, seq<string>>, book: string, names: seq<string>)
    requires book !in books
    ensures Network(books[book := names]).Keys == Network(books).Keys + NodesOf(names)
  {
    var more := books[book := names];
    forall n | n in Characters(more) ensures n in Characters(books) + NodesOf(names) {
      var b, x :| b in more && x in more[b] && n == Node(x);
    }
    forall n | n in Characters(books) ensures n in Characters(more) {
      var b, x :| b in books && x in books[b] && n == Node(x);
      assert b in more && x in more[b];
    }
    forall n | n in NodesOf(names) ensures n in Characters(more) {
      var x :| x in names && n == Node(x);
      assert book in more && x in more[book];
    }
  }

  /** The edges of n in the larger network come from the smaller one or
      from the new book. */
  lemma NetworkAddBookOutSub(books: map<string, seq<string>>, book: string, names: seq<string>, n: Character)
    requires book !in books
    ensures Out(Network(books[book := names]), n)
         <= Out(Network(books), n) + (if n.name in names then Targets(book, names, n.name) else {})
  {
    var more := books[book := names];
    forall e | e in Out(Network(more), n)
      ensures e in Out(Network(books), n) + (if n.name in names then Targets(book, names, n.name) else {})
    {
      var b, y :| b in more && n.name in more[b] && y in more[b] && y != n.name && e == Edge(b, Node(y));
      if b != book {
        assert n in Characters(books);
        assert e in CoAppearances(books, n);
      }
    }
  }

  /** The edges of n in the smaller network and those from the new book are
      all in the larger network. */
  lemma NetworkAddBookOutSuper(books: map<string, seq<string>>, book: string, names: seq<string>, n: Character)
    requires book !in books
    ensures Out(Network(books), n) + (if n.name in names then Targets(book, names, n.name) else {})
         <= Out(Network(books[book := names]), n)
  {
    var more := books[book := names];
    NetworkAddBookKeys(books, book, names);
    if n.name in names {
      assert n in NodesOf(names);
    }
    forall e | e in Out(Network(books), n) ensures e in Out(Network(more), n) {
      var b, y :| b in books && n.name in books[b] && y in books[b] && y != n.name && e == Edge(b, Node(y));
      assert b in more && more[b] == books[b];
    }
    if n.name in names {
      forall e | e in Targets(book, names, n.name) ensures e in Out(Network(more), n) {
        var y :| y in names && y != n.name && e == Edge(book, Node(y));
        assert book in more && more[book] == names;
      }
    }
  }

  /** Adding one more book to the map adds its co-appearance edges, and
      nothing else. */
  lemma NetworkAddBookOut(books: map<string, seq<string>>, book: string, names: seq<string>, n: Character)
    requires book !in books
    ensures Out(Network(books[book := names]), n)
         == Out(Network(books), n) + (if n.name in names then Targets(book, names, n.name) else {})
  {
    NetworkAddBookOutSub(books, book, names, n);
    NetworkAddBookOutSuper(books, book, names, n);
  }

  /** Growing a list by one character, for NodesOf and Targets. */
  lemma ListStep(book: string, names: seq<string>, j: nat, x: string)
    requires j < |names|
    ensures NodesOf(names[..j + 1]) == NodesOf(names[..j]) + {Node(names[j])}
    ensures Targets(book, names[..j + 1], x)
         == Targets(book, names[..j], x) + (if names[j] != x then {Edge(book, Node(names[j]))} else {})
  {
    assert names[..j + 1] == names[..j] + [names[j]];
  }

  /** The adjacency after the innermost loop of buildGraph has handled the characters xs of
      the book: name1 is a node, each of xs is a node, and name1 has an edge
      labelled book to each of xs that differs from it. */
  function Row(adj: Adjacency<string, string>, book: string, name1: string, xs: seq<string>): Adjacency<string, string>
    decreases |xs|
  {
    if xs == [] then AddNodeTo(adj, Node(name1))
    else
      var name2 := xs[|xs| - 1];
      var a := AddNodeTo(Row(adj, book, name1, xs[..|xs| - 1]), Node(name2));
      if name1 != name2 then AddEdgeTo(a, book, Node(name1), Node(name2)) else a
  }

  /** The adjacency after the loop over a book's characters has handled the rows of the
      characters xs of the book names. */
  function Book(adj: Adjacency<string, string>, book: string, names: seq<string>, xs: seq<string>): Adjacency<string, string>
    decreases |xs|
  {
    if xs == [] then adj
    else Row(Book(adj, book, names, xs[..|xs| - 1]), book, xs[|xs| - 1], names)
  }

  /** Row and Book for one more character, as the loops of buildGraph take it. */
  lemma RowStep(adj: Adjacency<string, string>, book: string, name1: string, xs: seq<string>, j: nat)
    requires j < |xs|
    ensures name1 != xs[j] ==>
              Row(adj, book, name1, xs[..j + 1])
              == AddEdgeTo(AddNodeTo(Row(adj, book, name1, xs[..j]), Node(xs[j])), book, Node(name1), Node(xs[j]))
    ensures name1 == xs[j] ==> Row(adj, book, name1, xs[..j + 1]) == AddNodeTo(Row(adj, book, name1, xs[..j]), Node(xs[j]))
  {
    assert xs[..j + 1][..j] == xs[..j];
  }

  lemma BookStep(adj: Adjacency<string, string>, book: string, names: seq<string>, xs: seq<string>, i: nat)
    requires i < |xs|
    ensures Book(adj, book, names, xs[..i + 1]) == Row(Book(adj, book, names, xs[..i]), book, xs[i], names)
  {
    assert xs[..i + 1][..i] == xs[..i];
  }

  /** One row adds name1 and the characters as nodes. */
  lemma {:induction false} RowKeys(adj: Adjacency<string, string>, book: string, name1: string, xs: seq<string>)
    ensures Row(adj, book, name1, xs).Keys == adj.Keys + {Node(name1)} + NodesOf(xs)
    decreases |xs|
  {
    if xs != [] {
      var k := |xs| - 1;
      RowKeys(adj, book, name1, xs[..k]);
      ListStep(book, xs, k, name1);
      assert xs[..k + 1] == xs;
    }
  }

  /** One row adds exactly the edges from name1 to the other characters. */
  lemma {:induction false} RowOut(adj: Adjacency<string, string>, book: string, name1: string, xs: seq<string>, n: Character)
    ensures Out(Row(adj, book, name1, xs), n) == Out(adj, n) + (if n == Node(name1) then Targets(book, xs, name1) else {})
    decreases |xs|
  {
    if xs != [] {
      var k := |xs| - 1;
      RowOut(adj, book, name1, xs[..k], n);
      ListStep(book, xs, k, name1);
      assert xs[..k + 1] == xs;
      var a := AddNodeTo(Row(adj, book, name1, xs[..k]), Node(xs[k]));
      assert Out(a, n) == Out(Row(adj, book, name1, xs[..k]), n);
      if name1 != xs[k] {
        OutAfterAddEdge(a, book, Node(name1), Node(xs[k]), n);
      }
    }
  }

  /** Handling the rows of xs adds the characters of xs as nodes, and all
      the characters of the book once xs is not empty. */
  lemma {:induction false} BookKeys(adj: Adjacency<string, string>, book: string, names: seq<string>, xs: seq<string>)
    ensures Book(adj, book, names, xs).Keys == adj.Keys + NodesOf(xs) + (if xs == [] then {} else NodesOf(names))
    decreases |xs|
  {
    if xs != [] {
      var k := |xs| - 1;
      BookKeys(adj, book, names, xs[..k]);
      RowKeys(Book(adj, book, names, xs[..k]), book, xs[k], names);
      ListStep(book, xs, k, xs[k]);
      assert xs[..k + 1] == xs;
    }
  }

  /** Handling the rows of xs gives each character of xs its edges to the
      other characters of the book, and nothing else. */
  lemma {:induction false} BookOut(adj: Adjacency<string, string>, book: string, names: seq<string>, xs: seq<string>, n: Character)
    ensures Out(Book(adj, book, names, xs), n) == Out(adj, n) + (if n.name in xs then Targets(book, names, n.name) else {})
    decreases |xs|
  {
    if xs != [] {
      var k := |xs| - 1;
      assert xs == xs[..k] + [xs[k]];
      BookOut(adj, book, names, xs[..k], n);
      RowOut(Book(adj, book, names, xs[..k]), book, xs[k], names, n);
    }
  }

  /** Handling one more book turns the network of the books done so far into
      the network of those books and this one. */
  lemma BookIsNetwork(books: map<string, seq<string>>, book: string, names: seq<string>)
    requires book !in books
    ensures Book(Network(books), book, names, names) == Network(books[book := names])
  {
    var a := Book(Network(books), book, names, names);
    var b := Network(books[book := names]);
    BookKeys(Network(books), book, names, names);
    NetworkAddBookKeys(books, book, names);
    assert a.Keys == b.Keys;
    forall n | n in a ensures a[n] == b[n] {
      BookOut(Network(books), book, names, names, n);
      NetworkAddBookOut(books, book, names, n);
    }
  }

  /** The books handled so far, once one more is done. */
  lemma OneMoreBook(books: map<string, seq<string>>, remaining: set<string>, book: string)
    requires book in remaining && remaining <= books.Keys
    ensures book !in books - remaining
    ensures books - (remaining - {book}) == (books - remaining)[book := books[book]]
  {
  }

  /** The body of buildGraph's loop over name1: name1 and every character of the book
      become nodes, with an edge labelled book from name1 to each other one. */
  method AddRow(graph: DirectedLabeledGraph<string, string>, book: string, name1: string, names: seq<string>)
    requires graph.Valid()
    modifies graph
    ensures graph.Valid()
    ensures graph.adj == Row(old(graph.adj), book, name1, names)
  {
    var name1Node := Node(name1);
    var ignored := graph.AddNode(name1Node);
    var j := 0;
    while j < |names|
      invariant j <= |names|
      invariant graph.Valid()
      invariant graph.adj == Row(old(graph.adj), book, name1, names[..j])
    {
      var name2Node := Node(names[j]);
      ignored := graph.AddNode(name2Node);
      if name1 != names[j] {
        ignored := graph.AddEdge(book, name1Node, name2Node);
      }
      RowStep(old(graph.adj), book, name1, names, j);
      j := j + 1;
    }
    assert names[..j] == names;
  }

  /** The loop of buildGraph over the characters of one book: one row for each character of the book. */
  method AddBook(graph: DirectedLabeledGraph<string, string>, book: string, names: seq<string>)
    requires graph.Valid()
    modifies graph
    ensures graph.Valid()
    ensures graph.adj == Book(old(graph.adj), book, names, names)
  {
    var i := 0;
    while i < |names|
      invariant i <= |names|
      invariant graph.Valid()
      invariant graph.adj == Book(old(graph.adj), book, names, names[..i])
    {
      BookStep(old(graph.adj), book, names, names, i);
      AddRow(graph, book, names[i], names);
      i := i + 1;
    }
    assert names[..i] == names;
  }

  /**
   * buildGraph: the graph over the book-to-characters map read by the
   * parser. For every book (in unspecified order), every listed character
   * becomes a node and gets an edge labelled with the book to every other
   * character of that book.
   */
  method BuildGraph(books: map<string, seq<string>>) returns (graph: DirectedLabeledGraph<string, string>)
    ensures fresh(graph) && graph.Valid()
    ensures graph.adj == Network(books)
  {
    graph := new DirectedLabeledGraph();
    var remaining := books.Keys;
    while remaining != {}
      invariant remaining <= books.Keys
      invariant fresh(graph) && graph.Valid()
      invariant graph.adj == Network(books - remaining)
      decreases remaining
    {
      var book :| book in remaining;
      var names := books[book];
      AddBook(graph, book, names);
      OneMoreBook(books, remaining, book);
      BookIsNetwork(books - remaining, book, names);
      remaining := remaining - {book};
    }
    assert books - remaining == books;
  }
}
