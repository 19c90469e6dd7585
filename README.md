# CampusPaths core in Dafny

This project models the algorithmic core of the CampusPaths course
repository and proves what its operations promise:

- **DirectedLabeledGraph** (`graph.dfy`, module `Graph`): a mutable directed
  labelled multigraph held as a map from each node to the set of its
  outgoing edges. The class keeps that map in a field, its mutators update it
  in place, and each one is proved to produce exactly the map a pure function
  (`AddNodeTo`, `AddEdgeTo`, `RemoveEdgeFrom`, `RemoveNodeFrom`) describes. Lemmas
  about those functions show the representation invariant (no dangling edge)
  is kept, the removeNode cascade, commutation and idempotence of addEdge, and
  the add/remove round trips.
- **MarvelParser.parseData** (`marvel_parser.dfy`): the loop that splits each
  line at commas into a character and a book and groups the characters by
  book, failing on any malformed line. `String.split(",")` is modelled
  exactly, including its dropping of trailing empty pieces.
- **MarvelPaths** (`marvel_paths.dfy`): `buildGraph`, which turns the book map
  into the co-appearance network (proved equal to a declarative `Network`),
  and `findPath`, the breadth-first search, proved to return a walk of the
  graph that is no longer than any other walk to the same character, or
  nothing exactly when no walk exists.
- **CampusPaths.findPath** (`campus_paths.dfy`): Dijkstra's search over a graph
  whose edge labels are non-negative weights, proved to return a path of
  least total cost, or nothing exactly when none exists.
- **RatPoly** (`rat_poly.dfy`, module `Poly`, over `rat_terms.dfy`): polynomials
  as term lists sorted by descending exponent without zero coefficients. Every
  operation is proved to keep that invariant and to produce the coefficients
  it stands for (`Coeff`, the source's "cofind"). `CanonicalUnique` shows the
  coefficients determine the list, so list equality is polynomial equality.
  Differentiation and antidifferentiation are proved inverse to each other,
  and division is proved to satisfy `this = q * p + r` with the remainder of
  lower degree.

`wrappers.dfy` holds the `Option` and `Result` types used for the source's
`null` results and exceptions.

RatNum and RatTerm are not part of this model's sources. `rat_terms.dfy`
gives them the meaning their use in RatPoly needs. A RatNum is an exact
rational (a Dafny `real`) or NaN. NaN absorbs every arithmetic operation, and
division by zero gives NaN. The term operations are those that RatPoly's
comments describe.

## Model

| member | source | states |
|---|---|---|
| Graph.AddNodeTo | hw-graph/src/main/java/graph/DirectedLabeledGraph.java:57-67 | the node set gains n, a new node has no edges, existing entries are untouched |
| Graph.AddEdgeTo | hw-graph/src/main/java/graph/DirectedLabeledGraph.java:101-117 | both endpoints become nodes, the source's set gains the edge, no other set changes |
| Graph.RemoveEdgeFrom | hw-graph/src/main/java/graph/DirectedLabeledGraph.java:129-142 | the node set is unchanged and only the named edge leaves the source's set |
| Graph.WithoutEdgesTo | hw-graph/src/main/java/graph/DirectedLabeledGraph.java:171-176 | the removeIf of fixGraph keeps exactly the edges not pointing at n |
| Graph.RemoveEdgesTo | hw-graph/src/main/java/graph/DirectedLabeledGraph.java:171-176 | fixGraph keeps every node and removes exactly the edges into n |
| Graph.RemoveNodeFrom | hw-graph/src/main/java/graph/DirectedLabeledGraph.java:152-163 | n leaves the node set; an edge survives exactly when it does not point at n |
| Graph.MutatorsPreserveNoDanglingEdges | hw-graph/src/main/java/graph/DirectedLabeledGraph.java:32-35 | addNode, addEdge, removeEdge and removeNode all keep "every edge's destination is a node" |
| Graph.RemoveNodePreservesNoDanglingEdges | hw-graph/src/main/java/graph/DirectedLabeledGraph.java:152-176 | the fixGraph sweep restores the invariant after removing a node |
| Graph.RemoveNodeCascades | hw-graph/src/main/java/graph/DirectedLabeledGraph.java:152-176 | after removeNode(n) no edge anywhere points at n |
| Graph.AddThenRemoveNode | hw-graph/src/main/java/graph/DirectedLabeledGraph.java:57-67 | adding a fresh node and removing it gives back the graph |
| Graph.RemoveIsolatedNode | hw-graph/src/main/java/graph/DirectedLabeledGraph.java:152-163 | removing a node without incident edges only drops it from the node set |
| Graph.AddExistingEdge | hw-graph/src/main/java/graph/DirectedLabeledGraph.java:101-117 | adding an edge already present changes nothing |
| Graph.AddEdgeIdempotent | hw-graph/src/main/java/graph/DirectedLabeledGraph.java:101-117 | adding the same edge twice equals adding it once |
| Graph.OutAfterAddEdge | hw-graph/src/main/java/graph/DirectedLabeledGraph.java:101-117 | after addEdge the new edge appears among the source's edges and nowhere else |
| Graph.AddEdgesCommute | hw-graph/src/main/java/graph/DirectedLabeledGraph.java:101-117 | the graph does not depend on the order two edges are added in |
| Graph.ParallelEdgesAndSelfLoops | hw-graph/src/main/java/graph/DirectedLabeledGraph.java:36-37 | two edges between the same nodes with different labels both survive; a self-loop is an ordinary edge and keeps the invariant |
| Graph.AddThenRemoveEdge | hw-graph/src/main/java/graph/DirectedLabeledGraph.java:129-142 | removing an edge just added between existing nodes restores the graph |
| Graph.DirectedLabeledGraph.constructor | hw-graph/src/main/java/graph/DirectedLabeledGraph.java:43-46 | a new graph has no nodes and satisfies the invariant |
| Graph.DirectedLabeledGraph.AddNode | hw-graph/src/main/java/graph/DirectedLabeledGraph.java:57-67 | returns true exactly when the node was absent; the new map is AddNodeTo of the old; the invariant is kept |
| Graph.DirectedLabeledGraph.AddEdge | hw-graph/src/main/java/graph/DirectedLabeledGraph.java:101-117 | returns true exactly when the edge was new; the new map is AddEdgeTo of the old; the invariant is kept |
| Graph.DirectedLabeledGraph.RemoveEdge | hw-graph/src/main/java/graph/DirectedLabeledGraph.java:129-142 | returns true exactly when the edge existed; the new map is RemoveEdgeFrom of the old |
| Graph.DirectedLabeledGraph.RemoveNode | hw-graph/src/main/java/graph/DirectedLabeledGraph.java:152-163 | returns true exactly when the node existed; then the new map is RemoveNodeFrom of the old, otherwise unchanged |
| Graph.DirectedLabeledGraph.FixGraph | hw-graph/src/main/java/graph/DirectedLabeledGraph.java:171-176 | the loop over all nodes leaves RemoveEdgesTo of the old map |
| Graph.DirectedLabeledGraph.ListChildren | hw-graph/src/main/java/graph/DirectedLabeledGraph.java:204-214 | an error exactly for an absent node; otherwise one entry per outgoing edge, and each node is listed exactly as often as edges lead to it |
| Graph.DirectedLabeledGraph.GetNodes | hw-graph/src/main/java/graph/DirectedLabeledGraph.java:229-231 | exactly the node set |
| Graph.DirectedLabeledGraph.GetNodeByName | hw-graph/src/main/java/graph/DirectedLabeledGraph.java:239-249 | a node of the graph with that label, or nothing when no node has it |
| Graph.DirectedLabeledGraph.GetEdgesBetween | hw-graph/src/main/java/graph/DirectedLabeledGraph.java:258-270 | an error exactly when either node is absent; otherwise exactly the labels of the edges from source to destination |
| Graph.DirectedLabeledGraph.GetEdges | hw-graph/src/main/java/graph/DirectedLabeledGraph.java:278-284 | an error exactly for an absent node; otherwise exactly its outgoing edges |
| Graph.DirectedLabeledGraph.Clear | hw-graph/src/main/java/graph/DirectedLabeledGraph.java:291-295 | the graph becomes empty |
| Graph.DirectedLabeledGraph.Equals | hw-graph/src/main/java/graph/DirectedLabeledGraph.java:314-322 | true exactly when both graphs have the same nodes and the same edges at every node |
| MarvelParser.Fields | hw-marvel/src/main/java/marvel/MarvelParser.java:49 | the comma-separated pieces, never none |
| MarvelParser.Split | hw-marvel/src/main/java/marvel/MarvelParser.java:49 | `line.split(",")`: the comma-separated pieces up to the last non-empty one (a line without a comma, even an empty one, is its only piece), none of them holding a comma |
| MarvelParser.DropTrailingEmpty | hw-marvel/src/main/java/marvel/MarvelParser.java:49 | a prefix of the pieces that ends in a non-empty piece, and everything dropped is empty |
| MarvelParser.FieldsHaveNoComma | hw-marvel/src/main/java/marvel/MarvelParser.java:49 | no piece holds a comma |
| MarvelParser.JoinFields | hw-marvel/src/main/java/marvel/MarvelParser.java:49 | joining the pieces with commas gives the line back |
| MarvelParser.FieldsJoin | hw-marvel/src/main/java/marvel/MarvelParser.java:49 | splitting comma-free pieces after joining them gives them back |
| MarvelParser.ParseLine | hw-marvel/src/main/java/marvel/MarvelParser.java:49-54 | a line gives an entry exactly when it splits into two pieces |
| MarvelParser.ParseWrittenLine | hw-marvel/src/main/java/marvel/MarvelParser.java:49-54 | "name,book" with comma-free parts and a non-empty book parses back into that name and book |
| MarvelParser.ParsedLineShape | hw-marvel/src/main/java/marvel/MarvelParser.java:49-54 | a line that parses is name, comma, non-empty book and possibly trailing commas, with comma-free parts |
| MarvelParser.Entries | hw-marvel/src/main/java/marvel/MarvelParser.java:48-54 | one entry per line, each the parse of its line |
| MarvelParser.LineContributes | hw-marvel/src/main/java/marvel/MarvelParser.java:55-58 | each line adds its own name, in its place, to the list of its own book |
| MarvelParser.BooksHaveNames | hw-marvel/src/main/java/marvel/MarvelParser.java:55-58 | a book is a key exactly when its list of names is not empty |
| MarvelParser.GroupedStep | hw-marvel/src/main/java/marvel/MarvelParser.java:55-58 | creating a missing list and appending the name groups one more line |
| MarvelParser.ParseData | hw-marvel/src/main/java/marvel/MarvelParser.java:40-64 | an IOException exactly when some line is malformed; otherwise the keys are the books on the lines and each book maps to its names in file order |
| MarvelPaths.CompareStrings | hw-marvel/src/main/java/marvel/MarvelPaths.java:96-109 | String.compareTo against an empty string is the length difference |
| MarvelPaths.CompareStringsZero | hw-marvel/src/main/java/marvel/MarvelPaths.java:96-109 | compareTo is zero exactly on equal strings |
| MarvelPaths.CompareStringsAntisymmetric | hw-marvel/src/main/java/marvel/MarvelPaths.java:96-109 | swapping the operands negates compareTo |
| MarvelPaths.CompareStringsTransitive | hw-marvel/src/main/java/marvel/MarvelPaths.java:96-109 | "less than" by compareTo is transitive |
| MarvelPaths.CompareLinks | hw-marvel/src/main/java/marvel/MarvelPaths.java:77 | the comparator destination label then edge label: zero exactly on equal edges, negative only when the destination label is not greater, and the edge labels' compareTo when the destinations agree |
| MarvelPaths.LinkOrderIsStrictTotal | hw-marvel/src/main/java/marvel/MarvelPaths.java:77 | destination label then edge label is a strict total order on edges |
| MarvelPaths.InsertLink | hw-marvel/src/main/java/marvel/MarvelPaths.java:77 | inserting into a sorted list gives a sorted list holding exactly one more edge |
| MarvelPaths.SortLinks | hw-marvel/src/main/java/marvel/MarvelPaths.java:76-77 | the edge list holds every edge of the set once, in strictly ascending order |
| MarvelPaths.WalkStep | hw-marvel/src/main/java/marvel/MarvelPaths.java:78-87 | every edge of a walk leaves the vertex before it |
| MarvelPaths.ExtendWalk | hw-marvel/src/main/java/marvel/MarvelPaths.java:81-84 | a walk plus an edge out of its end is a walk to that edge's destination |
| MarvelPaths.WalkBeforeSnoc | hw-marvel/src/main/java/marvel/MarvelPaths.java:77-84 | two walks extended by an edge each compare by their prefixes first and by the new edges on a tie |
| MarvelPaths.WalkBeforeTransitive | hw-marvel/src/main/java/marvel/MarvelPaths.java:77 | the edge order extended to walks is transitive |
| MarvelPaths.WalkOrderIsStrictTotal | hw-marvel/src/main/java/marvel/MarvelPaths.java:77 | the edge order extended to walks is a strict total order on walks of the same length |
| MarvelPaths.DiscoverKeepsState | hw-marvel/src/main/java/marvel/MarvelPaths.java:80-86 | recording a new node's walk and queueing it keeps the search state |
| MarvelPaths.ExtendsStep | hw-marvel/src/main/java/marvel/MarvelPaths.java:80-86 | recording one more undiscovered destination keeps the earlier walks, gives it curr's walk plus the edge and queues it at the back |
| MarvelPaths.FirstUnexpanded | hw-marvel/src/main/java/marvel/MarvelPaths.java:71-88 | along any walk the first unexpanded vertex is discovered with a walk no longer than its position |
| MarvelPaths.HeadIsShortest | hw-marvel/src/main/java/marvel/MarvelPaths.java:72 | the head of the queue has a recorded walk no longer than any walk to it |
| MarvelPaths.ExhaustedIsUnreachable | hw-marvel/src/main/java/marvel/MarvelPaths.java:89 | once the queue is empty no walk reaches an unexpanded node |
| MarvelPaths.FoundIsShortest | hw-marvel/src/main/java/marvel/MarvelPaths.java:73-74 | the returned walk reaches end and is no longer than any other walk to end |
| MarvelPaths.ExhaustedNotFound | hw-marvel/src/main/java/marvel/MarvelPaths.java:89 | returning null means no walk from start reaches end |
| MarvelPaths.InitialState | hw-marvel/src/main/java/marvel/MarvelPaths.java:69-70 | the start with the empty walk, alone in the queue, satisfies the search state |
| MarvelPaths.PopKeepsState | hw-marvel/src/main/java/marvel/MarvelPaths.java:72 | removing the queue's head gives the state for expanding it |
| MarvelPaths.FinishKeepsState | hw-marvel/src/main/java/marvel/MarvelPaths.java:78-88 | after all edges of the node are handled the search state holds with the node expanded |
| MarvelPaths.InitialOrder | hw-marvel/src/main/java/marvel/MarvelPaths.java:69-70 | the start alone in the queue with the empty walk is in order |
| MarvelPaths.PopKeepsOrder | hw-marvel/src/main/java/marvel/MarvelPaths.java:72 | the removed head comes before the rest of its layer, and the next layer was found from nodes before it |
| MarvelPaths.DiscoverKeepsOrder | hw-marvel/src/main/java/marvel/MarvelPaths.java:80-86 | recording a new walk along the next sorted edge keeps every recorded walk the first of its length to its node and the queue in the order of walks |
| MarvelPaths.NewWalkIsLeast | hw-marvel/src/main/java/marvel/MarvelPaths.java:81-84 | the current node's walk plus the first sorted edge to an undiscovered node comes no later than any walk of that length to it |
| MarvelPaths.SkipKeepsOrder | hw-marvel/src/main/java/marvel/MarvelPaths.java:80 | passing over an edge to a discovered node keeps the order |
| MarvelPaths.FinishKeepsOrder | hw-marvel/src/main/java/marvel/MarvelPaths.java:78-88 | after the node's edges are handled the queue is in order for the next pass of the while loop |
| MarvelPaths.FoundIsLeast | hw-marvel/src/main/java/marvel/MarvelPaths.java:73-74 | the walk recorded for end comes first, in the order of walks, among the walks to end of its length |
| MarvelPaths.Discover | hw-marvel/src/main/java/marvel/MarvelPaths.java:79-86 | one pass of the edge loop: an undiscovered destination gets curr's walk plus the edge and joins the back of the queue, otherwise paths and the queue stay as they are; the search state, the order and every earlier walk are kept |
| MarvelPaths.ExpandEdges | hw-marvel/src/main/java/marvel/MarvelPaths.java:78-87 | after the loop over the sorted edges every edge's destination is discovered; no recorded walk is overwritten; each new walk is curr's walk plus one of its edges; the queue grows at the back by exactly the newly discovered nodes; the search state and the order are kept |
| MarvelPaths.ExpandNode | hw-marvel/src/main/java/marvel/MarvelPaths.java:76-87 | sorting the node's edges and handling them in that order discovers every destination, overwrites no recorded walk, records only curr's walk plus one of its edges, queues exactly the new nodes at the back, and leaves the search state with the node expanded, in order |
| MarvelPaths.FindPath | hw-marvel/src/main/java/marvel/MarvelPaths.java:60-90 | an error exactly when start is not a node and differs from end; the empty walk when start is end; otherwise a shortest walk to end that comes first, in the order of walks built from the sorted edge order, among the shortest ones; or none exactly when end is unreachable |
| MarvelPaths.Network | hw-marvel/src/main/java/marvel/MarvelPaths.java:27-48 | the nodes of the network are exactly the listed characters |
| MarvelPaths.NetworkEdge | hw-marvel/src/main/java/marvel/MarvelPaths.java:35-40 | an edge labelled b from x to y exists exactly when book b lists both and x differs from y |
| MarvelPaths.NetworkSymmetric | hw-marvel/src/main/java/marvel/MarvelPaths.java:32-41 | every edge of the network has its reverse under the same book |
| MarvelPaths.NetworkShape | hw-marvel/src/main/java/marvel/MarvelPaths.java:38 | the network has no self-loops and no dangling edges |
| MarvelPaths.NetworkAddBookOut | hw-marvel/src/main/java/marvel/MarvelPaths.java:31-43 | one more book adds exactly its co-appearance edges |
| MarvelPaths.RowOut | hw-marvel/src/main/java/marvel/MarvelPaths.java:33-41 | one row adds exactly the edges from name1 to the other characters of the book |
| MarvelPaths.BookIsNetwork | hw-marvel/src/main/java/marvel/MarvelPaths.java:31-43 | handling one more book turns the network of the books so far into the network with that book |
| MarvelPaths.AddRow | hw-marvel/src/main/java/marvel/MarvelPaths.java:33-41 | the graph becomes the row of name1 over the book's characters |
| MarvelPaths.AddBook | hw-marvel/src/main/java/marvel/MarvelPaths.java:32-42 | the graph gains one row for each character of the book |
| MarvelPaths.BuildGraph | hw-marvel/src/main/java/marvel/MarvelPaths.java:27-48 | a new valid graph that equals the co-appearance network of the book map |
| CampusPaths.ExtendFacts | hw-pathfinder/src/main/java/pathfinder/CampusPaths.java:52 | extend adds one segment, adds its cost, and keeps a path of the graph exactly when the edge exists |
| CampusPaths.CostNonNegative | hw-pathfinder/src/main/java/pathfinder/CampusPaths.java:24 | with non-negative weights a path costs at least zero and at least its prefix |
| CampusPaths.MinExists | hw-pathfinder/src/main/java/pathfinder/CampusPaths.java:38 | a non-empty queue has a path of least cost to remove |
| CampusPaths.FrontierWitness | hw-pathfinder/src/main/java/pathfinder/CampusPaths.java:37-57 | any path to an unfinished node costs at least as much as some queued path |
| CampusPaths.PoppedIsShortest | hw-pathfinder/src/main/java/pathfinder/CampusPaths.java:38-43 | a removed path of least cost to an unfinished node is a least-cost path to it |
| CampusPaths.ExhaustedIsUnreachable | hw-pathfinder/src/main/java/pathfinder/CampusPaths.java:58 | when the queue is empty no path reaches end |
| CampusPaths.InitialState | hw-pathfinder/src/main/java/pathfinder/CampusPaths.java:32-35 | the zero-segment path alone in the queue satisfies the search state |
| CampusPaths.SkipKeepsState | hw-pathfinder/src/main/java/pathfinder/CampusPaths.java:45-47 | dropping a path to a finished node keeps the search state |
| CampusPaths.ExpandKeepsState | hw-pathfinder/src/main/java/pathfinder/CampusPaths.java:49-56 | queueing a shortest path's extensions and finishing its end keeps the search state |
| CampusPaths.ExtensionsStep | hw-pathfinder/src/main/java/pathfinder/CampusPaths.java:50-55 | one more edge adds its new extension exactly when it leads to an unfinished node |
| CampusPaths.QueueExtensions | hw-pathfinder/src/main/java/pathfinder/CampusPaths.java:50-55 | the queue gains exactly the extensions along the edges to unfinished nodes |
| CampusPaths.FindPath | hw-pathfinder/src/main/java/pathfinder/CampusPaths.java:28-58 | an error exactly when start is not a node and differs from end; the zero-segment path when start is end; otherwise a least-cost path of the graph to end, or none exactly when end is unreachable |
| Poly.CheckRepIsSorted | hw-poly/src/main/java/poly/RatPoly.java:563-573 | checkRep's adjacent-pairs check is equivalent to the sorted-list invariant |
| Poly.CoeffIndex | hw-poly/src/main/java/poly/RatPoly.java:186-188 | cofind gives the coefficient of the one term with that exponent, or zero |
| Poly.HasNaNIffCoeff | hw-poly/src/main/java/poly/RatPoly.java:163-176 | a sorted list has a NaN term exactly when some coefficient is NaN |
| Poly.CanonicalUnique | hw-poly/src/main/java/poly/RatPoly.java:52-61 | two sorted lists with the same coefficients are the same list |
| Poly.ReplaceAt | hw-poly/src/main/java/poly/RatPoly.java:207 | setting a term to one of the same exponent changes only that coefficient and keeps the list sorted |
| Poly.RemoveAt | hw-poly/src/main/java/poly/RatPoly.java:209 | removing a term zeroes only its coefficient and keeps the list sorted |
| Poly.InsertAt | hw-poly/src/main/java/poly/RatPoly.java:217 | inserting at the right place sets only the new term's coefficient and keeps the list sorted |
| Poly.SortedInsert | hw-poly/src/main/java/poly/RatPoly.java:198-219 | the result is sorted, the coefficient at the new term's exponent is the old one plus the new term's, and no other coefficient changes |
| Poly.Zero | hw-poly/src/main/java/poly/RatPoly.java:79-82 | a valid polynomial whose every coefficient is zero |
| Poly.FromTerm | hw-poly/src/main/java/poly/RatPoly.java:89-96 | a valid polynomial with rt's coefficient at rt's exponent and zero elsewhere |
| Poly.FromInts | hw-poly/src/main/java/poly/RatPoly.java:105-112 | a valid polynomial with c at exponent e and zero elsewhere |
| Poly.Degree | hw-poly/src/main/java/poly/RatPoly.java:132-138 | the degree is the exponent of the leading term, whose coefficient is non-zero and which no non-zero coefficient lies above; 0 for the zero polynomial, all of whose coefficients are zero |
| Poly.GetTerm | hw-poly/src/main/java/poly/RatPoly.java:148-158 | the term of that degree holding its coefficient, or the zero term when there is none (always for a negative degree) |
| Poly.IsNaN | hw-poly/src/main/java/poly/RatPoly.java:165-176 | true exactly when some term is NaN |
| Poly.Equals | hw-poly/src/main/java/poly/RatPoly.java:544-558 | equals holds exactly when both polynomials are NaN or every coefficient agrees |
| Poly.Negate | hw-poly/src/main/java/poly/RatPoly.java:226-235 | a valid polynomial whose every coefficient is negated |
| Poly.NegatedCoeffs | hw-poly/src/main/java/poly/RatPoly.java:231-234 | negating each term of a sorted list keeps it sorted and negates every coefficient |
| Poly.NegateTwice | hw-poly/src/main/java/poly/RatPoly.java:226-235 | negating twice gives back the same polynomial |
| Poly.IndexOf | hw-poly/src/main/java/poly/RatPoly.java:253 | List.indexOf: the first position holding x when x is in the list, otherwise -1 |
| Poly.Add | hw-poly/src/main/java/poly/RatPoly.java:245-262 | a valid polynomial whose every coefficient is the sum of the operands' (NaN when either is) |
| Poly.AddTermTo | hw-poly/src/main/java/poly/RatPoly.java:250-258 | replacing, removing or inserting the common term adds term's coefficient at its exponent and changes nothing else |
| Poly.AddStep | hw-poly/src/main/java/poly/RatPoly.java:248 | one more term keeps add's loop invariant "r = this + the terms of p so far" |
| Poly.Sub | hw-poly/src/main/java/poly/RatPoly.java:272-275 | a valid polynomial whose every coefficient is the difference of the operands' |
| Poly.Mul | hw-poly/src/main/java/poly/RatPoly.java:285-297 | a valid polynomial whose coefficients are the convolution of the operands' coefficients |
| Poly.ScaleStep | hw-poly/src/main/java/poly/RatPoly.java:291-293 | one more product term keeps the inner loop's "lst = term * this so far" |
| Poly.ProductStep | hw-poly/src/main/java/poly/RatPoly.java:288 | one more term of p keeps the outer loop invariant "r = this * the terms of p so far" |
| Poly.MulNaNAsWritten | hw-poly/src/main/java/poly/RatPoly.java:285-297 | the product is NaN exactly when one operand is NaN and the other is not zero |
| Poly.MulNaNByZero | hw-poly/src/main/java/poly/RatPoly.java:281-282 | NaN times zero comes out as the zero polynomial, which is not NaN |
| Poly.MulPropagatingNaN | hw-poly/src/main/java/poly/RatPoly.java:277-284 | NaN exactly when either operand is NaN, and the product of the two otherwise |
| Poly.ProductAdditive | hw-poly/src/main/java/poly/RatPoly.java:340 | the product is additive in its left operand when nothing is NaN |
| Poly.MonomialProduct | hw-poly/src/main/java/poly/RatPoly.java:345 | multiplying by a single term shifts by its exponent and scales by its coefficient |
| Poly.SubtrahendTop | hw-poly/src/main/java/poly/RatPoly.java:342-346 | d * p has r's leading coefficient at r's degree and nothing above it |
| Poly.DivStep | hw-poly/src/main/java/poly/RatPoly.java:340-347 | one pass keeps "this = q * p + r", lowers r's degree and adds nothing to q above it |
| Poly.DivDegreeDrop | hw-poly/src/main/java/poly/RatPoly.java:346 | the subtraction removes r's leading term and adds none above it |
| Poly.DivInit | hw-poly/src/main/java/poly/RatPoly.java:337-340 | before the loop, with q zero and r equal to this, "this = q * p + r" holds |
| Poly.Div | hw-poly/src/main/java/poly/RatPoly.java:332-349 | NaN exactly when p is zero or either operand is NaN; otherwise this = q * p + rem with rem of lower degree than p, and q has no term above this's degree |
| Poly.Differentiate | hw-poly/src/main/java/poly/RatPoly.java:358-373 | NaN gives NaN; otherwise coefficient k is k + 1 times coefficient k + 1, and the result is valid |
| Poly.DeriveSkip | hw-poly/src/main/java/poly/RatPoly.java:366-371 | a zero derivative leaves the loop's list, which still holds the derivative so far |
| Poly.DeriveAppend | hw-poly/src/main/java/poly/RatPoly.java:366-371 | a non-zero derivative appended last keeps the list sorted and holding the derivative so far |
| Poly.AntiDifferentiate | hw-poly/src/main/java/poly/RatPoly.java:386-401 | NaN gives NaN; otherwise the constant is the given one, coefficient k + 1 is coefficient k divided by k + 1, and the result is valid |
| Poly.AntiDerivedCoeffs | hw-poly/src/main/java/poly/RatPoly.java:394-396 | term-by-term antiderivatives of a sorted list are sorted, of exponent at least one, with the divided coefficients |
| Poly.DifferentiateAntiDifferentiate | hw-poly/src/main/java/poly/RatPoly.java:379-380 | the derivative of an antiderivative is the polynomial itself |
| Poly.AntiDifferentiateDifferentiate | hw-poly/src/main/java/poly/RatPoly.java:379-380 | the antiderivative of a derivative agrees with the polynomial above the constant, which is the given one |

## Left out

- Null arguments: every `null` check and the IllegalArgumentException it throws is left out. Dafny references and values are never null.
- DirectedLabeledGraph.addNode(String) and removeNode(String) (lines 77-84 and 186-193) are left out. They only wrap a label into a Node and call the Node versions, which are modelled.
- DirectedLabeledGraph.iterator (lines 220-223) is covered by `GetNodes`: it iterates over a copy of the same node set.
- DirectedLabeledGraph.hashCode and RatPoly.hashCode are left out. Hash values are not modelled.
- Node and Edge are datatypes here. Their constructors, getters, equals and checkRep are value equality and field access.
- The graph is generic in node and edge labels. The Java class stores String labels, while CampusPaths uses it with Double weights; one generic class models both.
- checkRep of DirectedLabeledGraph runs its loop only when the constant DEBUG is set, and DEBUG is false. The model states the invariant as `Valid` and proves that every method keeps it.
- Graph.DirectedLabeledGraph.ListChildren, FixGraph and GetNodeByName: a HashSet's iteration order is not modelled. The loops pick elements in unspecified order, and the contracts do not fix the order of the list.
- MarvelParser.readLines and the file access of parseData are left out. ParseData takes the lines it would have read, and any exception while reading is not modelled.
- The parseData comment says lines use a tab between the name and the book. The code splits on commas, and the model follows the code.
- MarvelPaths.BuildGraph takes the map that parseData returns, not a file name. Reading the file and turning its IOException into an IllegalArgumentException are left out; the parse itself is `MarvelParser.ParseData`.
- MarvelPaths.main, the file name constant and the console I/O are left out.
- MarvelPaths.SortLinks: `List.sort` is modelled by its result, a list in strictly ascending order, and not by the library's merge sort. Edges are distinct members of a set, so that result is unique.
- MarvelPaths.CompareStrings compares characters by code value, as UTF-16 code units are compared in Java. Surrogate pairs and other encoding details are not modelled.
- CampusPaths.FindPath: which of several equally cheap paths is returned depends on the priority queue's tie-breaking. The contract fixes only that the result is cheapest. (MarvelPaths.FindPath's choice among shortest walks is fixed by the sorted expansion and is stated.)
- CampusPaths.FindPath: the priority queue is a multiset, and a removal takes any path of least cost. Path.compareTo's tie-breaking is not part of this model.
- CampusPaths.FindPath: Double weights are exact non-negative reals. Rounding is not modelled. Non-negative weights are required, as the method's own documented precondition says.
- Path (pathfinder.datastructures) is not part of this model's sources. `Path`, `Extend` and `Cost` give it the meaning its use in findPath needs.
- RatNum and RatTerm are not part of this model's sources. Their arithmetic is exact rational arithmetic with NaN, as `rat_terms.dfy` states, and RatNum's own representation (numerator and denominator) is not modelled.
- RatPoly.eval, integrate, toString and valueOf are left out. They involve floating point or string formatting and are outside this model.
- The private RatPoly(List) constructor takes the list without copying it (RatPoly.java:120-124), so div's `r = new RatPoly(this.terms)` shares this's list. That sharing is harmless, because div only ever reassigns `r` and never changes a list in place. The model works on values, so it has no sharing at all.
- RatPoly's mutable `List<RatTerm>` values are modelled as sequences. In sortedInsert, add, mul, differentiate and antiDifferentiate the list is local to the call, so aliasing plays no part.
- Poly.GetTerm and Poly.Degree: the source documents `!isNaN()` as a precondition. The model does not need it, and both are defined on NaN polynomials too.
- Poly.Add: the loop body of lines 250-258 is the method `AddTermTo`, which the loop calls. The branches are the same as in the source.
- Poly.Div: the loop multiplies with `MulPropagatingNaN` rather than `Mul`. Inside div neither operand can be NaN, and there the two agree (see Findings). The remainder is a ghost out-parameter: the source computes it and drops it.

## Findings

| source | as written | input that shows it | evidently intended | confidence | as-written member | corrected member |
|---|---|---|---|---|---|---|
| hw-poly/src/main/java/poly/RatPoly.java:285-297 | mul loops over the terms of p and, inside, over the terms of this, so when either list is empty no product term (and so no NaN) is ever formed | `RatPoly.NaN.mul(RatPoly.ZERO)` and `RatPoly.ZERO.mul(RatPoly.NaN)` both return the zero polynomial | the documentation of lines 281-282: the result is NaN whenever this or p is NaN | not executed | Poly.MulNaNByZero | Poly.MulPropagatingNaN |
