# Road-graph core: adjacency map and breadth-first search

This project is a Dafny model of two parts of a C++ road-network program:

- the `Graph` class in `graph.cpp`;
- the breadth-first search `Search::BFS` in `search.cpp`.

The `Graph` class keeps an adjacency map from each vertex to a map from neighbour to `Edge` record. It has two mode flags, `weighted` and `directed`. The model covers:

- the vertex and edge mutators: `insertVertex`, `removeVertex`, `insertEdge`, `removeEdge`, `setEdgeWeight`, `setEdgeLabel` and `clear`;
- the existence probes: `assertVertexExists`, `assertEdgeExists`, `vertexExists` and `edgeExists`;
- the queries: `getAdjacent`, `getVertices`, `getEdges`, `getEdge`, `getEdgeLabel`, `getEdgeWeight` and `getStartingVertex`;
- the failure sentinels: `InvalidVertex`, `InvalidWeight` (INT_MIN), `InvalidLabel` and `InvalidEdge`.

`BFS` works as follows:

- It reads the graph only through `getAdjacent`.
- It marks a vertex visited when it enqueues it.
- Each node records the node it came from. The path is rebuilt by following those links back, and then reversed.

## Files and modules

- `adjacency.dfy`, module `Adjacency`, the value level:
  - the `Edge` record and the sentinels;
  - `Diagnostic`, which stands for what the graph writes to its error channel;
  - `AdjacencyList = map<Vertex, map<Vertex, Edge>>`;
  - the two probes;
  - for each mutator, a function that gives its result and the new map;
  - the lemmas showing that each mutator keeps an undirected graph symmetric (every edge stored in both rows, with the same weight and label).
- `graph.dfy`, module `Graphs`: class `Graph`, with a mutable field `adjacency` and constant `weighted` and `directed`.
  - Each mutator is an imperative method. Its `ensures` clause states that the new map equals the matching `Adjacency` function applied to the old map. It also keeps the class invariant `Valid()`: an undirected graph is symmetric.
  - The loops of the source are kept as loops, with invariants:
    - `removeVertex` erases `v` from the rows it lists, or from every row;
    - the key listings;
    - the nested `seen`-set loop of `getEdges`.
- `search.dfy`, module `PathSearch`: class `Search`, which holds a `Graph`, and its method `BFS`.
  - The heap chain of `Node*` records becomes an arena: a sequence of `Node(vertex, previous)` records.
  - The queue holds indices into the arena.
  - Ghost state tracks each record's breadth-first layer.
  - The path is specified with walks (`IsWalk`), reachability (`Reachable`, `ReachableWithin`) and layered reachability sets (`Ball`, `InLayer`).

Design choices:

- Vertices are modelled as their integer index; `InvalidVertex` is index -1.
- Logging is returned as data: a call that would print to the error channel returns the list of `Diagnostic`s it would report, in order.
- The hash maps enumerate their keys in an unspecified order. So `getAdjacent`, `getVertices` and `getEdges` are specified up to order: their result holds each key exactly once.
- `Edge`'s two-argument constructor is assumed to give weight -1 and an empty label. Its no-argument constructor is assumed to give `(-1, -1, -1, "")`.
  - These defaults come from `edge.h`, which is not part of this model.
  - They are named constants (`DefaultWeight`, `DefaultLabel`, `EmptyEdge`), and no proved property depends on their values.

Behaviour worth knowing, as the code is written:

- `removeVertex` and `insertVertex`:
  - On a directed graph, a vertex that only ever appears as a destination is not a key. `removeVertex` on it returns `InvalidVertex`, and the edges that point to it stay.
  - `insertVertex` on such a vertex creates its row but leaves those edges in place.
- `insertEdge`:
  - On a directed graph it does not create the destination's row.
  - On an undirected graph the mirror slot `adj[d][s]` receives the same record `Edge(s, d)`, not a record with swapped endpoints. `setEdgeWeight` and `setEdgeLabel`, by contrast, write `Edge(d, s, …)` into the mirror slot. The model keeps both as written; symmetry is stated on weight and label only.
- `getEdgeWeight` on an unweighted graph reports the problem and still returns the stored weight.
- `BFS` with an unreachable `end` signals no failure. It returns the path to the last vertex it dequeued. That vertex lies in the last breadth-first layer: every reachable vertex is at most that far from `start`.

## Model

| member | source | states |
|---|---|---|
| Adjacency.AssertVertexExists | graph.cpp:363-372 | true exactly when v is a key; a diagnostic naming the caller is reported exactly when the check fails and the caller name is non-empty |
| Adjacency.AssertEdgeExists | graph.cpp:374-397 | true exactly when the row of s lists d and, on an undirected graph, d is a key whose row lists s; at most one diagnostic, reported exactly when the check fails under a non-empty caller name, and it is the one for the first failing test: s not a vertex, s's row missing d, d not a vertex (undirected), d's row missing s (undirected) |
| Adjacency.EdgeExistsIsQuiet | graph.cpp:220-228 | the probes called with an empty caller name never log; undirected edgeExists needs both directions and, on a symmetric graph, does not depend on the order of its arguments |
| Adjacency.EraseFrom | graph.cpp:278-296 | erasing v from a set of rows: each of those rows loses exactly v and keeps its other entries, rows reached through operator[] are created empty first, every other row is unchanged |
| Adjacency.EraseFromStep | graph.cpp:279-283 | one iteration of removeVertex's loop extends the erasure by exactly one row |
| Adjacency.RemoveVertexResult | graph.cpp:273-301 | an unknown vertex gives InvalidVertex and no change; otherwise v is returned and is no longer a key; the vertices afterwards are the old ones minus v (undirected: plus any neighbour of v whose row operator[] creates); on a directed graph no row lists v afterwards; no edge is added or altered, and every edge not touching v is kept |
| Adjacency.InsertVertexResult | graph.cpp:264-270 | v ends up with an empty row; the vertices afterwards are the old ones plus v (undirected: plus any neighbour of v whose row operator[] creates during the removal); an unknown v just gains an empty row; a directed graph where v was a vertex keeps no edge into v; no edge is added or altered, and every edge not touching v is kept |
| Adjacency.InsertEdgeResult | graph.cpp:303-328 | false and no change exactly when the row of s already lists d; otherwise s is a key listing d with a fresh record; on an undirected graph d is a key listing s as well; the vertices afterwards are the old ones plus s, and plus d on an undirected graph; every other edge is kept and none other appears |
| Adjacency.RemoveEdgeResult | graph.cpp:330-342 | when the edge does not exist: InvalidEdge, no change, and the one diagnostic assertEdgeExists reports under the caller name removeEdge; otherwise the prior record is returned, the edge (and its mirror when undirected) is erased, edgeExists is then false, no other entry of those rows changes, and every other row is unchanged |
| Adjacency.SetEdgeWeightResult | graph.cpp:345-361 | when the edge does not exist: InvalidEdge, no change, and the one diagnostic assertEdgeExists reports under the caller name setEdgeWeight; otherwise both copies get the new weight and keep the old label, the new forward record is returned, no row gains or loses a neighbour, and every row other than those of s and (undirected) d is unchanged |
| Adjacency.SetEdgeLabelResult | graph.cpp:230-244 | when the edge does not exist: InvalidEdge, no change, and the one diagnostic assertEdgeExists reports under the caller name setEdgeLabel; otherwise both copies get the new label and keep the old weight, the new forward record is returned, no row gains or loses a neighbour, and every row other than those of s and (undirected) d is unchanged |
| Adjacency.NeighbourEraseIsFullScan | graph.cpp:276-297 | on a symmetric graph, erasing v only from the rows its own row lists (undirected branch) gives the same graph as scanning every row (directed branch) |
| Adjacency.RemoveVertexKeepsSymmetry | graph.cpp:278-285 | undirected removeVertex keeps the graph symmetric, and afterwards no row lists v |
| Adjacency.InsertVertexResets | graph.cpp:264-270 | undirected insertVertex is a reset: v has an empty row, no row lists v, and symmetry is kept |
| Adjacency.InsertEdgeKeepsSymmetry | graph.cpp:317-325 | undirected insertEdge keeps the graph symmetric, and the edge exists afterwards |
| Adjacency.RemoveEdgeKeepsSymmetry | graph.cpp:335-340 | undirected removeEdge keeps the graph symmetric |
| Adjacency.SetEdgeWeightKeepsSymmetry | graph.cpp:352-358 | undirected setEdgeWeight keeps both copies equal in weight and label |
| Adjacency.SetEdgeLabelKeepsSymmetry | graph.cpp:236-242 | undirected setEdgeLabel keeps both copies equal in weight and label |
| Graphs.ListKeys | graph.cpp:154-159 | the key-listing loop yields each key of the map exactly once |
| Graphs.ListingGrows | graph.cpp:204-212 | adding an unseen slot to getEdges' result, and its pair (and mirror, when undirected) to `seen`, keeps the listing consistent |
| Graphs.Graph.constructor | graph.cpp:81-83 | Graph(weighted, directed) starts empty with the given modes |
| Graphs.Graph.Undirected | graph.cpp:77-79 | Graph(weighted) starts empty and undirected |
| Graphs.Graph.GetAdjacent | graph.cpp:145-162 | an unknown vertex gives an empty list; otherwise exactly the neighbours in its row, once each |
| Graphs.Graph.GetStartingVertex | graph.cpp:165-168 | on a non-empty graph, some vertex of the graph |
| Graphs.Graph.GetVertices | graph.cpp:170-180 | every vertex of the graph exactly once |
| Graphs.Graph.GetEdges | graph.cpp:190-218 | each listed record is the one stored in its slot; no slot is listed twice; every stored edge is listed, once per ordered pair when directed and once per unordered pair when undirected (no mirror pair listed twice) |
| Graphs.Graph.VertexExists | graph.cpp:220-223 | true exactly when v is a key |
| Graphs.Graph.EdgeExists | graph.cpp:225-228 | true exactly when the row of the source lists the destination and, on an undirected graph, the converse holds too |
| Graphs.Graph.GetEdge | graph.cpp:182-188 | the stored record with no diagnostic when the edge exists; otherwise Edge() and the one diagnostic assertEdgeExists reports under the caller name getEdge |
| Graphs.Graph.GetEdgeLabel | graph.cpp:247-252 | the stored label with no diagnostic when the edge exists; otherwise InvalidLabel and the one diagnostic assertEdgeExists reports under the caller name getEdgeLabel |
| Graphs.Graph.GetEdgeWeight | graph.cpp:254-262 | the stored weight when the edge exists, otherwise InvalidWeight; on an unweighted graph the first diagnostic is the unweighted warning, and the weight is still returned; on failure its log ends with the one diagnostic assertEdgeExists reports under the caller name getEdgeWeight |
| Graphs.Graph.RemoveVertex | graph.cpp:273-301 | the new map and return value are those of RemoveVertexResult, and an undirected graph stays symmetric |
| Graphs.Graph.EraseFromRows | graph.cpp:278-284 | the undirected loop erases v from exactly the rows v's row lists |
| Graphs.Graph.EraseWhereListed | graph.cpp:288-296 | the directed loop erases v from every remaining row |
| Graphs.Graph.InsertVertex | graph.cpp:264-270 | the new map is InsertVertexResult's, and an undirected graph stays symmetric |
| Graphs.Graph.InsertEdge | graph.cpp:303-328 | result and new map are InsertEdgeResult's, and an undirected graph stays symmetric |
| Graphs.Graph.RemoveEdge | graph.cpp:330-342 | record, new map and diagnostics are RemoveEdgeResult's, and an undirected graph stays symmetric |
| Graphs.Graph.SetEdgeWeight | graph.cpp:345-361 | record, new map and diagnostics are SetEdgeWeightResult's, and an undirected graph stays symmetric |
| Graphs.Graph.SetEdgeLabel | graph.cpp:230-244 | record, new map and diagnostics are SetEdgeLabelResult's, and an undirected graph stays symmetric |
| Graphs.Graph.Clear | graph.cpp:404-407 | afterwards the graph has no vertices and no edges |
| PathSearch.BallGrows | search.cpp:17-32 | the set of vertices within k steps grows with k |
| PathSearch.WalkEndsInBall | search.cpp:3-6 | the end of a walk with m edges lies within m steps of its start |
| PathSearch.BallHasWalk | search.cpp:3-6 | every vertex within k steps is the end of a walk of at most k edges from the start |
| PathSearch.LayerIsShortest | search.cpp:3-6 | no walk to a vertex of breadth-first layer n has fewer than n edges |
| PathSearch.DistinctWithin | search.cpp:24-28 | a repetition-free list drawn from a finite set is no longer than the set, which bounds the number of enqueued records |
| PathSearch.ArenaBounded | search.cpp:24-28 | since each vertex is visited at most once, the arena never has more records than there are vertices the graph mentions; this is why the loop terminates |
| PathSearch.BallVisited | search.cpp:17-29 | while a record of layer n is being expanded, every vertex within n steps of the start is already visited |
| PathSearch.AllBallsVisited | search.cpp:17-32 | once the queue is empty, every vertex within any number of steps is visited |
| PathSearch.SearchExhausted | search.cpp:17-32 | when the queue runs dry the target is unreachable, and every reachable vertex is within the last record's layer |
| PathSearch.NextLayer | search.cpp:24-27 | an unvisited neighbour of the record being expanded lies in the next breadth-first layer |
| PathSearch.ArenaGrows | search.cpp:25-27 | pushing a new record for an unvisited neighbour and marking it visited keeps the arena well formed: layers, predecessor links and the visited list agree, and no vertex appears twice |
| PathSearch.HeadExpanded | search.cpp:24-31 | after the neighbour loop, the dequeued record's neighbours are all visited |
| PathSearch.Enqueue | search.cpp:24-29 | the neighbour loop keeps every existing record and visited entry, and each record it appends is a neighbour of the dequeued vertex that was not visited before, linked back to the dequeued record; afterwards every neighbour is visited; it keeps the arena well formed and the queue equal to the not-yet-expanded tail, and leaves the dequeued record expanded |
| PathSearch.ReversedAt | search.cpp:39 | the reversal has the same length, and its position k holds the element k places from the end |
| PathSearch.ReversedTwice | search.cpp:39 | reversing twice gives back the original sequence |
| PathSearch.TrailIsBackwardWalk | search.cpp:34-38 | the vertices collected along predecessor links form a walk read backwards, without repetition |
| PathSearch.ReversedWalk | search.cpp:39 | reversing a backward walk gives a walk, still without repetition |
| PathSearch.TraceBack | search.cpp:34-39 | the rebuilt path runs from start to the vertex of the stopping record, is a walk with no repeated vertex, and has one vertex per layer |
| PathSearch.SearchOutcome | search.cpp:17-39 | the rebuilt path ends at the target exactly when the target is reachable; it is a shortest walk to its end; when it does not end at the target, every reachable vertex is at most that far away |
| PathSearch.Search.Explore | search.cpp:8-32 | the queue loop ends either at the target or with every record expanded; when start is the target it stops at the first record |
| PathSearch.Search.BFS | search.cpp:7-42 | the path is non-empty, starts at start, is exactly [start] when start == end, is a walk through getAdjacent with no repeated vertex, ends at end exactly when end is reachable, is a shortest walk to its last vertex, and when end is unreachable every reachable vertex is within that many edges |

## Left out

- The file-loading constructor (graph.cpp:8-75) is left out. It parses text files with `ifstream` and `stringstream`, which is input/output.
- The random connected-graph constructor (graph.cpp:85-143) is left out. It depends on a `Random` shuffle and number generator whose code is not part of this model, and it calls `exit(1)`.
- `error`, `initSnapshot`, `snapshot`, `print`, `render` and `savePNG` (graph.cpp:415-623) are console, image and graph-rendering output. Their text is left out. Where the core calls `error`, the model returns a `Diagnostic` instead.
- `isDirected` (graph.cpp:399-402) is left out because it only reads the constant `directed`.
- `Search::astar`, `Search::heuristic` and `Search::drawPath` (search.cpp:48-224) are left out because they use floating-point costs and pixel drawing. So are the vertex coordinates, which are doubles and not part of a vertex's identity. The `Vertex` class is reduced to its index.
- `Search`'s constructor is modelled as storing its graph; `search.h` is not part of this model.
- Graphs.Graph.SetEdgeWeight: the weight parameter is a `double` in the source and is stored through `Edge`'s weight. It is modelled as an `int`, so conversion and rounding are not modelled.
- Graphs.Graph.GetStartingVertex: the source dereferences `begin()` even on an empty map, which is undefined behaviour. The model requires a non-empty graph and does not say which vertex comes first in the hash map's order.
- Graphs.Graph.RemoveVertex: on an undirected graph with a self-loop, the source erases from the row it is iterating over, which is undefined behaviour in C++. The model iterates over a snapshot of that row's keys.
- Graphs.Graph.GetAdjacent, Graphs.Graph.GetVertices and Graphs.Graph.GetEdges: results are specified up to order, because the hash-map iteration order is unspecified.
- PathSearch.Search.BFS: the heap `Node` records, and the fact that they are never freed, are replaced by an index arena. `std::find` on the visited vector is modelled as sequence membership.
- The message text of diagnostics is left out. Only the kind of diagnostic, the caller name and the endpoints are kept.
