/**
 * The value-level view of the graph's adjacency structure: a map from each
 * vertex to its neighbour -> Edge map, the sentinel values the graph returns
 * on failure, the existence probes, and one function per mutating operation
 * giving the new structure.  The class in graph.dfy is proved against these
 * functions; the lemmas below state what the operations promise about them.
 */
module Adjacency {

  /** A vertex is identified by its integer index alone. */
  type Vertex = int

  /** Sentinels returned on failure. */
  const InvalidVertex: Vertex := -1
  const IntMin: int := -0x8000_0000
  const InvalidWeight: int := IntMin
  const InvalidLabel: string := "_CS225INVALIDLABEL"

  datatype Edge = Edge(source: Vertex, destination: Vertex, weight: int, labelText: string)

  const InvalidEdge: Edge := Edge(InvalidVertex, InvalidVertex, InvalidWeight, InvalidLabel)

  /** Weight and label that a freshly inserted edge carries (Edge's two-argument constructor). */
  const DefaultWeight: int := -1
  const DefaultLabel: string := ""

  /** The edge that Edge's no-argument constructor yields; getEdge returns it on failure. */
  const EmptyEdge: Edge := Edge(InvalidVertex, InvalidVertex, DefaultWeight, DefaultLabel)

  /** What the graph reports on its error channel (the message text itself is not modelled). */
  datatype Diagnostic =
    | NonexistentVertex(caller: string)
    | NonexistentEdge(caller: string, from: Vertex, to: Vertex)
    | UnweightedGraph

  type AdjacencyList = map<Vertex, map<Vertex, Edge>>

  /** A vertex's row, read the way operator[] reads it: an absent row is empty. */
  function Row(adj: AdjacencyList, v: Vertex): map<Vertex, Edge>
  {
    if v in adj then adj[v] else map[]
  }

  /** The vertices a vertex's row lists (what getAdjacent enumerates). */
  function Neighbours(adj: AdjacencyList, v: Vertex): set<Vertex>
  {
    Row(adj, v).Keys
  }

  /** The undirected invariant: every edge has its mirror, with the same weight and label. */
  ghost predicate Symmetric(adj: AdjacencyList)
  {
    forall u, x :: u in adj && x in adj[u] ==>
      x in adj && u in adj[x] && adj[x][u].weight == adj[u][x].weight && adj[x][u].labelText == adj[u][x].labelText
  }

  // ---------------------------------------------------------------------------
  // Existence probes
  // ---------------------------------------------------------------------------

  /** assertVertexExists: true iff v is a key; logs only when it fails and a caller is named. */
  function AssertVertexExists(adj: AdjacencyList, v: Vertex, caller: string): (r: (bool, seq<Diagnostic>))
    ensures r.0 <==> v in adj
    ensures r.1 != [] <==> !r.0 && caller != ""
    ensures r.1 != [] ==> r.1 == [NonexistentVertex(caller)]
  {
    if v in adj then (true, [])
    else if caller != "" then (false, [NonexistentVertex(caller)])
    else (false, [])
  }

  /** What the edge probe logs when the row of `from` does not list `to`. */
  function MissingEdge(caller: string, from: Vertex, to: Vertex): seq<Diagnostic>
  {
    if caller != "" then [NonexistentEdge(caller, from, to)] else []
  }

  /**
   * assertEdgeExists: the row of s lists d, and on an undirected graph the row
   * of d lists s as well.  At most one diagnostic, and none for an empty caller.
   */
  function AssertEdgeExists(adj: AdjacencyList, directed: bool, s: Vertex, d: Vertex, caller: string)
    : (r: (bool, seq<Diagnostic>))
    ensures r.0 <==> s in adj && d in adj[s] && (!directed ==> d in adj && s in adj[d])
    ensures r.1 != [] <==> !r.0 && caller != ""
    ensures |r.1| <= 1
    ensures caller != "" && s !in adj ==> r.1 == [NonexistentVertex(caller)]
    ensures caller != "" && s in adj && d !in adj[s] ==> r.1 == [NonexistentEdge(caller, s, d)]
    ensures caller != "" && !directed && s in adj && d in adj[s] && d !in adj ==> r.1 == [NonexistentVertex(caller)]
    ensures caller != "" && !directed && s in adj && d in adj[s] && d in adj && s !in adj[d] ==>
      r.1 == [NonexistentEdge(caller, d, s)]
  {
    var (sourceOk, sourceLog) := AssertVertexExists(adj, s, caller);
    if !sourceOk then (false, sourceLog)
    else if d !in adj[s] then (false, MissingEdge(caller, s, d))
    else if directed then (true, [])
    else
      var (destinationOk, destinationLog) := AssertVertexExists(adj, d, caller);
      if !destinationOk then (false, destinationLog)
      else if s !in adj[d] then (false, MissingEdge(caller, d, s))
      else (true, [])
  }

  /** edgeExists: the probe with an empty caller name. */
  function HasEdge(adj: AdjacencyList, directed: bool, s: Vertex, d: Vertex): bool
  {
    AssertEdgeExists(adj, directed, s, d, "").0
  }

  /** The probes used as queries never log, and on a symmetric graph edgeExists does not depend on direction. */
  lemma EdgeExistsIsQuiet(adj: AdjacencyList, directed: bool, s: Vertex, d: Vertex)
    ensures AssertVertexExists(adj, s, "").1 == [] && AssertEdgeExists(adj, directed, s, d, "").1 == []
    ensures !directed && Symmetric(adj) ==> HasEdge(adj, directed, s, d) == HasEdge(adj, directed, d, s)
    ensures !directed ==> (HasEdge(adj, directed, s, d) <==> s in adj && d in adj[s] && d in adj && s in adj[d])
  {
  }

  // ---------------------------------------------------------------------------
  // Mutations
  // ---------------------------------------------------------------------------

  /**
   * The structure after erasing v from the rows of every vertex in `us`; a row
   * of `us` that is missing is created first (empty), as operator[] does.
   */
  function EraseFrom(adj: AdjacencyList, v: Vertex, us: set<Vertex>): (r: AdjacencyList)
    ensures r.Keys == adj.Keys + us
    ensures forall u :: u in us ==> v !in r[u] && r[u] == Row(adj, u) - {v}
    ensures forall u :: u in r && u !in us ==> r[u] == adj[u]
  {
    map u | u in adj.Keys + us :: if u in us then Row(adj, u) - {v} else adj[u]
  }

  /** Erasing from one more row extends EraseFrom by that row (one step of removeVertex's loops). */
  lemma EraseFromStep(adj: AdjacencyList, v: Vertex, done: set<Vertex>, u: Vertex)
    requires u !in done
    ensures EraseFrom(adj, v, done + {u}) == EraseFrom(adj, v, done)[u := Row(adj, u) - {v}]
  {
    var grown := EraseFrom(adj, v, done + {u});
    var stepped := EraseFrom(adj, v, done)[u := Row(adj, u) - {v}];
    assert grown.Keys == stepped.Keys;
    forall w | w in grown
      ensures grown[w] == stepped[w]
    {
    }
  }

  /**
   * removeVertex: the returned vertex and the new structure.  An undirected
   * graph erases v from the rows its own row lists; a directed graph scans
   * every remaining row.
   */
  function RemoveVertexResult(adj: AdjacencyList, directed: bool, v: Vertex): (r: (Vertex, AdjacencyList))
    ensures v !in adj ==> r == (InvalidVertex, adj)
    ensures v in adj ==> r.0 == v && v !in r.1
    ensures v in adj ==> r.1.Keys == (if directed then adj.Keys else adj.Keys + adj[v].Keys) - {v}
    ensures directed && v in adj ==> forall u :: u in r.1 ==> v !in r.1[u]
    ensures forall u, x :: u in r.1 && x in r.1[u] ==> u in adj && x in adj[u] && r.1[u][x] == adj[u][x]
    ensures forall u, x :: u in adj && x in adj[u] && u != v && x != v ==>
      u in r.1 && x in r.1[u] && r.1[u][x] == adj[u][x]
  {
    if v !in adj then (InvalidVertex, adj)
    else if !directed then (v, EraseFrom(adj, v, adj[v].Keys) - {v})
    else (v, EraseFrom(adj - {v}, v, adj.Keys - {v}))
  }

  /** insertVertex: remove v (with its incident edges), then install an empty row for it. */
  function InsertVertexResult(adj: AdjacencyList, directed: bool, v: Vertex): (r: AdjacencyList)
    ensures v in r && r[v] == map[]
    ensures r.Keys == adj.Keys + {v} + (if !directed && v in adj then adj[v].Keys else {})
    ensures v !in adj ==> r == adj[v := map[]]
    ensures directed && v in adj ==> forall u :: u in r ==> v !in r[u]
    ensures forall u, x :: u in r && x in r[u] ==> u in adj && x in adj[u] && r[u][x] == adj[u][x]
    ensures forall u, x :: u in adj && x in adj[u] && u != v && x != v ==>
      u in r && x in r[u] && r[u][x] == adj[u][x]
  {
    RemoveVertexResult(adj, directed, v).1[v := map[]]
  }

  /** The record insertEdge stores, in both slots on an undirected graph. */
  function NewEdge(s: Vertex, d: Vertex): Edge
  {
    Edge(s, d, DefaultWeight, DefaultLabel)
  }

  /**
   * insertEdge: fails when s's row already lists d; otherwise creates s's row
   * if needed and stores the edge, and on an undirected graph also creates d's
   * row and stores the mirror.  The result is (success, new structure).
   */
  function InsertEdgeResult(adj: AdjacencyList, directed: bool, s: Vertex, d: Vertex): (r: (bool, AdjacencyList))
    ensures r.0 <==> !(s in adj && d in adj[s])
    ensures !r.0 ==> r.1 == adj
    ensures r.0 ==> s in r.1 && d in r.1[s] && r.1[s][d] == NewEdge(s, d)
    ensures r.0 && !directed ==> d in r.1 && s in r.1[d] && r.1[d][s] == NewEdge(s, d)
    ensures r.0 && directed ==> r.1.Keys == adj.Keys + {s}
    ensures r.0 && !directed ==> r.1.Keys == adj.Keys + {s, d}
    ensures forall u, x :: u in adj && x in adj[u] && !(!directed && u == d && x == s) ==>
      u in r.1 && x in r.1[u] && r.1[u][x] == adj[u][x]
    ensures forall u, x :: u in r.1 && x in r.1[u] && !(u == s && x == d) && !(!directed && u == d && x == s) ==>
      u in adj && x in adj[u]
  {
    if s in adj && d in adj[s] then (false, adj)
    else
      var forward := adj[s := Row(adj, s)[d := NewEdge(s, d)]];
      if directed then (true, forward)
      else (true, forward[d := Row(forward, d)[s := NewEdge(s, d)]])
  }

  /**
   * removeEdge: fails with InvalidEdge (and a diagnostic) unless the edge
   * exists; otherwise erases it, and its mirror on an undirected graph, and
   * returns the erased record.  The result is (edge, new structure, log).
   */
  function RemoveEdgeResult(adj: AdjacencyList, directed: bool, s: Vertex, d: Vertex)
    : (r: (Edge, AdjacencyList, seq<Diagnostic>))
    ensures !HasEdge(adj, directed, s, d) ==>
      r.0 == InvalidEdge && r.1 == adj && r.2 == AssertEdgeExists(adj, directed, s, d, "removeEdge").1 && |r.2| == 1
    ensures HasEdge(adj, directed, s, d) ==>
      && r.0 == adj[s][d] && r.2 == []
      && r.1.Keys == adj.Keys
      && !HasEdge(r.1, directed, s, d)
      && r.1[s] == adj[s] - {d}
      && (!directed ==> r.1[d] == adj[d] - {s})
    ensures forall u, x :: u in r.1 && x in r.1[u] ==> u in adj && x in adj[u] && r.1[u][x] == adj[u][x]
    ensures HasEdge(adj, directed, s, d) ==>
      forall u :: u in adj && u != s && (directed || u != d) ==> r.1[u] == adj[u]
  {
    var (ok, log) := AssertEdgeExists(adj, directed, s, d, "removeEdge");
    if !ok then (InvalidEdge, adj, log)
    else
      var e := adj[s][d];
      var forward := adj[s := adj[s] - {d}];
      if directed then (e, forward, [])
      else (e, forward[d := forward[d] - {s}], [])
  }

  /**
   * setEdgeWeight: fails with InvalidEdge unless the edge exists; otherwise
   * rewrites it (and its mirror on an undirected graph) with the new weight and
   * the old label, and returns the new forward record.
   */
  function SetEdgeWeightResult(adj: AdjacencyList, directed: bool, s: Vertex, d: Vertex, w: int)
    : (r: (Edge, AdjacencyList, seq<Diagnostic>))
    ensures !HasEdge(adj, directed, s, d) ==>
      r.0 == InvalidEdge && r.1 == adj && r.2 == AssertEdgeExists(adj, directed, s, d, "setEdgeWeight").1 && |r.2| == 1
    ensures HasEdge(adj, directed, s, d) ==>
      && r.0 == Edge(s, d, w, adj[s][d].labelText) && r.2 == []
      && r.1.Keys == adj.Keys
      && r.1[s] == adj[s][d := r.0]
      && (!directed ==> r.1[d] == adj[d][s := Edge(d, s, w, adj[s][d].labelText)])
    ensures forall u :: u in r.1 ==> r.1[u].Keys == adj[u].Keys
    ensures HasEdge(adj, directed, s, d) ==>
      forall u :: u in adj && u != s && (directed || u != d) ==> r.1[u] == adj[u]
  {
    var (ok, log) := AssertEdgeExists(adj, directed, s, d, "setEdgeWeight");
    if !ok then (InvalidEdge, adj, log)
    else
      var e := adj[s][d];
      var updated := Edge(s, d, w, e.labelText);
      var forward := adj[s := adj[s][d := updated]];
      if directed then (updated, forward, [])
      else (updated, forward[d := forward[d][s := Edge(d, s, w, e.labelText)]], [])
  }

  /**
   * setEdgeLabel: as setEdgeWeight, but rewrites the label and keeps the weight.
   */
  function SetEdgeLabelResult(adj: AdjacencyList, directed: bool, s: Vertex, d: Vertex, newLabel: string)
    : (r: (Edge, AdjacencyList, seq<Diagnostic>))
    ensures !HasEdge(adj, directed, s, d) ==>
      r.0 == InvalidEdge && r.1 == adj && r.2 == AssertEdgeExists(adj, directed, s, d, "setEdgeLabel").1 && |r.2| == 1
    ensures HasEdge(adj, directed, s, d) ==>
      && r.0 == Edge(s, d, adj[s][d].weight, newLabel) && r.2 == []
      && r.1.Keys == adj.Keys
      && r.1[s] == adj[s][d := r.0]
      && (!directed ==> r.1[d] == adj[d][s := Edge(d, s, adj[s][d].weight, newLabel)])
    ensures forall u :: u in r.1 ==> r.1[u].Keys == adj[u].Keys
    ensures HasEdge(adj, directed, s, d) ==>
      forall u :: u in adj && u != s && (directed || u != d) ==> r.1[u] == adj[u]
  {
    var (ok, log) := AssertEdgeExists(adj, directed, s, d, "setEdgeLabel");
    if !ok then (InvalidEdge, adj, log)
    else
      var e := adj[s][d];
      var updated := Edge(s, d, e.weight, newLabel);
      var forward := adj[s := adj[s][d := updated]];
      if directed then (updated, forward, [])
      else (updated, forward[d := forward[d][s := Edge(d, s, e.weight, newLabel)]], [])
  }

  // ---------------------------------------------------------------------------
  // The undirected invariant
  // ---------------------------------------------------------------------------

  /**
   * On a symmetric structure, erasing v only from the rows that v's own row
   * lists (the undirected path of removeVertex) gives the same result as
   * scanning every row (the directed path).
   */
  lemma NeighbourEraseIsFullScan(adj: AdjacencyList, v: Vertex)
    requires Symmetric(adj)
    ensures RemoveVertexResult(adj, false, v) == RemoveVertexResult(adj, true, v)
  {
    if v in adj {
      var neighbourErase := EraseFrom(adj, v, adj[v].Keys) - {v};
      var fullScan := EraseFrom(adj - {v}, v, adj.Keys - {v});
      assert neighbourErase.Keys == fullScan.Keys;
      forall u | u in neighbourErase
        ensures neighbourErase[u] == fullScan[u]
      {
        if u !in adj[v] {
          assert adj[u] - {v} == adj[u];
        }
      }
      assert neighbourErase == fullScan;
    }
  }

  /** removeVertex keeps an undirected graph symmetric, and afterwards no row lists v. */
  lemma RemoveVertexKeepsSymmetry(adj: AdjacencyList, v: Vertex)
    requires Symmetric(adj)
    ensures Symmetric(RemoveVertexResult(adj, false, v).1)
    ensures forall u :: u in RemoveVertexResult(adj, false, v).1 ==> v !in RemoveVertexResult(adj, false, v).1[u]
  {
    if v in adj {
      NeighbourEraseIsFullScan(adj, v);
      var r: AdjacencyList := EraseFrom(adj - {v}, v, adj.Keys - {v});
      assert RemoveVertexResult(adj, false, v).1 == r;
      forall u: Vertex, x: Vertex | u in r && x in r[u]
        ensures x in r && u in r[x] && r[x][u] == adj[x][u]
      {
        assert r[u] == adj[u] - {v};
      }
    }
  }

  /**
   * insertVertex on an undirected graph is a reset: v is present with an empty
   * row, no row lists v, and the structure stays symmetric.
   */
  lemma InsertVertexResets(adj: AdjacencyList, v: Vertex)
    requires Symmetric(adj)
    ensures Symmetric(InsertVertexResult(adj, false, v))
    ensures forall u :: u in InsertVertexResult(adj, false, v) ==> v !in InsertVertexResult(adj, false, v)[u]
    ensures InsertVertexResult(adj, false, v)[v] == map[]
  {
    RemoveVertexKeepsSymmetry(adj, v);
  }

  /** insertEdge keeps an undirected graph symmetric; on success the edge exists both ways. */
  lemma InsertEdgeKeepsSymmetry(adj: AdjacencyList, s: Vertex, d: Vertex)
    requires Symmetric(adj)
    ensures Symmetric(InsertEdgeResult(adj, false, s, d).1)
    ensures HasEdge(InsertEdgeResult(adj, false, s, d).1, false, s, d)
  {
  }

  /** removeEdge keeps an undirected graph symmetric. */
  lemma RemoveEdgeKeepsSymmetry(adj: AdjacencyList, s: Vertex, d: Vertex)
    requires Symmetric(adj)
    ensures Symmetric(RemoveEdgeResult(adj, false, s, d).1)
  {
  }

  /** setEdgeWeight keeps an undirected graph symmetric: both copies get the same weight and label. */
  lemma SetEdgeWeightKeepsSymmetry(adj: AdjacencyList, s: Vertex, d: Vertex, w: int)
    requires Symmetric(adj)
    ensures Symmetric(SetEdgeWeightResult(adj, false, s, d, w).1)
  {
    var r: AdjacencyList := SetEdgeWeightResult(adj, false, s, d, w).1;
    if HasEdge(adj, false, s, d) {
      forall u: Vertex, x: Vertex | u in r && x in r[u]
        ensures x in r && u in r[x]
        ensures r[x][u].weight == r[u][x].weight && r[x][u].labelText == r[u][x].labelText
      {
        if !((u == s && x == d) || (u == d && x == s)) {
          assert r[u][x] == adj[u][x];
          assert r[x][u] == adj[x][u];
        }
      }
    }
  }

  /** setEdgeLabel keeps an undirected graph symmetric: both copies get the same weight and label. */
  lemma SetEdgeLabelKeepsSymmetry(adj: AdjacencyList, s: Vertex, d: Vertex, newLabel: string)
    requires Symmetric(adj)
    ensures Symmetric(SetEdgeLabelResult(adj, false, s, d, newLabel).1)
  {
    var r: AdjacencyList := SetEdgeLabelResult(adj, false, s, d, newLabel).1;
    if HasEdge(adj, false, s, d) {
      forall u: Vertex, x: Vertex | u in r && x in r[u]
        ensures x in r && u in r[x]
        ensures r[x][u].weight == r[u][x].weight && r[x][u].labelText == r[u][x].labelText
      {
        if !((u == s && x == d) || (u == d && x == s)) {
          assert r[u][x] == adj[u][x];
          assert r[x][u] == adj[x][u];
        }
      }
    }
  }
}
