/**
 * The Graph object: the adjacency structure it owns and updates in place,
 * its two mode flags, and its query and mutation operations.  Every mutation
 * is proved to produce exactly the structure that the matching function of
 * module Adjacency describes, and to keep an undirected graph symmetric.
 * Logging to the error channel is returned as a sequence of diagnostics.
 */
module Graphs {
  import opened Adjacency

  ghost predicate Distinct<T>(s: seq<T>)
  {
    forall i, j :: 0 <= i < j < |s| ==> s[i] != s[j]
  }

  /** A non-empty set has an element (what lets a loop pick the next key). */
  lemma NonEmptyHasElement(s: set<Vertex>)
    requires s != {}
    ensures exists x :: x in s
  {
    if forall x :: x !in s {
      assert false;
    }
  }

  /**
   * Lists the elements of a finite set once each, in no particular order:
   * the loops that walk a hash map's keys and push each one onto a vector.
   */
  method ListKeys(keys: set<Vertex>) returns (r: seq<Vertex>)
    ensures Distinct(r)
    ensures forall x :: x in r <==> x in keys
  {
    r := [];
    var pending := keys;
    while pending != {}
      invariant pending <= keys
      invariant Distinct(r)
      invariant forall x :: x in r <==> x in keys && x !in pending
      decreases |pending|
    {
      NonEmptyHasElement(pending);
      var x :| x in pending;
      r := r + [x];
      pending := pending - {x};
    }
  }

  /** No listed pair is the mirror of another listed pair. */
  ghost predicate MirrorFree(pairs: seq<(Vertex, Vertex)>)
  {
    forall i, j :: 0 <= i < |pairs| && 0 <= j < |pairs| && i != j ==> pairs[j] != (pairs[i].1, pairs[i].0)
  }

  /**
   * What getEdges has built so far: each record is the one stored in its
   * slot, no slot twice, no mirror twice on an undirected graph, and `seen`
   * holds the listed slots and, when undirected, their mirrors.
   */
  ghost predicate Listing(adj: AdjacencyList, directed: bool, r: seq<Edge>, pairs: seq<(Vertex, Vertex)>,
                          seen: set<(Vertex, Vertex)>)
  {
    && |r| == |pairs|
    && (forall i :: 0 <= i < |pairs| ==>
          pairs[i].0 in adj && pairs[i].1 in adj[pairs[i].0] && r[i] == adj[pairs[i].0][pairs[i].1])
    && Distinct(pairs)
    && (forall p :: p in seen <==> p in pairs || (!directed && (p.1, p.0) in pairs))
    && (!directed ==> MirrorFree(pairs))
  }

  /** Listing a slot that is not yet seen keeps the listing consistent. */
  lemma ListingGrows(adj: AdjacencyList, directed: bool, r: seq<Edge>, pairs: seq<(Vertex, Vertex)>,
                     seen: set<(Vertex, Vertex)>, s: Vertex, d: Vertex)
    requires Listing(adj, directed, r, pairs, seen)
    requires s in adj && d in adj[s] && (s, d) !in seen
    ensures Listing(adj, directed, r + [adj[s][d]], pairs + [(s, d)],
                    if directed then seen + {(s, d)} else seen + {(s, d)} + {(d, s)})
  {
    var pairs' := pairs + [(s, d)];
    assert forall i :: 0 <= i < |pairs| ==> pairs'[i] == pairs[i];
    if !directed {
      // the mirror of an already listed slot would have been seen
      assert (d, s) !in pairs;
    }
  }

  class Graph {
    /** Each vertex's row: its neighbours and the edge record stored for each. */
    var adjacency: AdjacencyList
    const weighted: bool
    const directed: bool

    /** An undirected graph stores every edge in both rows, with the same weight and label. */
    ghost predicate Valid()
      reads this
    {
      !directed ==> Symmetric(adjacency)
    }

    /** Graph(weighted): an empty undirected graph. */
    constructor Undirected(weighted: bool)
      ensures Valid()
      ensures adjacency == map[] && this.weighted == weighted && !directed
    {
      this.weighted := weighted;
      directed := false;
      adjacency := map[];
    }

    /** Graph(weighted, directed): an empty graph with the given modes. */
    constructor (weighted: bool, directed: bool)
      ensures Valid()
      ensures adjacency == map[] && this.weighted == weighted && this.directed == directed
    {
      this.weighted := weighted;
      this.directed := directed;
      adjacency := map[];
    }

    // -------------------------------------------------------------------------
    // Queries
    // -------------------------------------------------------------------------

    /** getAdjacent: the vertices the row of `source` lists; none, and no diagnostic, for an unknown vertex. */
    method GetAdjacent(source: Vertex) returns (r: seq<Vertex>)
      ensures source !in adjacency ==> r == []
      ensures Distinct(r)
      ensures forall x :: x in r <==> x in Neighbours(adjacency, source)
    {
      if source !in adjacency {
        return [];
      }
      r := ListKeys(adjacency[source].Keys);
    }

    /** getStartingVertex: some vertex of a non-empty graph (the first in the map's iteration order). */
    method GetStartingVertex() returns (v: Vertex)
      requires adjacency != map[]
      ensures v in adjacency
    {
      assert adjacency.Keys != {};
      NonEmptyHasElement(adjacency.Keys);
      v :| v in adjacency;
    }

    /** getVertices: every vertex once. */
    method GetVertices() returns (r: seq<Vertex>)
      ensures Distinct(r)
      ensures forall x :: x in r <==> x in adjacency
    {
      r := ListKeys(adjacency.Keys);
    }

    /**
     * getEdges: the stored record of every edge, listed once per ordered pair
     * on a directed graph and once per unordered pair on an undirected one.
     * The ghost `pairs` says which (row, neighbour) slot each record comes from.
     */
    method GetEdges() returns (r: seq<Edge>, ghost pairs: seq<(Vertex, Vertex)>)
      ensures |r| == |pairs|
      ensures forall i :: 0 <= i < |pairs| ==>
        pairs[i].0 in adjacency && pairs[i].1 in adjacency[pairs[i].0] && r[i] == adjacency[pairs[i].0][pairs[i].1]
      ensures Distinct(pairs)
      ensures forall u, x :: u in adjacency && x in adjacency[u] ==> (u, x) in pairs || (!directed && (x, u) in pairs)
      ensures !directed ==> MirrorFree(pairs)
    {
      if adjacency == map[] {
        return [], [];
      }
      r, pairs := [], [];
      var seen: set<(Vertex, Vertex)> := {};
      var sources := adjacency.Keys;
      while sources != {}
        invariant sources <= adjacency.Keys
        invariant Listing(adjacency, directed, r, pairs, seen)
        invariant forall u, x :: u in adjacency && u !in sources && x in adjacency[u] ==> (u, x) in seen
        decreases |sources|
      {
        NonEmptyHasElement(sources);
        var source :| source in sources;
        var destinations := adjacency[source].Keys;
        while destinations != {}
          invariant destinations <= adjacency[source].Keys
          invariant Listing(adjacency, directed, r, pairs, seen)
          invariant forall u, x :: u in adjacency && u !in sources && x in adjacency[u] ==> (u, x) in seen
          invariant forall x :: x in adjacency[source] && x !in destinations ==> (source, x) in seen
          decreases |destinations|
        {
          NonEmptyHasElement(destinations);
          var destination :| destination in destinations;
          if (source, destination) !in seen {
            ListingGrows(adjacency, directed, r, pairs, seen, source, destination);
            r := r + [adjacency[source][destination]];
            pairs := pairs + [(source, destination)];
            seen := seen + {(source, destination)};
            if !directed {
              seen := seen + {(destination, source)};
            }
          }
          destinations := destinations - {destination};
        }
        sources := sources - {source};
      }
    }

    /** vertexExists: whether v is a vertex; never logs. */
    function VertexExists(v: Vertex): (r: bool)
      reads this
      ensures r <==> v in adjacency
    {
      AssertVertexExists(adjacency, v, "").0
    }

    /** edgeExists: whether the edge is stored (in both rows, when undirected); never logs. */
    function EdgeExists(source: Vertex, destination: Vertex): (r: bool)
      reads this
      ensures r <==> source in adjacency && destination in adjacency[source]
                     && (!directed ==> destination in adjacency && source in adjacency[destination])
    {
      HasEdge(adjacency, directed, source, destination)
    }

    /** getEdge: the stored record, or Edge() and a diagnostic when the edge does not exist. */
    function GetEdge(source: Vertex, destination: Vertex): (r: (Edge, seq<Diagnostic>))
      reads this
      ensures HasEdge(adjacency, directed, source, destination) ==> r == (adjacency[source][destination], [])
      ensures !HasEdge(adjacency, directed, source, destination) ==>
        r.0 == EmptyEdge && r.1 == AssertEdgeExists(adjacency, directed, source, destination, "getEdge").1 && |r.1| == 1
    {
      var (ok, log) := AssertEdgeExists(adjacency, directed, source, destination, "getEdge");
      if !ok then (EmptyEdge, log) else (adjacency[source][destination], log)
    }

    /** getEdgeLabel: the stored label, or InvalidLabel and a diagnostic. */
    function GetEdgeLabel(source: Vertex, destination: Vertex): (r: (string, seq<Diagnostic>))
      reads this
      ensures HasEdge(adjacency, directed, source, destination) ==> r == (adjacency[source][destination].labelText, [])
      ensures !HasEdge(adjacency, directed, source, destination) ==>
        r.0 == InvalidLabel && r.1 == AssertEdgeExists(adjacency, directed, source, destination, "getEdgeLabel").1 && |r.1| == 1
    {
      var (ok, log) := AssertEdgeExists(adjacency, directed, source, destination, "getEdgeLabel");
      if !ok then (InvalidLabel, log) else (adjacency[source][destination].labelText, log)
    }

    /**
     * getEdgeWeight: the stored weight, or InvalidWeight when the edge does not
     * exist.  On an unweighted graph it reports that first, and still answers.
     */
    function GetEdgeWeight(source: Vertex, destination: Vertex): (r: (int, seq<Diagnostic>))
      reads this
      ensures HasEdge(adjacency, directed, source, destination) ==> r.0 == adjacency[source][destination].weight
      ensures !HasEdge(adjacency, directed, source, destination) ==> r.0 == InvalidWeight
      ensures r.1 == [] <==> weighted && HasEdge(adjacency, directed, source, destination)
      ensures !weighted ==> r.1[0] == UnweightedGraph
      ensures HasEdge(adjacency, directed, source, destination) ==> r.1 == (if weighted then [] else [UnweightedGraph])
      ensures !HasEdge(adjacency, directed, source, destination) ==>
        r.1 == (if weighted then [] else [UnweightedGraph])
               + AssertEdgeExists(adjacency, directed, source, destination, "getEdgeWeight").1
      ensures |r.1| <= 2
    {
      var warning := if weighted then [] else [UnweightedGraph];
      var (ok, log) := AssertEdgeExists(adjacency, directed, source, destination, "getEdgeWeight");
      if !ok then (InvalidWeight, warning + log) else (adjacency[source][destination].weight, warning)
    }

    // -------------------------------------------------------------------------
    // Mutations
    // -------------------------------------------------------------------------

    /** removeVertex: v and every edge that touches it go; InvalidVertex and no change when v is unknown. */
    method RemoveVertex(v: Vertex) returns (removed: Vertex)
      requires Valid()
      modifies this
      ensures Valid()
      ensures (removed, adjacency) == RemoveVertexResult(old(adjacency), directed, v)
    {
      ghost var before := adjacency;
      if v !in adjacency {
        return InvalidVertex;
      }
      if !directed {
        EraseFromRows(v, adjacency[v].Keys);
        adjacency := adjacency - {v};
        RemoveVertexKeepsSymmetry(before, v);
        return v;
      }
      adjacency := adjacency - {v};
      EraseWhereListed(v);
      return v;
    }

    /**
     * The undirected half of removeVertex: erase v from the row of each vertex
     * that v's row lists, reaching each row through operator[].
     */
    method EraseFromRows(v: Vertex, us: set<Vertex>)
      modifies this
      ensures adjacency == EraseFrom(old(adjacency), v, us)
    {
      ghost var before := adjacency;
      var pending := us;
      while pending != {}
        invariant pending <= us
        invariant adjacency == EraseFrom(before, v, us - pending)
        decreases |pending|
      {
        NonEmptyHasElement(pending);
        var u :| u in pending;
        EraseFromStep(before, v, us - pending, u);
        assert us - pending + {u} == us - (pending - {u});
        adjacency := adjacency[u := Row(adjacency, u) - {v}];
        pending := pending - {u};
      }
      assert us - pending == us;
    }

    /** The directed half of removeVertex: scan every row and erase v where it is listed. */
    method EraseWhereListed(v: Vertex)
      modifies this
      ensures adjacency == EraseFrom(old(adjacency), v, old(adjacency).Keys)
    {
      ghost var before := adjacency;
      var rest := adjacency.Keys;
      while rest != {}
        invariant rest <= before.Keys
        invariant adjacency == EraseFrom(before, v, before.Keys - rest)
        decreases |rest|
      {
        NonEmptyHasElement(rest);
        var u :| u in rest;
        EraseFromStep(before, v, before.Keys - rest, u);
        assert before.Keys - rest + {u} == before.Keys - (rest - {u});
        if v in adjacency[u] {
          adjacency := adjacency[u := adjacency[u] - {v}];
        } else {
          assert adjacency[u] - {v} == adjacency[u];
        }
        rest := rest - {u};
      }
      assert before.Keys - rest == before.Keys;
    }

    /** insertVertex: a reset: the vertex loses every incident edge and gets an empty row. */
    method InsertVertex(v: Vertex)
      requires Valid()
      modifies this
      ensures Valid()
      ensures adjacency == InsertVertexResult(old(adjacency), directed, v)
    {
      ghost var before := adjacency;
      var _ := RemoveVertex(v);
      adjacency := adjacency[v := map[]];
      if !directed {
        InsertVertexResets(before, v);
      }
    }

    /** insertEdge: false and no change when the edge is already stored; otherwise stores it. */
    method InsertEdge(source: Vertex, destination: Vertex) returns (inserted: bool)
      requires Valid()
      modifies this
      ensures Valid()
      ensures (inserted, adjacency) == InsertEdgeResult(old(adjacency), directed, source, destination)
    {
      ghost var before := adjacency;
      if source in adjacency && destination in adjacency[source] {
        return false;
      }
      if source !in adjacency {
        adjacency := adjacency[source := map[]];
      }
      adjacency := adjacency[source := adjacency[source][destination := NewEdge(source, destination)]];
      ghost var forward := adjacency;
      assert forward == before[source := Row(before, source)[destination := NewEdge(source, destination)]];
      if !directed {
        if destination !in adjacency {
          adjacency := adjacency[destination := map[]];
        }
        adjacency := adjacency[destination := adjacency[destination][source := NewEdge(source, destination)]];
        assert adjacency == forward[destination := Row(forward, destination)[source := NewEdge(source, destination)]];
        InsertEdgeKeepsSymmetry(before, source, destination);
      }
      return true;
    }

    /** removeEdge: the erased record, or InvalidEdge, a diagnostic and no change. */
    method RemoveEdge(source: Vertex, destination: Vertex) returns (e: Edge, log: seq<Diagnostic>)
      requires Valid()
      modifies this
      ensures Valid()
      ensures (e, adjacency, log) == RemoveEdgeResult(old(adjacency), directed, source, destination)
    {
      ghost var before := adjacency;
      var (ok, probeLog) := AssertEdgeExists(adjacency, directed, source, destination, "removeEdge");
      if !ok {
        return InvalidEdge, probeLog;
      }
      log := [];
      e := adjacency[source][destination];
      adjacency := adjacency[source := adjacency[source] - {destination}];
      if !directed {
        adjacency := adjacency[destination := adjacency[destination] - {source}];
        RemoveEdgeKeepsSymmetry(before, source, destination);
      }
    }

    /** setEdgeWeight: rewrites the weight (in both rows when undirected) and keeps the label. */
    method SetEdgeWeight(source: Vertex, destination: Vertex, weight: int) returns (e: Edge, log: seq<Diagnostic>)
      requires Valid()
      modifies this
      ensures Valid()
      ensures (e, adjacency, log) == SetEdgeWeightResult(old(adjacency), directed, source, destination, weight)
    {
      ghost var before := adjacency;
      var (ok, probeLog) := AssertEdgeExists(adjacency, directed, source, destination, "setEdgeWeight");
      if !ok {
        return InvalidEdge, probeLog;
      }
      log := [];
      var stored := adjacency[source][destination];
      e := Edge(source, destination, weight, stored.labelText);
      adjacency := adjacency[source := adjacency[source][destination := e]];
      if !directed {
        var reverse := Edge(destination, source, weight, stored.labelText);
        adjacency := adjacency[destination := adjacency[destination][source := reverse]];
        SetEdgeWeightKeepsSymmetry(before, source, destination, weight);
      }
    }

    /** setEdgeLabel: rewrites the label (in both rows when undirected) and keeps the weight. */
    method SetEdgeLabel(source: Vertex, destination: Vertex, newLabel: string) returns (e: Edge, log: seq<Diagnostic>)
      requires Valid()
      modifies this
      ensures Valid()
      ensures (e, adjacency, log) == SetEdgeLabelResult(old(adjacency), directed, source, destination, newLabel)
    {
      ghost var before := adjacency;
      var (ok, probeLog) := AssertEdgeExists(adjacency, directed, source, destination, "setEdgeLabel");
      if !ok {
        return InvalidEdge, probeLog;
      }
      log := [];
      var stored := adjacency[source][destination];
      e := Edge(source, destination, stored.weight, newLabel);
      adjacency := adjacency[source := adjacency[source][destination := e]];
      if !directed {
        var reverse := Edge(destination, source, stored.weight, newLabel);
        adjacency := adjacency[destination := adjacency[destination][source := reverse]];
        SetEdgeLabelKeepsSymmetry(before, source, destination, newLabel);
      }
    }

    /** clear: no vertices and no edges; the modes are kept. */
    method Clear()
      requires Valid()
      modifies this
      ensures Valid()
      ensures adjacency == map[]
    {
      adjacency := map[];
    }
  }
}
