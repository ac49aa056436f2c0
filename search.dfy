/**
 * Breadth-first search over a Graph, reading it only through getAdjacent.
 * The visited records form an index arena: each record holds a vertex and
 * the index of the record it was reached from, and the queue holds arena
 * indices.  The path is rebuilt by walking those indices back from the
 * record where the search stopped, and then reversing.
 */
module PathSearch {
  import opened Adjacency
  import opened Graphs

  // ---------------------------------------------------------------------------
  // Walks and breadth-first layers
  // ---------------------------------------------------------------------------

  /** A walk: each vertex is listed by the row of the one before it. */
  ghost predicate IsWalk(adj: AdjacencyList, p: seq<Vertex>)
  {
    |p| >= 1 && forall i :: 0 <= i < |p| - 1 ==> p[i + 1] in Neighbours(adj, p[i])
  }

  ghost predicate Reachable(adj: AdjacencyList, s: Vertex, t: Vertex)
  {
    exists p :: IsWalk(adj, p) && p[0] == s && p[|p| - 1] == t
  }

  /** t can be reached from s by a walk of at most n edges. */
  ghost predicate ReachableWithin(adj: AdjacencyList, s: Vertex, t: Vertex, n: nat)
  {
    exists p :: IsWalk(adj, p) && p[0] == s && p[|p| - 1] == t && |p| <= n + 1
  }

  /** The vertices one step away from some vertex of `from`. */
  ghost function Successors(adj: AdjacencyList, from: set<Vertex>): set<Vertex>
  {
    set u, x | u in from && x in Neighbours(adj, u) :: x
  }

  /** The vertices within k steps of s: breadth-first layers 0 to k. */
  ghost function Ball(adj: AdjacencyList, s: Vertex, k: nat): set<Vertex>
    decreases k
  {
    if k == 0 then {s} else Ball(adj, s, k - 1) + Successors(adj, Ball(adj, s, k - 1))
  }

  /** x lies in layer n: n is the number of edges of a shortest walk from s to x. */
  ghost predicate InLayer(adj: AdjacencyList, s: Vertex, x: Vertex, n: nat)
  {
    x in Ball(adj, s, n) && (n == 0 || x !in Ball(adj, s, n - 1))
  }

  lemma {:induction false} BallGrows(adj: AdjacencyList, s: Vertex, a: nat, b: nat)
    requires a <= b
    ensures Ball(adj, s, a) <= Ball(adj, s, b)
    decreases b
  {
    if a < b {
      BallGrows(adj, s, a, b - 1);
    }
  }

  /** The end of a walk of m edges lies within m steps of its start. */
  lemma {:induction false} WalkEndsInBall(adj: AdjacencyList, p: seq<Vertex>)
    requires IsWalk(adj, p)
    ensures p[|p| - 1] in Ball(adj, p[0], |p| - 1)
    decreases |p|
  {
    if |p| > 1 {
      var prefix := p[..|p| - 1];
      assert IsWalk(adj, prefix);
      WalkEndsInBall(adj, prefix);
      var before := Ball(adj, p[0], |p| - 2);
      var u, x := prefix[|prefix| - 1], p[|p| - 1];
      assert u in before && x in Neighbours(adj, u);
      assert x in Successors(adj, before);
    }
  }

  /** Conversely, every vertex within k steps is the end of a walk of at most k edges. */
  lemma {:induction false} BallHasWalk(adj: AdjacencyList, s: Vertex, k: nat, t: Vertex) returns (p: seq<Vertex>)
    requires t in Ball(adj, s, k)
    ensures IsWalk(adj, p) && p[0] == s && p[|p| - 1] == t && |p| <= k + 1
    decreases k
  {
    if k == 0 {
      p := [s];
    } else if t in Ball(adj, s, k - 1) {
      p := BallHasWalk(adj, s, k - 1, t);
    } else {
      var u :| u in Ball(adj, s, k - 1) && t in Neighbours(adj, u);
      var q := BallHasWalk(adj, s, k - 1, u);
      p := q + [t];
      assert forall i :: 0 <= i < |q| ==> p[i] == q[i];
    }
  }

  /** No walk from s to a vertex of layer n has fewer than n edges. */
  lemma LayerIsShortest(adj: AdjacencyList, s: Vertex, x: Vertex, n: nat, p: seq<Vertex>)
    requires InLayer(adj, s, x, n)
    requires IsWalk(adj, p) && p[0] == s && p[|p| - 1] == x
    ensures n + 1 <= |p|
  {
    WalkEndsInBall(adj, p);
    if |p| < n + 1 {
      BallGrows(adj, s, |p| - 1, n - 1);
      assert false;
    }
  }

  // ---------------------------------------------------------------------------
  // The search's state
  // ---------------------------------------------------------------------------

  /** An arena record: a visited vertex and the index of the record it was reached from (-1 for start). */
  datatype Node = Node(vertex: Vertex, previous: int)

  /** Every vertex the search can ever visit: the start and every vertex some row lists. */
  ghost function Mentioned(adj: AdjacencyList, start: Vertex): set<Vertex>
  {
    {start} + set u, x | u in adj && x in adj[u] :: x
  }

  /**
   * Record i of the arena: its vertex is in breadth-first layer depth[i] and
   * is mentioned by the graph; unless it is the start record, it was reached
   * from an earlier record along an edge, one layer further on.
   */
  ghost predicate RecordFits(adj: AdjacencyList, start: Vertex, arena: seq<Node>, depth: seq<nat>, i: int)
  {
    && 0 <= i < |arena| && |depth| == |arena|
    && InLayer(adj, start, arena[i].vertex, depth[i])
    && arena[i].vertex in Mentioned(adj, start)
    && (i >= 1 ==>
          && 0 <= arena[i].previous < i
          && depth[i] == depth[arena[i].previous] + 1
          && arena[i].vertex in Neighbours(adj, arena[arena[i].previous].vertex))
  }

  /**
   * The arena after any number of steps: record 0 is the start, every record
   * fits, layers never decrease along the arena, and `visited` lists the same
   * vertices, once each.
   */
  ghost predicate ArenaShape(adj: AdjacencyList, start: Vertex, arena: seq<Node>, depth: seq<nat>, visited: seq<Vertex>)
  {
    && |arena| >= 1 && |depth| == |arena| && |visited| == |arena|
    && arena[0] == Node(start, -1) && depth[0] == 0
    && (forall i :: 0 <= i < |arena| ==> RecordFits(adj, start, arena, depth, i))
    && (forall i :: 0 <= i < |arena| ==> visited[i] == arena[i].vertex)
    && Distinct(visited)
    && (forall i, j :: 0 <= i <= j < |arena| ==> depth[i] <= depth[j])
  }

  /** The records before `head` have been dequeued: none is the target, and all their neighbours are visited. */
  ghost predicate Expanded(adj: AdjacencyList, target: Vertex, arena: seq<Node>, visited: seq<Vertex>, head: nat)
  {
    head <= |arena|
    && forall j :: 0 <= j < head ==>
         arena[j].vertex != target && forall y :: y in Neighbours(adj, arena[j].vertex) ==> y in visited
  }

  /** The queue holds exactly the records from `head` on, in arena order. */
  ghost predicate QueueIsTail(queue: seq<nat>, head: nat, size: nat)
  {
    head + |queue| == size && forall k :: 0 <= k < |queue| ==> queue[k] == head + k
  }

  lemma {:induction false} DistinctWithin(s: seq<Vertex>, u: set<Vertex>)
    requires Distinct(s)
    requires forall i :: 0 <= i < |s| ==> s[i] in u
    ensures |s| <= |u|
    decreases |s|
  {
    if s != [] {
      var last := s[|s| - 1];
      DistinctWithin(s[..|s| - 1], u - {last});
    }
  }

  /** A vertex of Successors(adj, from) together with a vertex of `from` whose row lists it. */
  lemma Predecessor(adj: AdjacencyList, from: set<Vertex>, y: Vertex) returns (x: Vertex)
    requires y in Successors(adj, from)
    ensures x in from && y in Neighbours(adj, x)
  {
    x :| x in from && y in Neighbours(adj, x);
  }

  /** The position of a vertex in a sequence that holds it. */
  lemma IndexOf(s: seq<Vertex>, x: Vertex) returns (j: nat)
    requires x in s
    ensures j < |s| && s[j] == x
  {
    j :| 0 <= j < |s| && s[j] == x;
  }

  /** A vertex of layer n that lies within m steps of the start has n <= m. */
  lemma LayerBound(adj: AdjacencyList, start: Vertex, x: Vertex, n: nat, m: nat)
    requires InLayer(adj, start, x, n) && x in Ball(adj, start, m)
    ensures n <= m
  {
    if n > m {
      BallGrows(adj, start, m, n - 1);
    }
  }

  /** A record on a lower layer than the one at `head` has already been dequeued. */
  lemma LowerLayerExpanded(adj: AdjacencyList, start: Vertex, arena: seq<Node>, depth: seq<nat>,
                           visited: seq<Vertex>, head: nat, j: nat)
    requires ArenaShape(adj, start, arena, depth, visited)
    requires head < |arena| && j < |arena| && depth[j] < depth[head]
    ensures j < head
  {
  }

  /** One step of BallVisited: a successor of a visited vertex of a lower layer is visited. */
  lemma SuccessorVisited(adj: AdjacencyList, start: Vertex, target: Vertex, arena: seq<Node>,
                         depth: seq<nat>, visited: seq<Vertex>, head: nat, k: nat, y: Vertex)
    requires ArenaShape(adj, start, arena, depth, visited)
    requires Expanded(adj, target, arena, visited, head)
    requires head < |arena| && 1 <= k <= depth[head]
    requires forall z :: z in Ball(adj, start, k - 1) ==> z in visited
    requires y in Successors(adj, Ball(adj, start, k - 1))
    ensures y in visited
  {
    var x := Predecessor(adj, Ball(adj, start, k - 1), y);
    var j := IndexOf(visited, x);
    assert RecordFits(adj, start, arena, depth, j);
    LayerBound(adj, start, x, depth[j], k - 1);
    LowerLayerExpanded(adj, start, arena, depth, visited, head, j);
  }

  /** While the record at `head` is being expanded, every vertex within its layer is already visited. */
  lemma {:induction false} BallVisited(adj: AdjacencyList, start: Vertex, target: Vertex, arena: seq<Node>,
                                       depth: seq<nat>, visited: seq<Vertex>, head: nat, k: nat)
    requires ArenaShape(adj, start, arena, depth, visited)
    requires Expanded(adj, target, arena, visited, head)
    requires head < |arena| && k <= depth[head]
    ensures forall y :: y in Ball(adj, start, k) ==> y in visited
    decreases k
  {
    if k == 0 {
      assert visited[0] == start;
    } else {
      BallVisited(adj, start, target, arena, depth, visited, head, k - 1);
      forall y | y in Ball(adj, start, k)
        ensures y in visited
      {
        if y !in Ball(adj, start, k - 1) {
          SuccessorVisited(adj, start, target, arena, depth, visited, head, k, y);
        }
      }
    }
  }

  /** Once every record has been expanded, every vertex within any number of steps is visited. */
  lemma {:induction false} AllBallsVisited(adj: AdjacencyList, start: Vertex, target: Vertex, arena: seq<Node>,
                                           depth: seq<nat>, visited: seq<Vertex>, k: nat)
    requires ArenaShape(adj, start, arena, depth, visited)
    requires Expanded(adj, target, arena, visited, |arena|)
    ensures forall y :: y in Ball(adj, start, k) ==> y in visited
    decreases k
  {
    if k == 0 {
      assert visited[0] == start;
    } else {
      AllBallsVisited(adj, start, target, arena, depth, visited, k - 1);
      forall y | y in Ball(adj, start, k)
        ensures y in visited
      {
        if y !in Ball(adj, start, k - 1) {
          var x :| x in Ball(adj, start, k - 1) && y in Neighbours(adj, x);
          var j :| 0 <= j < |visited| && visited[j] == x;
        }
      }
    }
  }

  /**
   * When the queue runs dry, the target was never reached, and every vertex
   * reachable from the start is within the last record's layer.
   */
  lemma SearchExhausted(adj: AdjacencyList, start: Vertex, target: Vertex, arena: seq<Node>,
                        depth: seq<nat>, visited: seq<Vertex>)
    requires ArenaShape(adj, start, arena, depth, visited)
    requires Expanded(adj, target, arena, visited, |arena|)
    ensures !Reachable(adj, start, target)
    ensures forall x :: Reachable(adj, start, x) ==> ReachableWithin(adj, start, x, depth[|arena| - 1])
  {
    forall x | Reachable(adj, start, x)
      ensures x != target && ReachableWithin(adj, start, x, depth[|arena| - 1])
    {
      var p :| IsWalk(adj, p) && p[0] == start && p[|p| - 1] == x;
      WalkEndsInBall(adj, p);
      AllBallsVisited(adj, start, target, arena, depth, visited, |p| - 1);
      var j := IndexOf(visited, x);
      assert RecordFits(adj, start, arena, depth, j);
      BallGrows(adj, start, depth[j], depth[|arena| - 1]);
      var q := BallHasWalk(adj, start, depth[|arena| - 1], x);
    }
  }

  /** A listed neighbour is mentioned by the graph. */
  lemma NeighbourMentioned(adj: AdjacencyList, start: Vertex, u: Vertex, y: Vertex)
    requires y in Neighbours(adj, u)
    ensures y in Mentioned(adj, start)
  {
    var u', y' := u, y;
    assert u' in adj && y' in adj[u'];
  }

  /** The arena never holds more records than there are vertices it could visit. */
  lemma ArenaBounded(adj: AdjacencyList, start: Vertex, arena: seq<Node>, depth: seq<nat>, visited: seq<Vertex>)
    requires ArenaShape(adj, start, arena, depth, visited)
    ensures |arena| <= |Mentioned(adj, start)|
  {
    forall i | 0 <= i < |visited|
      ensures visited[i] in Mentioned(adj, start)
    {
      assert RecordFits(adj, start, arena, depth, i);
    }
    DistinctWithin(visited, Mentioned(adj, start));
  }

  /** Records that fit an arena still fit once the arena is extended. */
  lemma RecordsStillFit(adj: AdjacencyList, start: Vertex, arena: seq<Node>, depth: seq<nat>,
                        arena': seq<Node>, depth': seq<nat>)
    requires |depth| == |arena| && |depth'| == |arena'| && |arena| <= |arena'|
    requires arena'[..|arena|] == arena && depth'[..|depth|] == depth
    requires forall i :: 0 <= i < |arena| ==> RecordFits(adj, start, arena, depth, i)
    ensures forall i :: 0 <= i < |arena| ==> RecordFits(adj, start, arena', depth', i)
  {
    forall i | 0 <= i < |arena|
      ensures RecordFits(adj, start, arena', depth', i)
    {
      assert RecordFits(adj, start, arena, depth, i);
      assert arena'[i] == arena[i] && depth'[i] == depth[i];
      if i >= 1 {
        assert arena'[arena[i].previous] == arena[arena[i].previous];
      }
    }
  }

  /** An unvisited neighbour of the record at `head` lies in the next layer. */
  lemma NextLayer(adj: AdjacencyList, start: Vertex, arena: seq<Node>, depth: seq<nat>,
                  visited: seq<Vertex>, head: nat, y: Vertex)
    requires ArenaShape(adj, start, arena, depth, visited) && head < |arena|
    requires forall z :: z in Ball(adj, start, depth[head]) ==> z in visited
    requires y in Neighbours(adj, arena[head].vertex) && y !in visited
    ensures InLayer(adj, start, y, depth[head] + 1) && y in Mentioned(adj, start)
  {
    assert RecordFits(adj, start, arena, depth, head);
    var u := arena[head].vertex;
    var before := Ball(adj, start, depth[head]);
    assert u in before && y in Neighbours(adj, u);
    assert y in Successors(adj, before);
    NeighbourMentioned(adj, start, u, y);
  }

  /**
   * Appending an unvisited neighbour of the record at `head`, one layer
   * further on, keeps the arena's shape and everything already expanded.
   */
  lemma ArenaGrows(adj: AdjacencyList, start: Vertex, target: Vertex, arena: seq<Node>, depth: seq<nat>,
                   visited: seq<Vertex>, head: nat, y: Vertex)
    requires ArenaShape(adj, start, arena, depth, visited)
    requires Expanded(adj, target, arena, visited, head)
    requires head < |arena| && depth[|arena| - 1] <= depth[head] + 1
    requires forall z :: z in Ball(adj, start, depth[head]) ==> z in visited
    requires y in Neighbours(adj, arena[head].vertex) && y !in visited
    ensures ArenaShape(adj, start, arena + [Node(y, head)], depth + [depth[head] + 1], visited + [y])
    ensures Expanded(adj, target, arena + [Node(y, head)], visited + [y], head)
  {
    var arena', depth', visited' := arena + [Node(y, head)], depth + [depth[head] + 1], visited + [y];
    var n := |arena|;
    NextLayer(adj, start, arena, depth, visited, head, y);
    assert RecordFits(adj, start, arena', depth', n);
    RecordsStillFit(adj, start, arena, depth, arena', depth');
    forall i, j | 0 <= i <= j < n + 1
      ensures depth'[i] <= depth'[j]
    {
      if j == n && i < n {
        assert depth[i] <= depth[n - 1];
      }
    }
  }

  /** Once every neighbour of the record at `head` is visited, that record counts as expanded. */
  lemma HeadExpanded(adj: AdjacencyList, target: Vertex, arena: seq<Node>, visited: seq<Vertex>,
                     head: nat, neighbours: seq<Vertex>)
    requires Expanded(adj, target, arena, visited, head)
    requires head < |arena| && arena[head].vertex != target
    requires forall x :: x in neighbours <==> x in Neighbours(adj, arena[head].vertex)
    requires forall k :: 0 <= k < |neighbours| ==> neighbours[k] in visited
    ensures Expanded(adj, target, arena, visited, head + 1)
  {
    forall y | y in Neighbours(adj, arena[head].vertex)
      ensures y in visited
    {
      var k := IndexOf(neighbours, y);
    }
  }

  // ---------------------------------------------------------------------------
  // Search
  // ---------------------------------------------------------------------------

  /** std::reverse on the rebuilt path: the last element first. */
  function Reversed(s: seq<Vertex>): seq<Vertex>
  {
    if s == [] then [] else Reversed(s[1..]) + [s[0]]
  }

  /** Position k of the reversal holds the element k places from the end. */
  lemma {:induction false} ReversedAt(s: seq<Vertex>)
    ensures |Reversed(s)| == |s|
    ensures forall k :: 0 <= k < |s| ==> Reversed(s)[k] == s[|s| - 1 - k]
  {
    if s != [] {
      ReversedAt(s[1..]);
    }
  }

  /** Reversing twice gives back the original sequence. */
  lemma ReversedTwice(s: seq<Vertex>)
    ensures Reversed(Reversed(s)) == s
  {
    ReversedAt(s);
    ReversedAt(Reversed(s));
  }

  /**
   * Vertices collected along a chain of `previous` indices, newest record
   * first: each is listed by the row of the one after it, and none repeats.
   */
  lemma TrailIsBackwardWalk(adj: AdjacencyList, start: Vertex, arena: seq<Node>, depth: seq<nat>,
                            visited: seq<Vertex>, trail: seq<nat>, back: seq<Vertex>)
    requires ArenaShape(adj, start, arena, depth, visited)
    requires |trail| == |back|
    requires forall k :: 0 <= k < |trail| ==> trail[k] < |arena| && back[k] == arena[trail[k]].vertex
    requires forall k :: 0 <= k < |trail| - 1 ==> trail[k + 1] == arena[trail[k]].previous
    requires forall k, l :: 0 <= k < l < |trail| ==> trail[l] < trail[k]
    ensures forall m :: 0 <= m < |back| - 1 ==> back[m] in Neighbours(adj, back[m + 1])
    ensures Distinct(back)
  {
    forall m | 0 <= m < |back| - 1
      ensures back[m] in Neighbours(adj, back[m + 1])
    {
      assert RecordFits(adj, start, arena, depth, trail[m]);
    }
    forall k, l | 0 <= k < l < |back|
      ensures back[k] != back[l]
    {
      assert visited[trail[k]] != visited[trail[l]];
    }
  }

  /** Reversing a backward walk gives a walk; reversing keeps the vertices distinct. */
  lemma ReversedWalk(adj: AdjacencyList, back: seq<Vertex>)
    requires |back| >= 1
    requires forall m :: 0 <= m < |back| - 1 ==> back[m] in Neighbours(adj, back[m + 1])
    requires Distinct(back)
    ensures IsWalk(adj, Reversed(back)) && Distinct(Reversed(back))
  {
    var path := Reversed(back);
    ReversedAt(back);
    forall k | 0 <= k < |path| - 1
      ensures path[k + 1] in Neighbours(adj, path[k])
    {
      assert path[k + 1] == back[|back| - 2 - k] && path[k] == back[|back| - 1 - k];
    }
    forall k, l | 0 <= k < l < |path|
      ensures path[k] != path[l]
    {
      assert path[k] == back[|back| - 1 - k] && path[l] == back[|back| - 1 - l];
    }
  }

  /**
   * Follows the `previous` indices from record `current` back to the start
   * record and reverses what it collected: a walk from the start to that
   * record's vertex, one vertex per layer, that never repeats a vertex.
   */
  method TraceBack(ghost adj: AdjacencyList, ghost start: Vertex, arena: seq<Node>, ghost depth: seq<nat>,
                   ghost visited: seq<Vertex>, current: nat) returns (path: seq<Vertex>)
    requires ArenaShape(adj, start, arena, depth, visited) && current < |arena|
    ensures |path| == depth[current] + 1
    ensures path[0] == start && path[|path| - 1] == arena[current].vertex
    ensures IsWalk(adj, path)
    ensures Distinct(path)
  {
    var back: seq<Vertex> := [];
    ghost var trail: seq<nat> := [];
    var index: int := current;
    while index != -1
      invariant -1 <= index < |arena|
      invariant |trail| == |back|
      invariant forall k :: 0 <= k < |trail| ==> trail[k] < |arena| && back[k] == arena[trail[k]].vertex
      invariant forall k :: 0 <= k < |trail| - 1 ==> trail[k + 1] == arena[trail[k]].previous
      invariant forall k, l :: 0 <= k < l < |trail| ==> trail[l] < trail[k]
      invariant trail == [] ==> index == current
      invariant trail != [] ==> trail[0] == current && index == arena[trail[|trail| - 1]].previous
      invariant index >= 0 ==> (forall k :: 0 <= k < |trail| ==> index < trail[k]) && |back| + depth[index] == depth[current]
      invariant index == -1 ==> trail != [] && trail[|trail| - 1] == 0 && |back| == depth[current] + 1
      decreases index + 1
    {
      assert RecordFits(adj, start, arena, depth, index);
      back := back + [arena[index].vertex];
      trail := trail + [index];
      index := arena[index].previous;
    }
    TrailIsBackwardWalk(adj, start, arena, depth, visited, trail, back);
    path := Reversed(back);
    ReversedAt(back);
    ReversedWalk(adj, back);
  }

  /**
   * What the search's final state says about the walk rebuilt from record
   * `current`: it is a shortest walk to its end, which is the target exactly
   * when the target is reachable; otherwise every reachable vertex is at
   * most as far away as that end.
   */
  lemma SearchOutcome(adj: AdjacencyList, start: Vertex, target: Vertex, arena: seq<Node>, depth: seq<nat>,
                      visited: seq<Vertex>, head: nat, current: nat, found: bool, path: seq<Vertex>)
    requires ArenaShape(adj, start, arena, depth, visited)
    requires Expanded(adj, target, arena, visited, head)
    requires current < |arena|
    requires found ==> arena[current].vertex == target
    requires !found ==> head == |arena| && current == head - 1
    requires |path| == depth[current] + 1
    requires path[0] == start && path[|path| - 1] == arena[current].vertex && IsWalk(adj, path)
    ensures path[|path| - 1] == target <==> Reachable(adj, start, target)
    ensures forall p :: IsWalk(adj, p) && p[0] == start && p[|p| - 1] == path[|path| - 1] ==> |path| <= |p|
    ensures path[|path| - 1] != target ==>
      forall x :: Reachable(adj, start, x) ==> ReachableWithin(adj, start, x, |path| - 1)
  {
    var last := arena[current].vertex;
    assert RecordFits(adj, start, arena, depth, current);
    forall p | IsWalk(adj, p) && p[0] == start && p[|p| - 1] == last
      ensures |path| <= |p|
    {
      LayerIsShortest(adj, start, last, depth[current], p);
    }
    if !found {
      SearchExhausted(adj, start, target, arena, depth, visited);
    }
  }

  /**
   * The inner loop of BFS: every neighbour of the record at `current` (the
   * head of the queue) that is not yet visited gets a record one layer
   * further on, is marked visited and is queued.  Afterwards that record
   * counts as expanded.
   */
  method Enqueue(ghost adj: AdjacencyList, ghost start: Vertex, ghost target: Vertex, arena: seq<Node>,
                 ghost depth: seq<nat>, visited: seq<Vertex>, queue: seq<nat>, current: nat, neighbours: seq<Vertex>)
    returns (arena': seq<Node>, ghost depth': seq<nat>, visited': seq<Vertex>, queue': seq<nat>)
    requires ArenaShape(adj, start, arena, depth, visited)
    requires Expanded(adj, target, arena, visited, current)
    requires QueueIsTail(queue, current, |arena|) && current < |arena|
    requires depth[|arena| - 1] <= depth[current] + 1
    requires arena[current].vertex != target
    requires forall x :: x in neighbours <==> x in Neighbours(adj, arena[current].vertex)
    ensures ArenaShape(adj, start, arena', depth', visited')
    ensures Expanded(adj, target, arena', visited', current + 1)
    ensures QueueIsTail(queue', current, |arena'|)
    ensures depth'[|arena'| - 1] <= depth'[current] + 1
    ensures |arena| <= |arena'| && arena'[..|arena|] == arena && visited'[..|visited|] == visited
    ensures forall k :: |arena| <= k < |arena'| ==>
      arena'[k].previous == current && arena'[k].vertex in neighbours && arena'[k].vertex !in visited
  {
    arena', depth', visited', queue' := arena, depth, visited, queue;
    BallVisited(adj, start, target, arena, depth, visited, current, depth[current]);
    var i := 0;
    while i < |neighbours|
      invariant i <= |neighbours|
      invariant ArenaShape(adj, start, arena', depth', visited')
      invariant Expanded(adj, target, arena', visited', current)
      invariant QueueIsTail(queue', current, |arena'|)
      invariant |arena| <= |arena'| && arena'[..|arena|] == arena && visited'[..|visited|] == visited
      invariant depth'[current] == depth[current]
      invariant forall k :: |arena| <= k < |arena'| ==>
        arena'[k].previous == current && arena'[k].vertex in neighbours && arena'[k].vertex !in visited
      invariant depth'[|arena'| - 1] <= depth[current] + 1
      invariant forall k :: 0 <= k < i ==> neighbours[k] in visited'
      invariant forall y :: y in Ball(adj, start, depth[current]) ==> y in visited'
    {
      var neighbour := neighbours[i];
      if neighbour !in visited' {
        ArenaGrows(adj, start, target, arena', depth', visited', current, neighbour);
        arena' := arena' + [Node(neighbour, current)];
        depth' := depth' + [depth[current] + 1];
        queue' := queue' + [|arena'| - 1];
        visited' := visited' + [neighbour];
      }
      i := i + 1;
    }
    HeadExpanded(adj, target, arena', visited', current, neighbours);
  }

  class Search {
    const graph: Graph

    constructor (graph: Graph)
      ensures this.graph == graph
    {
      this.graph := graph;
    }

    /**
     * BFS(start, end): a shortest walk from start to end when end is
     * reachable.  When it is not, the queue runs dry and the walk ends at the
     * last vertex dequeued, which is as far from start as any reachable
     * vertex; no failure is signalled.
     */
    method BFS(start: Vertex, end: Vertex) returns (path: seq<Vertex>)
      ensures |path| >= 1 && path[0] == start
      ensures start == end ==> path == [start]
      ensures IsWalk(graph.adjacency, path)
      ensures Distinct(path)
      ensures path[|path| - 1] == end <==> Reachable(graph.adjacency, start, end)
      ensures forall p :: IsWalk(graph.adjacency, p) && p[0] == start && p[|p| - 1] == path[|path| - 1] ==> |path| <= |p|
      ensures path[|path| - 1] != end ==>
        forall x :: Reachable(graph.adjacency, start, x) ==> ReachableWithin(graph.adjacency, start, x, |path| - 1)
    {
      var arena, visited, current, found, depth, head := Explore(start, end);
      path := TraceBack(graph.adjacency, start, arena, depth, visited, current);
      SearchOutcome(graph.adjacency, start, end, arena, depth, visited, head, current, found, path);
    }

    /**
     * The queue loop of BFS: dequeue a record, stop if it holds `end`,
     * otherwise enqueue its unvisited neighbours.  Returns the arena, the
     * visited list and the index of the last record dequeued; `found` says
     * whether the loop stopped at `end` rather than running dry.
     */
    method Explore(start: Vertex, end: Vertex)
      returns (arena: seq<Node>, visited: seq<Vertex>, current: nat, found: bool, ghost depth: seq<nat>, ghost head: nat)
      ensures ArenaShape(graph.adjacency, start, arena, depth, visited)
      ensures Expanded(graph.adjacency, end, arena, visited, head)
      ensures current < |arena|
      ensures found ==> arena[current].vertex == end
      ensures !found ==> head == |arena| && current == head - 1
      ensures start == end ==> found && current == 0
    {
      ghost var adj := graph.adjacency;
      arena := [Node(start, -1)];
      var queue: seq<nat> := [0];
      visited := [start];
      depth := [0];
      head := 0;
      current := 0;
      found := false;
      assert InLayer(adj, start, start, 0);
      assert RecordFits(adj, start, arena, depth, 0);
      ArenaBounded(adj, start, arena, depth, visited);

      while queue != []
        invariant ArenaShape(adj, start, arena, depth, visited)
        invariant Expanded(adj, end, arena, visited, head)
        invariant QueueIsTail(queue, head, |arena|)
        invariant head < |arena| ==> depth[|arena| - 1] <= depth[head] + 1
        invariant current < |arena| && (head > 0 ==> current == head - 1)
        invariant start == end ==> head == 0
        invariant |arena| <= |Mentioned(adj, start)|
        invariant !found
        decreases |Mentioned(adj, start)| - head
      {
        current := queue[0];
        if arena[current].vertex == end {
          found := true;
          break;
        }
        var u := arena[current].vertex;
        var neighbours := graph.GetAdjacent(u);
        arena, depth, visited, queue := Enqueue(adj, start, end, arena, depth, visited, queue, current, neighbours);
        ArenaBounded(adj, start, arena, depth, visited);
        queue := queue[1..];
        head := head + 1;
      }
    }
  }
}
