/**
 * The mathematical view of the graph of run_me.py: adjacency lists as values,
 * the adjacency that the edge list determines, two-colourings, walks and odd
 * cycles. Vertex ids are 1..n; slot 0 of every table exists and is unused.
 */
module GraphSpec {

  /** The sentinel that stands for Python's `None` in the colour and parent tables. */
  const NONE: int := -1

  /** Adjacency lists indexed by vertex id. */
  type Adjacency = seq<seq<int>>

  /** Every endpoint of every edge is a vertex id in 1..n. */
  predicate EdgesInRange(n: nat, edges: seq<(int, int)>)
  {
    forall i :: 0 <= i < |edges| ==> 1 <= edges[i].0 <= n && 1 <= edges[i].1 <= n
  }

  /** No edge joins a vertex to itself. */
  predicate NoSelfLoopEdges(edges: seq<(int, int)>)
  {
    forall i :: 0 <= i < |edges| ==> edges[i].0 != edges[i].1
  }

  /** n + 1 lists, each holding only ids in 1..n. */
  predicate WellFormed(n: nat, adj: Adjacency)
  {
    && |adj| == n + 1
    && forall u, i :: 0 <= u <= n && 0 <= i < |adj[u]| ==> 1 <= adj[u][i] <= n
  }

  /** `v` is listed under `u` exactly when `u` is listed under `v`. */
  predicate Symmetric(adj: Adjacency)
  {
    forall u, v :: 0 <= u < |adj| && 0 <= v < |adj| ==> (v in adj[u] <==> u in adj[v])
  }

  predicate NoSelfLoops(adj: Adjacency)
  {
    forall u :: 0 <= u < |adj| ==> u !in adj[u]
  }

  /** n + 1 empty lists: the graph before any edge is read. */
  function EmptyAdjacency(n: nat): (adj: Adjacency)
    ensures |adj| == n + 1 && forall u :: 0 <= u <= n ==> adj[u] == []
  {
    seq(n + 1, _ => [])
  }

  /** Appends `v` to the list of `u` (one `enqueue` on an adjacency queue). */
  function AddArc(adj: Adjacency, u: int, v: int): (r: Adjacency)
    requires 0 <= u < |adj|
    ensures |r| == |adj| && r[u] == adj[u] + [v]
    ensures forall w :: 0 <= w < |adj| && w != u ==> r[w] == adj[w]
  {
    adj[u := adj[u] + [v]]
  }

  /** Reading edge (u, v): v goes to the end of u's list, then u to the end of v's. */
  function AddEdge(adj: Adjacency, u: int, v: int): Adjacency
    requires 0 <= u < |adj| && 0 <= v < |adj|
  {
    AddArc(AddArc(adj, u, v), v, u)
  }

  /** The adjacency that reading `edges` in order produces. */
  function AdjacencyOf(n: nat, edges: seq<(int, int)>): (adj: Adjacency)
    requires EdgesInRange(n, edges)
    ensures WellFormed(n, adj)
  {
    if edges == [] then EmptyAdjacency(n)
    else
      var e := edges[|edges| - 1];
      AddEdge(AdjacencyOf(n, edges[..|edges| - 1]), e.0, e.1)
  }

  /**
   * Reference definition, one vertex at a time: the neighbours of `u` in the
   * order its incident edges are read, an edge (u, v) contributing v and an
   * edge (v, u) contributing v; a self-loop contributes u twice.
   */
  function Incident(edges: seq<(int, int)>, u: int): seq<int>
  {
    if edges == [] then []
    else
      var e := edges[|edges| - 1];
      Incident(edges[..|edges| - 1], u)
        + (if e.0 == u then [e.1] else [])
        + (if e.1 == u then [e.0] else [])
  }

  /** Building edge by edge gives every vertex exactly its incident neighbours, in order. */
  lemma {:induction false} AdjacencyIsIncident(n: nat, edges: seq<(int, int)>, u: int)
    requires EdgesInRange(n, edges) && 0 <= u <= n
    ensures AdjacencyOf(n, edges)[u] == Incident(edges, u)
  {
    if edges != [] {
      var pre := edges[..|edges| - 1];
      assert EdgesInRange(n, pre);
      AdjacencyIsIncident(n, pre, u);
    }
  }

  /** `v` is a neighbour of `u` exactly when some edge joins them, in either direction. */
  lemma {:induction false} IncidentMembership(edges: seq<(int, int)>, u: int, v: int)
    ensures v in Incident(edges, u) <==>
            exists i :: 0 <= i < |edges| && (edges[i] == (u, v) || edges[i] == (v, u))
  {
    if edges != [] {
      var pre := edges[..|edges| - 1];
      IncidentMembership(pre, u, v);
      if v in Incident(pre, u) {
        var i :| 0 <= i < |pre| && (pre[i] == (u, v) || pre[i] == (v, u));
        assert edges[i] == pre[i];
      }
      if exists i :: 0 <= i < |edges| && (edges[i] == (u, v) || edges[i] == (v, u)) {
        var i :| 0 <= i < |edges| && (edges[i] == (u, v) || edges[i] == (v, u));
        if i < |pre| {
          assert pre[i] == edges[i];
        }
      }
    }
  }

  /** The number of edge endpoints equal to `u`: a self-loop counts twice. */
  function Degree(edges: seq<(int, int)>, u: int): nat
  {
    if edges == [] then 0
    else
      var e := edges[|edges| - 1];
      Degree(edges[..|edges| - 1], u) + (if e.0 == u then 1 else 0) + (if e.1 == u then 1 else 0)
  }

  /** Parallel edges and self-loops are kept: a list is as long as the vertex's degree. */
  lemma {:induction false} IncidentLength(edges: seq<(int, int)>, u: int)
    ensures |Incident(edges, u)| == Degree(edges, u)
  {
    if edges != [] {
      IncidentLength(edges[..|edges| - 1], u);
    }
  }

  /**
   * v occurs in u's list once for every edge read between u and v, in either
   * direction: a parallel edge is listed again, and a self-loop at u lists u
   * twice.
   */
  lemma {:induction false} IncidentCount(edges: seq<(int, int)>, u: int, v: int)
    ensures multiset(Incident(edges, u))[v] == multiset(edges)[(u, v)] + multiset(edges)[(v, u)]
  {
    if edges != [] {
      var pre, e := edges[..|edges| - 1], edges[|edges| - 1];
      assert edges == pre + [e];
      IncidentCount(pre, u, v);
    }
  }

  /** Every edge is recorded in both directions, so the adjacency is symmetric. */
  lemma AdjacencySymmetric(n: nat, edges: seq<(int, int)>)
    requires EdgesInRange(n, edges)
    ensures Symmetric(AdjacencyOf(n, edges))
  {
    var adj := AdjacencyOf(n, edges);
    forall u, v | 0 <= u < |adj| && 0 <= v < |adj|
      ensures v in adj[u] <==> u in adj[v]
    {
      AdjacencyIsIncident(n, edges, u);
      AdjacencyIsIncident(n, edges, v);
      IncidentMembership(edges, u, v);
      IncidentMembership(edges, v, u);
    }
  }

  /** Without self-loop edges no vertex lists itself. */
  lemma AdjacencyNoSelfLoops(n: nat, edges: seq<(int, int)>)
    requires EdgesInRange(n, edges) && NoSelfLoopEdges(edges)
    ensures NoSelfLoops(AdjacencyOf(n, edges))
  {
    var adj := AdjacencyOf(n, edges);
    forall u | 0 <= u < |adj|
      ensures u !in adj[u]
    {
      AdjacencyIsIncident(n, edges, u);
      IncidentMembership(edges, u, u);
    }
  }

  /** Colours 0 and 1 on 1..n with the two ends of every listed edge coloured differently. */
  ghost predicate ProperColoring(adj: Adjacency, color: seq<int>)
  {
    && |color| == |adj|
    && forall u :: 1 <= u < |adj| ==>
         && (color[u] == 0 || color[u] == 1)
         && forall v :: v in adj[u] ==> 0 <= v < |color| && color[v] != color[u]
  }

  ghost predicate IsBipartite(adj: Adjacency)
  {
    exists color :: ProperColoring(adj, color)
  }

  /** Consecutive ids of `w` are adjacent: each is listed under its predecessor. */
  ghost predicate IsWalk(adj: Adjacency, w: seq<int>)
  {
    && |w| > 0
    && (forall i :: 0 <= i < |w| ==> 0 <= w[i] < |adj|)
    && forall i :: 0 <= i < |w| - 1 ==> w[i + 1] in adj[w[i]]
  }

  ghost predicate Reachable(adj: Adjacency, s: int, t: int)
  {
    exists w :: IsWalk(adj, w) && w[0] == s && w[|w| - 1] == t
  }

  /** A walk whose last vertex is adjacent to its first. */
  ghost predicate IsClosedWalk(adj: Adjacency, c: seq<int>)
  {
    IsWalk(adj, c) && c[0] in adj[c[|c| - 1]]
  }

  /** A closed walk of odd length, at least 3, that repeats no vertex. */
  ghost predicate IsOddCycle(adj: Adjacency, c: seq<int>)
  {
    && IsClosedWalk(adj, c)
    && |c| % 2 == 1 && |c| >= 3
    && forall i, j :: 0 <= i < j < |c| ==> c[i] != c[j]
  }

  function Reversed(s: seq<int>): (r: seq<int>)
    ensures |r| == |s|
    ensures forall i :: 0 <= i < |s| ==> r[i] == s[|s| - 1 - i]
  {
    if s == [] then [] else Reversed(s[1..]) + [s[0]]
  }

  /** Along a walk in a properly coloured graph the colours alternate. */
  lemma {:induction false} ColorsAlternate(n: nat, adj: Adjacency, color: seq<int>, w: seq<int>, k: nat)
    requires WellFormed(n, adj) && ProperColoring(adj, color) && IsWalk(adj, w)
    requires 1 <= w[0] && k < |w|
    ensures 1 <= w[k] && color[w[k]] == (color[w[0]] + k) % 2
  {
    if k > 0 {
      ColorsAlternate(n, adj, color, w, k - 1);
      assert w[k] in adj[w[k - 1]];
    }
  }

  /** An odd closed walk cannot be two-coloured: it refutes bipartiteness. */
  lemma OddClosedWalkRefutes(n: nat, adj: Adjacency, c: seq<int>)
    requires WellFormed(n, adj) && IsClosedWalk(adj, c) && |c| % 2 == 1
    ensures !IsBipartite(adj)
  {
    forall color | ProperColoring(adj, color)
      ensures false
    {
      var last := |c| - 1;
      assert c[0] in adj[c[last]];
      ColorsAlternate(n, adj, color, c, last);
    }
  }
}
