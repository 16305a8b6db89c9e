/**
 * The decision procedure of `color_graph`, without its file input and text
 * output: build the graph from its edge list, colour it breadth-first, and
 * report either the colouring or the two backtracking arms of an odd cycle.
 */
module TwoColoring {
  import opened GraphSpec
  import opened Graphs
  import opened Traversal
  import opened Certificate

  /** What `color_graph` writes out: the colour of every vertex, or the two arms of an odd cycle. */
  datatype Verdict =
    | Colorable(color: seq<int>)
    | NotColorable(vArm: seq<int>, uArm: seq<int>)

  /**
   * Each verdict carries its certificate: a proper two-colouring of vertices
   * 1..n, or an odd cycle. Hence the graph is reported colourable exactly
   * when it is bipartite. As the scan runs through ids in ascending order,
   * the least vertex of every component is coloured 0, and so is every
   * vertex of an edgeless graph.
   */
  method TwoColor(n: nat, edges: seq<(int, int)>) returns (r: Verdict)
    requires EdgesInRange(n, edges) && NoSelfLoopEdges(edges)
    ensures r.Colorable? ==> ProperColoring(AdjacencyOf(n, edges), r.color)
    ensures r.Colorable? ==> forall x :: 1 <= x <= n && (forall y :: 1 <= y < x ==> !Reachable(AdjacencyOf(n, edges), y, x)) ==>
              r.color[x] == 0
    ensures r.NotColorable? ==> IsOddCycle(AdjacencyOf(n, edges), r.vArm + Reversed(r.uArm))
    ensures r.Colorable? <==> IsBipartite(AdjacencyOf(n, edges))
    ensures edges == [] ==> r.Colorable? && forall x :: 1 <= x <= n ==> r.color[x] == 0
  {
    var g := Build(n, edges);
    AdjacencySymmetric(n, edges);
    AdjacencyNoSelfLoops(n, edges);
    var colorable, v, u, depth, root := BfsUtil(g);
    if colorable {
      var color := g.color[..];
      LeastAreZero(n, g.Adj, color, g.parent[..], depth, root);
      r := Colorable(color);
    } else {
      assert v in g.Adj[u];
      var vArm, uArm := Backtrack(g, v, u, g.Adj, depth, root);
      OddClosedWalkRefutes(n, g.Adj, vArm + Reversed(uArm));
      r := NotColorable(vArm, uArm);
    }
  }
}
