/**
 * `bfs` and `bfs_util` of run_me.py: breadth-first two-colouring of every
 * component of the graph, stopping at the first edge whose ends share a colour.
 *
 * Besides the real colour and parent tables, the proofs track two ghost tables
 * that the source only has implicitly: the depth of every coloured vertex in
 * the breadth-first forest, and the root of its tree.
 */
module Traversal {
  import opened Queues
  import opened GraphSpec
  import opened Graphs

  /** All four tables have one entry per vertex slot 0..n. */
  predicate Sized(adj: Adjacency, color: seq<int>, parent: seq<int>, depth: seq<int>, root: seq<int>)
  {
    |color| == |parent| == |depth| == |root| == |adj|
  }

  /**
   * What the tables say about vertex x: an uncoloured vertex has no parent; a
   * coloured one has the colour of its depth's parity, is a root exactly at
   * depth 0, and otherwise was discovered from its parent: it is listed under
   * the parent, one level deeper, in the same tree, with the other colour.
   */
  ghost predicate ForestAt(adj: Adjacency, color: seq<int>, parent: seq<int>, depth: seq<int>, root: seq<int>, x: int)
    requires Sized(adj, color, parent, depth, root) && 0 <= x < |adj|
  {
    if color[x] == NONE then parent[x] == NONE
    else
      && depth[x] >= 0 && color[x] == depth[x] % 2
      && (parent[x] == NONE <==> depth[x] == 0)
      && (parent[x] == NONE ==> root[x] == x)
      && (parent[x] != NONE ==>
            && 1 <= parent[x] < |adj| && color[parent[x]] != NONE
            && x in adj[parent[x]]
            && depth[parent[x]] == depth[x] - 1
            && root[parent[x]] == root[x]
            && color[x] == (color[parent[x]] + 1) % 2)
  }

  ghost predicate Forest(adj: Adjacency, color: seq<int>, parent: seq<int>, depth: seq<int>, root: seq<int>)
  {
    && Sized(adj, color, parent, depth, root)
    && forall x :: 0 <= x < |adj| ==> ForestAt(adj, color, parent, depth, root, x)
  }

  /** Every neighbour of x is coloured, with the colour opposite to x's. */
  ghost predicate Closed(adj: Adjacency, color: seq<int>, x: int)
    requires |color| == |adj| && 0 <= x < |adj|
  {
    forall i :: 0 <= i < |adj[x]| ==>
      0 <= adj[x][i] < |color| && color[adj[x][i]] != NONE && color[adj[x][i]] != color[x]
  }

  /**
   * The state between two traversals: a forest whose coloured vertices form
   * whole components, properly coloured.
   */
  ghost predicate Settled(adj: Adjacency, color: seq<int>, parent: seq<int>, depth: seq<int>, root: seq<int>)
  {
    && Forest(adj, color, parent, depth, root)
    && forall x {:trigger Closed(adj, color, x)} :: 0 <= x < |adj| && color[x] != NONE ==> Closed(adj, color, x)
  }

  /**
   * v is listed under u, both carry the same colour, and they sit at the same
   * depth of the same tree.
   */
  ghost predicate Conflict(adj: Adjacency, color: seq<int>, depth: seq<int>, root: seq<int>, v: int, u: int)
    requires |color| == |depth| == |root| == |adj|
  {
    && 1 <= v < |adj| && 1 <= u < |adj|
    && v in adj[u]
    && color[v] != NONE && color[v] == color[u]
    && depth[v] == depth[u] && root[v] == root[u]
  }

  ghost function Uncolored(color: seq<int>): set<int>
  {
    set x | 0 <= x < |color| && color[x] == NONE
  }

  /** Colouring one uncoloured vertex removes exactly it from the uncoloured set. */
  lemma ColoringShrinks(color: seq<int>, w: int, c: int)
    requires 0 <= w < |color| && color[w] == NONE && c != NONE
    ensures Uncolored(color[w := c]) == Uncolored(color) - {w}
    ensures |Uncolored(color[w := c])| == |Uncolored(color)| - 1
  {
    assert Uncolored(color[w := c]) == Uncolored(color) - {w};
  }

  /**
   * Discovering an uncoloured neighbour w of a coloured vertex u, with the
   * colour opposite to u's and parent u, keeps the forest a forest.
   */
  lemma ForestGrows(adj: Adjacency, color: seq<int>, parent: seq<int>, depth: seq<int>, root: seq<int>, u: int, w: int)
    requires Forest(adj, color, parent, depth, root)
    requires 1 <= u < |adj| && color[u] != NONE
    requires 0 <= w < |adj| && color[w] == NONE && w in adj[u]
    ensures Forest(adj, color[w := (color[u] + 1) % 2], parent[w := u],
                   depth[w := depth[u] + 1], root[w := root[u]])
  {
    var color', parent' := color[w := (color[u] + 1) % 2], parent[w := u];
    var depth', root' := depth[w := depth[u] + 1], root[w := root[u]];
    forall x | 0 <= x < |adj|
      ensures ForestAt(adj, color', parent', depth', root', x)
    {
      assert ForestAt(adj, color, parent, depth, root, x);
      assert ForestAt(adj, color, parent, depth, root, u);
    }
  }

  /** Colouring an uncoloured vertex keeps every closed vertex closed. */
  lemma ClosedGrows(adj: Adjacency, color: seq<int>, w: int, c: int, x: int)
    requires |color| == |adj| && 0 <= w < |adj| && color[w] == NONE
    requires 0 <= x < |adj| && x != w && Closed(adj, color, x)
    ensures Closed(adj, color[w := c], x)
  {
  }


  /** A snapshot of the four per-vertex tables. */
  datatype Tables = Tables(color: seq<int>, parent: seq<int>, depth: seq<int>, root: seq<int>)

  ghost predicate TablesSized(adj: Adjacency, t: Tables)
  {
    Sized(adj, t.color, t.parent, t.depth, t.root)
  }

  /**
   * How a traversal from `source` has changed the tables t0 into t so far: t is
   * a forest, `source` is a root of colour 0, everything coloured in t0 is as
   * it was, and everything coloured since hangs in the tree of `source`.
   */
  ghost predicate Grown(adj: Adjacency, t0: Tables, t: Tables, source: int)
  {
    && TablesSized(adj, t0) && TablesSized(adj, t)
    && Forest(adj, t.color, t.parent, t.depth, t.root)
    && 1 <= source < |adj|
    && t.color[source] == 0 && t.parent[source] == NONE && t.root[source] == source
    && (forall x :: 0 <= x < |adj| && t0.color[x] != NONE ==>
          && t.color[x] == t0.color[x] && t.parent[x] == t0.parent[x]
          && t.depth[x] == t0.depth[x] && t.root[x] == t0.root[x])
    && (forall x :: 0 <= x < |adj| && t0.color[x] == NONE && t.color[x] != NONE ==>
          t.root[x] == source)
  }

  /** The frontier holds only vertices coloured during this traversal. */
  ghost predicate FrontierFresh(adj: Adjacency, t0: Tables, t: Tables, frontier: seq<int>)
    requires TablesSized(adj, t0) && TablesSized(adj, t)
  {
    forall i :: 0 <= i < |frontier| ==>
      1 <= frontier[i] < |adj| && t0.color[frontier[i]] == NONE && t.color[frontier[i]] != NONE
  }

  /**
   * The loop state of `bfs` before a dequeue: frontier depths never decrease
   * and span at most one level, and every coloured vertex that has left the
   * frontier has all its neighbours coloured with the other colour.
   */
  ghost predicate Waiting(adj: Adjacency, t0: Tables, t: Tables, source: int, frontier: seq<int>)
  {
    && Grown(adj, t0, t, source)
    && FrontierFresh(adj, t0, t, frontier)
    && (forall i, j :: 0 <= i < j < |frontier| ==>
          t.depth[frontier[i]] <= t.depth[frontier[j]] <= t.depth[frontier[i]] + 1)
    && (forall x {:trigger Closed(adj, t.color, x)} :: 0 <= x < |adj| && t.color[x] != NONE && x !in frontier ==>
          Closed(adj, t.color, x))
  }

  /**
   * The loop state of `bfs` while the neighbours of the dequeued vertex u are
   * scanned, the first k of them already handled: the frontier lies on u's
   * level and the next one, in order of depth.
   */
  ghost predicate Scanning(adj: Adjacency, t0: Tables, t: Tables, source: int, frontier: seq<int>, u: int, k: int)
  {
    && Grown(adj, t0, t, source)
    && FrontierFresh(adj, t0, t, frontier)
    && 1 <= u < |adj| && t0.color[u] == NONE && t.color[u] != NONE
    && 0 <= k <= |adj[u]|
    && (forall i, j :: 0 <= i < j < |frontier| ==> t.depth[frontier[i]] <= t.depth[frontier[j]])
    && (forall i :: 0 <= i < |frontier| ==>
          t.depth[u] <= t.depth[frontier[i]] <= t.depth[u] + 1)
    && (forall x {:trigger Closed(adj, t.color, x)} :: 0 <= x < |adj| && t.color[x] != NONE && x !in frontier && x != u ==>
          Closed(adj, t.color, x))
    && (forall i :: 0 <= i < k ==>
          0 <= adj[u][i] < |adj| && t.color[adj[u][i]] != NONE && t.color[adj[u][i]] != t.color[u])
  }

  /** The tables after u discovers w: w gets the other colour, parent u, one level deeper. */
  ghost function Discover(t: Tables, u: int, w: int): Tables
    requires 0 <= u < |t.color| == |t.depth| == |t.root| && 0 <= w < |t.color| == |t.parent|
  {
    Tables(t.color[w := (t.color[u] + 1) % 2], t.parent[w := u],
           t.depth[w := t.depth[u] + 1], t.root[w := t.root[u]])
  }

  /** Colouring the source and putting it alone on the frontier starts a traversal. */
  lemma StartTraversal(n: nat, adj: Adjacency, t0: Tables, source: int)
    requires WellFormed(n, adj) && TablesSized(adj, t0)
    requires Settled(adj, t0.color, t0.parent, t0.depth, t0.root)
    requires 1 <= source <= n && t0.color[source] == NONE
    ensures Waiting(adj, t0, Tables(t0.color[source := 0], t0.parent, t0.depth[source := 0],
                                    t0.root[source := source]), source, [source])
  {
    var t := Tables(t0.color[source := 0], t0.parent, t0.depth[source := 0], t0.root[source := source]);
    assert ForestAt(adj, t0.color, t0.parent, t0.depth, t0.root, source);
    forall x | 0 <= x < |adj|
      ensures ForestAt(adj, t.color, t.parent, t.depth, t.root, x)
    {
      assert ForestAt(adj, t0.color, t0.parent, t0.depth, t0.root, x);
    }
    forall x | 0 <= x < |adj| && t.color[x] != NONE && x !in [source]
      ensures Closed(adj, t.color, x)
    {
      ClosedGrows(adj, t0.color, source, 0, x);
    }
  }

  /** Dequeuing the head of the frontier begins the scan of its neighbours. */
  lemma StartScan(adj: Adjacency, t0: Tables, t: Tables, source: int, frontier: seq<int>)
    requires Waiting(adj, t0, t, source, frontier) && frontier != []
    ensures Scanning(adj, t0, t, source, frontier[1..], frontier[0], 0)
  {
    var rest := frontier[1..];
    forall i | 0 <= i < |rest|
      ensures t.depth[frontier[0]] <= t.depth[rest[i]] <= t.depth[frontier[0]] + 1
    {
      assert rest[i] == frontier[i + 1];
    }
    forall x | 0 <= x < |adj| && t.color[x] != NONE && x !in rest && x != frontier[0]
      ensures Closed(adj, t.color, x)
    {
      assert x !in frontier;
    }
  }

  /** Discovering an uncoloured neighbour of a vertex of this traversal keeps the forest grown from the source. */
  lemma DiscoverGrown(adj: Adjacency, t0: Tables, t: Tables, source: int, u: int, w: int)
    requires Grown(adj, t0, t, source)
    requires 1 <= u < |adj| && t0.color[u] == NONE && t.color[u] != NONE
    requires 0 <= w < |adj| && t.color[w] == NONE && w in adj[u]
    ensures Grown(adj, t0, Discover(t, u, w), source)
  {
    ForestGrows(adj, t.color, t.parent, t.depth, t.root, u, w);
  }

  /** An uncoloured neighbour is coloured, given its parent and enqueued. */
  lemma ScanUncolored(n: nat, adj: Adjacency, t0: Tables, t: Tables, source: int, frontier: seq<int>, u: int, k: int)
    requires WellFormed(n, adj) && Scanning(adj, t0, t, source, frontier, u, k)
    requires k < |adj[u]| && t.color[adj[u][k]] == NONE
    ensures Scanning(adj, t0, Discover(t, u, adj[u][k]), source, frontier + [adj[u][k]], u, k + 1)
  {
    var w := adj[u][k];
    var t' := Discover(t, u, w);
    assert adj[u][k] in adj[u];
    assert ForestAt(adj, t.color, t.parent, t.depth, t.root, u);
    DiscoverGrown(adj, t0, t, source, u, w);
    forall x | 0 <= x < |adj| && t'.color[x] != NONE && x !in frontier + [w] && x != u
      ensures Closed(adj, t'.color, x)
    {
      ClosedGrows(adj, t.color, w, t'.color[w], x);
    }
  }

  /** A neighbour that already has the other colour needs nothing. */
  lemma ScanOpposite(adj: Adjacency, t0: Tables, t: Tables, source: int, frontier: seq<int>, u: int, k: int)
    requires Scanning(adj, t0, t, source, frontier, u, k)
    requires k < |adj[u]| && 0 <= adj[u][k] < |adj|
    requires t.color[adj[u][k]] != NONE && t.color[adj[u][k]] != t.color[u]
    ensures Scanning(adj, t0, t, source, frontier, u, k + 1)
  {
  }

  /**
   * A neighbour w with u's colour is on the frontier or is u itself, for every
   * vertex that has left the frontier has neighbours of the other colour only,
   * u among them; so w is on u's level, and of the same parity, hence at u's depth.
   */
  lemma ScanClash(n: nat, adj: Adjacency, t0: Tables, t: Tables, source: int, frontier: seq<int>, u: int, k: int)
    requires WellFormed(n, adj) && Symmetric(adj) && Scanning(adj, t0, t, source, frontier, u, k)
    requires k < |adj[u]| && t.color[adj[u][k]] == t.color[u]
    ensures Conflict(adj, t.color, t.depth, t.root, adj[u][k], u) && t.root[u] == source
  {
    var w := adj[u][k];
    assert w in adj[u];
    assert u in adj[w];
    var j :| 0 <= j < |adj[w]| && adj[w][j] == u;
    assert !Closed(adj, t.color, w);
    assert w in frontier || w == u;
    assert ForestAt(adj, t.color, t.parent, t.depth, t.root, w);
    assert ForestAt(adj, t.color, t.parent, t.depth, t.root, u);
  }

  /** Once all neighbours of u are handled, u has left the frontier for good. */
  lemma EndScan(adj: Adjacency, t0: Tables, t: Tables, source: int, frontier: seq<int>, u: int)
    requires 1 <= u < |adj| && Scanning(adj, t0, t, source, frontier, u, |adj[u]|)
    ensures Waiting(adj, t0, t, source, frontier)
  {
    assert Closed(adj, t.color, u);
  }

  /** With the frontier empty, the component of the source is closed and properly coloured. */
  lemma EndTraversal(adj: Adjacency, t0: Tables, t: Tables, source: int)
    requires Waiting(adj, t0, t, source, [])
    ensures Settled(adj, t.color, t.parent, t.depth, t.root)
  {
  }

  /** Gives w the colour c and the parent u, and enqueues w on the frontier. */
  method Mark(g: Graph, q: Queue, u: int, w: int, c: int)
    requires 0 <= w < g.color.Length == g.parent.Length && g.color != g.parent
    requires q.Valid() && g.color !in q.Repr && g.parent !in q.Repr
    modifies g.color, g.parent, q.Repr
    ensures g.color[..] == old(g.color[..])[w := c] && g.parent[..] == old(g.parent[..])[w := u]
    ensures q.Valid() && fresh(q.Repr - old(q.Repr)) && q.Contents == old(q.Contents) + [w]
  {
    g.color[w] := c;
    g.parent[w] := u;
    var cell := new Node(w);
    q.Enqueue(cell);
  }

  /**
   * One step of the inner loop of `bfs`, for the k-th neighbour w of u: an
   * uncoloured w gets `vColor`, parent u, and joins the frontier; a w coloured
   * `uColor` is a clash; a w of the other colour is left alone. The ghost
   * tables t and frontier f stand for the colour and parent arrays and the
   * contents of the frontier queue.
   */
  method Visit(g: Graph, q: Queue, u: int, uColor: int, vColor: int, w: int, ghost adj: Adjacency,
               ghost k: int, ghost t0: Tables, ghost t: Tables, ghost f: seq<int>, ghost source: int)
    returns (clash: bool, ghost t': Tables, ghost f': seq<int>)
    requires WellFormed(g.n, adj) && Symmetric(adj)
    requires g.color.Length == g.n + 1 && g.parent.Length == g.n + 1 && g.color != g.parent
    requires q.Valid() && q.Contents == f && g.color !in q.Repr && g.parent !in q.Repr
    requires g.color[..] == t.color && g.parent[..] == t.parent
    requires Scanning(adj, t0, t, source, f, u, k) && k < |adj[u]| && w == adj[u][k]
    requires uColor == t.color[u] && vColor == (uColor + 1) % 2
    modifies g.color, g.parent, q.Repr
    ensures q.Valid() && fresh(q.Repr - old(q.Repr)) && q.Contents == f'
    ensures g.color[..] == t'.color && g.parent[..] == t'.parent
    ensures 2 * |Uncolored(t'.color)| + |f'| <= 2 * |Uncolored(t.color)| + |f|
    ensures !clash ==> Scanning(adj, t0, t', source, f', u, k + 1) && uColor == t'.color[u]
    ensures clash ==> Grown(adj, t0, t', source)
    ensures clash ==> Conflict(adj, t'.color, t'.depth, t'.root, w, u) && t'.root[u] == source
    ensures t.color[w] == NONE ==> !clash && t' == Discover(t, u, w) && f' == f + [w]
    ensures t.color[w] != NONE ==> t' == t && f' == f && (clash <==> t.color[w] == uColor)
  {
    t', f' := t, f;
    if g.color[w] == NONE {
      ScanUncolored(g.n, adj, t0, t, source, f, u, k);
      ColoringShrinks(t.color, w, vColor);
      Mark(g, q, u, w, vColor);
      t', f' := Discover(t, u, w), f + [w];
      clash := false;
    } else if g.color[w] == uColor {
      ScanClash(g.n, adj, t0, t, source, f, u, k);
      clash := true;
    } else {
      ScanOpposite(adj, t0, t, source, f, u, k);
      clash := false;
    }
  }

  /**
   * The inner loop of `bfs`: walks the adjacency queue of the dequeued vertex u
   * from its head, visiting each neighbour in list order, and stops at the
   * first clash, reporting that neighbour as v.
   */
  method ScanNeighbours(g: Graph, q: Queue, u: int, ghost adj: Adjacency,
                        ghost t0: Tables, ghost t: Tables, ghost f: seq<int>, ghost source: int)
    returns (clash: bool, v: int, ghost t': Tables, ghost f': seq<int>)
    requires WellFormed(g.n, adj) && Symmetric(adj) && |g.adj| == g.n + 1
    requires g.color.Length == g.n + 1 && g.parent.Length == g.n + 1 && g.color != g.parent
    requires 1 <= u <= g.n && g.adj[u].Valid() && g.adj[u].Contents == adj[u]
    requires g.color !in g.adj[u].Repr && g.parent !in g.adj[u].Repr
    requires q.Valid() && q.Contents == f && q.Repr !! g.adj[u].Repr && g.color !in q.Repr && g.parent !in q.Repr
    requires g.color[..] == t.color && g.parent[..] == t.parent
    requires Scanning(adj, t0, t, source, f, u, 0)
    modifies g.color, g.parent, q.Repr
    ensures q.Valid() && fresh(q.Repr - old(q.Repr)) && q.Contents == f'
    ensures g.color[..] == t'.color && g.parent[..] == t'.parent
    ensures 2 * |Uncolored(t'.color)| + |f'| <= 2 * |Uncolored(t.color)| + |f|
    ensures !clash ==> Scanning(adj, t0, t', source, f', u, |adj[u]|)
    ensures clash ==> Grown(adj, t0, t', source)
    ensures clash ==> Conflict(adj, t'.color, t'.depth, t'.root, v, u) && t'.root[u] == source
  {
    var uColor := g.color[u];
    var vColor := (uColor + 1) % 2;
    var cur := g.adj[u].head;
    ghost var k := 0;
    ghost var cells := g.adj[u].nodes;
    t', f' := t, f;
    while cur != null
      invariant q.Valid() && fresh(q.Repr - old(q.Repr)) && q.Contents == f'
      invariant 0 <= k <= |adj[u]|
      invariant cur == (if k < |adj[u]| then cells[k] else null)
      invariant g.color[..] == t'.color && g.parent[..] == t'.parent
      invariant Scanning(adj, t0, t', source, f', u, k) && uColor == t'.color[u]
      invariant 2 * |Uncolored(t'.color)| + |f'| <= 2 * |Uncolored(t.color)| + |f|
      decreases |adj[u]| - k
    {
      var w := cur.id;
      clash, t', f' := Visit(g, q, u, uColor, vColor, w, adj, k, t0, t', f', source);
      if clash {
        return true, w, t', f';
      }
      cur := cur.next;
      k := k + 1;
    }
    clash, v := false, NONE;
  }

  /**
   * One round of the outer loop of `bfs`: dequeues the next vertex u of the
   * frontier and scans its neighbours.
   */
  method Expand(g: Graph, q: Queue, ghost adj: Adjacency,
                ghost t0: Tables, ghost t: Tables, ghost f: seq<int>, ghost source: int)
    returns (clash: bool, v: int, u: int, ghost t': Tables, ghost f': seq<int>)
    requires g.Lists() && g.Adj == adj && WellFormed(g.n, adj) && Symmetric(adj)
    requires q.Valid() && q.Contents == f && q.Repr !! g.Repr && g.color !in q.Repr && g.parent !in q.Repr
    requires g.color[..] == t.color && g.parent[..] == t.parent
    requires Waiting(adj, t0, t, source, f) && f != []
    modifies g.color, g.parent, q.Repr
    ensures q.Valid() && fresh(q.Repr - old(q.Repr)) && q.Contents == f'
    ensures g.color[..] == t'.color && g.parent[..] == t'.parent
    ensures 2 * |Uncolored(t'.color)| + |f'| < 2 * |Uncolored(t.color)| + |f|
    ensures !clash ==> Waiting(adj, t0, t', source, f')
    ensures clash ==> Grown(adj, t0, t', source)
    ensures clash ==> Conflict(adj, t'.color, t'.depth, t'.root, v, u) && t'.root[u] == source
    ensures u == f[0]
  {
    StartScan(adj, t0, t, source, f);
    var node := q.Dequeue();
    u := node.id;
    clash, v, t', f' := ScanNeighbours(g, q, u, adj, t0, t, f[1..], source);
    if !clash {
      EndScan(adj, t0, t', source, f', u);
    }
  }

  /**
   * The outer loop of `bfs`: expands frontier vertices until the frontier
   * queue is empty or a clash is found.
   */
  method Traverse(g: Graph, q: Queue, ghost adj: Adjacency,
                  ghost t0: Tables, ghost t: Tables, ghost f: seq<int>, ghost source: int)
    returns (colorable: bool, v: int, u: int, ghost t': Tables)
    requires g.Lists() && g.Adj == adj && WellFormed(g.n, adj) && Symmetric(adj)
    requires q.Valid() && q.Contents == f
    requires q.Repr !! g.Repr && g !in q.Repr && g.color !in q.Repr && g.parent !in q.Repr
    requires g.color[..] == t.color && g.parent[..] == t.parent
    requires Waiting(adj, t0, t, source, f)
    modifies g.color, g.parent, q.Repr
    ensures g.color[..] == t'.color && g.parent[..] == t'.parent
    ensures Grown(adj, t0, t', source)
    ensures colorable ==> Settled(adj, t'.color, t'.parent, t'.depth, t'.root)
    ensures !colorable ==> Conflict(adj, t'.color, t'.depth, t'.root, v, u) && t'.root[u] == source
  {
    ghost var f' := f;
    t' := t;
    var empty := q.IsEmpty();
    while !empty
      invariant q.Valid() && fresh(q.Repr - old(q.Repr)) && q.Contents == f'
      invariant empty <==> f' == []
      invariant g.color[..] == t'.color && g.parent[..] == t'.parent
      invariant Waiting(adj, t0, t', source, f')
      decreases 2 * |Uncolored(t'.color)| + |f'|
    {
      var clash;
      clash, v, u, t', f' := Expand(g, q, adj, t0, t', f', source);
      if clash {
        return false, v, u, t';
      }
      empty := q.IsEmpty();
    }
    EndTraversal(adj, t0, t', source);
    colorable, v, u := true, NONE, NONE;
  }

  /**
   * `bfs`: colours the component of `source` breadth first, source colour 0,
   * each newly found vertex the colour opposite to the vertex that found it and
   * that vertex as parent; returns (false, v, u) at the first neighbour v of a
   * dequeued u that already has u's colour, and (true, NONE, NONE) otherwise.
   */
  method Bfs(g: Graph, source: int, ghost depth0: seq<int>, ghost root0: seq<int>)
    returns (colorable: bool, v: int, u: int, ghost depth: seq<int>, ghost root: seq<int>)
    requires g.Valid() && WellFormed(g.n, g.Adj) && Symmetric(g.Adj)
    requires 1 <= source <= g.n && g.color[source] == NONE
    requires Settled(g.Adj, g.color[..], g.parent[..], depth0, root0)
    modifies g.color, g.parent
    ensures Grown(g.Adj, Tables(old(g.color[..]), old(g.parent[..]), depth0, root0),
                  Tables(g.color[..], g.parent[..], depth, root), source)
    ensures colorable ==> Settled(g.Adj, g.color[..], g.parent[..], depth, root)
    ensures !colorable ==> Conflict(g.Adj, g.color[..], depth, root, v, u) && root[u] == source
  {
    ghost var adj := g.Adj;
    ghost var t0 := Tables(g.color[..], g.parent[..], depth0, root0);
    var q := new Queue();
    g.color[source] := 0;
    StartTraversal(g.n, adj, t0, source);
    var s := new Node(source);
    q.Enqueue(s);
    ghost var t;
    colorable, v, u, t := Traverse(g, q, adj, t0, Tables(t0.color[source := 0], t0.parent,
                                   depth0[source := 0], root0[source := source]), [source], source);
    depth, root := t.depth, t.root;
  }

  /**
   * A settled forest covering every vertex 1..n is a proper two-colouring:
   * colours are depth parities, and every neighbour has the other colour.
   */
  lemma SettledIsProper(n: nat, adj: Adjacency, color: seq<int>, parent: seq<int>, depth: seq<int>, root: seq<int>)
    requires WellFormed(n, adj) && Settled(adj, color, parent, depth, root)
    requires forall x :: 1 <= x <= n ==> color[x] != NONE
    ensures ProperColoring(adj, color)
  {
    forall x | 1 <= x < |adj|
      ensures (color[x] == 0 || color[x] == 1)
      ensures forall w :: w in adj[x] ==> 0 <= w < |color| && color[w] != color[x]
    {
      assert ForestAt(adj, color, parent, depth, root, x);
      assert Closed(adj, color, x);
      forall w | w in adj[x]
        ensures 0 <= w < |color| && color[w] != color[x]
      {
        var i :| 0 <= i < |adj[x]| && adj[x][i] == w;
      }
    }
  }

  /**
   * Without edges no vertex can have a parent, so every coloured vertex is a
   * root of colour 0, and no conflict exists.
   */
  lemma NoEdgesAllRoots(adj: Adjacency, color: seq<int>, parent: seq<int>, depth: seq<int>, root: seq<int>)
    requires Forest(adj, color, parent, depth, root)
    requires forall x :: 0 <= x < |adj| ==> adj[x] == []
    ensures forall x :: 0 <= x < |adj| && color[x] != NONE ==> color[x] == 0 && parent[x] == NONE
    ensures forall v, u :: !Conflict(adj, color, depth, root, v, u)
  {
    forall x | 0 <= x < |adj| && color[x] != NONE
      ensures color[x] == 0 && parent[x] == NONE
    {
      assert ForestAt(adj, color, parent, depth, root, x);
    }
  }

  /**
   * Started from the least uncoloured id, a traversal roots its tree at an id
   * no larger than any vertex it colours, so every tree is rooted at its least
   * vertex.
   */
  lemma RootsLeast(n: nat, adj: Adjacency, t0: Tables, t: Tables, source: int)
    requires WellFormed(n, adj) && Grown(adj, t0, t, source)
    requires forall x :: 1 <= x < source ==> t0.color[x] != NONE
    requires forall x :: 0 <= x <= n && t0.color[x] != NONE ==> t0.root[x] <= x
    ensures forall x :: 0 <= x <= n && t.color[x] != NONE ==> t.root[x] <= x
  {
    forall x | 0 <= x <= n && t.color[x] != NONE
      ensures t.root[x] <= x
    {
      assert ForestAt(adj, t.color, t.parent, t.depth, t.root, x);
    }
  }

  /**
   * A traversal from `source` leaves every vertex closed before it closed:
   * such a vertex and all its neighbours were already coloured, and keep
   * their colours.
   */
  lemma EarlierTreesClosed(adj: Adjacency, t0: Tables, t: Tables, source: int)
    requires Settled(adj, t0.color, t0.parent, t0.depth, t0.root) && Grown(adj, t0, t, source)
    ensures forall x :: 0 <= x < |adj| && t.color[x] != NONE && t.root[x] < source ==> Closed(adj, t.color, x)
  {
    forall x | 0 <= x < |adj| && t.color[x] != NONE && t.root[x] < source
      ensures Closed(adj, t.color, x)
    {
      assert t0.color[x] != NONE;
      assert Closed(adj, t0.color, x);
    }
  }

  /**
   * `bfs_util`: starts `bfs` from every still uncoloured vertex 1..n in
   * ascending order and returns the first conflict found; otherwise all of
   * 1..n is coloured and the colouring is proper.
   */
  method BfsUtil(g: Graph) returns (colorable: bool, v: int, u: int, ghost depth: seq<int>, ghost root: seq<int>)
    requires g.Valid() && WellFormed(g.n, g.Adj) && Symmetric(g.Adj)
    requires forall x :: 0 <= x <= g.n ==> g.color[x] == NONE && g.parent[x] == NONE
    modifies g.color, g.parent
    ensures Forest(g.Adj, g.color[..], g.parent[..], depth, root)
    ensures colorable ==> ProperColoring(g.Adj, g.color[..])
    ensures !colorable ==> Conflict(g.Adj, g.color[..], depth, root, v, u)
    ensures forall x :: 0 <= x <= g.n && g.color[x] != NONE ==> root[x] <= x
    ensures !colorable ==> forall x :: 0 <= x <= g.n && g.color[x] != NONE && root[x] < root[u] ==>
              Closed(g.Adj, g.color[..], x)
    ensures !colorable ==> forall x :: 1 <= x < root[u] ==> g.color[x] != NONE
    ensures !colorable ==> forall x :: 0 <= x <= g.n && g.color[x] != NONE ==> root[x] <= root[u]
    ensures (forall x :: 0 <= x <= g.n ==> g.Adj[x] == []) ==>
              colorable && forall x :: 1 <= x <= g.n ==> g.color[x] == 0
  {
    ghost var adj := g.Adj;
    depth, root := seq(g.n + 1, _ => 0), seq(g.n + 1, _ => 0);
    forall x | 0 <= x < |adj|
      ensures ForestAt(adj, g.color[..], g.parent[..], depth, root, x)
    {
    }
    var i := 1;
    while i <= g.n
      invariant 1 <= i <= g.n + 1
      invariant Settled(adj, g.color[..], g.parent[..], depth, root)
      invariant forall x :: 1 <= x < i ==> g.color[x] != NONE
      invariant forall x :: 0 <= x <= g.n && g.color[x] != NONE ==> root[x] <= x
      invariant forall x :: 0 <= x <= g.n && g.color[x] != NONE ==> root[x] < i
    {
      if g.color[i] == NONE {
        ghost var t0 := Tables(g.color[..], g.parent[..], depth, root);
        colorable, v, u, depth, root := Bfs(g, i, depth, root);
        ghost var t := Tables(g.color[..], g.parent[..], depth, root);
        RootsLeast(g.n, adj, t0, t, i);
        if !colorable {
          EarlierTreesClosed(adj, t0, t, i);
          if forall x :: 0 <= x <= g.n ==> adj[x] == [] {
            NoEdgesAllRoots(adj, g.color[..], g.parent[..], depth, root);
          }
          return;
        }
      }
      i := i + 1;
    }
    SettledIsProper(g.n, adj, g.color[..], g.parent[..], depth, root);
    if forall x :: 0 <= x <= g.n ==> adj[x] == [] {
      NoEdgesAllRoots(adj, g.color[..], g.parent[..], depth, root);
    }
    colorable, v, u := true, NONE, NONE;
  }
}
