/**
 * The odd-cycle report of `color_graph`: from a conflict between adjacent
 * vertices v and u of the same colour, both parent chains are walked in
 * lockstep up to their lowest common ancestor. The two arms, closed by the
 * edge u-v, form an odd cycle, which refutes two-colourability.
 */
module Certificate {
  import opened GraphSpec
  import opened Graphs
  import opened Traversal

  /** The vertex j parent steps above x; a step from an id outside the table stays put. */
  function Up(parent: seq<int>, x: int, j: nat): int
  {
    if j == 0 then x
    else
      var y := Up(parent, x, j - 1);
      if 0 <= y < |parent| then parent[y] else y
  }

  /** The first `len` vertices of the parent chain of x, starting with x. */
  function Chain(parent: seq<int>, x: int, len: nat): (c: seq<int>)
    ensures |c| == len && forall i :: 0 <= i < len ==> c[i] == Up(parent, x, i)
  {
    if len == 0 then [] else Chain(parent, x, len - 1) + [Up(parent, x, len - 1)]
  }

  /**
   * In a breadth-first forest, climbing j <= depth[x] steps from a coloured x
   * stays among the coloured vertices of x's tree, exactly j levels higher;
   * below the root every vertex on the way is a listed neighbour of its parent.
   */
  lemma {:induction false} UpInForest(adj: Adjacency, color: seq<int>, parent: seq<int>, depth: seq<int>, root: seq<int>,
                                      x: int, j: nat)
    requires Forest(adj, color, parent, depth, root)
    requires 0 <= x < |adj| && color[x] != NONE && j <= depth[x]
    ensures 0 <= Up(parent, x, j) < |adj| && color[Up(parent, x, j)] != NONE
    ensures depth[Up(parent, x, j)] == depth[x] - j && root[Up(parent, x, j)] == root[x]
    ensures j < depth[x] ==> && 1 <= parent[Up(parent, x, j)] < |adj|
                             && parent[Up(parent, x, j)] == Up(parent, x, j + 1)
                             && Up(parent, x, j) in adj[Up(parent, x, j + 1)]
    ensures j == depth[x] ==> Up(parent, x, j) == root[x]
  {
    if j > 0 {
      UpInForest(adj, color, parent, depth, root, x, j - 1);
      assert ForestAt(adj, color, parent, depth, root, Up(parent, x, j - 1));
    }
    assert ForestAt(adj, color, parent, depth, root, Up(parent, x, j));
  }

  /** Every coloured vertex is reachable from the root of its tree. */
  lemma RootReaches(adj: Adjacency, color: seq<int>, parent: seq<int>, depth: seq<int>, root: seq<int>, x: int)
    requires Forest(adj, color, parent, depth, root)
    requires 0 <= x < |adj| && color[x] != NONE
    ensures Reachable(adj, root[x], x)
  {
    assert ForestAt(adj, color, parent, depth, root, x);
    var d := depth[x];
    var w := Reversed(Chain(parent, x, d + 1));
    forall i | 0 <= i <= d
      ensures w[i] == Up(parent, x, d - i) && 0 <= w[i] < |adj|
    {
      UpInForest(adj, color, parent, depth, root, x, d - i);
    }
    forall i | 0 <= i < d
      ensures w[i + 1] in adj[w[i]]
    {
      UpInForest(adj, color, parent, depth, root, x, d - i - 1);
    }
    UpInForest(adj, color, parent, depth, root, x, d);
    assert IsWalk(adj, w) && w[0] == root[x] && w[|w| - 1] == x;
  }

  /**
   * In a forest whose trees are rooted at their least vertex, a coloured
   * vertex that no smaller id reaches is the root of its own tree, and so
   * carries colour 0.
   */
  lemma LeastIsRoot(adj: Adjacency, color: seq<int>, parent: seq<int>, depth: seq<int>, root: seq<int>, x: int)
    requires Forest(adj, color, parent, depth, root)
    requires 1 <= x < |adj| && color[x] != NONE && root[x] <= x
    requires forall y :: 1 <= y < x ==> !Reachable(adj, y, x)
    ensures root[x] == x && parent[x] == NONE && color[x] == 0
  {
    assert ForestAt(adj, color, parent, depth, root, x);
    RootReaches(adj, color, parent, depth, root, x);
    UpInForest(adj, color, parent, depth, root, x, depth[x]);
    var r := root[x];
    if depth[x] > 0 {
      UpInForest(adj, color, parent, depth, root, x, depth[x] - 1);
    }
    assert 1 <= r;
    assert r == x;
  }

  /** In such a forest covering 1..n, the least vertex of every component is coloured 0. */
  lemma LeastAreZero(n: nat, adj: Adjacency, color: seq<int>, parent: seq<int>, depth: seq<int>, root: seq<int>)
    requires |adj| == n + 1 && Forest(adj, color, parent, depth, root)
    requires forall x :: 1 <= x <= n ==> color[x] != NONE
    requires forall x :: 0 <= x <= n && color[x] != NONE ==> root[x] <= x
    ensures forall x :: 1 <= x <= n && (forall y :: 1 <= y < x ==> !Reachable(adj, y, x)) ==> color[x] == 0
  {
    forall x | 1 <= x <= n && (forall y :: 1 <= y < x ==> !Reachable(adj, y, x))
      ensures color[x] == 0
    {
      LeastIsRoot(adj, color, parent, depth, root, x);
    }
  }

  /** A traversal only colours vertices reachable from its source. */
  lemma TouchedAreReachable(adj: Adjacency, t0: Tables, t: Tables, source: int, x: int)
    requires Grown(adj, t0, t, source)
    requires 0 <= x < |adj| && t0.color[x] == NONE && t.color[x] != NONE
    ensures Reachable(adj, source, x)
  {
    RootReaches(adj, t.color, t.parent, t.depth, t.root, x);
  }

  /**
   * The cycle closed by a conflict at height k: the v-arm up to and including
   * the common ancestor, then the u-arm from below the ancestor back down to u.
   */
  function Cycle(parent: seq<int>, v: int, u: int, k: nat): (c: seq<int>)
    ensures |c| == 2 * k + 1
    ensures forall i :: 0 <= i <= k ==> c[i] == Up(parent, v, i)
    ensures forall i :: k < i < |c| ==> c[i] == Up(parent, u, 2 * k - i)
  {
    Chain(parent, v, k + 1) + Reversed(Chain(parent, u, k))
  }

  /** Consecutive vertices of the cycle are adjacent, and so are its last and first. */
  lemma CycleIsClosedWalk(adj: Adjacency, color: seq<int>, parent: seq<int>, depth: seq<int>, root: seq<int>,
                          v: int, u: int, k: nat)
    requires Symmetric(adj) && Forest(adj, color, parent, depth, root)
    requires Conflict(adj, color, depth, root, v, u)
    requires 1 <= k <= depth[v] && Up(parent, v, k) == Up(parent, u, k)
    ensures IsClosedWalk(adj, Cycle(parent, v, u, k))
  {
    var c := Cycle(parent, v, u, k);
    forall i | 0 <= i < |c|
      ensures 0 <= c[i] < |adj|
    {
      if i <= k {
        UpInForest(adj, color, parent, depth, root, v, i);
      } else {
        UpInForest(adj, color, parent, depth, root, u, 2 * k - i);
      }
    }
    forall i | 0 <= i < |c| - 1
      ensures c[i + 1] in adj[c[i]]
    {
      if i < k {
        UpInForest(adj, color, parent, depth, root, v, i);
        assert c[i] in adj[c[i + 1]];
      } else {
        UpInForest(adj, color, parent, depth, root, u, 2 * k - i - 1);
      }
    }
  }

  /** The two arms meet only at the ancestor, so the cycle repeats no vertex. */
  lemma CycleIsSimple(adj: Adjacency, color: seq<int>, parent: seq<int>, depth: seq<int>, root: seq<int>,
                      v: int, u: int, k: nat)
    requires Forest(adj, color, parent, depth, root)
    requires Conflict(adj, color, depth, root, v, u)
    requires 1 <= k <= depth[v]
    requires forall i :: 0 <= i < k ==> Up(parent, v, i) != Up(parent, u, i)
    ensures forall i, j :: 0 <= i < j < |Cycle(parent, v, u, k)| ==> Cycle(parent, v, u, k)[i] != Cycle(parent, v, u, k)[j]
  {
    var c := Cycle(parent, v, u, k);
    forall i | 0 <= i < |c|
      ensures 0 <= c[i] < |adj| && depth[c[i]] == depth[v] - (if i <= k then i else 2 * k - i)
    {
      if i <= k {
        UpInForest(adj, color, parent, depth, root, v, i);
      } else {
        UpInForest(adj, color, parent, depth, root, u, 2 * k - i);
      }
    }
    forall i, j | 0 <= i < j < |c|
      ensures c[i] != c[j]
    {
      if i <= k < j && i == 2 * k - j {
        assert c[i] == Up(parent, v, i) && c[j] == Up(parent, u, i);
      }
    }
  }

  /**
   * The two arms of a conflict, joined through their common ancestor at
   * height k and closed by the edge u-v, form an odd cycle of 2k + 1 vertices.
   */
  lemma ArmsFormOddCycle(adj: Adjacency, color: seq<int>, parent: seq<int>, depth: seq<int>, root: seq<int>,
                         v: int, u: int, k: nat)
    requires Symmetric(adj) && Forest(adj, color, parent, depth, root)
    requires Conflict(adj, color, depth, root, v, u)
    requires 1 <= k <= depth[v] && Up(parent, v, k) == Up(parent, u, k)
    requires forall i :: 0 <= i < k ==> Up(parent, v, i) != Up(parent, u, i)
    ensures IsOddCycle(adj, Cycle(parent, v, u, k))
  {
    var c := Cycle(parent, v, u, k);
    CycleIsClosedWalk(adj, color, parent, depth, root, v, u, k);
    CycleIsSimple(adj, color, parent, depth, root, v, u, k);
    assert |c| == 2 * k + 1 && |c| % 2 == 1;
  }

  /** Below depth[x], each vertex on the parent chain of x is in range and its parent is the next one. */
  lemma ChainLinks(adj: Adjacency, color: seq<int>, parent: seq<int>, depth: seq<int>, root: seq<int>, x: int)
    requires Forest(adj, color, parent, depth, root)
    requires 0 <= x < |adj| && color[x] != NONE
    ensures forall i :: 0 <= i < depth[x] ==> 0 <= Up(parent, x, i) < |parent| && Up(parent, x, i + 1) == parent[Up(parent, x, i)]
  {
    forall i | 0 <= i < depth[x]
      ensures 0 <= Up(parent, x, i) < |parent| && Up(parent, x, i + 1) == parent[Up(parent, x, i)]
    {
      UpInForest(adj, color, parent, depth, root, x, i);
    }
  }

  /**
   * The first backtracking loop of `color_graph`: v and a copy of u climb
   * their parent chains in lockstep until they meet at the lowest common
   * ancestor, k >= 1 levels up; the v-arm lists v's chain up to and including
   * the ancestor.
   */
  method ClimbToAncestor(g: Graph, v: int, u: int, ghost adj: Adjacency, ghost depth: seq<int>, ghost root: seq<int>)
    returns (vArm: seq<int>, ghost k: nat)
    requires Forest(adj, g.color[..], g.parent[..], depth, root)
    requires Conflict(adj, g.color[..], depth, root, v, u) && v != u
    ensures 1 <= k <= depth[v] && Up(g.parent[..], v, k) == Up(g.parent[..], u, k)
    ensures forall i :: 0 <= i < k ==> Up(g.parent[..], v, i) != Up(g.parent[..], u, i)
    ensures vArm == Chain(g.parent[..], v, k + 1)
    ensures forall i :: 0 <= i < |vArm| - 1 ==> 0 <= vArm[i] < g.parent.Length && vArm[i + 1] == g.parent[vArm[i]]
  {
    ghost var color, parent := g.color[..], g.parent[..];
    assert ForestAt(adj, color, parent, depth, root, v);
    var a, b := v, u;
    k := 0;
    vArm := [];
    while a != b
      invariant 0 <= k <= depth[v] && depth[v] == depth[u]
      invariant a == Up(parent, v, k) && b == Up(parent, u, k)
      invariant vArm == Chain(parent, v, k)
      invariant forall i :: 0 <= i < k ==> Up(parent, v, i) != Up(parent, u, i)
      decreases depth[v] - k
    {
      UpInForest(adj, color, parent, depth, root, v, k);
      UpInForest(adj, color, parent, depth, root, u, k);
      vArm := vArm + [a];
      a := g.parent[a];
      b := g.parent[b];
      k := k + 1;
    }
    vArm := vArm + [a];
    ChainLinks(adj, color, parent, depth, root, v);
  }

  /**
   * The second backtracking loop: u and a copy of v climb in lockstep again;
   * they meet after the same k steps, and the u-arm lists the k vertices of
   * u's chain below the ancestor, the last of them a child of the ancestor.
   */
  method ClimbBack(g: Graph, v: int, u: int, ghost adj: Adjacency, ghost depth: seq<int>, ghost root: seq<int>, ghost k: nat)
    returns (uArm: seq<int>)
    requires Forest(adj, g.color[..], g.parent[..], depth, root)
    requires Conflict(adj, g.color[..], depth, root, v, u)
    requires 1 <= k <= depth[v] && Up(g.parent[..], v, k) == Up(g.parent[..], u, k)
    requires forall i :: 0 <= i < k ==> Up(g.parent[..], v, i) != Up(g.parent[..], u, i)
    ensures uArm == Chain(g.parent[..], u, k)
    ensures forall i :: 0 <= i < |uArm| ==> 0 <= uArm[i] < g.parent.Length && g.parent[uArm[i]] == Up(g.parent[..], u, i + 1)
  {
    ghost var color, parent := g.color[..], g.parent[..];
    var c, d := u, v;
    ghost var m := 0;
    uArm := [];
    while c != d
      invariant 0 <= m <= k
      invariant c == Up(parent, u, m) && d == Up(parent, v, m)
      invariant uArm == Chain(parent, u, m)
      decreases k - m
    {
      UpInForest(adj, color, parent, depth, root, v, m);
      UpInForest(adj, color, parent, depth, root, u, m);
      uArm := uArm + [c];
      d := g.parent[d];
      c := g.parent[c];
      m := m + 1;
    }
    assert m == k;
    ChainLinks(adj, color, parent, depth, root, u);
  }

  /**
   * Both backtracking loops of `color_graph` on a conflict v, u: the arms have
   * lengths k + 1 and k, consecutive entries are child and parent, the u-arm
   * hangs below the ancestor that ends the v-arm, and together they close
   * into an odd cycle.
   */
  method Backtrack(g: Graph, v: int, u: int, ghost adj: Adjacency, ghost depth: seq<int>, ghost root: seq<int>)
    returns (vArm: seq<int>, uArm: seq<int>)
    requires Symmetric(adj) && Forest(adj, g.color[..], g.parent[..], depth, root)
    requires Conflict(adj, g.color[..], depth, root, v, u) && v != u
    ensures |uArm| >= 1 && |vArm| == |uArm| + 1 && vArm[0] == v && uArm[0] == u
    ensures forall i :: 0 <= i < |vArm| - 1 ==> 0 <= vArm[i] < g.parent.Length && vArm[i + 1] == g.parent[vArm[i]]
    ensures forall i :: 0 <= i < |uArm| - 1 ==> 0 <= uArm[i] < g.parent.Length && uArm[i + 1] == g.parent[uArm[i]]
    ensures 0 <= uArm[|uArm| - 1] < g.parent.Length && g.parent[uArm[|uArm| - 1]] == vArm[|vArm| - 1]
    ensures IsOddCycle(adj, vArm + Reversed(uArm))
  {
    ghost var k;
    vArm, k := ClimbToAncestor(g, v, u, adj, depth, root);
    uArm := ClimbBack(g, v, u, adj, depth, root, k);
    ArmsFormOddCycle(adj, g.color[..], g.parent[..], depth, root, v, u, k);
  }
}
