/**
 * The vertex table of run_me.py: one adjacency queue per vertex id 0..n, and
 * the per-vertex `color` and `parent` fields, kept as two integer arrays
 * indexed by id with NONE standing for `None`.
 */
module Graphs {
  import opened Queues
  import opened GraphSpec

  class Graph {
    const n: nat
    const adj: seq<Queue>
    const color: array<int>
    const parent: array<int>
    /** The adjacency lists as values: Adj[i] is the contents of adj[i]. */
    ghost var Adj: Adjacency
    ghost var Repr: set<object>

    /** The vertex table as the traversal sees it: sized tables, valid lists. */
    ghost predicate Lists()
      reads this, Repr
    {
      && |adj| == n + 1 && |Adj| == n + 1
      && color.Length == n + 1 && parent.Length == n + 1 && color != parent
      && color !in Repr && parent !in Repr
      && (forall i :: 0 <= i <= n ==>
            && adj[i] in Repr && adj[i].Repr <= Repr && this !in adj[i].Repr
            && adj[i].Valid() && adj[i].Contents == Adj[i])
    }

    ghost predicate Valid()
      reads this, Repr
      ensures Valid() ==> this in Repr && Lists()
    {
      && this in Repr
      && Lists()
      && (forall i, j :: 0 <= i < j <= n ==> adj[i].Repr !! adj[j].Repr)
    }

    /** Vertices 0..n with no colour, no parent and an empty adjacency queue. */
    constructor (n: nat)
      ensures Valid() && fresh(Repr) && fresh(color) && fresh(parent)
      ensures this.n == n && Adj == EmptyAdjacency(n)
      ensures forall x :: 0 <= x <= n ==> color[x] == NONE && parent[x] == NONE
    {
      var qs: seq<Queue> := [];
      while |qs| < n + 1
        invariant |qs| <= n + 1
        invariant forall i :: 0 <= i < |qs| ==>
                    fresh(qs[i]) && qs[i].Valid() && qs[i].Repr == {qs[i]} && qs[i].Contents == []
        invariant forall i, j :: 0 <= i < j < |qs| ==> qs[i] != qs[j]
      {
        var q := new Queue();
        qs := qs + [q];
      }
      this.n := n;
      adj := qs;
      color := new int[n + 1](_ => NONE);
      parent := new int[n + 1](_ => NONE);
      Adj := EmptyAdjacency(n);
      Repr := set i | 0 <= i < |qs| :: qs[i];
      new;
      Repr := Repr + {this};
    }

    /** Reads edge (u, v): v is enqueued on u's list, then u on v's. */
    method AddEdge(u: int, v: int)
      requires Valid() && 0 <= u <= n && 0 <= v <= n
      modifies Repr
      ensures Valid() && fresh(Repr - old(Repr))
      ensures Adj == GraphSpec.AddEdge(old(Adj), u, v)
    {
      Append(u, v);
      Append(v, u);
    }

    /** Enqueues a fresh cell holding `x` on the adjacency queue of `u`. */
    method Append(u: int, x: int)
      requires Valid() && 0 <= u <= n
      modifies Repr
      ensures Valid() && fresh(Repr - old(Repr))
      ensures Adj == AddArc(old(Adj), u, x)
    {
      var a := new Node(x);
      adj[u].Enqueue(a);
      Repr := Repr + {a};
      Adj := AddArc(Adj, u, x);
      forall i | 0 <= i <= n && i != u
        ensures adj[i].Repr == old(adj[i].Repr) && adj[i].Valid() && adj[i].Contents == Adj[i]
      {
        assert adj[i] in old(adj[i].Repr) && old(adj[i].Repr) !! old(adj[u].Repr);
      }
      AppendKeepsValid(u, a);
    }

    /** Growing one list by a fresh cell, the others untouched, keeps the table valid. */
    twostate lemma AppendKeepsValid(u: int, new a: Node)
      requires old(Valid()) && 0 <= u <= n && fresh(a)
      requires Repr == old(Repr) + {a} && |Adj| == n + 1
      requires adj[u].Valid() && adj[u].Repr == old(adj[u].Repr) + {a} && adj[u].Contents == Adj[u]
      requires forall i :: 0 <= i <= n && i != u ==>
                 adj[i].Repr == old(adj[i].Repr) && adj[i].Valid() && adj[i].Contents == Adj[i]
      ensures Valid()
    {
      forall i, j | 0 <= i < j <= n
        ensures adj[i].Repr !! adj[j].Repr
      {
        assert a !in old(adj[i].Repr) && a !in old(adj[j].Repr);
      }
    }
  }

  /** The graph-building part of `initialize_graph`, from already parsed input. */
  method Build(n: nat, edges: seq<(int, int)>) returns (g: Graph)
    requires EdgesInRange(n, edges)
    ensures fresh(g) && fresh(g.Repr) && fresh(g.color) && fresh(g.parent)
    ensures g.Valid() && g.n == n && g.Adj == AdjacencyOf(n, edges)
    ensures forall x :: 0 <= x <= n ==> g.color[x] == NONE && g.parent[x] == NONE
  {
    g := new Graph(n);
    var k := 0;
    while k < |edges|
      invariant 0 <= k <= |edges|
      invariant fresh(g) && fresh(g.Repr) && g.Valid() && g.n == n
      invariant g.Adj == AdjacencyOf(n, edges[..k])
      invariant forall x :: 0 <= x <= n ==> g.color[x] == NONE && g.parent[x] == NONE
    {
      assert edges[..k + 1][..k] == edges[..k];
      g.AddEdge(edges[k].0, edges[k].1);
      k := k + 1;
    }
    assert edges[..k] == edges;
  }
}
