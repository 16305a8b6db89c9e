# Two-colouring by breadth-first search

This project models the core of `run_me.py`. That program decides whether an
undirected graph is two-colourable, which is the same as bipartite. It builds an
adjacency list from an edge list, then colours the graph breadth first:

- `bfs` colours one component, and `bfs_util` restarts it from every
  still-uncoloured vertex 1..n.
- Either every vertex ends up coloured so that no edge joins two vertices of the
  same colour, or the search stops at the first edge u–v whose ends already share
  a colour.
- In the second case, `color_graph` walks the parent chains of v and u in
  lockstep up to their lowest common ancestor and writes the two arms. Closed by
  the edge u–v, the arms form an odd cycle.

The model keeps the program's mutable shape:

- `Queues`: the singly linked `Queue` with its `head`, `tail` and `size` fields
  and `Node` cells. A ghost sequence of cells and their ids describes the
  queue's contents.
- `Graphs`: the vertex table as a `Graph` class. It holds one adjacency `Queue`
  per id 0..n, plus the `color` and `parent` fields of every `Vertex` as two
  integer arrays indexed by id. `NONE` (-1) stands for Python's `None`.
  `Build` is the graph-building part of `initialize_graph`.
- `GraphSpec`: the mathematical view. It gives the adjacency an edge list
  determines, both edge by edge and one vertex at a time. It also defines
  proper two-colourings, walks and odd cycles, and proves that an odd closed
  walk refutes bipartiteness.
- `Traversal`: `bfs` and `bfs_util` as methods over the arrays and a frontier
  `Queue`. Ghost tables of BFS depth and tree root describe the search forest.
  Each loop keeps a stated invariant:
  - the frontier spans at most two consecutive levels, in order;
  - every vertex that has left the frontier has all its neighbours coloured
    with the other colour.
- `Certificate`: the two backtracking loops of `color_graph`, and the proof that
  their arms close into an odd cycle.
- `TwoColoring`: `color_graph` without its file input and text output. It
  returns either the colouring or the two arms, and the graph is reported
  colourable exactly when it is bipartite.

## Model

| member | source | states |
|---|---|---|
| Queues.Node.constructor | run_me.py:4-7 | a new cell carries the given id and has no successor |
| Queues.Queue.constructor | run_me.py:22-25 | a new queue is valid and empty, with no head, no tail and size 0 |
| Queues.Queue.IsEmpty | run_me.py:27-28 | the answer is true exactly when head is None, exactly when the queue holds nothing, and exactly when size is 0 |
| Queues.Queue.Enqueue | run_me.py:30-37 | the node becomes the last element (it is both head and tail of an empty queue); the order of the earlier elements is unchanged; size grows by one |
| Queues.Queue.Dequeue | run_me.py:39-47 | on a non-empty queue, returns the first element and leaves the rest in order; size drops by one; taking the only node resets head and tail to None. Together with Enqueue, elements leave in the order they entered |
| Graphs.Graph.constructor | run_me.py:57-59 | vertices 0..n exist, each with no colour, no parent and an empty adjacency queue |
| Graphs.Graph.Append | run_me.py:65-67 | one enqueue of a fresh cell: the list of u gains x at its end, and every other list is unchanged |
| Graphs.Graph.AddEdge | run_me.py:64-67 | reading edge (u, v) puts v at the end of u's list and then u at the end of v's |
| Graphs.Build | run_me.py:57-67 | the table has n+1 vertices, none coloured or parented, and its lists are exactly the adjacency the edge list determines when read in order |
| GraphSpec.AdjacencyIsIncident | run_me.py:60-67 | the list of u is exactly u's incident neighbours, in the order the edges are read |
| GraphSpec.IncidentMembership | run_me.py:64-67 | v is listed under u exactly when some edge (u, v) or (v, u) was read |
| GraphSpec.IncidentLength | run_me.py:64-67 | a list is as long as its vertex's degree: parallel edges are kept, and a self-loop is listed twice |
| GraphSpec.IncidentCount | run_me.py:64-67 | v occurs in u's list once for every edge read between u and v in either direction, so parallel edges repeat it and a self-loop lists u twice |
| GraphSpec.AdjacencySymmetric | run_me.py:64-67 | v is listed under u exactly when u is listed under v |
| GraphSpec.AdjacencyNoSelfLoops | run_me.py:64-67 | without self-loop edges, no vertex is listed under itself |
| GraphSpec.OddClosedWalkRefutes | run_me.py:131-148 | a closed walk of odd length admits no proper two-colouring, so the odd cycle written after `False` justifies that answer |
| Traversal.StartTraversal | run_me.py:76-81 | colouring the uncoloured source 0 and putting it alone on the frontier starts a traversal whose invariant holds |
| Traversal.ScanUncolored | run_me.py:92-96 | colouring an uncoloured neighbour opposite to u, giving it parent u and enqueuing it preserves the scan invariant, with that neighbour handled |
| Traversal.ScanClash | run_me.py:97-99 | a neighbour v already coloured like u is a genuine conflict: v is listed under u, and both sit at the same depth of the tree of the current source |
| Traversal.EndTraversal | run_me.py:101-102 | once the frontier is empty, every coloured vertex has all its neighbours coloured with the other colour |
| Traversal.Mark | run_me.py:93-96 | w gets the given colour and parent u, every other entry is unchanged, and w is appended to the frontier |
| Traversal.Visit | run_me.py:90-100 | one neighbour w: an uncoloured w is coloured opposite to u, gets parent u, one level deeper in u's tree, and is appended to the frontier; a coloured w leaves tables and frontier unchanged and is a conflict exactly when it has u's colour; twice the uncoloured count plus the frontier length does not grow |
| Traversal.ScanNeighbours | run_me.py:88-101 | walks u's list in order; either every neighbour ends coloured opposite to u, or it stops at a neighbour v that conflicts with u; the frontier stays ordered by depth and the forest grown from the source stays valid |
| Traversal.Expand | run_me.py:83-101 | u is the head of the frontier, dequeued and scanned; twice the uncoloured count plus the frontier length strictly drops, so the outer loop terminates |
| Traversal.Traverse | run_me.py:82-102 | runs until the frontier is empty, when the forest is closed and every edge of the component joins two colours, or until a conflict (v, u) is found |
| Traversal.Bfs | run_me.py:74-102 | the source gets colour 0. Every vertex it colours gets the colour opposite to its parent, with that parent listing it, one level deeper, in the source's tree. Colours and parents set earlier are kept. It returns true with no conflict left in the component, or false with v listed under u, the same colour and depth, in the source's tree |
| Traversal.SettledIsProper | run_me.py:111-113 | a closed forest covering 1..n is a proper two-colouring with colours 0 and 1 |
| Traversal.NoEdgesAllRoots | run_me.py:78-80 | with no edges every coloured vertex is a root of colour 0 without a parent, and no conflict exists |
| Traversal.RootsLeast | run_me.py:107-110 | a traversal started from the least uncoloured id keeps every coloured vertex at or above the root of its tree |
| Traversal.EarlierTreesClosed | run_me.py:107-112 | a traversal leaves every vertex of the trees grown before it closed, with its neighbours coloured the other way |
| Traversal.BfsUtil | run_me.py:106-113 | returns true with every vertex 1..n coloured 0 or 1 and every edge joining different colours, or false with a conflict (v, u); each tree is rooted at its least vertex, and on a conflict every id below the root of u's tree is coloured, every tree rooted before u's is closed and properly coloured, and no coloured vertex lies in a tree rooted after u's, so the conflict lies in the least-numbered component that has one; with no edges it returns true with every vertex coloured 0 |
| Certificate.RootReaches | run_me.py:92-96 | every coloured vertex is reachable from the root of its tree along listed edges |
| Certificate.TouchedAreReachable | run_me.py:88-96 | a call of `bfs` colours only vertices reachable from its source, so vertices it cannot reach are left untouched |
| Certificate.UpInForest | run_me.py:138-147 | climbing j <= depth steps through parents stays in the same tree, exactly j levels higher, through listed edges, and reaches the root after depth steps |
| Certificate.ChainLinks | run_me.py:140-147 | below its root, each vertex of a parent chain is a valid id whose parent is the next vertex of the chain |
| Certificate.CycleIsClosedWalk | run_me.py:138-148 | the v-arm, then the u-arm in reverse, is a walk along listed edges, closed by the edge u–v |
| Certificate.CycleIsSimple | run_me.py:138-148 | that walk repeats no vertex, since the arms lie on distinct levels or below distinct ancestors |
| Certificate.ArmsFormOddCycle | run_me.py:138-148 | the arms of a conflict, joined at their lowest common ancestor k levels up, form an odd cycle of 2k+1 vertices |
| Certificate.ClimbToAncestor | run_me.py:138-142 | v and the copy of u climb in lockstep and meet after k >= 1 steps, no higher than the root, at the first level where their chains agree; the v-arm is v's chain up to and including that ancestor, linked child to parent |
| Certificate.ClimbBack | run_me.py:144-148 | u and the copy of v climb in lockstep and meet after the same k steps; the u-arm is the k vertices of u's chain below the ancestor, linked child to parent |
| Certificate.Backtrack | run_me.py:133-148 | the arms have k+1 and k entries, start at v and u, and link child to parent; the u-arm ends below the ancestor that ends the v-arm; closed by u–v they form an odd cycle |
| Certificate.LeastIsRoot | run_me.py:107-110 | in a forest rooted at least vertices, a coloured vertex that no smaller id reaches is its own tree's root, without a parent, and coloured 0 |
| Certificate.LeastAreZero | run_me.py:107-110 | once the scan has coloured every id 1..n with each tree rooted at its least vertex, every vertex that no smaller id reaches is coloured 0 |
| TwoColoring.TwoColor | run_me.py:116-148 | returns a proper two-colouring of 1..n, or arms that form an odd cycle. It answers colourable exactly when the graph is bipartite. In the colouring, every vertex that no smaller id reaches, i.e. the least vertex of each component, is coloured 0, so every vertex of an edgeless graph is coloured 0 |

## Left out

- File input and integer parsing (run_me.py:55-56, 60-63). The model takes `n`
  and the edge list directly and requires every endpoint to lie in 1..n. That
  also rules out Python's negative-index wrap-around at run_me.py:65-67.
- The output file name (run_me.py:121-123), every `f.write`, the `red`/`blue`
  names and the `->`, `<-` and `/` markers (run_me.py:124-148), and the
  `os.listdir` driver (run_me.py:153-154). These are I/O. `TwoColor` returns the
  colouring or the two arms as values instead.
- `copy.copy` (run_me.py:134-135) only makes the first comparison of each loop
  fail. Over vertex ids, `Backtrack` requires `v != u` instead. `TwoColor`
  meets that requirement because it excludes self-loops.
- Self-loops: `TwoColor` requires that no edge joins a vertex to itself.
  `Build` and the `GraphSpec` lemmas still accept self-loops. `bfs` reports the
  conflict (u, u) only when its scan of u's list reaches the self-loop before
  any other conflict. If u is then a root, the program fails on `None.id` at
  run_me.py:142. Otherwise, with p the parent of u, the two loops at
  run_me.py:138-148 write `u -> p` and `u <- /`, which is not a cycle. When
  another conflict is found first (edges (1,2), (2,3), (1,3), (3,3) report
  (3, 2)), the program prints a valid odd cycle; `TwoColor` rejects such
  inputs too, as malformed, although the program answers them correctly.
- The `size` field is kept and updated as a counter. The algorithm never reads
  it.
- `Vertex` objects (run_me.py:10-18) become slots of `Graph`:
  - the id is the slot index;
  - `color` and `parent` are array entries, and a parent is recorded by its id
    rather than by the object;
  - `Vertex.next` is not modelled. The frontier holds a fresh `Node` per
    enqueue instead of linking the `Vertex` objects through `next`. The program
    never resets `next`, which is harmless only because each vertex enters the
    frontier at most once.
- Traversal.Bfs: does not state that the reported conflict is the first one in
  frontier-then-adjacency order. That order is visible only in the loop
  structure of `Traverse` and `ScanNeighbours`.
- Traversal.BfsUtil: states that the conflict lies in the first tree that has
  one, since every id below the root of u is coloured, every earlier tree is
  closed and no tree is rooted after u's. It does not state which conflict inside that tree is reported (see
  `Traversal.Bfs`).
- Traversal.Expand: states that u is the head of the frontier. `Visit` states,
  one neighbour at a time, that a discovered vertex gets parent u and is
  appended at the end, and that nothing else changes. `Expand` does not carry
  these facts across the whole scan: it does not state that the old frontier
  stays a prefix of the new one, that every vertex coloured by the scan is a
  neighbour of u with parent u, or that entries coloured earlier in the same
  traversal keep their colour and parent. It states the last of these only
  for entries coloured before `bfs` was called, through `Grown`.
- Traversal.ScanNeighbours: the same gap as `Traversal.Expand`. Relative to
  the tables at the start of the scan, it does not state that the vertices it
  colours are neighbours of u with parent u, or that earlier entries are
  kept. `Visit` states both for each single step.
- Traversal.Traverse: does not state "each vertex enters the frontier at most
  once" as such. It appears as the termination measure: each enqueue colours a
  vertex that had no colour.
- Traversal.Bfs and Traversal.BfsUtil require a well-formed, symmetric
  adjacency. `Bfs` also requires an uncoloured source and the closed forest
  left by the earlier calls. `Build` and `BfsUtil` provide these; the program
  calls `bfs` nowhere else.
- The BFS depth and tree root of every vertex are ghost tables that exist only
  to state and prove the invariants. The program has no such fields.
- The two nested loops of `bfs` are split into `Traverse`, `Expand`,
  `ScanNeighbours`, `Visit` and `Mark`. Each carries its own part of the
  invariant, and they run the same steps in the same order.
- Python integers are unbounded, and so are Dafny's. No width or wrap-around
  is involved.
