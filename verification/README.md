# Union-find, percolation and undirected-graph searches, modelled in Dafny

This project models the algorithmic core of `algorithms_sedgewick`:

- **The union-find engine** (`union_find/uf_impl.h`). It has five strategies:
  - quick-find;
  - quick-union;
  - quick-union with path halving (the source calls this path compression);
  - weighted quick-union;
  - weighted quick-union with path halving.

  They all share one state record: the strategy tag, `ids`, `cnts` and `cnt`. The model has:
  - a ghost parent forest;
  - a reference semantics: the equivalence generated by the sequence of pairs connected so far.

  Every strategy is proved to produce exactly the reference classes and count. So any two strategies agree on every `connected` answer.
- **The strategy selector** `build_algorithm` (`union_find/uf_util.h`). An unknown name falls back to `wqupc` with a diagnostic.
- **The percolation simulation** (`union_find/percolation.cpp`):
  - an N×N grid plus two virtual cells, top and bottom;
  - `connect_with_neighbors`, with the border cells using themselves as neighbours;
  - `run()`, which returns the number of cells opened when top first meets bottom (or N·N);
  - the integer part of the experiment.
- **Undirected graphs** (`undirected_graphs/graph.h`):
  - adjacency sets as strictly increasing sequences;
  - `set_size` and `add_edge`;
  - the loader, as a function over a token sequence with its two failure modes: a refused edge and a wrong edge count.
- **Searches** over graphs:
  - the paths family (`paths.h`): the recursive DFS, the stack-based DFS proved to compute exactly what the recursive one computes, and the generic stack/queue search (DFS/BFS) with `connected_to`, `distance_to` and `path_to`. BFS distances are proved to be shortest.
  - connected components (`connected_comps.h`);
  - the cycle detector (`cycle_detector.h`);
  - the bipartite detector (`bipartite_detector.h`).

Modelling choices:
- Recursive C++ procedures are total Dafny functions that thread an immutable state record. The dfs procedures become three mutually recursive functions: `Visit`, `Step` and `Loop`. Their heavy properties are proved in separate `{:induction false}` lemmas that follow the same recursion.
- The sentinel `infinity` (the largest `uint64_t`) is `None`.
- C++ `assert`s that guard an operation are preconditions.
- `vector::at` range errors are an explicit `OutOfRange` outcome.

Two facts about the code that shape the model:
- **Weighted tie-break.** On equal sizes, the weighted strategies hang q's root under p's root, so p's root survives (`uf_impl.h:122-128`).
- **Zero-size universes.** A universe of size 0 is accepted (`std::vector::resize(0)`). `Init(v, 0)` is a valid empty instance rather than a failure.

## Model

| member | source | states |
|---|---|---|
| `UnionFind.Init` | algorithms_sedgewick/union_find/uf_impl.h:15-18 | N elements, each its own id and its own class (x and y share a class iff x == y), count N, the state valid for the chosen strategy |
| `UnionFind.Find` | algorithms_sedgewick/union_find/uf_impl.h:77-103 | returns the root of p's parent chain (a self-parented element); no element changes root and the count is kept; only the halving strategies change `ids` |
| `UnionFind.Halve` | algorithms_sedgewick/union_find/uf_impl.h:99 | `ids[p] = ids[ids[p]]` keeps an acyclic forest and changes no element's root and the set of roots |
| `UnionFind.FlatRoot` | algorithms_sedgewick/union_find/uf_impl.h:53 | in quick-find's flat vector, `ids[p]` is p's root, so quick-find's `find` agrees with the forest reading |
| `UnionFind.Connected` | algorithms_sedgewick/union_find/uf_impl.h:22 | true exactly when p and q are in one class; the classes and count are unchanged |
| `UnionFind.Connect` | algorithms_sedgewick/union_find/uf_impl.h:23 | for every strategy the classes afterwards are the old ones with p's and q's merged, and the count drops by one exactly when they were different; an already-joined pair writes no size, and no id unless the finds halve; quick-union writes only `ids[root(p)]`, and the weighted strategies write exactly the surviving root's size and, without halving, only the losing root's id |
| `UnionFind.ConnectQuickFind` | algorithms_sedgewick/union_find/uf_impl.h:42-51 | relabels exactly the elements whose id was p's id with q's id, merging the two classes |
| `UnionFind.ConnectQuickUnion` | algorithms_sedgewick/union_find/uf_impl.h:66-75 | p's root is hung under q's root, nothing else changes for plain quick-union; an already-joined pair is a no-op |
| `UnionFind.ConnectWeighted` | algorithms_sedgewick/union_find/uf_impl.h:113-131 | the root of the smaller tree goes under the other root (q's under p's on equal sizes); the surviving root's size grows by the other's, and no other size changes; plain weighted quick-union writes no id but the losing root's |
| `UnionFind.NoOpConnects` | algorithms_sedgewick/union_find/uf_impl.h:46-47 | when both finds meet, `connect` keeps classes and count |
| `UnionFind.Relabel` | algorithms_sedgewick/union_find/uf_impl.h:49-50 | every id equal to a becomes b and nothing else changes; the vector stays flat and the count drops by one |
| `UnionFind.Link` | algorithms_sedgewick/union_find/uf_impl.h:73 | hanging root a under root b keeps a forest and sends exactly a's class to b |
| `UnionFind.LinkCounts` | algorithms_sedgewick/union_find/uf_impl.h:73-74 | after the link, a has left the roots and the classes of a and b are one, so the count of roots drops by one |
| `UnionFind.LinkUnder` | algorithms_sedgewick/union_find/uf_impl.h:122-127 | the link writes `ids[a] = b` and, for the weighted strategies, `cnts[b] += cnts[a]`; validity, the new roots and the count are stated |
| `UnionFind.Count` | algorithms_sedgewick/union_find/uf_impl.h:27 | `cnt` is the number of roots of the forest, that is, the number of classes |
| `UnionFind.FindAt` | algorithms_sedgewick/union_find/uf_impl.h:77-79 | an id not below N throws (`ids.at`); otherwise the result is p's root with roots unchanged |
| `UnionFind.ConnectedAt` | algorithms_sedgewick/union_find/uf_impl.h:22-25 | throws exactly when p or q is not below N; otherwise answers whether p and q share a class |
| `UnionFind.ConnectAt` | algorithms_sedgewick/union_find/uf_impl.h:42-47 | throws exactly when p or q is not below N; otherwise merges the two classes as `connect` does |
| `UnionFind.Run` | algorithms_sedgewick/union_find/uf_impl.h:11-33 | after connecting a sequence of pairs from N singletons, every strategy's classes are the reference classes and its count is N minus the merging pairs |
| `UnionFind.RunAgree` | algorithms_sedgewick/union_find/uf_impl.h:11-33 | any two strategies given the same pairs agree on every `connected` answer and on `count()` |
| `Selector.Build` | algorithms_sedgewick/union_find/uf_util.h:13-28 | a known name builds its strategy with no diagnostic; an unknown name builds `wqupc` and reports "invalid version, use default algo"; the instance is N singletons |
| `Selector.NamesOfBuilt` | algorithms_sedgewick/union_find/uf_util.h:14-20 | each short name builds the strategy whose `name()` is the matching long name |
| `Selector.FallbackIsDefault` | algorithms_sedgewick/union_find/uf_util.h:22-27 | an unknown name yields exactly the instance the default name yields |
| `Percolation.UpOf` | algorithms_sedgewick/union_find/percolation.cpp:56 | the cell one row up in the same column, or the cell itself in row 0 |
| `Percolation.DownOf` | algorithms_sedgewick/union_find/percolation.cpp:57 | the cell one row down in the same column, or the cell itself in row N-1 |
| `Percolation.LeftOf` | algorithms_sedgewick/union_find/percolation.cpp:58 | the cell one column left in the same row, or the cell itself in column 0 |
| `Percolation.RightOf` | algorithms_sedgewick/union_find/percolation.cpp:59 | the cell one column right in the same row, or the cell itself in column N-1 |
| `Percolation.NeighboursAdjacent` | algorithms_sedgewick/union_find/percolation.cpp:53-59 | the four neighbour indices are the orthogonally adjacent cells, never wrapping to the other side of the grid; at a border the cell itself |
| `Percolation.LinkOpsShape` | algorithms_sedgewick/union_find/percolation.cpp:55-66 | the pairs one opening connects join the cell with exactly its open neighbours, with top iff it is in row 0 and with bottom iff it is in row N-1 |
| `Percolation.NewSimulation` | algorithms_sedgewick/union_find/percolation.cpp:21-36 | all cells closed, top = N·N, bottom = N·N+1, a fresh weighted quick-union with path halving over N·N+2 elements with no pairs connected |
| `Percolation.ConnectOpen` | algorithms_sedgewick/union_find/percolation.cpp:60-62 | the classes afterwards are those of the pairs so far followed by (cell, t) for each open neighbour t |
| `Percolation.ConnectBorders` | algorithms_sedgewick/union_find/percolation.cpp:65-66 | the classes afterwards add (cell, top) for row 0 and (cell, bottom) for row N-1 |
| `Percolation.ConnectWithNeighbors` | algorithms_sedgewick/union_find/percolation.cpp:51-67 | only the union-find changes, and its classes are the reference classes of every pair connected so far followed by this opening's pairs |
| `Percolation.Step` | algorithms_sedgewick/union_find/percolation.cpp:40-47 | stops exactly when top and bottom are already connected; otherwise opens `cells[pos]` and keeps the run invariant one cell further |
| `Percolation.Run` | algorithms_sedgewick/union_find/percolation.cpp:38-49 | returns the first number of opened cells at which top and bottom are connected, or N·N; the cells open are exactly the first `pos` of the order |
| `Percolation.SingleCellPercolates` | algorithms_sedgewick/union_find/percolation.cpp:65-66 | on a 1×1 grid the single cell is in the first and the last row, so the grid percolates after one opening and not before |
| `Percolation.Experiment` | algorithms_sedgewick/union_find/percolation.cpp:85-92 | the summed result is the sum of the first-percolation counts of the orders given, at most M·N·N |
| `Graphs.Insert` | algorithms_sedgewick/undirected_graphs/graph.h:53-54 | `std::set::insert` on a strictly increasing sequence: the result is increasing, holds exactly the old elements and x, and is unchanged when x was there |
| `Graphs.SetSize` | algorithms_sedgewick/undirected_graphs/graph.h:46 | n vertices; the surviving adjacency sets are kept and new ones are empty |
| `Graphs.SetSizeEmpty` | algorithms_sedgewick/undirected_graphs/graph.h:84 | sizing an empty graph gives a valid graph with n vertices and no edges |
| `Graphs.AdjInRange` | algorithms_sedgewick/undirected_graphs/graph.h:34-38 | in a valid graph every neighbour is a vertex other than v and has v as its neighbour |
| `Graphs.AddEdge` | algorithms_sedgewick/undirected_graphs/graph.h:49-55 | the edges afterwards are the old ones plus v–w both ways; other adjacency sets are unchanged; validity (ordered sets, no self-loops, symmetry) is kept; an existing edge changes nothing |
| `Graphs.Pairs` | algorithms_sedgewick/undirected_graphs/graph.h:89-91 | the body tokens read two by two; a trailing odd token forms no pair |
| `Graphs.ReadEdgesSpec` | algorithms_sedgewick/undirected_graphs/graph.h:86-100 | reading succeeds iff every pair is acceptable to `add_edge`; it then counts every pair and the edges are the old ones plus the pairs read |
| `Graphs.LoadSpec` | algorithms_sedgewick/undirected_graphs/graph.h:76-109 | loading succeeds iff every pair is a valid edge and their number is the declared count; the graph has the declared vertices and exactly the pairs as edges; a count mismatch reports both numbers |
| `Paths.Start` | algorithms_sedgewick/undirected_graphs/paths.h:12-19 | nothing marked, no parent links, distance 0 at the source and `infinity` elsewhere |
| `Paths.TreeReach` | algorithms_sedgewick/undirected_graphs/paths.h:69-71 | following recorded parent links from a marked vertex gives a walk from the source |
| `Paths.ConnectedTo` | algorithms_sedgewick/undirected_graphs/paths.h:25-28 | on a finished search, true exactly when w is reachable from the source |
| `Paths.DistanceTo` | algorithms_sedgewick/undirected_graphs/paths.h:31-34 | the recorded distance, and a walk of at most that many edges leads from the source to w |
| `Paths.PathTo` | algorithms_sedgewick/undirected_graphs/paths.h:37-47 | a walk from the source to w with one more vertex than w's recorded distance |
| `Paths.VisitFacts` | algorithms_sedgewick/undirected_graphs/paths.h:65-74 | a recursive visit only changes newly marked vertices, keeps the parent tree, and leaves every newly marked vertex with all its neighbours marked |
| `Paths.LoopFacts` | algorithms_sedgewick/undirected_graphs/paths.h:67-73 | the loop over v's neighbours from the i-th on keeps the tree and marks every remaining neighbour |
| `Paths.DfsRec` | algorithms_sedgewick/undirected_graphs/paths.h:61-74 | the finished search is a tree of parent links rooted at the source whose marked vertices are exactly those reachable from it |
| `Paths.PushResume` | algorithms_sedgewick/undirected_graphs/paths.h:96-98 | pushing an unmarked neighbour with the parent's cursor advanced opens the frame the recursion would open, leaving the pending work unchanged |
| `Paths.EqRecStep` | algorithms_sedgewick/undirected_graphs/paths.h:93-102 | one iteration of the stack loop keeps what remains to compute equal to the recursive search's result and makes progress |
| `Paths.DfsEqRec` | algorithms_sedgewick/undirected_graphs/paths.h:79-103 | the stack-and-cursor search computes exactly the state the recursive search computes |
| `GenericPaths.Take` | algorithms_sedgewick/undirected_graphs/paths.h:126-129 | a stack yields its last pushed vertex, a queue its first |
| `GenericPaths.MarkChildOk` | algorithms_sedgewick/undirected_graphs/paths.h:149-154 | `mark_and_push(v, w)` keeps the parent tree, marks only w, with parent v one step further than v |
| `GenericPaths.Expand` | algorithms_sedgewick/undirected_graphs/paths.h:142-145 | every neighbour of v is marked afterwards; the vertices pushed are exactly the newly marked ones, each one step beyond v |
| `GenericPaths.FrontierStep` | algorithms_sedgewick/undirected_graphs/paths.h:140-146 | one outer iteration keeps the frontier: the tree, distinct marked vertices in the container, pushed = marked, and closure of vertices taken out |
| `GenericPaths.LayeredStep` | algorithms_sedgewick/undirected_graphs/paths.h:138-147 | with a queue, the container holds two consecutive levels in order, and no neighbour of a vertex taken out is more than one step further |
| `GenericPaths.Generic` | algorithms_sedgewick/undirected_graphs/paths.h:134-147 | both disciplines produce a parent tree whose marked vertices are exactly those reachable from the source, each pushed once; with a queue every distance is that of a shortest walk |
| `GenericPaths.LipschitzShortest` | algorithms_sedgewick/undirected_graphs/paths.h:149-153 | in a finished search where no edge leads more than one level further, a vertex is within d edges of the source iff its distance is at most d |
| `Components.VisitFacts` | algorithms_sedgewick/undirected_graphs/connected_comps.h:34-39 | every vertex one `dfs` marks is reachable from its root, gets the current component number, and has all its neighbours marked |
| `Components.LoopFacts` | algorithms_sedgewick/undirected_graphs/connected_comps.h:36-38 | the loop over v's neighbours also marks every remaining neighbour |
| `Components.CoverSearch` | algorithms_sedgewick/undirected_graphs/connected_comps.h:14 | a search starts only at a vertex no smaller vertex reaches, and marks exactly what it reaches |
| `Components.CoverSkip` | algorithms_sedgewick/undirected_graphs/connected_comps.h:14 | a marked vertex is reached from a smaller one, so no search starts there |
| `Components.SearchKeeps` | algorithms_sedgewick/undirected_graphs/connected_comps.h:14 | a search followed by `ncc++` keeps the labelling: ids below the count, every id used, and same id iff connected |
| `Components.Begin` | algorithms_sedgewick/undirected_graphs/connected_comps.h:13-15 | one iteration of the constructor's loop: the marked vertices are those reached from vertices below v+1, and `ncc` counts the components whose smallest vertex is below v+1 |
| `Components.Compute` | algorithms_sedgewick/undirected_graphs/connected_comps.h:8-16 | every vertex gets an id below `ncc`, every id is used, two vertices share an id iff they are connected, and `ncc` is the number of components; components are numbered in the order of their smallest vertices |
| `Components.Connected` | algorithms_sedgewick/undirected_graphs/connected_comps.h:19-24 | on a finished labelling, true exactly when v and w are connected |
| `Components.Id` | algorithms_sedgewick/undirected_graphs/connected_comps.h:26-29 | on a finished labelling, an id below the count, shared exactly by the vertices connected to v; it is the number of components whose smallest vertex is below the smallest vertex of v's component |
| `Components.LeaderOf` | algorithms_sedgewick/undirected_graphs/connected_comps.h:13-15 | every vertex is reached from some smallest vertex of its component, at or below it |
| `Components.Count` | algorithms_sedgewick/undirected_graphs/connected_comps.h:31 | on a finished labelling, the number of components, each id below it used |
| `Cycles.StepFacts` | algorithms_sedgewick/undirected_graphs/cycle_detector.h:29-34 | one iteration either records a genuine cycle or keeps the search invariant (parent tree, pending frames, handled neighbours) one neighbour further |
| `Cycles.LoopFacts` | algorithms_sedgewick/undirected_graphs/cycle_detector.h:24-37 | the loop of `dfs(u, v)` either records a genuine cycle or finishes v with every neighbour joined to it by a parent link |
| `Cycles.OnStack` | algorithms_sedgewick/undirected_graphs/cycle_detector.h:33-34 | a marked neighbour other than u is a pending frame at least two frames out from v |
| `Cycles.WalkSpec` | algorithms_sedgewick/undirected_graphs/cycle_detector.h:43-44 | following parent links from a pending frame back to an earlier one lists the frames in between, in order |
| `Cycles.BuildCycle` | algorithms_sedgewick/undirected_graphs/cycle_detector.h:42-47 | `build_path(v, w)` records v, w and the frames from w's child to v: a closed walk through at least three distinct vertices |
| `Cycles.CycleKept` | algorithms_sedgewick/undirected_graphs/cycle_detector.h:27-28 | once a cycle is recorded, a new search only marks its root: the first cycle is kept |
| `Cycles.Visit` | algorithms_sedgewick/undirected_graphs/cycle_detector.h:24-37 | `dfs(u, v)` marks v and keeps every earlier mark; once a cycle is recorded it only marks v |
| `Cycles.Loop` | algorithms_sedgewick/undirected_graphs/cycle_detector.h:26-28 | once a cycle is recorded, every pending loop returns its state unchanged, so the first cycle is kept |
| `Cycles.RootFacts` | algorithms_sedgewick/undirected_graphs/cycle_detector.h:14-15 | a search from an unmarked root either records a cycle or leaves every marked vertex joined to all its neighbours by parent links |
| `Cycles.NoCycle` | algorithms_sedgewick/undirected_graphs/cycle_detector.h:33-34 | when every edge is a parent link ranked from parent to child, no sequence is a simple cycle |
| `Cycles.ForestAcyclic` | algorithms_sedgewick/undirected_graphs/cycle_detector.h:10-16 | a search that records no cycle proves the graph acyclic |
| `Cycles.Detect` | algorithms_sedgewick/undirected_graphs/cycle_detector.h:10-16 | every vertex is marked, and a cycle is recorded exactly when the graph has one; a recorded cycle is a genuine simple cycle |
| `Cycles.Positive` | algorithms_sedgewick/undirected_graphs/cycle_detector.h:18 | on a finished detector, true exactly when the graph has a cycle |
| `Cycles.GetCycle` | algorithms_sedgewick/undirected_graphs/cycle_detector.h:19-22 | only once a cycle is recorded; on a finished detector a closed walk through at least three distinct vertices |
| `Bipartite.Dfs` | algorithms_sedgewick/undirected_graphs/bipartite_detector.h:31-32 | a tree child ends labelled with the inverse of its parent's label; labels already set and a recorded neg are kept |
| `Bipartite.Loop` | algorithms_sedgewick/undirected_graphs/bipartite_detector.h:33-35 | once neg is recorded the frame changes nothing; labels only grow |
| `Bipartite.Step` | algorithms_sedgewick/undirected_graphs/bipartite_detector.h:36-40 | after handling its i-th neighbour, that neighbour is labelled; labels only grow and `bipartite` can only become neg |
| `Bipartite.Root` | algorithms_sedgewick/undirected_graphs/bipartite_detector.h:16-18 | a component root is set to neg and then inverted by `dfs(v, v)`, so it ends pos |
| `Bipartite.LoopDone` | algorithms_sedgewick/undirected_graphs/bipartite_detector.h:33-41 | when no clash is recorded, every vertex the loop labels has all neighbours labelled opposite, and so does v for its remaining neighbours |
| `Bipartite.StepMatch` | algorithms_sedgewick/undirected_graphs/bipartite_detector.h:36-40 | given a 2-colouring, a neighbour already labelled carries the opposite label, so no clash is recorded and new labels follow the colouring |
| `Bipartite.LoopMatch` | algorithms_sedgewick/undirected_graphs/bipartite_detector.h:33-41 | given a 2-colouring, the loop records no clash and every vertex it labels matches the colouring |
| `Bipartite.RootClash` | algorithms_sedgewick/undirected_graphs/bipartite_detector.h:38-39 | a search begun from closed labels that records neg rules out every 2-colouring |
| `Bipartite.Begin` | algorithms_sedgewick/undirected_graphs/bipartite_detector.h:15-19 | one iteration of the constructor's loop: vertices up to v are labelled; without a clash every labelled vertex has opposite-labelled neighbours; a clash means no 2-colouring |
| `Bipartite.Detect` | algorithms_sedgewick/undirected_graphs/bipartite_detector.h:12-23 | every vertex is labelled; pos is recorded exactly when the graph is 2-colourable, and then every edge joins opposite labels |
| `Bipartite.PositiveSpec` | algorithms_sedgewick/undirected_graphs/bipartite_detector.h:6-8 | on a finished detector, pos exactly when a 2-colouring exists: the labels read as colours are one |
| `Bipartite.Positive` | algorithms_sedgewick/undirected_graphs/bipartite_detector.h:25 | on a finished detector, true exactly when the graph is 2-colourable |
| `Bipartite.GetLabels` | algorithms_sedgewick/undirected_graphs/bipartite_detector.h:26-29 | only once pos is recorded; on a finished detector every vertex is labelled and every edge joins opposite labels |

## Left out

- Printing: `operator<<` for graphs (`graph.h:61-73`) and for union-find instances (`uf_util.h:31-35`). It is output only.
- All `main` functions and the clients (`uf_client.cpp`, `basic_*_client.cpp`, `percolation.cpp:97-113`). They hold argument handling, stream input and printing.
- The loader's stream handling (`graph.h:76-109`). The model reads a sequence of already-parsed numbers: a missing header number reads as 0 and a trailing odd number forms no pair. Not modelled:
  - non-numeric input;
  - `eof` being set by the read of a final number that is not followed by whitespace;
  - the loader reading `std::cin` whatever stream it is given;
  - the `valid` flag. `Valid(g)` states the invariant the flag stands for.
- `Graphs.LoadSpec`: a pair refused by `add_edge` is reported as a `BadEdge` error value. The source aborts through `assert`.
- The sentinel `infinity` in `edge_to`, `dist_to` and `cc` is `None`. Fixed-width `uint64_t` arithmetic is not modelled: counters and distances are unbounded naturals. They never come near 2^64 for a graph that fits in memory.
- `UnionFind.Find`, `UnionFind.Connected`, `UnionFind.Connect`: these require ids below N. The source throws `std::out_of_range` from `ids.at` for larger ids. That path is modelled separately by `FindAt`, `ConnectedAt` and `ConnectAt`. When `connected` or `connect` throws on q after `find(p)` halved some links, the halved state is not kept; those links change no root.
- The default constructors that `assert(false)` (`uf_impl.h:13`, `uf_impl.h:60`). They are never called.
- Virtual dispatch and the diamond inheritance of the weighted strategy with path halving. They are modelled as a strategy tag on one record, and `connect`/`find` dispatch on it.
- Percolation's random shuffle (`percolation.cpp:31-33`). The opening order is a parameter: any permutation of the cells.
- The floating-point division of `percolation_experiment::run` (`percolation.cpp:91`). `Experiment` returns the integer total; the threshold is that total divided by N·N·M.
- `Cycles.WalkUp`: it carries a fuel bound (the number of vertices) so that it is total. `BuildCycle` shows that the walk reaches w within the pending frames, so the bound never cuts it short.
- `Bipartite.Inv`: `label_t` and `inv` are used by `bipartite_detector.h` but defined in neither it nor `graph.h`. They are defined here as a three-valued label, with `inv` swapping neg and pos. Its value on unknown is never used.
- The iterator vectors of `dfs_eq_rec_paths_t` (`paths.h:122-123`) are declared as iterators of `std::unordered_set`. The adjacency sets are `std::set`. The model uses an integer cursor into each ordered adjacency sequence.
- Running time and the amortized bounds of the strategies.
