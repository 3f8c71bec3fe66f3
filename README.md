# European cities tour: graph, spanning forest and brute-force tour search

This project models the core of the `ect` crate. The crate reads road records between European cities and builds a weighted,
undirected city graph from them. It reduces that graph to a minimum spanning forest with Kruskal's algorithm and a
disjoint-set forest. It then searches every visiting order of a list of cities for the cheapest open tour. Tour costs come
from a matrix of pairwise shortest distances, and each of those distances is found by a label-correcting search over the
adjacency map.

Modules, each following one part of the source:

- `Common` (common.dfy): `u32`, `Option`, the `City` and `DatasetEdge` records and the undirected `Edge` triple.
- `Graph` (graph.dfy): the `CityGraph` class from ect/src/graph.rs.
  - Its adjacency map and city table are fields that `AddCity` and `AddEdge` update in place.
  - `BuildGraphFromEdges` is specified by two folds over the records: `Link` for the adjacency and `CitiesOf` for the city table.
- `UnionFindForest` (unionfind.dfy): the `UnionFind` class from ect/src/mst.rs.
  - `parent` is the only real field.
  - A ghost rank map and bound give `Find`'s recursion a decreasing measure. They also define the representative `Root` as a function.
- `Mst` (mst.dfy): `build_mst`, in four steps:
  - edge collection with the `seen` key set;
  - the stable sort by distance;
  - the city-table copy;
  - the Kruskal loop.

  The loop is proved against connectivity `Conn` over the chosen edge list.
- `ShortestPath` (shortest.dfy): `bfs_distance`, proved against walks over the adjacency map. The result is present exactly when the goal is reachable, and then it is the least walk weight.
- `Permutations` (permutations.dfy): `generate_permutations` and the in-place swapping `permute` over an `array`, proved against the function `PermsFrom`.
- `Tsp` (tsp.dfy), covering:
  - the index map;
  - the distance matrix;
  - `score_path` with its `u32::MAX` "unreachable" sentinel;
  - the sequential `bf`;
  - `parallel_bf` as a reduction over the scored permutations;
  - the conversion from index permutations to city permutations.

Rust `HashMap` iteration order is unspecified. Every loop over a map is therefore modelled as a loop that picks an
arbitrary unvisited key (`:|`). Each contract holds for every order.

## Model

| member | source | states |
|---|---|---|
| Graph.InsertEdge | ect/src/graph.rs:64-69 | the new entry `from -> to` holds `d`; the keys grow by `from` only; every other entry is kept with its distance; an entry exists afterwards exactly when it existed before or is the new one |
| Graph.AddBoth | ect/src/graph.rs:51-52 | after inserting both directions of an edge, an entry exists exactly when it existed before or the edge joins its endpoints; both directions carry the edge's distance; entries the edge does not join keep their distance; the keys grow by both endpoints |
| Graph.LinkSymmetric | ect/src/graph.rs:51-52 | the adjacency built by inserting every edge in both directions is symmetric, with equal distances both ways |
| Graph.LinkHasEdge | ect/src/graph.rs:35-53 | every record's edge is recorded in both directions |
| Graph.LinkEdgeFrom | ect/src/graph.rs:35-53 | every adjacency entry comes from a record joining its two endpoints (the lemma returns that record's position) |
| Graph.LinkWeight | ect/src/graph.rs:64-69 | the distance stored between two cities is the one from the last record joining them (later inserts overwrite) |
| Graph.LinkHasKey | ect/src/graph.rs:35-53 | both endpoints of every record are keys of the adjacency |
| Graph.LinkKeyFrom | ect/src/graph.rs:35-53 | every key of the adjacency is an endpoint of some record |
| Graph.Register | ect/src/graph.rs:37-49 | the `contains_key` guard: an existing entry is never replaced, and a missing name gets `City(name, country)` |
| Graph.CitiesOfAt | ect/src/graph.rs:35-49 | a name is in the city table exactly when some record mentions it; it is stored under its own name; its country is the one the first mentioning record gives |
| Graph.BuiltGraphRegistered | ect/src/graph.rs:32-56 | every adjacency key and every neighbour of the built graph has an entry in its city table |
| Graph.BuildStep | ect/src/graph.rs:35-53 | one more record extends the adjacency fold by that record's edge and the city fold by its two endpoints |
| Graph.CityGraph.constructor | ect/src/graph.rs:24-29 | a new graph has an empty adjacency and an empty city table |
| Graph.CityGraph.AddCity | ect/src/graph.rs:59-61 | the city is stored under its name, and an earlier entry under that name is replaced |
| Graph.CityGraph.AddEdge | ect/src/graph.rs:64-69 | the adjacency becomes `InsertEdge` of the old one, and the city table is untouched |
| Graph.AddRecord | ect/src/graph.rs:36-52 | one loop pass registers both endpoints through the guard and inserts both directions of the edge |
| Graph.BuildGraphFromEdges | ect/src/graph.rs:32-56 | the built graph is a fresh object whose adjacency is the both-direction fold of the records and whose city table is their first-mention fold |
| UnionFindForest.Root | ect/src/mst.rs:17-26 | following parents from a registered name ends at a registered self-parented root |
| UnionFindForest.RootRank | ect/src/mst.rs:17-26 | a non-root ranks strictly lower than its root, so the recursion in `find` terminates |
| UnionFindForest.CompressPreserves | ect/src/mst.rs:20-21 | pointing a name straight at its root keeps the forest well ranked and changes no name's root |
| UnionFindForest.LinkPreserves | ect/src/mst.rs:34 | linking root `a` under root `b` keeps the forest well ranked; names whose root was `a` now have root `b`; every other name keeps its root |
| UnionFindForest.UnionFind.constructor | ect/src/mst.rs:9-15 | every element is registered as its own parent, and nothing else is registered |
| UnionFindForest.UnionFind.Find | ect/src/mst.rs:17-26 | returns the root of `x`, leaves `x` pointing at it (path compression), and keeps every name's root and the registered names |
| UnionFindForest.UnionFind.Link | ect/src/mst.rs:34 | the parent update of `union`: members of `a`'s class move to `b`'s root; all other roots are unchanged |
| UnionFindForest.UnionFind.Union | ect/src/mst.rs:28-37 | returns true exactly when `a` and `b` had different roots; afterwards they share a root, and only names in `a`'s old class change root |
| Mst.LessIrreflexive | ect/src/mst.rs:46 | Rust's string order is irreflexive |
| Mst.LessAsymmetric | ect/src/mst.rs:46 | Rust's string order is asymmetric |
| Mst.LessTotal | ect/src/mst.rs:46 | two different strings are ordered one way or the other |
| Mst.KeySymmetric | ect/src/mst.rs:46-50 | both directions of an entry give the same `seen` key, and that key names exactly the entry's endpoints |
| Mst.PushFresh | ect/src/mst.rs:51-54 | pushing an entry whose key is unseen, and marking the key seen, keeps the list of collected edges free of repeated keys and keeps `seen` equal to their keys |
| Mst.CollectEdges | ect/src/mst.rs:41-56 | every pushed edge is an adjacency entry with its distance and its endpoints in key order; no undirected pair is pushed twice; every entry is represented |
| Mst.Insert | ect/src/mst.rs:58 | inserting into a list adds exactly that edge to its multiset |
| Mst.InsertSorted | ect/src/mst.rs:58 | inserting into a list sorted by distance keeps it sorted |
| Mst.InsertStable | ect/src/mst.rs:58 | an inserted edge goes after every edge of equal distance already in the list |
| Mst.SortByWeight | ect/src/mst.rs:58 | the result is sorted by distance and is a permutation of the input |
| Mst.SortStable | ect/src/mst.rs:58 | edges of equal distance keep their relative order (`sort_by_key` is stable) |
| Mst.ConnSnoc | ect/src/mst.rs:67-72 | one more edge connects exactly the pairs joined before, or joined through that edge in either direction |
| Mst.ConnSymmetric | ect/src/mst.rs:67-72 | connectivity through undirected edges is symmetric |
| Mst.ConnLight | ect/src/mst.rs:67-72 | a connection through the light edges alone is a connection |
| Mst.TracksInitial | ect/src/mst.rs:61 | the singleton forest tracks the empty edge list: same root exactly when the names are equal |
| Mst.TracksUnion | ect/src/mst.rs:68 | after a union, the forest tracks the edge list extended by the edge exactly when the union merged two classes |
| Mst.CityNames | ect/src/mst.rs:60 | the collected names are the city-table keys, each once |
| Mst.CopyCities | ect/src/mst.rs:62-65 | the copied table holds each city under its own name, and equals the original when the original keys cities by name |
| Mst.KeepAcyclic | ect/src/mst.rs:68-71 | adding an edge between two unconnected names keeps the forest acyclic |
| Mst.KeepLight | ect/src/mst.rs:67-72 | keeping an edge keeps every earlier edge's endpoints connected through forest edges no heavier than it |
| Mst.KruskalSkip | ect/src/mst.rs:68 | an edge the union rejects already has its endpoints connected through lighter-or-equal forest edges |
| Mst.Consider | ect/src/mst.rs:67-72 | one loop pass keeps the edge exactly when its endpoints were not yet connected, inserts it both ways into the output graph, and keeps the disjoint-set forest in step with the chosen edges |
| Mst.Kruskal | ect/src/mst.rs:67-72 | the chosen edges come from the input, are sorted by distance and acyclic, and every input edge's endpoints are connected through chosen edges no heavier than it (the cycle property of a minimum spanning forest) |
| Mst.BuildMst | ect/src/mst.rs:40-75 | the result is a fresh graph; the chosen forest is acyclic, drawn from the collected entries and built into the adjacency; every pair joined in the input is connected in the forest; lighter edges connect every rejected edge's endpoints; the city table is copied keyed by name |
| Mst.SortedCollected | ect/src/mst.rs:58 | sorting keeps the collected edges' facts: each is an entry, its endpoints are cities, every entry is represented |
| Mst.SpansEntries | ect/src/mst.rs:67-72 | when every edge is spanned by light forest edges, every entry of the input graph is connected in the forest |
| ShortestPath.WeightCons | ect/src/tsp.rs:38-42 | putting a recorded step in front of a walk gives a walk whose distance grows by that step |
| ShortestPath.ReverseWalk | ect/src/graph.rs:51-52 | on a symmetric adjacency, a walk taken backwards is a walk between the swapped endpoints with the same distance |
| ShortestPath.ReachableSymmetric | ect/src/tsp.rs:26-49 | on a symmetric adjacency, `b` is reachable from `a` exactly when `a` is reachable from `b` |
| ShortestPath.ShortestSymmetric | ect/src/tsp.rs:26-49 | on a symmetric adjacency, the shortest distance from `a` to `b` is the shortest distance from `b` to `a` |
| Tsp.EntrySymmetric | ect/src/tsp.rs:63-71 | on a symmetric adjacency, the matrix entries for `(a, b)` and `(b, a)` are equal |
| ShortestPath.WalkSnoc | ect/src/tsp.rs:38-42 | extending a walk by an edge gives a walk whose weight grows by that edge's distance |
| ShortestPath.ClosedBound | ect/src/tsp.rs:35-46 | once no label can be lowered further, every name reachable from the start is labelled, with at most the weight of any walk to it |
| ShortestPath.ClosedShortest | ect/src/tsp.rs:48 | a labelled goal is reachable, and its label is the least walk weight from the start |
| ShortestPath.RelaxWitnessed | ect/src/tsp.rs:39-41 | a relaxed label is the weight of a walk from the start |
| ShortestPath.RelaxMeasure | ect/src/tsp.rs:40-41 | a relaxation either labels a new name or strictly lowers the sum of labels, so the loop terminates |
| ShortestPath.RelabelStep | ect/src/tsp.rs:38-44 | one neighbour step keeps the relaxation loop's invariant: labels only fall, updated names are queued, and every neighbour seen so far sits within one edge of the current label |
| ShortestPath.Relabel | ect/src/tsp.rs:37-45 | after scanning all neighbours of the current name, the current name satisfies every edge constraint, and each label is a walk weight |
| ShortestPath.Visit | ect/src/tsp.rs:35-46 | one pop-and-scan pass keeps labels the weights of walks, keeps every unqueued name closed, and decreases the termination measure |
| ShortestPath.Search | ect/src/tsp.rs:29-46 | the start is labelled 0; every label is a walk weight; no edge can lower any label when the queue empties |
| ShortestPath.BfsDistance | ect/src/tsp.rs:26-49 | the result is present exactly when the goal is reachable from the start, and it is then the shortest walk distance |
| Permutations.Swap | ect/src/tsp.rs:20 | two positions are exchanged and nothing else moves |
| Permutations.PermsCount | ect/src/tsp.rs:13-24 | `permute(a, start)` pushes `(len - start)!` orderings |
| Permutations.PermsArePermutations | ect/src/tsp.rs:13-24 | every pushed ordering is a rearrangement of the input with the first `start` positions untouched |
| Permutations.PermsComplete | ect/src/tsp.rs:13-24 | every rearrangement that leaves the first `start` positions alone is pushed |
| Permutations.Permute | ect/src/tsp.rs:13-24 | appends the orderings of `PermsFrom` to the results and restores the array to its original contents |
| Permutations.GeneratePermutations | ect/src/tsp.rs:6-11 | returns `n!` orderings; each is a rearrangement of the items, and every rearrangement is among them |
| Tsp.BuildIndexMap | ect/src/tsp.rs:55-58 | the map's keys are exactly the listed cities, each mapped to its position in the list; for a repeated city, the last position wins |
| Tsp.BuildDistanceMatrix | ect/src/tsp.rs:51-74 | the matrix is square over the cities; an entry is 0 on equal names, the shortest distance when reachable, and `u32::MAX` otherwise; the index map is as in `BuildIndexMap`; on a symmetric adjacency, such as any graph `BuildGraphFromEdges` or `BuildMst` produces, the matrix is symmetric (`SymmetricMatrix`) |
| Tsp.BlockedAt | ect/src/tsp.rs:125-127 | the scan stops early exactly when some hop before it is `u32::MAX` |
| Tsp.ScoreShort | ect/src/tsp.rs:121 | a path with fewer than two cities costs 0 |
| Tsp.ScoreUnreachable | ect/src/tsp.rs:125-127 | a path with an unreachable hop scores `u32::MAX` |
| Tsp.ScoreReachable | ect/src/tsp.rs:120-130 | a path with no unreachable hop scores the sum of its hop distances |
| Tsp.ReverseHop | ect/src/tsp.rs:121-124 | on a symmetric matrix, hop `k` of the reversed path costs what hop `len - 2 - k` of the path costs |
| Tsp.ReverseHopSum | ect/src/tsp.rs:120-129 | the first `n` hops of the reversed path cost what the last `n` hops of the path cost |
| Tsp.ScoreReverse | ect/src/tsp.rs:115-131 | on a symmetric matrix, a path and its reverse get the same score: both are `u32::MAX` or neither is, and otherwise the hop sums are equal |
| Tsp.ScorePath | ect/src/tsp.rs:115-131 | the loop returns the path's score: `u32::MAX` at the first unreachable hop, otherwise the sum of hops |
| Tsp.ScoreAll | ect/src/tsp.rs:105-108 | each permutation is paired with its own score, in order |
| Tsp.ParallelBf | ect/src/tsp.rs:95-113 | the map and reduce, as a left fold of the strict-`<` reducer from `(empty, u32::MAX)` over the scored permutations in order; its score is within `u32`, at most every permutation's score, and `(empty, u32::MAX)` when there are no permutations |
| Tsp.BetterAssociative | ect/src/tsp.rs:111 | the combining step of the reduction is associative |
| Tsp.ReduceSplit | ect/src/tsp.rs:109-112 | reducing a concatenation equals combining the reductions of its parts, so any split into parallel chunks gives the sequential result |
| Tsp.ReduceLeast | ect/src/tsp.rs:109-112 | the reduction carries the least score; it is `(empty, u32::MAX)` when no score is below `u32::MAX`; otherwise it is the first pair with the least score |
| Tsp.BestOf | ect/src/tsp.rs:95-113 | `parallel_bf` returns the empty path with `u32::MAX` for no permutations; its score is at most every permutation's score and is achieved by the first permutation that achieves it; a `u32::MAX` score comes with the empty path |
| Tsp.BfStep | ect/src/tsp.rs:84-90 | one more permutation updates the best pair by the strict comparison |
| Tsp.Bf | ect/src/tsp.rs:76-93 | the sequential search returns what `parallel_bf` returns: the first permutation of least score, or the empty path with `u32::MAX` when every path is unreachable |
| Tsp.RenameElements | ect/src/tsp.rs:139 | each index of a permutation is replaced by the city at that index |
| Tsp.IndexPermsToCityPerms | ect/src/tsp.rs:133-141 | every permutation is converted position by position into city names, keeping count and lengths |
| Tsp.RenamePermutes | ect/src/tsp.rs:139 | renaming two rearrangements of each other gives two rearrangements of each other |
| Tsp.RenameRange | ect/src/tsp.rs:139 | renaming `0..n` gives the city list itself |
| Tsp.CityPermsArePermutations | ect/src/tsp.rs:133-141 | converting rearrangements of `0..n` gives rearrangements of the city list |

## Left out

- Reading the dataset and JSON serialisation (`save_graph_to_file`, `load_graph_from_file`, `to_json`, `from_json` in ect/src/graph.rs) are file and serde I/O. Records come in as a sequence.
- ect/src/main.rs is not part of this model. It is the command-line driver that loads files, calls the core and times it.
- ect/src/utils.rs is not part of this model. Its `read_dataset_file` parses the comma-separated dataset file into records and skips malformed lines.
- ect/src/traversal.rs is not part of this model. Its `find_all_paths` enumerates cycle-free paths and is never compiled, because main.rs declares no `mod traversal`.
- ect/src/model.rs is modelled only in part. Its clap command-line types (`Task`, `Algorithm`, `Args`) are left out. Its `DatasetEdge` record is modelled as `Common.DatasetEdge`.
- The Python visualiser is not part of this model. It is a plotting script outside the crate.
- `CityGraph::build_mst` (ect/src/graph.rs:95-135) repeats `build_mst` from ect/src/mst.rs line for line. `Mst.BuildMst` models both.
- `parallel_bf` runs on rayon's thread pool. It is modelled as the sequential reduction `Tsp.ParallelBf`. `Tsp.ReduceSplit` and `Tsp.BetterAssociative` show that any split of the work gives the same result. Thread scheduling itself is not modelled.
- HashMap iteration order is not modelled. Each loop over a map takes keys in an arbitrary order, and every contract holds for all orders. The edge list `CollectEdges` produces is therefore fixed only up to that order.
- `Root`, `RootRank`, the ghost `rank` and the ghost `bound`: these exist only in the proof. They give path-compressing `find` a termination measure. The source keeps only `parent`.
- `UnionFindForest.UnionFind.Find`: requires its argument to be registered, because `find` unwraps the lookup and panics otherwise.
- `Mst.BuildMst`: requires every adjacency endpoint to be in the city table, because otherwise `union` panics on an unregistered name. Graphs built by `build_graph_from_edges` always meet this (`Graph.BuiltGraphRegistered`).
- `Mst.BuildMst`: proves the cycle property (every collected edge is spanned by forest edges no heavier than it) and acyclicity. It does not prove that the total weight is minimal over all spanning forests.
- `Mst.BuildMst`: does not prove that the forest has |cities| minus (number of connected components) edges. Counting components needs a component-count function over the disjoint-set forest, and the model does not define one. What is proved is that the forest is acyclic and connects every pair joined in the input, which together fix that count.
- `Mst.Less` compares `char` values, where Rust compares UTF-8 bytes. The two orders agree on every pair of strings, so this changes no result.
- `ShortestPath.BfsDistance`: labels are unbounded naturals. The `u32` addition `current_dist + weight` at ect/src/tsp.rs:39 can overflow on long walks (a panic in debug builds, a wrap in release builds), and that is not modelled. For the same reason, `Tsp.BuildDistanceMatrix` holds `nat` entries.
- `Tsp.ScorePath`: requires `Fits`, meaning the running total stays within `u32` until the first unreachable hop. The `total += dist` at ect/src/tsp.rs:128 panics in debug builds otherwise.
- `Tsp.Bf`: requires `Fits` for every permutation, for the same reason as `Tsp.ScorePath`.
- `Tsp.ScorePath`, `Tsp.Bf`: require every city on a path to be in the index map, and its index to be inside the matrix (`Scorable`). The source's `index_map[..]` and `dist_matrix[..][..]` panic otherwise.
- `Tsp.IndexPermsToCityPerms`: requires every index to be within the city list, because `cities[i]` panics otherwise.
