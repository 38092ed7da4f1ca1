# Graph algorithms on adjacency lists — a verified model

This project models `GP_project.cpp`. That program is a small collection of
graph routines over adjacency lists:

- building a directed graph from an edge list (`Graph`);
- two greedy vertex-colouring passes (`graph_coloring`, and `edge_coloring`, which despite its name colours vertices and returns the number of colours it used);
- Prim's minimum spanning tree with a priority queue (`prim`);
- Kruskal's minimum spanning forest with a relabelling array in place of union-find (`kruskals`);
- an iterative depth-first search with an explicit stack (`iterative_dfs`).

Each routine is written as an imperative Dafny method. Arrays stand where the
program mutates a vector in place, and loops keep the program's loops. Each
method is proved against a specification stated on values:

- `IsGreedyColouring` for the colourings;
- `IsPrimOrder` for Prim: the greedy, lexicographically cheapest growth from vertex 0;
- `Select` for Kruskal: keep an edge exactly when its endpoints are not yet connected;
- `DfsRun` for the search: the stack-driven traversal as a function.

Lemmas then prove what those specifications mean:

- the greedy colouring is unique, never shared with an earlier neighbour, proper on symmetric graphs, and bounded by degree;
- Prim's order is unique, visits each vertex once, and visits exactly the vertices reachable from 0;
- Kruskal's result is a forest that connects the endpoints of every input edge;
- the search visits each vertex reachable from the start exactly once, and no other vertex.

The sample data in `main` is checked concretely (`Demo*` members).

Modules and files:

- `common.dfy`: `GraphBasics` — well-formed adjacency lists, paths, reachability, counting lemmas.
- `sorting.dfy`: `Sorting` — the specification of `std::sort`, a sorted permutation, and its uniqueness.
- `graph.dfy`: `AdjacencyList` — `Edge` and the `Graph` class.
- `coloring.dfy`: `Coloring` — `graph_coloring` and `edge_coloring`.
- `prim.dfy`: `Prim` — `prim`.
- `kruskal.dfy`: `Kruskal` — `kruskals`.
- `traversal.dfy`: `Traversal` — `iterative_dfs`.

## Model

| member | source | states |
|---|---|---|
| AdjacencyList.Destinations | GP_project.cpp:24-27 | the slot of vertex i holds d exactly when the edge i -> d is in the list, and it never holds more entries than there are edges |
| AdjacencyList.Graph.constructor | GP_project.cpp:19-28 | the list has n slots, and slot i holds the destinations of the edges leaving i, in input order |
| AdjacencyList.DestinationsConcat | GP_project.cpp:24-27 | appending edges appends to each slot: the slots for a + b are the slots for a followed by those for b |
| AdjacencyList.SlotsHoldEveryEdge | GP_project.cpp:22-27 | when every source is a vertex, the n slots together hold exactly one entry per edge |
| Coloring.ColoursBeforeMembership | GP_project.cpp:46-53 | a colour is seen while colouring u exactly when some neighbour v < u of u holds it |
| Coloring.ColouredExactlyBelow | GP_project.cpp:36-40 | while the pass is at u, a vertex is coloured (not -1) exactly when it is below u, so the `colors[u] == -1` test always succeeds |
| Coloring.NoNeighbourHolds | GP_project.cpp:45-53 | the scan reports ok exactly when no neighbour of u holds the candidate colour |
| Coloring.LeastFreeColour | GP_project.cpp:43-58 | the colour chosen for u is the least non-negative integer held by no already-coloured neighbour |
| Coloring.GraphColoring | GP_project.cpp:33-61 | the result has one colour per vertex and is the greedy colouring in increasing vertex order |
| Coloring.MexUnique | GP_project.cpp:43-58 | the least free colour is unique |
| Coloring.MexBound | GP_project.cpp:43-58 | the least colour missing from a list is at most the list's length |
| Coloring.GreedyColourBound | GP_project.cpp:33-61 | every greedy colour is between 0 and the vertex's degree, and an isolated vertex gets colour 0 |
| Coloring.GreedyColouringUnique | GP_project.cpp:33-92 | two greedy colourings of the same graph are equal, so graph_coloring and edge_coloring assign the same colours |
| Coloring.EarlierNeighbourDiffers | GP_project.cpp:33-61 | on any adjacency list, directed or not, a vertex's colour differs from that of every neighbour that precedes it |
| Coloring.GreedyColouringProper | GP_project.cpp:33-61 | on a graph whose edges appear in both directions, adjacent distinct vertices get different colours |
| Coloring.UsedColours | GP_project.cpp:70-78 | the collected colours are exactly those of u's already-coloured neighbours, in adjacency order |
| Coloring.SmallestMissing | GP_project.cpp:80-87 | scanning a sorted list and bumping the candidate on each match yields its least missing non-negative integer |
| Coloring.LeastUnusedColour | GP_project.cpp:79-87 | sorting the used colours and then scanning them yields the least colour no neighbour uses |
| Coloring.NeighbourColoring | GP_project.cpp:63-92 | the colours it assigns form the greedy colouring; the returned count exceeds every colour, is one more than some vertex's colour, and is 0 on an empty graph |
| Coloring.ColourCountBound | GP_project.cpp:63-92 | the count edge_coloring returns is at most the maximum degree plus one |
| Coloring.DemoColourings | GP_project.cpp:217-232 | on the sample adjacency list both passes give colours 0,1,2,0,0,0, and edge_coloring returns 3 |
| Sorting.Sort | GP_project.cpp:143 | sorting yields an ordered permutation of its input |
| Sorting.SortedPermutationUnique | GP_project.cpp:143 | under a total order, two ordered permutations of the same elements are equal, so the sorted order does not depend on the sorting algorithm |
| Sorting.SortOfSorted | GP_project.cpp:143 | sorting an already sorted sequence leaves it unchanged |
| Prim.PopMin | GP_project.cpp:104-108 | the popped candidate is in the queue and precedes every other by (weight, vertex), and exactly one copy of it is removed |
| Prim.PushUnvisited | GP_project.cpp:115-124 | the queue keeps its old entries, gains (weight, neighbour) for every unvisited neighbour, and gains nothing else |
| Prim.VisitVertex | GP_project.cpp:113-124 | visiting the popped vertex keeps the loop invariant, keeps the tree within n vertices, and keeps `visited` equal to membership in the recorded order |
| Prim.Prim | GP_project.cpp:96-127 | the result starts at (0, 0) and adds one new vertex at a time; each is entered by an arc from an earlier vertex, and is the cheapest (weight, vertex) candidate on offer; no arc is left leading out of the visited set |
| Prim.PrimOrderUnique | GP_project.cpp:96-127 | the greedy order is unique: any two results meeting that specification are equal |
| Prim.PrimVisitsOnce | GP_project.cpp:109-114 | each vertex appears at most once in the result, so it has at most n entries |
| Prim.PrimVisitsExactlyReachable | GP_project.cpp:96-127 | a vertex appears in the result exactly when it is reachable from vertex 0 |
| Prim.PrimSpansConnected | GP_project.cpp:96-127 | when every vertex is reachable from 0, the result lists all n vertices |
| Prim.DemoPrim | GP_project.cpp:234-243 | on the sample weighted graph prim returns (0,0),(1,1),(2,2),(3,1),(4,4),(5,5), whose weights total 13 |
| Kruskal.EdgeLeTotalOrder | GP_project.cpp:143 | comparing edges by weight, then by endpoints, is a total order |
| Kruskal.Relabel | GP_project.cpp:154-160 | the parent array after the inner loop is the old one with every `pv` replaced by `pu` |
| Kruskal.SortEdges | GP_project.cpp:143 | the edge array is sorted in place into the sorted order of its old contents |
| Kruskal.MergeMatches | GP_project.cpp:150-160 | after accepting (u, v) and relabelling, two vertices share a label exactly when the accepted edges connect them |
| Kruskal.MergeDropsLabel | GP_project.cpp:150-160 | accepting an edge between different labels removes exactly one label |
| Kruskal.ConsiderEdge | GP_project.cpp:144-161 | the edge is accepted exactly when its endpoints' labels differ, and then the parent array is relabelled from v's label to u's; otherwise the tree and the array are unchanged. Either way the loop invariant holds: the selection over the remaining edges still gives the final result, labels still match connectivity and stay in [0, n), and labels in use plus accepted edges still number n |
| Kruskal.Kruskal | GP_project.cpp:132-164 | the edges end up sorted; the result is the connectivity-based selection over them; a non-empty result has fewer edges than there are nodes |
| Kruskal.SelectIsSpanningForest | GP_project.cpp:144-162 | the selected edges form a forest, connect the endpoints of every input edge, and are each an input edge |
| Kruskal.DemoKruskal | GP_project.cpp:249-259 | on the sample edges kruskals returns (0,1),(2,3),(0,2),(3,4),(4,5) |
| Traversal.DfsRun | GP_project.cpp:172-186 | the search loop as a function of stack, visited set and order so far: it only appends to the order, and each appended entry is a vertex of the graph that was not yet visited |
| Traversal.DfsRunCorrect | GP_project.cpp:173-186 | from a consistent stack and visited set, the rest of the run visits distinct vertices, exactly those reachable from the start, beginning with the start |
| Traversal.DfsVisitsExactlyReachable | GP_project.cpp:167-188 | a search from start visits each vertex at most once, at most n vertices in all, beginning with start |
| Traversal.DfsRunVisit | GP_project.cpp:175-185 | popping an unvisited vertex records and marks it and pushes its neighbours, and the set of unvisited vertices shrinks |
| Traversal.PushAll | GP_project.cpp:181-184 | the neighbours are pushed in adjacency order, so the last neighbour is on top |
| Traversal.IterativeDfs | GP_project.cpp:167-188 | the result is the stack-driven traversal from start; it begins with start, has no repeats and at most n entries, and holds exactly the vertices reachable from start |
| Traversal.DemoDfs | GP_project.cpp:264-270 | on the sample adjacency list the search from 0 yields 0, 2, 5, 1, 4, 3 |

## Left out

- Output: `printGraph` and the printing in `main` are not modelled. `main`'s sample data is checked by the `Demo*` members instead.
- Standard containers: `priority_queue`, `stack`, `unordered_set` and `vector` are modelled by their observable behaviour on `seq` and `set` values, not by their data structures. In particular `PopMin` finds the least pair with a linear scan instead of a binary heap.
- `std::sort` is modelled by `Sorting.Sort`, an insertion sort used only as a specification. Because a sorted permutation under a total order is unique, its result is the one `std::sort` produces. Its speed and internals are not modelled.
- Integer width: `int` is unbounded here. The program only compares and copies weights and never adds them (`TotalWeight` is used by the demonstration alone), and `num_colors` is at most the maximum degree plus one (`ColourCountBound`), so neither can overflow. The one narrowing not modelled is `int n = ...size()`, which would truncate a container with more than 2^31 - 1 elements.
- Prim.Prim: the contract characterises the greedy order and proves it unique and spanning over what is reachable. It does not prove that the total weight is minimal over all spanning trees.
- Kruskal.Kruskal: the contract proves that the result is a spanning forest of the input edges, chosen greedily in sorted order. It does not prove minimality of the total weight, and the result omits weights just as the program does.
- Coloring.GraphColoring: the program fills a caller-supplied vector, which `assign` overwrites completely. The model returns the new vector as a value.
- Coloring.NeighbourColoring: the program keeps the colours in a local vector it discards. The model exposes them as a ghost output so its contract can describe them.
- Kruskal.Kruskal: `nodes` is used only for its size, as in the program.
- Out-of-range vertex ids are undefined behaviour in the program. They appear as preconditions instead: edge sources in `Graph`, neighbours in every adjacency list, endpoints in `kruskals`, and the start vertex of `iterative_dfs`. The vertex count of `Graph` is a `nat`, since a negative `n` makes `resize` throw. Likewise `prim` on an empty graph, which indexes `visited[0]` out of range, requires at least one vertex.
- Error handling: the program checks nothing and signals no failures; the model keeps such inputs out by precondition, as above.
