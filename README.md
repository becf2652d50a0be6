# MO412 Queimadas em SP: a verified model of the graph generation core

The pipeline turns a table of fire detections into graphs. Each detection
has a latitude, a longitude and a fire radiative power (FRP).

- `gen_graph.py` loads every detection as a node and merges detections closer
  than a merge distance (`merge_close_nodes`). It then joins the surviving
  nodes closer than an edge distance (`add_edges_by_distance`).
- `increase_radius.py` coarsens that graph (`create_subgraph_from_edges`). It
  makes one node per connected component, placed at the component's mean
  position and carrying its summed FRP. Then it joins those nodes closer than
  a second edge distance.
- `degree_analysis.py` tallies the degrees of the final graph into a sorted
  histogram.

This project models that core in Dafny.

- A networkx graph is the class `Graphs.Graph`. Its fields are the node ids
  in insertion order, an attribute record per node, and a weight per
  unordered pair.
- Every loop of the source that updates a graph is a method, proved equal to
  a pure function that replays the loop step by step, for example
  `EdgeBuilder.AddEdgesSpec`, `MergeGroups.Grouping`, `MergeGraph.MergeSpec`
  and `Coarsen.Coarse`.
- The properties the source promises are proved as lemmas about those
  functions.

Files, one module each:

- `graph.dfy` (Graphs): the graph value, the class and the graph operations.
- `aggregate.dfy` (Aggregates): `sum` and `mean` over attribute lists.
- `edges.dfy` (EdgeBuilder): `add_edges_by_distance`.
- `merge_groups.dfy` (MergeGroups): the pair loop of `merge_close_nodes`.
- `merge_graph.dfy` (MergeGraph): the node and edge loops of
  `merge_close_nodes`.
- `components.dfy` (Components): connected components.
- `coarsen.dfy` (Coarsen): `create_subgraph_from_edges`.
- `degrees.dfy` (DegreeHistogram): the degree histogram.
- `pipeline.dfy` (Pipeline): the two scripts composed.
- `merge_witness.dfy` (MergeWitness): two small tables on which
  `merge_close_nodes` loses or double-counts a detection.

Where the code departs from what one might expect of it, the model follows
the code.

- **Empty input to coarsening.** One might expect an empty graph to coarsen
  to an empty graph. The code fails instead: `max` over no components
  raises. The model says so, with `None` (`Coarsen.CreateSubgraphFromEdges`,
  `Pipeline.RunPipeline`).
- **Merging is not a partition.** One might expect a union-find clustering
  into disjoint groups. The code does not build one. A close pair joins the
  first group, in key order, that holds exactly one of its nodes. So a node
  can appear in two groups, and its FRP is then counted twice. A detection
  can also vanish: it is put in `nodes_to_merge` while the group that listed
  it is keyed by a node that is itself merged away. The model keeps this
  behaviour. It proves only what the code guarantees
  (`MergeGroups.GroupsAreChains`, `MergeGroups.MergedHaveCloseNeighbour`,
  `MergeGroups.SurvivorsFarApart`). Two four-detection tables, all FRP 1,
  with the latitude gap as distance and threshold 1, show both effects:
  - `MergeWitness.DetectionVanishes`: at latitudes 0, 1.8, 2.7 and 0.9 the
    result is node 0 alone with FRP 3. Detection 2 is lost and total FRP
    drops from 4 to 3.
  - `MergeWitness.DetectionCountedTwice`: at latitudes 0, 2.7, 0.9 and 1.8
    the result is nodes 0 and 1 with FRP 3 and 2. Detection 3 counts in both
    and total FRP rises from 4 to 5.
- **Coarsened node ids.** A node of the coarsened graph is the index of its
  component. The code uses the component's subgraph object itself as the
  node.

## Model

| member | source | states |
|---|---|---|
| Graphs.Graph.constructor | src/generate/gen_graph.py:122 | `nx.Graph()` is the empty graph |
| Graphs.Graph.AddNode | src/generate/gen_graph.py:131 | `add_node` appends a new id once and sets its attributes; the edges are untouched |
| Graphs.Graph.AddEdge | src/generate/gen_graph.py:42 | `add_edge` creates missing endpoints without attributes and sets the weight of the unordered pair |
| Graphs.AddEdgeWellFormed | src/generate/gen_graph.py:42 | adding an edge between two distinct ids keeps node ids unique and every edge between two existing distinct nodes |
| Graphs.Graph.HasEdge | src/generate/gen_graph.py:103 | `has_edge` does not depend on the order of its two arguments |
| Graphs.Degree | src/visualize/degree_analysis.py:8 | a node's degree is zero exactly when no edge touches it, and at most the number of edges |
| Graphs.NumberedValue | src/generate/gen_graph.py:130-131 | adding rows 0..n-1 one at a time yields exactly the nodes 0..n-1 in order, node i carrying row i, and no edges |
| Aggregates.Sum | src/generate/gen_graph.py:92 | the sum of non-negative values is non-negative |
| Aggregates.Mean | src/generate/gen_graph.py:92 | the mean times the number of values is their sum |
| Aggregates.AttrLists | src/generate/gen_graph.py:84-90 | the `lats`, `longs` and `frp` lists hold, member by member, the latitude, longitude and FRP of the listed nodes |
| Aggregates.SumFrpsPermutation | src/generate/increase_radius.py:27-35 | summed FRP depends only on the multiset of nodes listed, not on their order |
| Aggregates.MeanBetween | src/generate/gen_graph.py:92 | a mean lies between any lower and upper bound of its values |
| Aggregates.AggregateBounds | src/generate/gen_graph.py:92 | a merged node sits inside the latitude/longitude box of its members; with non-negative FRP its FRP is at least each member's |
| EdgeBuilder.AddEdgesByDistance | src/generate/gen_graph.py:26-42 | the in-place pair loop leaves the graph equal to the step-by-step replay `AddEdgesSpec` of the old graph |
| EdgeBuilder.AddPairProgress | src/generate/gen_graph.py:30-42 | one pair visit keeps the loop invariant: nodes and attributes unchanged, visited close pairs hold their distance, every other pair is as before |
| EdgeBuilder.AddEdgesEffect | src/generate/gen_graph.py:28-42 | after the loop, nodes and attributes are unchanged and every pair is in its final state: joined with its distance if close, otherwise as before |
| EdgeBuilder.AddEdgesSound | src/generate/gen_graph.py:30-42 | an edge that is new or re-weighted joins two distinct nodes and weighs their distance, which is below the threshold |
| EdgeBuilder.AddEdgesEdgesArePairs | src/generate/gen_graph.py:30-42 | every edge of the result joins the nodes at two positions p < q |
| EdgeBuilder.AddEdgesComplete | src/generate/gen_graph.py:29-42 | for a symmetric distance, every two distinct nodes closer than the threshold are joined, weighted with their distance |
| EdgeBuilder.AddEdgesOnlyAdds | src/generate/gen_graph.py:28-42 | nodes and attributes are unchanged, no edge is removed, and an existing weight changes only to a value below the threshold |
| EdgeBuilder.AddEdgesFromScratch | src/generate/gen_graph.py:29-42 | on an edge-free graph, a pair is joined exactly when it is close, with its distance as weight, and every weight is below the threshold |
| MergeGroups.FirstFiring | src/generate/gen_graph.py:64-72 | finds the first group, in key order, holding exactly one node of the pair, and no group before it does |
| MergeGroups.AssignEffect | src/generate/gen_graph.py:62-77 | one close pair adds u or v to `nodes_to_merge`, creates at most the key u, and changes at most one group: it appends the missing node to a group holding one of them, or sets u's group to [u, v] |
| MergeGroups.JoinGroup | src/generate/gen_graph.py:64-77 | the `for … else` loop over `merged_nodes.items()` with its `break`s computes `Assign` |
| MergeGroups.GroupRowPairs | src/generate/gen_graph.py:51-77 | the inner loop of row i computes `GroupRow` |
| MergeGroups.GroupCloseNodes | src/generate/gen_graph.py:46-77 | the nested pair loop yields `Grouping`, the dictionary and set the source fills |
| MergeGroups.AssignElse | src/generate/gen_graph.py:73-77 | the `else` branch keeps the group invariant and never overwrites an existing key |
| MergeGroups.GroupingFacts | src/generate/gen_graph.py:50-77 | the group invariant holds at the end, and of every close pair at least one node is in `nodes_to_merge` |
| MergeGroups.MergedHaveCloseNeighbour | src/generate/gen_graph.py:62-77 | every node in `nodes_to_merge` is a node of the graph within the threshold of some other node |
| MergeGroups.GroupsAreChains | src/generate/gen_graph.py:64-77 | every group starts with its key, holds at least two distinct nodes of the graph, and each later member is in `nodes_to_merge` and close to an earlier member |
| MergeGroups.SurvivorsFarApart | src/generate/gen_graph.py:50-77 | no two nodes outside `nodes_to_merge` are within the threshold of each other (for a symmetric distance) |
| MergeGroups.FirstNodeSurvives | src/generate/gen_graph.py:50-77 | the first node is never put in `nodes_to_merge` |
| MergeGroups.NoCloseNoGroups | src/generate/gen_graph.py:62-77 | with no close pair, `merged_nodes` and `nodes_to_merge` stay empty |
| MergeGraph.BuildNodesValue | src/generate/gen_graph.py:80-94 | the node loop yields exactly the survivors in input order, each with its new attributes, and no edges |
| MergeGraph.AddSurvivors | src/generate/gen_graph.py:80-94 | "Merge step 2" on a fresh graph computes `BuildNodes` |
| MergeGraph.RelinkInto | src/generate/gen_graph.py:102-108 | the loop over a merged group's members updates H to the replay `Relink` of its old value |
| MergeGraph.RelinkBothInto | src/generate/gen_graph.py:110-113 | the nested loop over two merged groups updates H to the replay `RelinkBoth` of its old value |
| MergeGraph.CopyEdgeInto | src/generate/gen_graph.py:98-113 | one edge-loop visit updates H to `CopyEdge` of its old value, following the four cases in order |
| MergeGraph.CopyEdges | src/generate/gen_graph.py:97-113 | "Merge step 3" updates H to the replay `CopyUpTo` of its old value |
| MergeGraph.CopyEdgeKeeps | src/generate/gen_graph.py:98-113 | each of the four cases of the edge loop keeps the edge invariant: attributes kept, ids from the input, weights taken from input edges, survivor-to-survivor edges verbatim |
| MergeGraph.MergeCloseNodes | src/generate/gen_graph.py:44-115 | returns a fresh graph equal to `MergeSpec`; the input is not modified |
| MergeGraph.MergeFacts | src/generate/gen_graph.py:80-113 | the node-loop result is the survivors, the edge invariant holds at the end, and every input edge between two survivors was copied |
| MergeGraph.MergeNodes | src/generate/gen_graph.py:80-113 | H's nodes are the survivors first, in input order, then only merged group keys that `add_edge` re-creates without attributes; the first node survives |
| MergeGraph.MergeAttrs | src/generate/gen_graph.py:81-94 | exactly the survivors carry attributes; a group key gets the mean latitude, mean longitude and summed FRP of its group, and any other survivor keeps its own |
| MergeGraph.MergeEdges | src/generate/gen_graph.py:97-113 | between two survivors H has exactly the input edge with its weight, and every weight of H is an input edge's weight |
| MergeGraph.MergeNothingClose | src/generate/gen_graph.py:44-115 | with no close pair, the result equals the input graph |
| MergeGraph.MergeEdgeFree | src/generate/gen_graph.py:80-113 | on an edge-free input, the result is exactly the survivors, all with attributes, and has no edges |
| MergeWitness.DetectionVanishes | src/generate/gen_graph.py:62-92 | on one four-detection table the merge keeps only node 0, with FRP 3 of the table's 4: a detection vanishes |
| MergeWitness.DetectionCountedTwice | src/generate/gen_graph.py:62-92 | on another four-detection table the merge keeps nodes 0 and 1 with FRP 3 and 2, of the table's 4: a detection counts twice |
| MergeWitness.VanishingGroups | src/generate/gen_graph.py:50-77 | on the first table the pair loop keys groups [0, 3, 1] and [1, 2] and merges 1, 2 and 3 |
| MergeWitness.DoublingGroups | src/generate/gen_graph.py:50-77 | on the second table the pair loop keys groups [0, 2, 3] and [1, 3] and merges 2 and 3 |
| MergeWitness.MergedTable | src/generate/gen_graph.py:80-94 | on an edge-free table the merged nodes are the survivors in order, and a surviving key carries its group's summed FRP |
| Components.ReachSym | src/generate/increase_radius.py:21 | in an undirected graph, reachability is symmetric |
| Components.Explore | src/generate/increase_radius.py:24 | the search from a node lists, once each and starting with it, exactly the nodes it reaches |
| Components.AddNeighbours | src/generate/increase_radius.py:24 | one search step appends every unlisted neighbour and keeps the list duplicate-free and reachable |
| Components.ConnectedComponents | src/generate/increase_radius.py:21-24 | `nx.connected_components`: the components, each the duplicate-free set of nodes its first node reaches, together covering every node exactly once |
| Components.ComponentsPartition | src/generate/increase_radius.py:24 | the components list every node exactly once, as a multiset |
| Components.ComponentsEdgeFree | src/generate/increase_radius.py:24 | in a graph without edges, every node is a component of its own |
| Coarsen.CoarseShape | src/generate/increase_radius.py:26-35 | one node per component, at the mean latitude and longitude of its members and with their summed FRP, and no edges |
| Coarsen.CoarseConservesFrp | src/generate/increase_radius.py:24-35 | total FRP of the coarsened graph equals that of the input |
| Coarsen.CoarseEdgeFree | src/generate/increase_radius.py:24-35 | on an edge-free input, the output has as many nodes as the input |
| Coarsen.NoComponentsIffEmpty | src/generate/increase_radius.py:21 | there are no components exactly when the graph has no nodes |
| Coarsen.LargestComponent | src/generate/increase_radius.py:21 | `max(..., key=len)`: the first component of greatest size |
| Coarsen.CreateSubgraphFromEdges | src/generate/increase_radius.py:17-37 | fails exactly on a graph without nodes; otherwise returns a fresh graph equal to `Coarse` of the input's components, leaving the input untouched |
| DegreeHistogram.OccurrencesCountNodes | src/visualize/degree_analysis.py:8 | for distinct nodes, how often d occurs in their degree list is the number of nodes of degree d |
| DegreeHistogram.CountDegrees | src/visualize/degree_analysis.py:11-13 | the tally's keys are exactly the degrees that occur, each count is that degree's number of occurrences (at least one), and the counts sum to the number of degrees |
| DegreeHistogram.SortPairs | src/visualize/degree_analysis.py:16 | `sorted` returns a permutation of the items |
| DegreeHistogram.SortPairsSorted | src/visualize/degree_analysis.py:16 | the sorted items ascend, and distinct keys stay distinct |
| DegreeHistogram.SortedUnique | src/visualize/degree_analysis.py:16 | two ascending arrangements of the same pairs are equal, so the insertion sort computes what `sorted` returns |
| DegreeHistogram.SortedItems | src/visualize/degree_analysis.py:16 | `sorted(degree_counts.items())` has one (degree, count) pair per key, with strictly increasing degrees |
| DegreeHistogram.Unzip | src/visualize/degree_analysis.py:19 | `zip(*pairs)` splits into two equal-length axes, pair by pair, and fails on an empty list |
| DegreeHistogram.Axes | src/visualize/degree_analysis.py:16-19 | x strictly increases and holds exactly the degrees that occur; y[p] counts how often x[p] occurs |
| DegreeHistogram.HistogramOf | src/visualize/degree_analysis.py:11-19 | the tally, sort and unzip of a degree list give axes whose length is the number of distinct degrees, with x increasing and y[p] the count of x[p]; no axes for an empty list |
| DegreeHistogram.Histogram | src/visualize/degree_analysis.py:8-19 | y[p] is the number of nodes of G1 whose degree is x[p]; no axes for a graph without nodes |
| Pipeline.Loaded | src/generate/gen_graph.py:130-131 | the loaded graph has nodes 0..n-1 for the n rows, all with attributes, and no edges |
| Pipeline.LoadDetections | src/generate/gen_graph.py:122-131 | the loop over the rows builds `Loaded` |
| Pipeline.FineNodes | src/generate/gen_graph.py:130-138 | the first-stage nodes are row indices; the graph is empty exactly when the table is; a node keying no group keeps its row's attributes |
| Pipeline.FineApart | src/generate/gen_graph.py:133-138 | no two detections kept by the first stage lie within the merge distance |
| Pipeline.FineEdges | src/generate/gen_graph.py:136-138 | every first-stage edge is shorter than the edge distance, and every two nodes closer than it are joined with their distance |
| Pipeline.FinalConservesFrp | src/generate/increase_radius.py:42-46 | the second stage has one node per component and conserves total FRP |
| Pipeline.FinalEdges | src/generate/increase_radius.py:44-46 | every second-stage edge is shorter than the second edge distance |
| Pipeline.GenerateGraph | src/generate/gen_graph.py:130-138 | the first script's graph equals `Fine` of the table |
| Pipeline.IncreaseRadius | src/generate/increase_radius.py:41-46 | the second script fails exactly on an empty graph; otherwise its graph equals `Final` of the input's components |
| Pipeline.RunPipeline | src/generate/gen_graph.py:130-138 | both scripts in sequence: the first stage is `Fine`, the second fails exactly on an empty table and otherwise is `Final` |

## Left out

- The haversine formula (gen_graph.py lines 8, 39 and 60) is floating-point
  trigonometry from an external library. The distance is a parameter
  `dist`. Where a lemma needs symmetry and non-negativity, it requires
  `IsDistance(dist)`.
- Floating point: `sum` and `statistics.mean` are computed over exact reals.
  Rounding is not modelled.
- Configuration, CSV reading, the pickle file between the two scripts,
  logging and `tqdm` progress bars are I/O. The second stage starts from the
  first stage's graph value. The `config.getint` thresholds are integer
  parameters.
- The plotting half of `degree_analysis.py` (lines 22-38), and plotting in
  general.
- The download script, the propagation and community scripts, and
  `plot_graph.py`. They are I/O, library simulations or plotting.
- Robustness analysis by node removal has no code in the modelled files.
- Iteration order over networkx edges. Merge step 3 visits the input edges
  in node-position order. For a graph built from an edge-free graph by
  `add_edges_by_distance`, this is networkx's order. The order decides which
  weight wins when two input edges map to the same edge of H. It also decides
  the order in which `add_edge` re-creates merged group keys at the end of
  H's node list (cases 3 and 4). In the pipeline the input to
  `merge_close_nodes` is the edge-free loaded table, so there the order never
  matters.
- Components.ConnectedComponents: `nx.connected_components` is a library
  call. It is modelled by a breadth-first search that yields the components
  in the order of their first node. Only the component sets are promised,
  not the order of nodes inside each.
- Coarsen.LargestComponent: the size of the largest component is only
  logged.
- MergeGroups.NoCloseNoGroups: states that the groups and `nodes_to_merge`
  are empty. The key-order list that models the dictionary's insertion order
  is not restated.
- Coarsened node ids are component indices rather than subgraph objects.
- `Graphs.IsDistance` is assumed only where a lemma needs it. Without it,
  `MergeGroups.SurvivorsFarApart` states only the order in which the loop
  measures the pair.
- Default arguments and configuration fallbacks: `distance_threshold=10`
  (gen_graph.py line 26), `distance_threshold=1` (line 44) and the
  `config.getint` fallbacks 1, 10 and 50 (gen_graph.py lines 133 and 136,
  increase_radius.py line 44). The model always passes the thresholds
  explicitly.
- EdgeBuilder.AddEdgesByDistance: requires every node to carry attributes
  (`Attributed`). The `KeyError` the source raises on a node without
  `Latitude` (gen_graph.py line 34) is not modelled. The pipeline never
  reaches it, nor the cases excluded below: its graphs are proved
  `WellFormed` (distinct ids, no self-loops) and `Attributed`.
- MergeGroups.GroupCloseNodes: requires `Attributed`. The `KeyError` on a node
  without `Latitude` (gen_graph.py line 55) is not modelled.
- MergeGraph.MergeCloseNodes: requires `WellFormed` and `Attributed`. The
  `KeyError` paths (gen_graph.py lines 55 and 88) and self-loops in the input
  are not modelled.
- Coarsen.CreateSubgraphFromEdges: requires `WellFormed` and `Attributed`. The
  `KeyError` on a node without `Latitude` (increase_radius.py line 32) and
  self-loops are not modelled.
- Components.ConnectedComponents: requires `WellFormed`, so graphs with
  self-loops or repeated ids are not modelled.
- DegreeHistogram.Histogram: requires `WellFormed`. A self-loop, which
  networkx counts twice in a degree, is not modelled.
