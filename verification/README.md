# Verified model of safegraph

safegraph is a graph library written in Rust. This project models its two adjacency storages, the
handle layer above them and its graph algorithms, and proves what they promise. `dafny verify
dfyconfig.toml` checks everything.

## How the model is laid out

* `Seqs`, `Vec`: duplicate-free sequences, renumberings and swap-removal.
* `LinkedStore`, `LinkedView`, `LinkedBatch`, `LinkedGraph`: the storage of
  `src/raw_graph/linked_adj_edge.rs` over `Vec`. `LinkedStore.WellFormed` is the integrity that the
  fuzz tests there check: every chain threaded to the end-of-list sentinel without repetition, every
  edge in its tail's outgoing and its head's incoming chain. `LinkedStore.Survives` says what a
  removal leaves: payloads, endpoints and chains of the survivors, renumbered, in their order. A
  `LinkedView.View` names edges and nodes by their slots before a removal and records where each
  is while the removal runs.
* `Graphs`, `Undirected`, `LinkedDigraph`: the directed multigraph with edge numbers that all
  algorithms share, paths and reachability, the undirected reading, and the storage seen as such a graph.
* `FlatAdj`: per-node edge lists with a maintained incoming index.
* `Versions`, `Stabilized`: handles with signed versions over the linked graph. `History` holds
  every handle ever issued, with its item, and those removed; it is what makes statements about all
  runs statements about one state.
* `DepthFirst`: depth-first search by recursion, the reference that the searches with a stack of their own
  are held to, node by node.
* `DomTree`, `Dominators`, `DominatorsGap`; `Flow`, `Residual`, `FlowBound`, `MaxFlow`, `FlowGap`;
  `Tarjan`, `Condensation`; `LowPoint`, `Bridges`, `ArticulationPoints`; `MinSpanningTree`;
  `Matching`, `MatchingGap`; `Heaps`, `ShortestPath`; `TransitiveReduction`; `SimplePaths`;
  `Layers`, `WeakComponents`: the algorithms. A module ending in `Gap` shows an input on which the code does
  not do what its documentation says.

Classes have the fields of the Rust structs; an iterator is a class whose `Next` is the Rust `next`
and whose `Valid` is the invariant between calls, and running it to its end is a method beside the
class. A loop body with much to prove is a method of its own. Ghost arguments and fields carry what
a proof remembers and the program does not.

Indices are unbounded numbers below the length of their sequence and the sentinel is `None`.
Buffers of uninitialised entries are sequences of options. Tables of flags and hash sets are sets,
hash maps are maps, and wherever the program iterates over one of them the model takes an arbitrary
order. A binary heap is a multiset of which some least entry is taken. Where the program fixes an order,
by an index or by the order of a list, the contracts fix it too, mostly by a description that leaves
one outcome (the lemmas whose names end in `Once` or `Unique`). Weights are integers,
capacities natural numbers. The spare room that a backend reports to a stabilized insertion is a
parameter.

## Where the code and its documentation differ

* `src/algo/dominators.rs` calls its order a reverse post-order. Nodes are marked when pushed, so it
  is only an order in which a discoverer comes before what it discovers (`DominatorsGap`). The result
  is right all the same and is proved from that weaker fact.
* `src/algo/max_flow.rs` reports an amount for every edge. Taking flow back credits the first edge
  found between the two nodes (lines 278-289), so with parallel edges that edge may be credited with
  more than it carried and its residual may exceed its capacity (`FlowGap.RunDetour`). The amounts
  still have the right value, balance at every inner node and exceed no capacity; only this one thing
  can go wrong, on edges known beforehand (`MaxFlow.AtRisk`). Amounts are integers here. With an
  unsigned weight, as in the example of that file (lines 50-69), the subtraction in `finish` (line
  194) then underflows, and as `edmonds_karp` goes through `finish` too, the value proved maximal is
  returned only where subtraction does not stop the program.
* `src/algo/matching.rs` promises a maximum matching. The search never returns to a visited node, so
  on a graph with odd cycles it can miss every augmenting path (`MatchingGap.MissOddCycles`). On
  bipartite graphs the promise is kept; on all graphs the result is maximal and so at least half the
  maximum. No condition short of the outcome of the searches themselves is known to the model that
  would separate the remaining graphs.
* `src/algo/tred.rs` promises the reachability of the whole graph. Of parallel edges none is kept,
  so the promise is kept exactly when each such pair of nodes is joined by a longer walk too.
* `src/graph/stabilized.rs` describes insertion as appending when the backend has room; when it has
  none, a tombstone is reused if one is found, for edges only one with the same two ends, and the new
  entry is appended otherwise.

## Model

| member | source | states |
|---|---|---|
| LinkedGraph.LinkedAdjEdgeGraph.constructor | src/raw_graph/linked_adj_edge.rs:72-87 | The empty graph is well formed. |
| LinkedGraph.LinkedAdjEdgeGraph.InsertNode | src/raw_graph/linked_adj_edge.rs:431-440 | Appends a node with two empty chains; every other entry, chain and slot stays as it was, and integrity holds. |
| LinkedGraph.LinkedAdjEdgeGraph.InsertEdge | src/raw_graph/linked_adj_edge.rs:452-472 | The new edge becomes the head of its tail's outgoing and of its head's incoming chain, self-loops included; all other chains and payloads are untouched and integrity holds. |
| LinkedGraph.LinkedAdjEdgeGraph.SetNode | src/raw_graph/linked_adj_edge.rs:487-489 | Replacing a payload changes nothing else. |
| LinkedGraph.LinkedAdjEdgeGraph.SetEdge | src/raw_graph/linked_adj_edge.rs:515-517 | The same for an edge. |
| LinkedGraph.LinkedAdjEdgeGraph.Reverse | src/raw_graph/linked_adj_edge.rs:391-403 | Every edge and every chain changes direction, payloads and slots stay, integrity holds. |
| LinkedGraph.LinkedAdjEdgeGraph.EdgeIndicesOf | src/raw_graph/linked_adj_edge.rs:131-160 | The outgoing chain as it is, then the incoming chain in its order without loops: each edge at the node once. |
| Seqs.FilterSelects | src/raw_graph/linked_adj_edge.rs:146-158 | Leaving members out keeps the others in order: what is listed stands at ascending places, which are all the places of members kept. |
| LinkedGraph.LinkedAdjEdgeGraph.ReplaceInList | src/raw_graph/linked_adj_edge.rs:611-641 | Exactly one pointer of the chain is rewritten: the one that led to the target. |
| LinkedGraph.LinkedAdjEdgeGraph.Detach | src/raw_graph/linked_adj_edge.rs:784-838 | Unlink, swap-remove, relink: the state afterwards is the state before without this edge, with the last edge in its slot. |
| LinkedGraph.LinkedAdjEdgeGraph.TakeEdge | src/raw_graph/linked_adj_edge.rs:784-838 | Only this edge goes; each chain is the old one without it, the last edge renumbered to its slot; payload returned; integrity holds. |
| LinkedGraph.LinkedAdjEdgeGraph.RemoveNodeInner | src/raw_graph/linked_adj_edge.rs:649-677 | Swap-removal of an isolated node with every endpoint naming the relocated node rewritten. |
| LinkedGraph.LinkedAdjEdgeGraph.DrainHead | src/raw_graph/linked_adj_edge.rs:855-909 | One turn of the draining loop removes one edge at the node, although slots of the chains being drained are renumbered. |
| LinkedGraph.LinkedAdjEdgeGraph.Evict | src/raw_graph/linked_adj_edge.rs:849-912 | Draining both chains and removing the node takes the node and exactly the edges at it. |
| LinkedGraph.LinkedAdjEdgeGraph.TakeNode | src/raw_graph/linked_adj_edge.rs:849-912 | The node and exactly its incident edges go, each self-loop once; all else survives renumbered, in its chain order; integrity holds. |
| LinkedGraph.LinkedAdjEdgeGraph.UnlinkDying | src/raw_graph/linked_adj_edge.rs:692-725 | One walk that stops at the last dying edge cuts out all dying edges of the chain and no other. |
| LinkedGraph.LinkedAdjEdgeGraph.PatchMoved | src/raw_graph/linked_adj_edge.rs:740-774 | One walk that stops at the last stale pointer redirects every stale pointer of the chain and no other. |
| LinkedGraph.LinkedAdjEdgeGraph.CollectDying | src/raw_graph/linked_adj_edge.rs:1030-1053 | The requested edges and all edges at requested nodes, each once. |
| LinkedGraph.LinkedAdjEdgeGraph.UnlinkAll | src/raw_graph/linked_adj_edge.rs:1055-1080 | After the sweeps no dying edge is in a chain of a surviving node and no surviving edge has left one. |
| LinkedGraph.LinkedAdjEdgeGraph.RemoveDying | src/raw_graph/linked_adj_edge.rs:1089-1110 | Descending swap-removal leaves exactly the survivors; the recorded moves send old to present slots, every origin at or above the final length and every present slot below it. |
| LinkedGraph.LinkedAdjEdgeGraph.PatchAll | src/raw_graph/linked_adj_edge.rs:1112-1145 | After one sweep per affected chain every pointer holds the present slot of its edge. |
| LinkedGraph.LinkedAdjEdgeGraph.RemoveNodes | src/raw_graph/linked_adj_edge.rs:1147-1164 | The same for nodes, with the requested payloads in the order of the requests. |
| LinkedGraph.LinkedAdjEdgeGraph.RewriteAll | src/raw_graph/linked_adj_edge.rs:1166-1180 | Every endpoint that names a relocated node is rewritten, no other. |
| LinkedGraph.LinkedAdjEdgeGraph.EdgePhases | src/raw_graph/linked_adj_edge.rs:1030-1145 | Phases 1 to 4 together: exactly the dying edges are gone and every pointer is current. |
| LinkedGraph.LinkedAdjEdgeGraph.NodePhases | src/raw_graph/linked_adj_edge.rs:1147-1180 | Phases 5 and 6 together: exactly the requested nodes are gone and every endpoint is current. |
| LinkedGraph.LinkedAdjEdgeGraph.TakeEdgesDescending | src/raw_graph/linked_adj_edge.rs:940-962 | The edge-only path has the outcome of the phased one. |
| LinkedGraph.LinkedAdjEdgeGraph.TakeNodesDescending | src/raw_graph/linked_adj_edge.rs:978-1006 | The node-only path has the outcome of the phased one. |
| LinkedGraph.LinkedAdjEdgeGraph.TakeNodesEdges | src/raw_graph/linked_adj_edge.rs:914-1190 | Whichever path is taken: exactly the requested nodes, the requested edges and the edges at requested nodes go, every surviving chain is the old one filtered and renumbered, payloads come back in request order, and integrity holds. |
| LinkedBatch.RecordStep | src/raw_graph/linked_adj_edge.rs:1096-1104 | The composed move records are, after every removal, the old-slot to present-slot map of exactly the survivors that moved. |
| LinkedBatch.StaleCount | src/raw_graph/linked_adj_edge.rs:1124-1132 | The number of moved edges ending at a node is the number of stale pointers in its chain, so each bounded sweep stops exactly when done. |
| LinkedBatch.DisplacedAfterRemoval | src/raw_graph/linked_adj_edge.rs:1112-1117 | Between removal and repair every pointer still holds the slot its edge had at the start, so a single lookup resolves it. |
| LinkedView.UnlinkStep | src/raw_graph/linked_adj_edge.rs:611-641 | Making the pointer to the k-th edge of a chain skip it takes just that edge out of that chain. |
| LinkedView.OtherChain | src/raw_graph/linked_adj_edge.rs:611-641 | A pointer write in one chain leaves every other chain alone. |
| LinkedView.GoneInverse | src/collection.rs:905-911 | Swap-removal keeps entries and location map inverse to each other and drops exactly the removed entry. |
| LinkedStore.SurvivesThen | src/graph/stabilized.rs:292-307 | One batch after another is a single removal, with slots, chains and payloads renumbered through both. |
| LinkedDigraph.StoreIsDigraph | src/raw_graph/linked_adj_edge.rs:1401-1454 | Integrity of the storage makes it a valid directed multigraph: the chains of a node list, each once, exactly the edges at it. |
| LinkedDigraph.FlippedArcs | src/raw_graph/linked_adj_edge.rs:391-403 | `reverse` turns every arc round. |
| LinkedDigraph.RemovalKeepsReach | src/raw_graph/linked_adj_edge.rs:914-1190 | After any removal two surviving nodes reach one another exactly when they did so along surviving edges. |
| FlatAdj.FlatAdjEdgeGraph.IncomingAgree | src/raw_graph/flat_adj_edge.rs:152-190 | The maintained incoming index and the index-free scan of all nodes give the same multiset. |
| FlatAdj.FlatAdjEdgeGraph.ScanIncoming | src/raw_graph/flat_adj_edge.rs:177-190 | The scan lists, each once and in the order of their places, the edges that end at the node. |
| FlatAdj.FlatAdjEdgeGraph.InsertNode | src/raw_graph/flat_adj_edge.rs:643-652 | Appends an isolated node; the index stays exact. |
| FlatAdj.FlatAdjEdgeGraph.InsertEdge | src/raw_graph/flat_adj_edge.rs:664-678 | Appends to the tail's list and nothing else; the index stays exact. |
| FlatAdj.FlatAdjEdgeGraph.TakeEdge | src/raw_graph/flat_adj_edge.rs:744-777 | Only this edge goes, the last edge of the same list moves into its place, and the index follows both. |
| FlatAdj.FlatAdjEdgeGraph.TakeNode | src/raw_graph/flat_adj_edge.rs:790-859 | The node and exactly its incident edges go; everything else survives at its relocated place and the index is exact again. |
| FlatAdj.FlatAdjEdgeGraph.TakeNodesEdges | src/raw_graph/flat_adj_edge.rs:861-895 | Descending batch removal takes the requested edges, the requested nodes and the edges at those nodes and no others; payloads in descending order; the index is exact. |
| FlatAdj.EdgeTakenIndex | src/raw_graph/flat_adj_edge.rs:744-777 | Renaming the relocated edge in one incoming set keeps every set equal to a full scan. |
| FlatAdj.EdgeTakenMoved | src/raw_graph/flat_adj_edge.rs:744-777 | Where every other edge is afterwards. |
| FlatAdj.NodeDroppedIndex | src/raw_graph/flat_adj_edge.rs:817-856 | Renaming the relocated node in all lists and sets keeps every set equal to a full scan. |
| FlatAdj.NodeDroppedMoved | src/raw_graph/flat_adj_edge.rs:817-856 | Where every node and edge is afterwards. |
| Stabilized.StableGraph.constructor | src/graph/stabilized.rs:225-230 | An empty graph has issued no handle. |
| Stabilized.StableGraph.FromMapped | src/graph/stabilized.rs:235-242 | A graph with all versions one has issued exactly the first handle of every slot. |
| Stabilized.StableGraph.HandleMeaning | src/graph/stabilized.rs:368-383 | In every reachable state a handle is accepted exactly when issued and not removed, then denotes the item it was issued for, and a live edge lies between the two live nodes it was inserted between. |
| Stabilized.StableGraph.InsertNode | src/graph/stabilized.rs:688-747 | With no room and a tombstone left, the first tombstone is reused at one more than its version and the store keeps its length; otherwise a slot is appended at version one. The handle is new to the whole history, older handles keep their meaning, all other slots and chains stay. |
| Stabilized.StableGraph.InsertEdge | src/graph/stabilized.rs:755-824 | The same for an edge between two live nodes, where only a tombstone with the same two ends counts; an appended edge heads both chains. |
| Stabilized.StableGraph.DeadNode | src/graph/stabilized.rs:702-714 | The first tombstone, or none when there is none. |
| Stabilized.StableGraph.DeadEdge | src/graph/stabilized.rs:772-792 | The first tombstone with just these ends, or none when there is none. |
| Stabilized.StableGraph.TakeEdge | src/graph/stabilized.rs:832-844 | Exactly this handle stops being accepted; its item is returned; items, ends and chains stay in place. |
| Stabilized.StableGraph.TakeNode | src/graph/stabilized.rs:851-874 | Exactly this node handle and the handles of its edges stop being accepted; its item is returned; items, ends and chains stay in place. |
| Stabilized.StableGraph.TakeNodesEdges | src/graph/stabilized.rs:876-898 | A batch retires exactly the given handles and those of edges at the given nodes; items in request order; nothing in the store moves. |
| Stabilized.StableGraph.IntoInner | src/graph/stabilized.rs:267-309 | Two batch removals of the tombstones leave exactly the live subgraph, renumbered. |
| Versions.Appended | src/graph/stabilized.rs:730-744 | The handle of a fresh slot was never issued before, and the history stays true. |
| Versions.Revived | src/graph/stabilized.rs:715-727 | Reuse steps past every version the slot has had: the handle was never issued before. |
| Versions.Retired | src/graph/stabilized.rs:838-844 | Flipping the sign of a version retires exactly one handle. |
| Dominators.DiscoveryOrder | src/algo/dominators.rs:94-117 | The order lists each node reachable from the start once, every other node after the node that discovered it, and is the one the turns of the loop lead to. |
| DominatorsGap.OrderShortcut | src/algo/dominators.rs:94-117 | An acyclic graph on which the order puts the head of an edge before its tail, so it is no reverse post-order. |
| Dominators.Intersect | src/algo/dominators.rs:186-196 | The two fingers meet at the node whose ancestors are the common ancestors of both. |
| Dominators.NewIdom | src/algo/dominators.rs:141-155 | The nearest common ancestor of all predecessors that have a parent so far. |
| Dominators.SweepOnce | src/algo/dominators.rs:137-162 | A sweep keeps the invariant, strictly lowers the total of the parents when it changes anything, and otherwise is a fixed point. |
| DomTree.SweepStep | src/algo/dominators.rs:139-161 | Setting one parent never raises it, and the tree under way stays comparable with the tree of the last sweep. |
| DomTree.SweptJoins | src/algo/dominators.rs:139-161 | Above a common old ancestor the half-swept tree agrees with itself; the fact that replaces the missing post-order. |
| Dominators.DominatorsOnChain | src/algo/dominators.rs:136-162 | Every true dominator of a node is on its chain of parents. |
| Dominators.AncestorOnPath | src/algo/dominators.rs:136-162 | At a fixed point every ancestor lies on every path from the start. |
| Dominators.FixpointIsDominators | src/algo/dominators.rs:136-162 | Hence the parents at the fixed point are the immediate dominators. |
| Dominators.ImmediateDominators | src/algo/dominators.rs:89-175 | Terminates with one pair per reachable node: its immediate dominator, the start with itself, in the reverse of the order in which the loop leaves the nodes. |
| Flow.FlowBelowCut | src/algo/max_flow.rs:80-93 | No flow exceeds the capacity of a cut. |
| Flow.Share | src/algo/max_flow.rs:272-291 | Amounts that fit the joint capacity of parallel edges can be shared out among them. |
| Residual.BfsAugmentingPath | src/algo/max_flow.rs:309-388 | An augmenting path of the fewest steps possible, which takes the earlier choice wherever another of as many steps parts from it; or else a set with the source and without the sink that no usable step leaves. |
| Residual.StraightFound | src/algo/max_flow.rs:5-8 | Every node of the path found is as many steps along it as the fewest usable steps that lead there. |
| Residual.ForemostOnce | src/algo/max_flow.rs:340-382 | There is just one shortest path that takes the earlier choice wherever another parts from it. |
| Residual.SearchFails | src/algo/max_flow.rs:309-388 | No usable step leaves what a search that ran dry has reached. |
| MaxFlow.Bottleneck | src/algo/max_flow.rs:231-253 | The least room on the path, which is positive and attained. |
| MaxFlow.Augment | src/algo/max_flow.rs:259-295 | Just the entries of the steps change, each by the amount pushed and in its own direction, the credit of a reverse step going to the edge listed first; capacities, the pairing of residuals with reverse flow, and conservation are kept, and the value grows by the amount. |
| MaxFlow.SaturatedIsMaximum | src/algo/max_flow.rs:225-229 | A saturated cut makes the value maximal. |
| MaxFlow.SharedFlow | src/algo/max_flow.rs:189-199 | On every network, parallel edges included, a flow of exactly the reported value exists. |
| MaxFlow.EdmondsKarpFlows.constructor | src/algo/max_flow.rs:149-180 | Nothing pushed yet, and the zero flow satisfies the invariant, whatever the terminals. |
| MaxFlow.EdmondsKarpFlows.Next | src/algo/max_flow.rs:210-299 | Ends exactly when it has ended before or no augmenting path exists, and then changes nothing; otherwise pushes the bottleneck of the one shortest path that takes the earlier choices. It has never pushed more often than nodes times edges. |
| MaxFlow.EdmondsKarpFlows.Finish | src/algo/max_flow.rs:189-200 | Terminates, after at most as many augmentations as nodes times edges, with the maximum value, equal to the capacity of a cut. On every network the amounts per edge have this value, balance at every inner node and exceed no capacity; one below zero sits on an edge at risk; they are a flow exactly when there is none. |
| FlowBound.FarKept | src/algo/max_flow.rs:5-8 | An augmentation along a path such as the search finds brings no node nearer to the source. |
| FlowBound.CountedNext | src/algo/max_flow.rs:5-8 | Between two times that a step is filled up, the node it leaves moves two steps away from the source. |
| FlowBound.FewAugmentations | src/algo/max_flow.rs:5-8 | So no step is filled up more than half as often as there are nodes, and there are at most as many augmentations as nodes times edges: the bound behind the promised running time. |
| MaxFlow.FilledNext | src/algo/max_flow.rs:259-295 | Each augmentation fills up a step of its path, opening only steps back over the path and closing only steps of it. |
| MaxFlow.ReportedAmounts | src/algo/max_flow.rs:193-197 | In every state capacity less residual has the value pushed so far and balances, and it is a flow if and only if no residual exceeds its capacity. |
| MaxFlow.AmountsAfter | src/algo/max_flow.rs:272-291 | An augmentation keeps the amounts a flow if and only if no reverse step gives back more than the edge it credits has in use. |
| MaxFlow.ReverseCrosses | src/algo/max_flow.rs:367-386 | Flow is taken back only between two nodes that ways through the network pass in both directions. |
| MaxFlow.ContainedNext | src/algo/max_flow.rs:278-289 | Residuals above capacity arise only on edges at risk: listed first among parallel edges, another of which has capacity, between two such nodes. |
| MaxFlow.SafeNetwork | src/algo/max_flow.rs:278-289 | No edge is at risk when no two edges share tail and head, or when every bundle touches a terminal, is made of loops, or has capacity on the edge listed first only. |
| FlowGap.RunDetour | src/algo/max_flow.rs:189-200 | For all positive p, q and r, a network on which the iterator is forced to credit the first of two parallel edges of capacities p and q with the lesser of r and p + q; it reports a flow if and only if r is at most p. |
| FlowGap.TwinAtRisk | src/algo/max_flow.rs:278-289 | That edge is at risk for all of them, so being at risk does not settle the matter. |
| Tarjan.BackStep | src/algo/connectivity.rs:114-136 | Looking at a numbered successor keeps the invariant on numbers, low links and both stacks. |
| Tarjan.NumberStep | src/algo/connectivity.rs:120-129 | Entering a node keeps it. |
| Tarjan.MergeStep | src/algo/connectivity.rs:137-150 | So does finishing a node that is not the root of its component. |
| Tarjan.EmitStep | src/algo/connectivity.rs:149-164 | What is popped at a root is a whole strongly connected component, disjoint from all earlier ones, and everything yielded is closed under successors. |
| Tarjan.TarjanScc.constructor | src/algo/connectivity.rs:88-103 | A search that has yielded nothing. |
| Tarjan.TarjanScc.Next | src/algo/connectivity.rs:112-185 | Yields one more component, or ends when every node has been yielded. At every moment the components stand in the order in which the recursive search leaves their roots, members from the one met last to the root. |
| Tarjan.StronglyConnected | src/algo/connectivity.rs:88-186 | All nodes partitioned into the classes of mutual reachability, no edge from an earlier component to a later one, in the order of the recursive search. |
| Tarjan.YieldedOnce | src/algo/connectivity.rs:112-185 | The graph and the order of its lists leave no choice: two such partitions in that order are the same list of lists. |
| DepthFirst.NeighborMet | src/algo/connectivity.rs:120-129 | With a stack of its own, a search that enters a new neighbor stays a beginning of the recursive search. |
| DepthFirst.NodeLeft | src/algo/connectivity.rs:137-165 | So does one that leaves an exhausted node. |
| DepthFirst.ExploreOnce | src/algo/connectivity.rs:112-185 | The recursive search meets and leaves each node once, and no node seen before. |
| Condensation.TagNodes | src/algo/connectivity.rs:399-405 | Each node mapped to the one component it is in. |
| Condensation.Condensed | src/algo/connectivity.rs:393-447 | Builds a well-formed linked graph with one node per component, in the order of the search, and exactly one edge per pair of components joined by an edge, in the order of the first edge that joins them, loops left out on request. |
| Condensation.CondensedReach | src/algo/connectivity.rs:387-392 | One component reaches another exactly when their members do. |
| Condensation.CondensedFalls | src/algo/connectivity.rs:387-392 | Every edge leads to the same or an earlier component. |
| Condensation.CondensedIsDag | src/algo/connectivity.rs:387-392 | With loops left out the condensed graph has no cycle. |
| LowPoint.CollectUndirectedNeighbors | src/algo/bridges.rs:309-325 | Lists each edge at the node once with its other end, self-loops left out, in the order outgoing then incoming. |
| LowPoint.LookStep | src/algo/bridges.rs:137-147 | Passing over a numbered neighbor keeps the shared low-point invariant. |
| LowPoint.NumberStep | src/algo/bridges.rs:148-156 | So does entering a new node. |
| LowPoint.PopStep | src/algo/bridges.rs:157-172 | So does finishing one. |
| Bridges.HighLowIsBridge | src/algo/bridges.rs:158-172 | A low point beyond the parent means that the tree edge is a bridge. |
| Bridges.LowIsNoBridge | src/algo/bridges.rs:158-172 | A low point at the parent or above means that it is not. |
| Bridges.Bridges.constructor | src/algo/bridges.rs:108-123 | A search that has found nothing. |
| Bridges.Bridges.Next | src/algo/bridges.rs:131-190 | Yields a bridge not yielded before, or ends with all of them yielded; at every moment they stand in the order in which the recursive search leaves their lower ends. |
| Bridges.AllBridges | src/algo/bridges.rs:108-191 | Exactly the edges whose removal disconnects their ends, each once, on every multigraph, in that order. |
| Bridges.BridgesOnce | src/algo/bridges.rs:131-190 | Two lists of the same bridges in that order are equal. |
| ArticulationPoints.FoundIsCut | src/algo/bridges.rs:266-286 | A node yielded is a cut vertex. |
| ArticulationPoints.LeftIsNoCut | src/algo/bridges.rs:266-286 | A node left without being yielded is none. |
| ArticulationPoints.ArticulationPoints.constructor | src/algo/bridges.rs:213-229 | A search that has found nothing. |
| ArticulationPoints.ArticulationPoints.Next | src/algo/bridges.rs:239-305 | Yields a cut vertex not yielded before, or ends with all of them yielded; each is yielded at the moment when what has been left first holds a whole part it cuts off, or two parts for the node the search enters its component at. |
| ArticulationPoints.AllArticulationPoints | src/algo/bridges.rs:213-305 | Exactly the cut vertices, each once, in the order of those moments. |
| ArticulationPoints.FoundCutBy | src/algo/bridges.rs:266-286 | When the test on leaving a node finds its parent, what has been left shows the parent to be a cut vertex. |
| ArticulationPoints.NothingElse | src/algo/bridges.rs:266-286 | Leaving a node shows no other cut vertex, and the parent only when the test finds it. |
| ArticulationPoints.PointsOnce | src/algo/bridges.rs:239-305 | Two lists of the same cut vertices in that order are equal. |
| MinSpanningTree.Exchange | src/algo/min_spanning_tree.rs:146-193 | Swapping an edge of a spanning forest for another across the same cut leaves a spanning forest. |
| MinSpanningTree.CutRule | src/algo/min_spanning_tree.rs:146-193 | A lightest edge out of the grown part extends a partial forest that can be completed to a minimal one. |
| MinSpanningTree.MinSpanningTree.AddIncidentEdges | src/algo/min_spanning_tree.rs:197-225 | The heap gains one entry for each edge from the node out of the grown part and nothing else. |
| MinSpanningTree.MinSpanningTree.constructor | src/algo/min_spanning_tree.rs:119-134 | Nothing grown yet. |
| MinSpanningTree.MinSpanningTree.Next | src/algo/min_spanning_tree.rs:146-193 | Starts further trees only at the least nodes left once nothing more leaves those grown, and then yields a lightest edge out of the grown part, or ends with a spanning forest of minimal weight. |
| MinSpanningTree.SpanningTreeWeight | src/algo/min_spanning_tree.rs:230-244 | The weight of a minimal spanning forest, which the yielded edges form, each yielded once. |
| Matching.FindAugmentingPath | src/algo/matching.rs:225-309 | The augmenting path with which the search loop ends, or nothing, exactly when the loop runs out of frames, and then every alternating step is exhausted. |
| Matching.ToggledMatching | src/algo/matching.rs:195-204 | Toggling along an augmenting path gives a matching. |
| Matching.Toggle | src/algo/matching.rs:195-204 | That matching has one edge more and covers what was covered before. |
| Matching.RebuildMates | src/algo/matching.rs:204-210 | The table of mates is that of the new matching. |
| Matching.GreedyStart | src/algo/matching.rs:163-177 | The greedy start is the maximal matching that takes each edge, in edge order, that shares no end with one taken before, with its table of mates. |
| Matching.Round | src/algo/matching.rs:180-213 | A round tries the free nodes in ascending order, grows the matching exactly when the search succeeds from some free node, keeps covered nodes covered, and otherwise shows that no free node has a way on. |
| Matching.StuckIsMaximum | src/algo/matching.rs:179-218 | On a bipartite graph, when no search finds a path, the stuck searches give a node cover of the size of the matching, so it is maximum. |
| Matching.MaxMatching | src/algo/matching.rs:138-221 | Terminates with the outcome of rounds from the greedy start until one changes nothing: a maximal matching of at least half the maximum size on every graph, of maximum size on every graph that is bipartite but for loops; it is the greedy start exactly when the search fails from all nodes that leaves free. |
| Matching.TriedOnce | src/algo/matching.rs:184-212 | A matching and the node tried leave no choice about the matching that results. |
| Matching.HalfBound | src/algo/matching.rs:83-89 | No matching has more than twice the edges of a maximal one. |
| Matching.GreedyMatching.Next | src/algo/matching.rs:119-135 | Yields the next edge that shares no end with an edge yielded before it: of the edges passed, an edge has been yielded exactly when it is no loop and no yielded edge of smaller number shares an end with it. At the end no edge can be added and no matching is more than twice the size. |
| Matching.GreedyUnique | src/algo/matching.rs:119-135 | This choice is the only one. |
| Matching.GreedyMatching.AddingFails | src/algo/matching.rs:119-135 | Every edge passed over would break the matching. |
| MatchingGap.TrapFails | src/algo/matching.rs:225-309 | On any graph, the search from the free corner of a triangle hung on it fails when entered on the wrong side. |
| MatchingGap.MissOddCycles | src/algo/matching.rs:138-221 | A graph on which the greedy start leaves two free nodes, both searches fail, and two edges are returned where three fit. |
| ShortestPath.BellmanFord.constructor | src/algo/shortest_path.rs:234-269 | Only the start has a distance, nothing, and no round has begun. |
| ShortestPath.BellmanFord.Next | src/algo/shortest_path.rs:308-349 | The event is the first improving edge at or after the cursor, rounds over, with its tail as predecessor; it is a strict improvement and the only change; none is left in the rounds when it ends. |
| ShortestPath.BellmanFord.Finish | src/algo/shortest_path.rs:279-298 | An error exactly when a negative cycle can be reached; otherwise exactly the reachable nodes with exact shortest distances, the start without predecessor, and predecessors that lead back from every node to the start along tight edges. |
| ShortestPath.ShortWalk | src/algo/shortest_path.rs:308-330 | Without a reachable negative cycle a walk of fewer edges than nodes is at least as light. |
| ShortestPath.ImprovableMeansCycle | src/algo/shortest_path.rs:283-295 | An edge still improving after the rounds betrays a reachable negative cycle. |
| ShortestPath.PopIsExact | src/algo/shortest_path.rs:156-163 | The lightest entry of an unvisited node holds its exact distance. |
| ShortestPath.Dijkstra | src/algo/shortest_path.rs:138-187 | Without a goal, or with one out of reach, exactly the reachable nodes with exact shortest distances; with a goal within reach, every node settled up to it exact and none beyond it nearer. In both cases the start has no predecessor, predecessors lead back to it along shortest walks, and each is the one settled first of those that offer the distance. |
| ShortestPath.TraceWalks | src/algo/shortest_path.rs:168-182 | Following predecessors back to the start gives a walk whose weight is the recorded distance. |
| ShortestPath.HeadOffChain | src/algo/shortest_path.rs:168-182 | An edge that improves its head finds the head off the chain of predecessors of its tail, unless there is a negative cycle. |
| ShortestPath.RelaxTraceable | src/algo/shortest_path.rs:168-182 | So relaxing never closes a circle of predecessors: from every recorded node they still lead to the start. |
| ShortestPath.GoalSettled | src/algo/shortest_path.rs:156-163 | When the goal is popped, the table is exact for every settled node and no farther node has been settled before it. |
| ShortestPath.SameDistances | src/algo/shortest_path.rs:138-187 | Two tables of shortest distances agree, so both algorithms return the same distances on non-negative weights. |
| TransitiveReduction.CanReach | src/algo/tred.rs:210-234 | True exactly when the target can be reached. |
| TransitiveReduction.ReachableViaOther | src/algo/tred.rs:109-128 | True exactly when another edge out of the tail leads on to the head. |
| TransitiveReduction.DagTransitiveReduction.Next | src/algo/tred.rs:101-130 | Yields the next edge kept, passing over none that is kept, or ends when all have been. |
| TransitiveReduction.Reduction | src/algo/tred.rs:83-131 | Exactly the edges with no way round them, ascending. |
| TransitiveReduction.ReductionKeepsReachability | src/algo/tred.rs:70-75 | On an acyclic graph the kept edges reach all that the whole graph does if and only if every pair of nodes joined by parallel edges is also joined by a longer walk; so always without parallel edges. |
| TransitiveReduction.KeptIsNeeded | src/algo/tred.rs:70-75 | Dropping any kept edge, even with all others present, loses a reachable pair. |
| TransitiveReduction.TwinsAreLost | src/algo/tred.rs:101-131 | Two parallel edges alone: both are dropped and reachability is lost. |
| SimplePaths.AllSimplePaths.constructor | src/algo/simple_paths.rs:114-144 | The search stands before the first choice. |
| SimplePaths.AllSimplePaths.Next | src/algo/simple_paths.rs:152-200 | Yields a listed path, or ends with all of them yielded in the lexicographic order of their choices of edges; a measure falls at every call. |
| SimplePaths.ListSimplePaths | src/algo/simple_paths.rs:82-200 | Terminates with exactly the listed paths in the lexicographic order of their choices of edges, each once when there are no parallel edges. |
| SimplePaths.ListedIsSimple | src/algo/simple_paths.rs:82-92 | Between different ends the listed paths are the simple paths with the number of intermediate nodes within the bounds. |
| SimplePaths.UniqueChoices | src/algo/simple_paths.rs:152-200 | Without parallel edges a path is given by one sequence of choices only. |
| Layers.BuildAdjacency | src/convert/aa.rs:974-983 | The two adjacency tables hold just the arrows of the edges, both ways for bidirectional ones, those out of a node in the order of the edges. |
| Layers.FinishOrder | src/convert/aa.rs:989-1011 | The order in which the recursive search of the component leaves its nodes: each once, and what leads to a node leads to one of its own class left no earlier. |
| Layers.Components | src/convert/aa.rs:1013-1034 | Exactly the strongly connected components, in an order that arrows never go against: each holds the node left last of all in it and in those behind it. |
| Layers.Condense | src/convert/aa.rs:1036-1053 | One successor per pair of components with an arrow between, ways in counted. |
| Layers.Levels | src/convert/aa.rs:1054-1064 | Every arrow climbs and no level is higher than some arrow makes it. |
| Layers.AllGone | src/convert/aa.rs:1054-1064 | Every component has its turn in the queue. |
| Layers.LevelIsLongest | src/convert/aa.rs:1054-1071 | The level of a node is the greatest number of changes of component on a path that ends there. |
| Layers.LevelsFromAssignment | src/convert/aa.rs:1104-1111 | Layer by layer just the nodes of that level at strictly ascending places of the component, the last layer not empty. |
| Layers.LayerMembers | src/convert/aa.rs:1104-1111 | A layer holds exactly the nodes of its level, none twice when none is twice in the component. |
| Layers.LayerUnique | src/convert/aa.rs:1104-1111 | Component and levels leave no choice about a layer. |
| Layers.CyclicGroups | src/convert/aa.rs:1072-1075 | Exactly the components of two nodes or more, each once and in their order. |
| Layers.DirectedLayers | src/convert/aa.rs:969-1077 | Nodes of one component share a layer, every other arrow leads to a later layer, each layer lists its nodes in the order of the component; the cyclic groups are the components of two nodes or more, each once, no path leading from a group to an earlier one, in the reverse of the order in which the search leaves them for good. |
| WeakComponents.Adjacency | src/convert/aa.rs:838-852 | Every neighbor once, ascending, each edge seen from both of its ends. |
| WeakComponents.Root | src/convert/aa.rs:858-862 | The unseen node with the most neighbors, the least such. |
| WeakComponents.Components | src/convert/aa.rs:854-878 | Whole connected components, each grown breadth first from the first node left over: members stand in the order of the earliest member adjacent to them and, below the same one, of its list; until every node has one. |
| WeakComponents.DepthRises | src/convert/aa.rs:864-873 | The distance from the first member never falls along a component. |
| WeakComponents.DepthIsLeast | src/convert/aa.rs:864-873 | No path from the first member is shorter than the depth at which a member was found. |
| WeakComponents.DepthIsAttained | src/convert/aa.rs:864-873 | And one is as short. |
| WeakComponents.BreadthFirstOnce | src/convert/aa.rs:864-873 | First member, members and lists leave no choice about the order. |
| WeakComponents.ComponentsPartition | src/convert/aa.rs:854-878 | Every node has a component, and two nodes share it exactly when they are connected. |

## Left out

- MaxFlow.EdmondsKarpFlows.Finish: that no edge is at risk is enough for the amounts to be a flow, but not needed; whether an edge at risk is credited too much depends on which shortest paths come first and on how much they carry, so the exact condition is given step by step (MaxFlow.AmountsAfter) and for a family of networks (FlowGap.RunDetour), and none on the network alone.
- MaxFlow.EdmondsKarpFlows.Next: asks for different terminals, because with equal ones the program takes the bottleneck of an empty path and stops; its branch for a bottleneck of zero is absent, the bottleneck being proved positive.
- Matching.MaxMatching: promises the maximum on graphs bipartite but for loops only, because it is false of some graphs with odd cycles; elsewhere a maximal matching and half the maximum.
- ShortestPath.Dijkstra: with a goal within reach, the entries of nodes not settled yet are upper bounds with a walk of that weight, because the search stops early.
- SimplePaths.ListSimplePaths: with equal ends lists the cycles through that node, as the program does.
- LinkedGraph.LinkedAdjEdgeGraph.TakeNodesEdges: the sequence-backed storage only; over ordered or hashed maps nothing is relocated and the argument is easier.
- Stabilized.StableGraph.HandleMeaning: payloads changed in place through a mutable reference are not part of the history.
- FlatAdj.FlatAdjEdgeGraph.TakeNodesEdges: the incoming index kept as a multiset proved duplicate-free; the variant without an index enters through the scan it must agree with.
- Integer widths, overflow and allocation failure: lengths stay below the sentinel and versions are unbounded.
- Lifetimes, branding, raw pointers and the forwarding wrappers (`src/graph/context.rs`, `src/graph/as_ref.rs`): devices of the type system without algorithmic content.
- `src/raw_graph/matrix.rs` and `src/raw_graph/hyper_edge.rs`: the first rests on an external crate, the second repeats the flat index in an easier form.
- Kosaraju's algorithm in `src/algo/connectivity.rs` and the post-order iterator in `src/algo/dfs.rs`: both mark nodes when they are pushed, so theirs is no order of finishing.
- A*, Floyd-Warshall and Yen's algorithm in `src/algo/shortest_path.rs`, the transitive closure in `src/algo/tred.rs`.
- Topological sorts, breadth-first search, the bipartite check, the feedback arc set and PageRank: easier than what is here, or a matter of rounding.
- Barycentre ordering, routing and drawing in `src/convert/aa.rs`, the Mermaid output and the macro: presentation.
