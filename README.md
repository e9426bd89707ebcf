# Recipe vector search: HNSW index, ball tree and client helpers

The Recipe system stores recipes together with an embedding of their
ingredients and answers "recipes like this one" queries by nearest-neighbour
search over those embeddings. This project models, in Dafny, the parts of the
repository that do the searching and the small pieces of client state around
them:

- `HNSWCollection` (Experiments/HNSW/HNSW.cs). This is the hierarchical
  navigable small-world graph: one neighbour list per level and node, a
  per-level list of nodes, and a cached entry point. The model covers
  insertion (`Add`), neighbour pruning (`RefreshNeighborConnections`), the
  greedy layer search, the approximate and the exact k-nearest searches, the
  DOT edge listing and the consistency check `Verify`. It also covers the
  helper set `NodeDistanceSet`, which caches its nearest and furthest member.
- The ball tree (Experiments/BallTree/Program.cs). `Group` greedily
  partitions a list into groups of near items. `Create` builds the tree
  bottom-up from those groups. `NearestNeighbors` walks the tree with a
  stack and prunes balls that cannot hold a nearer vector.
- `CalculateRecall` (Experiments/HNSW/Program.cs). This is the two-index
  count of how many exact answers an approximate search returned.
- `DatabaseServiceCollection` (Client/DatabaseServiceCollection.cs). This is
  the client's list of database back-ends and its current default.
- `RecipeDTO.Valid` (VlxAPI/RecipeDTO.cs).

Modules, one per file:

- `Wrappers`: `Option`, `Result` and the error kinds.
- `Distance`: the exact branches of `CosineDistance`.
- `NodeDistanceSets`: node/distance entries, the stable sort, `SelectNeighborsSimple`, and the class `NodeDistanceSet`.
- `HnswGraph`: the node arena, neighbour lists, the layers as a function of the node levels, and the specification of a neighbour refresh.
- `HnswLevels`: the loops of `ToDot` and `Verify` for one level.
- `Hnsw`: the class `HNSWCollection`.
- `BoundedQueues`: the bounded max-priority queue shared by `SearchExact`, `Group` and `NearestNeighbors`.
- `BallGroups`, `BallTrees`, `BallSearch`: the ball tree.
- `Recall`, `DatabaseServices`, `RecipeDtos`: the three smaller pieces.

How the model represents things:

- Nodes live in an arena `seq<Node>` in insertion order. The node at index
  `i` has id `i + 1`, and neighbour lists hold arena indices.
- Symmetry of the graph is counted with multiplicity: `b` lists `a` as often
  as `a` lists `b`. The source can produce duplicate neighbour entries, so a
  set-based notion would not hold.
- Distances are an abstract function `dist` into the reals. The ball tree's
  centres and radii are supplied by functions `leafBall` and `innerBall`.

Three behaviours of the code that the model follows:

- The descent loop of `Add` searches levels `topLayer` down to `level + 2`
  with `EfConstruction`, so level `level + 1` is skipped, and each step keeps
  more than one candidate. The insertion algorithm of "Efficient and robust
  approximate nearest neighbor search using Hierarchical Navigable Small
  World graphs" (Malkov and Yashunin, Algorithm 1) descends with `ef = 1`
  down to level `level + 1`.
- The stopping test of `SearchLayer` compares the nearest candidate with the
  furthest result even while the result set is not full.
- `RefreshNeighborConnections` rewires a dropped neighbour without checking
  its degree, so the per-level neighbour cap is not an invariant of the
  graph. `Verify` reports it, and the model claims no such invariant.

## Model

| member | source | states |
|---|---|---|
| Distance.CosineDistance | Experiments/HNSW/HNSW.cs:38-79 | vectors of different lengths are an argument error; a zero vector on either side gives distance 1 |
| HnswGraph.NewNode | Experiments/HNSW/HNSW.cs:15-22 | a node of level `level` has `level + 1` empty neighbour lists, and none for a negative level |
| HnswGraph.NewNodeHasNoNeighbors | Experiments/HNSW/HNSW.cs:24-32 | `GetNeighbors` of a new node is empty at every level, and a level exists exactly when it is at most the node's level |
| NodeDistanceSets.NodeDistanceSet.constructor | Experiments/HNSW/HNSW.cs:316-318 | a new set is empty, with no nearest and no furthest member |
| NodeDistanceSets.NodeDistanceSet.Add | Experiments/HNSW/HNSW.cs:346-360 | adding a node already present changes nothing; otherwise the member is appended and the cached extremes move only to a strictly nearer or strictly further entry; the cache stays exact |
| NodeDistanceSets.NodeDistanceSet.Remove | Experiments/HNSW/HNSW.cs:362-378 | returns true iff the node was a member, drops exactly that member, and recomputes a cached extreme only when it was the member removed |
| NodeDistanceSets.NodeDistanceSet.PopFurthest | Experiments/HNSW/HNSW.cs:380-390 | null iff the set is empty; otherwise removes and returns a member no nearer than any other |
| NodeDistanceSets.NodeDistanceSet.PopNearest | Experiments/HNSW/HNSW.cs:392-402 | null iff the set is empty; otherwise removes and returns a member no further than any other |
| NodeDistanceSets.NodeDistanceSet.Clear | Experiments/HNSW/HNSW.cs:404-409 | the set becomes empty and both extremes null |
| NodeDistanceSets.MinBy | Experiments/HNSW/HNSW.cs:373 | null iff the set is empty; otherwise a member no further than any other |
| NodeDistanceSets.MaxBy | Experiments/HNSW/HNSW.cs:368 | null iff the set is empty; otherwise a member no nearer than any other |
| NodeDistanceSets.SortByDistance | Experiments/HNSW/HNSW.cs:592 | `OrderBy` is a permutation of its input in ascending distance |
| NodeDistanceSets.InsertByDistance | Experiments/HNSW/HNSW.cs:592 | inserting keeps an ascending sequence ascending and adds exactly the new entry |
| NodeDistanceSets.SelectNeighborsSimple | Experiments/HNSW/HNSW.cs:589-594 | `min(count, m)` candidates, none when `m` is not positive, in ascending distance, drawn from the candidates without repeats, and no candidate left out nearer than one chosen |
| Hnsw.HNSWCollection.constructor | Experiments/HNSW/HNSW.cs:96-102 | an empty collection; `numNeighbors0` of -1 selects twice `numNeighbors` |
| Hnsw.HNSWCollection.Count | Experiments/HNSW/HNSW.cs:104 | the number of nodes, and an out-of-range error when there is no layer 0 |
| Hnsw.HNSWCollection.Add | Experiments/HNSW/HNSW.cs:145-200 | keeps the collection's invariant (well-formed, symmetric lists; layers equal to the nodes of each level; entry point the first node of the top level); one node is appended with the next id, the given vector and level; no other node's id or vector changes; the entry point moves to the new node exactly when it opens a new top level; the new node has a neighbour at every level from 0 to the lower of its own level and the old top level whose cap is at least one |
| Hnsw.HNSWCollection.Insert | Experiments/HNSW/HNSW.cs:150-186 | the node is appended with the next id and linked in, keeping the lists well formed and symmetric, with the same per-level neighbour guarantee as `Add`; layers and entry point are not yet touched |
| Hnsw.AddKeepsConsistent | Experiments/HNSW/HNSW.cs:145-200 | the collection invariant survives any symmetric, well-formed relinking of the graph extended by the new node, with layers and entry point updated as `Add` does |
| Hnsw.IsEntryPointAfterAdd | Experiments/HNSW/HNSW.cs:188-191 | after adding a node, the entry point is the new node exactly when its level is above all others |
| Hnsw.HNSWCollection.Descend | Experiments/HNSW/HNSW.cs:158-164 | the descent from the top layer to level `level + 2` ends at a node of the graph other than the new one, present at the levels still to connect |
| Hnsw.HNSWCollection.Connect | Experiments/HNSW/HNSW.cs:166-186 | linking the new node at each of its levels keeps the graph well formed and symmetric and leaves node levels, layers and entry point alone; afterwards the new node has a neighbour at every level from `min(topLayer, level)` down to 0 whose cap is at least one |
| Hnsw.HNSWCollection.ConnectAt | Experiments/HNSW/HNSW.cs:167-185 | one level's search and links change only that level's lists and keep the graph well formed and symmetric; with a cap of at least one the new node ends with a neighbour at that level; the next entry point is a node present at that level |
| Hnsw.HNSWCollection.ConnectLevel | Experiments/HNSW/HNSW.cs:173-182 | the graph becomes exactly the old graph with the selected neighbours linked one after another, in order, each by a link step |
| Hnsw.HNSWCollection.LinkNeighbor | Experiments/HNSW/HNSW.cs:175-181 | the graph becomes exactly the link step: both lists extended by the other node, then the neighbour refreshed when its list grew beyond the cap |
| Hnsw.HNSWCollection.RefreshIfOver | Experiments/HNSW/HNSW.cs:178-181 | the graph is the refreshed graph when the neighbour's list is longer than the cap, and unchanged otherwise |
| Hnsw.LinkStep | Experiments/HNSW/HNSW.cs:175-181 | a link step keeps the lists well formed and symmetric and changes no other level |
| Hnsw.LinkStepLinks | Experiments/HNSW/HNSW.cs:175-181 | after a link step the new node lists the neighbour, or, when the refresh dropped the new node, a node the neighbour kept that lists the new node back; either way the new node has a neighbour at that level |
| Hnsw.Linked | Experiments/HNSW/HNSW.cs:173-182 | linking a list of neighbours keeps the lists well formed and symmetric, changes no other level, and leaves the new node with a neighbour when the list is not empty |
| Hnsw.HasNeighboursMeans | Experiments/HNSW/HNSW.cs:166-186 | the level-by-level predicate `HasNeighbours` holds iff the node has a neighbour at every level in the range whose cap is at least one |
| Hnsw.HasNeighboursStep | Experiments/HNSW/HNSW.cs:166-186 | linking at level `i` without touching the node's other levels extends the guarantee from the levels above `i` to `i` |
| Hnsw.LinkKeeps | Experiments/HNSW/HNSW.cs:175-176 | linking two distinct nodes both ways keeps well-formedness and symmetry and changes no other level |
| Hnsw.HNSWCollection.AddToLayers | Experiments/HNSW/HNSW.cs:193-199 | the new node joins layers 0 to its level, opening new layers as needed, so the layers are those of the extended level list |
| Hnsw.JoinedAll | Experiments/HNSW/HNSW.cs:193-199 | once the new node is in exactly layers 0 to its level, the layers equal the members of each level of the extended node list |
| HnswGraph.Layers | Experiments/HNSW/HNSW.cs:193-199 | as many layers as one more than the highest level, layer `l` holding exactly the nodes of level at least `l` in insertion order |
| HnswGraph.LayersNested | Experiments/HNSW/HNSW.cs:193-199 | every layer is contained in the one below it, and no layer below the height is empty |
| HnswGraph.LayerZero | Experiments/HNSW/HNSW.cs:193-199 | layer 0 holds every node |
| HnswGraph.AddNodeKeepsGraph | Experiments/HNSW/HNSW.cs:150 | appending a node without neighbours keeps the graph well formed and symmetric, changes no list and is listed by nobody |
| Hnsw.HNSWCollection.RefreshNeighborConnections | Experiments/HNSW/HNSW.cs:202-271 | the new graph is the refreshed graph of the six steps, and the layers, entry point and id counter are untouched |
| HnswGraph.RefreshedKeepsGraph | Experiments/HNSW/HNSW.cs:202-271 | a refresh keeps the graph well formed and symmetric, changes only the lists at that level of the node and its former neighbours, and leaves the node with exactly its selected neighbours |
| HnswGraph.RefreshedNeighbors | Experiments/HNSW/HNSW.cs:210-212 | the refreshed node keeps at most `m` former neighbours, none twice, and at least one if it had any |
| HnswGraph.RefreshedKeepsClosest | Experiments/HNSW/HNSW.cs:210-212 | no former neighbour that was dropped is nearer the node than one that was kept |
| HnswGraph.NewAreClosest | Experiments/HNSW/HNSW.cs:210-219 | no former neighbour left out of the selection is nearer the node than one in it |
| HnswGraph.RefreshedBackEdge | Experiments/HNSW/HNSW.cs:264-270 | every kept neighbour lists the node back exactly once |
| HnswGraph.RefreshedNoBackEdge | Experiments/HNSW/HNSW.cs:205-208 | a neighbour that was dropped no longer lists the node |
| HnswGraph.RefreshedSymmetric | Experiments/HNSW/HNSW.cs:202-271 | after a refresh each pair of nodes lists each other equally often |
| HnswGraph.RefreshedRelinks | Experiments/HNSW/HNSW.cs:235-262 | every dropped former neighbour is linked, in both directions, to one of the node's new neighbours |
| HnswGraph.FormerNeighbors | Experiments/HNSW/HNSW.cs:210 | one entry per distinct former neighbour, with its distance from the node |
| HnswGraph.FormerNeighborsCover | Experiments/HNSW/HNSW.cs:210 | every former neighbour has an entry |
| HnswGraph.RemoveAll | Experiments/HNSW/HNSW.cs:216-219 | exactly the entries whose node was not kept remain, still without repeats |
| HnswGraph.Target | Experiments/HNSW/HNSW.cs:221-257 | the relinking target is a kept neighbour; one below the degree cap is preferred to one at or above it; among those on the same side of the cap, none is nearer the dropped node |
| HnswGraph.RemoveFirst | Experiments/HNSW/HNSW.cs:207 | `List.Remove` takes out one occurrence and leaves a list without it unchanged |
| Hnsw.ChooseNeighbors | Experiments/HNSW/HNSW.cs:210-219 | the kept and the dropped neighbours are those of the refresh specification, all present at the level, and some neighbour is kept whenever one is dropped |
| Hnsw.TargetLoop | Experiments/HNSW/HNSW.cs:240-257 | the scan's result is none iff nothing was kept, and otherwise the specified target with its distance |
| Hnsw.DropBackEdgesLoop | Experiments/HNSW/HNSW.cs:205-208 | the loop computes the step that removes the node from each former neighbour's list |
| Hnsw.FormerNeighborsLoop | Experiments/HNSW/HNSW.cs:210 | builds a fresh, consistent set holding exactly the former neighbours' entries |
| Hnsw.RemoveAllLoop | Experiments/HNSW/HNSW.cs:216-219 | the set keeps its cache consistent and holds exactly the entries of nodes not kept |
| Hnsw.RewireLoop | Experiments/HNSW/HNSW.cs:235-262 | the loop computes the specified relinking of every dropped neighbour |
| Hnsw.AddBackEdgesLoop | Experiments/HNSW/HNSW.cs:266-270 | the loop computes the step that makes each kept neighbour list the node |
| Hnsw.HNSWCollection.SearchLayer | Experiments/HNSW/HNSW.cs:537-587 | no entry point gives no result; otherwise between 1 and `max(ef, 1)` distinct results, each a node reached from the entry point along that level's lists, with its true distance, the nearest no further than the entry point |
| Hnsw.HNSWCollection.Expand | Experiments/HNSW/HNSW.cs:566-583 | considering every neighbour of a reached node keeps the search invariant and only adds visited nodes |
| Hnsw.HNSWCollection.Evict | Experiments/HNSW/HNSW.cs:578-581 | an overflowing result set loses one member, keeps the others, and its nearest distance does not grow |
| Hnsw.HNSWCollection.SearchExact | Experiments/HNSW/HNSW.cs:421-450 | no layer, or a negative `k`, is an out-of-range error; `k == 0` on a non-empty layer is an invalid operation; otherwise the answer is the vectors of the `min(k, n)` nearest nodes, nearest first, none left out nearer than one chosen |
| Hnsw.ExactScan | Experiments/HNSW/HNSW.cs:425-437 | the scan fails exactly when `k == 0` meets a node; otherwise its queue holds the least `k` of the scanned nodes |
| Hnsw.ScannedNearestK | Experiments/HNSW/HNSW.cs:425-447 | after scanning every node the queue names an exact `k`-nearest answer |
| Hnsw.LeastNearest | Experiments/HNSW/HNSW.cs:439-447 | a least-`k` queue over all nodes is an exact `k`-nearest answer |
| Hnsw.Drain | Experiments/HNSW/HNSW.cs:439-449 | emptying the queue furthest first and reversing yields the queued nodes' vectors, nearest first |
| Hnsw.HNSWCollection.Search | Experiments/HNSW/HNSW.cs:452-474 | an empty collection answers nothing; otherwise at most `k` and at most `max(ef, 1)` distinct nodes' vectors, nearest first, and at least one when `k` is positive |
| Hnsw.SelectedNearest | Experiments/HNSW/HNSW.cs:469-473 | the `k` nearest of a level-0 search's results are distinct nodes, nearest first, within both bounds |
| Hnsw.HNSWCollection.LayerIsLayer | Experiments/HNSW/HNSW.cs:193-199 | each layer lists its level's nodes once each, is non-empty, and is closed under that level's neighbour lists |
| Hnsw.HNSWCollection.ToDot | Experiments/HNSW/HNSW.cs:106-143 | a level outside the existing ones is an out-of-range error; otherwise the edges are the level's undirected edges, each once |
| HnswLevels.LevelEdges | Experiments/HNSW/HNSW.cs:126-139 | every edge listed is a link of the level between two of its nodes, every link is listed in one direction or the other, and no pair is listed twice in either direction |
| Hnsw.HNSWCollection.Verify | Experiments/HNSW/HNSW.cs:476-535 | true iff at every level every node is reachable from the level's first node and no node has more neighbours than that level's cap |
| Hnsw.CheckLevels | Experiments/HNSW/HNSW.cs:482-527 | the total error count is zero iff every level is connected and within its cap |
| HnswLevels.CheckLevel | Experiments/HNSW/HNSW.cs:484-526 | one level's error count is zero iff the level is connected from its first node and every node is within the cap |
| HnswLevels.Visit | Experiments/HNSW/HNSW.cs:502-514 | under symmetric lists the node a walk came from is always found among the neighbours, and every neighbour ends up visited or queued |
| BoundedQueues.OfferedKeeps | Experiments/BallTree/Program.cs:111-125 | an offer keeps the queue holding the least-priority items offered so far, at most `cap` of them; a full queue stays full and its top never grows |
| BoundedQueues.HoldsLeast | Experiments/HNSW/HNSW.cs:425-437 | once every item was offered, the queue holds `min(cap, n)` distinct items, least first, none left out smaller than any held |
| BallGroups.SelectGroup | Experiments/BallTree/Program.cs:107-125 | a round's queue holds the `Cap(groupSize)` positions nearest the first item and, under non-negative distances, the first item itself |
| BallGroups.RoundNearest | Experiments/BallTree/Program.cs:107-135 | no item left out of a round is nearer the first item than a chosen one |
| BallGroups.SortDescending | Experiments/BallTree/Program.cs:137 | the sort is a permutation of the positions, strictly decreasing |
| BallGroups.RemoveIndexes | Experiments/BallTree/Program.cs:139-143 | swapping out the positions largest first removes exactly the items at those positions; together with them, the items left are the whole list |
| BallGroups.PickPermutation | Experiments/BallTree/Program.cs:127-143 | positions that permute each other pick items that permute each other |
| BallGroups.Round | Experiments/BallTree/Program.cs:105-146 | the group is the items at the round's chosen positions: distinct, `min(Cap(groupSize), n)` of them, under non-negative distances including the first item, and such that no position left out is strictly nearer the first item than a chosen position other than the first; the group and the rest split the list |
| BallGroups.Group | Experiments/BallTree/Program.cs:99-148 | a negative group size throws; otherwise the groups partition the items, each holds 1 to `Cap(groupSize)` items, there are no groups iff no items, with `groupSize >= 2` fewer groups than items and with `groupSize <= 1` exactly as many, and under non-negative distances the first group holds the first item; each group `k` is the nearest choice of its round (as for `Round`) from the items still left before it, which start as all the items, lose exactly that group, and are none after the last round |
| BallGroups.RoundsStep | Experiments/BallTree/Program.cs:103-147 | a round whose group is a nearest choice extends the record of rounds kept by the loop |
| BallGroups.GroupStep | Experiments/BallTree/Program.cs:103-147 | each round keeps the grouping invariant of the loop |
| BallTrees.LeavesOf | Experiments/BallTree/Program.cs:152-158 | the leaves together hold every vector once, and there are none only when there are no vectors |
| BallTrees.Regroup | Experiments/BallTree/Program.cs:160-169 | a regrouping round keeps the vectors held, leaves fewer balls, and keeps every ball within the cap |
| BallTrees.Create | Experiments/BallTree/Program.cs:150-172 | a negative `maxNeighbors` or no vectors is an out-of-range error; otherwise the root holds every vector exactly once and every ball at most `maxNeighbors` entries |
| BallTrees.ItemsOfPermutation | Experiments/BallTree/Program.cs:160-169 | reordering balls reorders the vectors they hold |
| BallSearch.NearestNeighbors | Experiments/BallTree/Program.cs:174-248 | a negative `count` is an error only when the root is inner; otherwise the answer is the `count` nearest of the vectors the walk measured, nearest first, and, from an inner root, `childrenVisited` is how many vectors it measured |
| BallSearch.WalkNearest | Experiments/BallTree/Program.cs:186-236 | the walk's queue answers the query over the vectors it measured |
| BallSearch.Offer | Experiments/BallTree/Program.cs:204-216 | one offer enqueues while there is room, and otherwise replaces the top only by a nearer vector |
| BallSearch.ScanLeaf | Experiments/BallTree/Program.cs:197-218 | every vector of a leaf is measured, counted and offered in order |
| BallSearch.PushChildren | Experiments/BallTree/Program.cs:219-235 | the children are pushed farthest first, so the nearest is popped next |
| BallSearch.Drain | Experiments/BallTree/Program.cs:238-247 | the answer lists the queued vectors nearest first |
| BallSearch.NearestNeighborsCorrected | Experiments/BallTree/Program.cs:174-248 | with pruning only once `count` vectors are held, and balls that enclose their vectors, the answer is the `count` nearest of all vectors in the tree |
| BallSearch.CorrectedNearest | Experiments/BallTree/Program.cs:192-195 | with the corrected pruning test the answer is an exact `count`-nearest answer over the whole tree |
| BallSearch.WalkFindsNearest | Experiments/BallTree/Program.cs:186-236 | the corrected walk from the root answers the query over every vector in the tree |
| BallSearch.AsWrittenMisses | Experiments/BallTree/Program.cs:192-195 | as written, the search over vectors 1, 6, 0, 14 for the 3 nearest to 0 answers 0, 1, 14, which is not the 3 nearest |
| BallSearch.CorrectedFinds | Experiments/BallTree/Program.cs:192-195 | corrected, the same search answers 0, 1, 6, the 3 nearest |
| BallSearch.PruningTooEarly | Experiments/BallTree/Program.cs:192-195 | on the same tree, whose balls enclose their vectors, the written test misses a nearest vector and the corrected test finds all three |
| Recall.CalculateRecall | Experiments/HNSW/Program.cs:67-89 | an empty exact list gives no number (the source divides 0 by 0); otherwise the recall is the walk's match count over the number of exact answers, between 0 and 1, and 1 for identical lists |
| Recall.Matches | Experiments/HNSW/Program.cs:69-86 | the count is at most the length of either list |
| Recall.MatchesAll | Experiments/HNSW/Program.cs:74-86 | every answer is counted iff the answers appear in order among the exact ones |
| Recall.GreedyFinds | Experiments/HNSW/Program.cs:74-86 | whenever the answers embed in order in the exact list, the walk counts all of them |
| Recall.MatchesSelf | Experiments/HNSW/Program.cs:74-86 | a list matched against itself counts every entry |
| DatabaseServices.Create | Client/DatabaseServiceCollection.cs:11-19 | a null list throws `ArgumentNullException`, an empty one `ArgumentException`; otherwise the list is kept and its first service is the default |
| DatabaseServices.DatabaseServiceCollection.Init | Client/DatabaseServiceCollection.cs:13-18 | the collection holds the given list and its first service is the default |
| DatabaseServices.DatabaseServiceCollection.TrySetDefault | Client/DatabaseServiceCollection.cs:21-36 | true iff the name is not null or blank and some service has it; then the first such service becomes the default, else the default is unchanged |
| DatabaseServices.FirstNamed | Client/DatabaseServiceCollection.cs:28 | none iff no service has the name; otherwise the first position whose service has it |
| DatabaseServices.FoundIffNamed | Client/DatabaseServiceCollection.cs:28-32 | a name is found exactly when some service carries it |
| DatabaseServices.DatabaseServiceCollection.Index | Client/DatabaseServiceCollection.cs:47-50 | -1 iff the service is absent; otherwise the first position holding it |
| RecipeDtos.Missing | VlxAPI/RecipeDTO.cs:15-20 | exactly the required properties that are null |
| RecipeDtos.ValidIffPresent | VlxAPI/RecipeDTO.cs:15-20 | a recipe is valid iff every required property is present, iff none is missing |
| RecipeDtos.IdTitleIrrelevant | VlxAPI/RecipeDTO.cs:6-20 | the id and the title play no part in validity |
| RecipeDtos.EmptyIsValid | VlxAPI/RecipeDTO.cs:15-20 | only nullness is checked: empty strings and an empty embedding are valid |

## Left out

- Floating point. Distances are exact reals given by an abstract function. The square root and rounding in `CosineDistance` and `EuclideanDistance` are not modelled. The ball tree's centres and radii are computed by supplied functions `leafBall` and `innerBall`.
- Distance.CosineDistance: only the length check and the zero-norm branch are stated; the cosine itself is a parameter.
- Randomness. The level that `Add` draws from `Random` is a parameter of `Add`.
- Text. `ToDot` yields the list of edges rather than the DOT string. `Verify` yields only its verdict; its `Console` messages are not modelled.
- `SelectNeighbors` (the heuristic selection) is not modelled. Its only call is commented out, and `SelectNeighborsSimple` is used instead.
- `Debug.Assert`, `Dispose`, and the lazy `IEnumerable` results are not modelled.
- Vectors are named by arena position, and `float[]` equality in `CalculateRecall` is equality of references. The contents of vectors play no part in `==`.
- Order. A `PriorityQueue` is a sequence in ascending priority, and a new item goes before the items of equal priority. Among equal priorities the most recently enqueued item is therefore the earliest in an answer listed nearest first, and the earliest enqueued one is at the top, so it is dequeued or replaced first. The .NET heap may break such ties differently. `HashSet` enumeration is modelled as insertion order; .NET puts a new element into the slot a removal freed, so after `Remove`, `PopNearest`, `PopFurthest` or `RemoveAll` its order can differ from the model's, which matters only for how `MinBy`, `MaxBy` and `OrderBy` (Experiments/HNSW/HNSW.cs:368, 373, 592) break ties.
- Sorting. `Array.Sort` is not stable, but the sorts at Experiments/BallTree/Program.cs:181 and 229 are modelled by stable insertion sorts (`BallSearch.SortFarthestFirst` for the children, `NodeDistanceSets.SortByDistance` inside `SelectNeighborsSimple` for a leaf root), so equally distant vectors or balls keep their input order. `OrderBy` at Experiments/HNSW/HNSW.cs:592 is stable in .NET, and `SortByDistance` matches it.
- BallGroups.Group: the members of a group are listed in ascending distance from the group's first item. The source emits them in the order of `PriorityQueue.UnorderedItems` (Experiments/BallTree/Program.cs:130), which depends on the heap's layout.
- Vector lengths. The HNSW index takes its `dist` as a total function, so the `ArgumentException` that `CosineDistance` throws for vectors of different lengths (Experiments/HNSW/HNSW.cs:38-79) is not modelled inside `Add`, `Search`, `SearchExact` or the refresh. All vectors are taken to have one length.
- Hnsw.HNSWCollection.Add: per-level connectivity (every node of a level reachable from the level's first node, which `Verify` checks) is not claimed to survive `Add`. What is proved is that the new node gets a neighbour at each level it shares with the old layers whose cap is at least one.
- Hnsw.HNSWCollection.ConnectAt: the exact graph it produces is stated on `ConnectLevel`, which it calls with `SelectNeighborsSimple` of the search results; its own contract states only the neighbour guarantee for its level.
- Null. Null elements inside lists are not modelled. A null argument is modelled only where the source checks for one.
- RecipeDtos: the property setters are not modelled; a recipe is a value.
- Hnsw.HNSWCollection.AddToLayers: the layer lists are rebuilt as values, not updated in place.
- Hnsw.JoinLayers: the layer lists are rebuilt as values, not updated in place.
- BallTrees.Create: requires `maxNeighbors` of 0 or 1 to come with at most one vector. With two or more vectors the source's `while` loop then never ends, because each round keeps as many balls as it had: `BallGroups.Group` proves that with `groupSize <= 1` there are exactly as many groups as items. The source gives no sign of what it means to do instead (throw, or clamp the cap to two), so this is not listed as a finding with a corrected half.
- BallTrees.Create and BallTrees.Regroup: which items and balls end up together is stated for each call of `Group`, not lifted to the tree.
- BallSearch.NearestNeighborsCorrected: the exact answer is proved only for trees whose balls enclose their vectors. This is a property of the centres and radii computed in floating point, and it is taken as a hypothesis.
- The degree cap of `Verify` is not claimed to hold after `Add`, because the rewiring step of `RefreshNeighborConnections` adds links without checking it.

## Findings

| source | as written | input that shows it | evidently intended | confidence | as-written member | corrected member |
|---|---|---|---|---|---|---|
| Experiments/BallTree/Program.cs:192-195 | a ball is pruned whenever the result queue has a top and the ball is farther than that top, even while the queue holds fewer than `count` vectors | vectors 1, 6, 0, 14 in leaves {1}, {6}, {0, 14} (a tree built by hand; `Create` would put 0 with 1); query 0; count 3: the answer is 0, 1, 14 instead of 0, 1, 6. The source's own use (cap 8 per leaf by default, 10 wanted, Experiments/BallTree/Program.cs:310-344) also has a top in the queue before it holds `count` vectors | prune only once the queue holds `count` vectors | not executed | BallSearch.AsWrittenMisses | BallSearch.NearestNeighborsCorrected |
