# Mention graph

A model of the mention graph of `src/Graph.java` and of the records it uses.
Artists are nodes. Mentions are directed edges weighted by `1 / count`.

The graph is built from an artist file and a mention file, and it answers two queries between two artists named by the user:

- the path with the fewest edges, found by a breadth-first search that exits early;
- the path of least total weight, found by a Dijkstra search that skips stale queue entries.

Both queries report their path through one shared routine. That routine walks the predecessor map back from the destination and adds up, for each hop, the weight of the first matching edge.

Layout, one module per file:

| file | module | models |
|---|---|---|
| `artist.dfy` | `Artists` | `src/Artist.java`: the record, `equals`, `hashCode` and `toString` |
| `mention.dfy` | `Mentions` | `src/Mention.java` as `Graph.java` builds it: an edge carrying the weight `1 / count` |
| `poids_source.dfy` | `PoidsSources` | `src/PoidsSource.java`: a queue entry, its `compareTo`, and the `poll` of the priority queue |
| `loading.dfy` | `Loading` | what loading computes, as a fold over the parsed records |
| `paths.dfy` | `Paths` | walks, edge paths, their costs, the cost the report adds up, and the lower-bound lemmas |
| `breadth_first.dfy` | `BreadthFirst` | the fewest-edges search: a function on its state, its invariants, and its loops |
| `cheapest_first.dfy` | `CheapestFirst` | the minimum-cost search: a function on its state, its invariants, and its loops |
| `graph.dfy` | `MentionGraph` | the `Graph` class: its three maps, the load loops, the lookups, both queries and the report |

The two searches share one pattern:

- A function on a state datatype defines the search: `BreadthFirst.Search` and `CheapestFirst.Run`. Its inner loop is a separate function: `FollowFrom` and `RelaxFrom`.
- A method carries out the loops and is proved to end in that function's result: `FewestHops` and `CheapestCosts`. Their inner loops are `FollowEdges` and `RelaxEdges`.
- Step lemmas show that each iteration keeps the invariant.
- A final lemma states what the search computes: `SearchCorrect` and `CheapestCorrect`.

The queries `MentionGraph.Graph.ShortestPath` and `MentionGraph.Graph.MinCostPath` return a `QueryResult` value in place of printing.

In three places the code behaves otherwise than a caller might expect; the model follows the code:

- The fewest-edges query fails when the source and the destination are the same artist. The loop leaves at src/Graph.java:104-105 before the flag is set, and the check at src/Graph.java:120-121 then throws. A caller might expect a zero-hop path, as the minimum-cost query gives.
- The minimum-cost query reports the cost the shared routine re-adds from the first edge of each hop, src/Graph.java:174-179, not the minimum the search computed. The two agree when no artist has two edges to the same destination (`MinCostPath`'s contract and `Paths.ReportedNotBelowCheapest`).
- Ids are `int`, as in `Graph.java`; `Artist.java` and `Mention.java` use strings. `Graph.java` calls `getIdArtist()` on a queue entry, but `PoidsSource.java` defines the getter as `getArtist()`. The model reads the entry's `artist` field.

## Model

| member | source | states |
|---|---|---|
| Artists.Artist.ToString | src/Artist.java:39-42 | the string is the name, then " (", the category, and ")" |
| Artists.Artist.Equals | src/Artist.java:28-32 | true exactly for an artist that differs from this one at most in its name and category; false for anything that is not an artist |
| Artists.EqualsIsEquivalence | src/Artist.java:28-32 | `equals` is reflexive, symmetric and transitive on artists |
| Artists.EqualsAgreesWithHashCode | src/Artist.java:28-37 | `hashCode` depends only on the id: equal artists have equal hash codes |
| Artists.EqualsIgnoresDescription | src/Artist.java:29-31 | two artists with the same id are equal whatever their name and category; anything that is not an artist is never equal to one |
| Mentions.WeightOf | src/Graph.java:59 | the weight of a record with count > 0 is positive, at most 1, and its product with the count is 1 |
| PoidsSources.PoidsSource.CompareTo | src/PoidsSource.java:18-21 | negative, zero or positive exactly as this cost is below, equal to or above the other's; the ids play no part |
| PoidsSources.CompareToAntisymmetric | src/PoidsSource.java:18-21 | the sign of a.compareTo(b) is the opposite of that of b.compareTo(a) |
| PoidsSources.CompareToTransitive | src/PoidsSource.java:18-21 | the order compareTo defines is transitive |
| PoidsSources.LeastIndex | src/Graph.java:147 | the index names an entry that compares at most equal to every entry, and every earlier entry compares above it |
| PoidsSources.PollOf | src/Graph.java:147 | `poll` yields an entry of the queue that no entry compares below, and leaves exactly the other entries as a multiset |
| PoidsSources.IndexOfLeast | src/Graph.java:147 | the scan returns the index LeastIndex names |
| PoidsSources.Poll | src/Graph.java:147 | removes and returns the entry PollOf names and leaves the rest |
| Loading.PutMention | src/Graph.java:56-64 | one mention record changes neither artist index nor the set of adjacency keys |
| Loading.PutMentions | src/Graph.java:54-66 | the mention records change neither artist index nor the set of adjacency keys |
| Loading.PutArtist | src/Graph.java:37-45 | a malformed line changes nothing; a parsed one files the new artist under its id and its name, adds exactly its id to the known ids and to the adjacency keys, with an empty entry, and exactly its name to the known names, and leaves every other id's artist and adjacency and every other name's artist as they were |
| Loading.PutArtists | src/Graph.java:35-47 | the artist records only add keys to the three indexes, and no records leave the store as it was |
| Loading.Load | src/Graph.java:18-30 | after loading, the known ids are exactly the ids of the parsed artist lines, and they are exactly the ids with an adjacency entry |
| Loading.PutArtistsKeys | src/Graph.java:42-44 | every id filed in the id index also has an adjacency entry |
| Loading.PutArtistWellFormed | src/Graph.java:37-45 | one artist record keeps the store well formed |
| Loading.PutArtistsWellFormed | src/Graph.java:35-47 | the artist records keep the store well formed |
| Loading.PutMentionsWellFormed | src/Graph.java:54-66 | the mention records keep the store well formed: no dangling edge and no non-positive weight is ever stored |
| Loading.LoadWellFormed | src/Graph.java:32-68 | after loading, every edge stored under id `s` has source `s`, both its endpoints are known artists, and its weight is positive; the adjacency keys are exactly the known ids; each artist is filed under its own id and name |
| Loading.LastArtistWinsById | src/Graph.java:41-42 | the artist filed under an id is the one built from the last parsed line with that id |
| Loading.LastArtistWinsByName | src/Graph.java:41-43 | the artist filed under a name is the one built from the last parsed line with that name |
| Loading.ArtistNames | src/Graph.java:35-47 | the known names are exactly those already known and those of the parsed artist lines |
| Loading.ArtistIds | src/Graph.java:35-47 | the known ids are exactly those of the parsed artist lines, and, from a store whose adjacency entries are all empty, every adjacency entry stays empty |
| Loading.KeptSnoc | src/Graph.java:56-64 | one more mention line at the end of the file adds at most its own edge, after the others |
| Loading.PutMentionsKept | src/Graph.java:54-66 | the load loop appends to an id's adjacency exactly the edges of the lines that leave it and join two known artists, in file order |
| Loading.LoadedAdjacency | src/Graph.java:32-68 | after loading, each known artist's adjacency holds exactly those edges |
| Paths.CheapestTo | src/Graph.java:152-160 | names an edge to `v` of least weight among the edges to `v` |
| Paths.FirstWeightTo | src/Graph.java:174-179 | nothing is added for a hop that no edge joins, and nothing negative when no edge weighs less than 0 (which edge's weight is added is FirstWeightAt's contract) |
| Paths.ReportedCost | src/Graph.java:173-182 | a path of fewer than two ids costs 0, and no path costs less than 0 when no edge weighs less than 0 |
| Paths.FirstWeightAt | src/Graph.java:174-179 | the weight the report adds for a hop is that of the first edge, in adjacency order, reaching the hop's id |
| Paths.FirstNotBelowCheapest | src/Graph.java:174-179 | that weight is never below the cheapest edge of the hop |
| Paths.FirstIsCheapestWhenUnique | src/Graph.java:174-179 | without parallel edges, the first edge of a hop is its cheapest |
| Paths.ReportedNotBelowCheapest | src/Graph.java:173-182 | the reported cost of a walk is at least its cheapest cost, and equals it without parallel edges |
| Paths.CheapestRouteIsEdgePath | src/Graph.java:152-160 | the cheapest cost of a walk is the weight of an actual edge path along it |
| Paths.WalkStaysInside | src/Graph.java:102-119 | a walk that starts inside a set closed under edges ends inside it |
| Paths.ClosedUnreachable | src/Graph.java:120-121 | nothing outside a set closed under edges is reachable from inside it |
| Paths.PredChainWalk | src/Graph.java:173-182 | a predecessor chain whose every step is an edge is a walk from its first id to its last |
| Paths.PredChainDepth | src/Graph.java:109-112 | along a chain where each id lies one level below its predecessor, the last id lies as many levels down as there are hops |
| Paths.PredChainCheapest | src/Graph.java:155-159 | along a chain where each cost is the predecessor's plus the cheapest edge, the last cost is the first plus the chain's cheapest cost |
| Paths.FrontierLowerBound | src/Graph.java:102-119 | no walk reaches the destination in fewer hops than its breadth-first depth |
| Paths.RelaxedLowerBound | src/Graph.java:152-160 | when every id with a cost has all its edges relaxed, every edge path from it ends at an id with a cost, and that cost is at most the start's plus the path's weight |
| Paths.BelowShrinks | src/Graph.java:173-182 | fewer ids cost less than a cheaper id, so the walk back along predecessors ends |
| BreadthFirst.Start | src/Graph.java:97-99 | the seeded state is discovered, layered, expanded and covered |
| BreadthFirst.Discover | src/Graph.java:109-112 | discovering an id keeps Discovered |
| BreadthFirst.LayeredAppend | src/Graph.java:110 | appending an id one level deeper keeps the queue layered |
| BreadthFirst.LayeredNext | src/Graph.java:103 | when the current level runs out, the queue is layered at the next level |
| BreadthFirst.LayeredPop | src/Graph.java:103 | taking the head keeps the queue layered |
| BreadthFirst.ExpandedGrow | src/Graph.java:109-112 | discovering more ids keeps Expanded |
| BreadthFirst.ExpandedNext | src/Graph.java:103 | Expanded still holds at the next level |
| BreadthFirst.ExpandedAdd | src/Graph.java:107-118 | an id whose edges all lead to ids at most one level deeper may join the expanded ones |
| BreadthFirst.ReachesGrow | src/Graph.java:109-112 | discovering more ids keeps Reaches |
| BreadthFirst.ReachesSnoc | src/Graph.java:107-117 | one more followed edge extends Reaches |
| BreadthFirst.SeenDepth | src/Graph.java:109 | an already discovered id lies at most one level below the current one |
| BreadthFirst.CoveredPop | src/Graph.java:103 | taking the head keeps every discovered id expanded, current or queued |
| BreadthFirst.CoveredAppend | src/Graph.java:110-112 | queueing a discovered id keeps Covered |
| BreadthFirst.LinksClosed | src/Graph.java:107-117 | an expanded id's every neighbour is discovered at most one level deeper |
| BreadthFirst.Frontier | src/Graph.java:102-103 | the queue and the current id together hold everything not yet expanded, all at the current level or one deeper |
| BreadthFirst.NoShorterWalk | src/Graph.java:102-119 | FrontierLowerBound for every walk at once |
| BreadthFirst.NearestWhenFound | src/Graph.java:114-116 | when the destination is reached, no walk from the source reaches it in fewer hops than its depth |
| BreadthFirst.UnreachableWhenExhausted | src/Graph.java:102-121 | when the queue runs out without the destination, it is unreachable |
| BreadthFirst.ChainIsShortestWalk | src/Graph.java:173-182 | the predecessor chain of a discovered id is a walk from the source with as many hops as the id's depth |
| BreadthFirst.Init | src/Graph.java:93-101 | the source alone is queued and discovered, it is its own predecessor, and the flag is down |
| BreadthFirst.Follow | src/Graph.java:108-116 | one edge discovers at most its destination; a new destination is appended to the queue with `current` as its predecessor, a seen one leaves the queue and the predecessors as they were; the flag is set exactly when the destination is `d`; the expanded ids and the level stay as they were |
| BreadthFirst.FollowFrom | src/Graph.java:107-117 | the inner loop discovers only destinations of the remaining edges, and queues nothing when it discovers nothing |
| BreadthFirst.Pop | src/Graph.java:103 | taking the head leaves the rest of the queue and the discovered and expanded ids |
| BreadthFirst.Expand | src/Graph.java:107-118 | expanding an id discovers only its neighbours |
| BreadthFirst.Search | src/Graph.java:102-119 | the search over a closed adjacency discovers only ids with adjacency entries |
| BreadthFirst.ExpandInside | src/Graph.java:107-117 | expanding an id of a closed adjacency discovers only ids with adjacency entries |
| BreadthFirst.InitKeeps | src/Graph.java:97-101 | the start state satisfies the invariant |
| BreadthFirst.PopKeeps | src/Graph.java:103-106 | taking a head that is not the destination leads to the inner-loop invariant |
| BreadthFirst.FollowNew | src/Graph.java:109-112 | discovering a new destination keeps the inner-loop invariant |
| BreadthFirst.FollowSeen | src/Graph.java:109 | an already discovered destination keeps the inner-loop invariant |
| BreadthFirst.FollowKeeps | src/Graph.java:108-116 | one edge keeps the inner-loop invariant |
| BreadthFirst.FollowFromKeeps | src/Graph.java:107-117 | the inner loop keeps its invariant |
| BreadthFirst.ExpandKeeps | src/Graph.java:107-118 | expanding the head restores the outer invariant |
| BreadthFirst.StepKeeps | src/Graph.java:102-118 | one outer iteration keeps the invariant |
| BreadthFirst.SearchKeeps | src/Graph.java:102-119 | the search ends in a state that satisfies the invariant, with the destination found or the queue empty |
| BreadthFirst.ChainTo | src/Graph.java:173-182 | the predecessor chain from the source to a discovered id |
| BreadthFirst.DiscoveredReachable | src/Graph.java:109-112 | every discovered id is reachable from the source |
| BreadthFirst.SearchCorrect | src/Graph.java:93-122 | the search finds the destination exactly when it differs from the source and is reachable, and it is then discovered at the least hop count of any walk |
| BreadthFirst.FollowEdges | src/Graph.java:107-117 | the inner loop ends in the state FollowFrom gives |
| BreadthFirst.FewestHops | src/Graph.java:93-119 | the outer loop ends in the state Search gives |
| CheapestFirst.Init | src/Graph.java:138-145 | only the source has a cost, 0, and a predecessor, itself; the queue holds the single entry (0, source); no id is relaxed yet |
| CheapestFirst.Stale | src/Graph.java:149-151 | an entry for an id without a cost is never stale; when every queued entry bounds its id's cost, a queued entry is fresh exactly when it is at its id's cost |
| CheapestFirst.Settle | src/Graph.java:146-161 | a stale polled entry is only dropped; otherwise its id joins the relaxed ids; no cost is forgotten or raised |
| CheapestFirst.Relax | src/Graph.java:153-160 | after relaxing an edge every id that had a cost still has one, and the relaxed ids are left alone |
| CheapestFirst.RelaxFrom | src/Graph.java:152-161 | after the inner loop every id that had a cost still has one, and the relaxed ids are left alone |
| CheapestFirst.RelaxFromNothing | src/Graph.java:152-161 | relaxing an id all of whose edges are already relaxed changes nothing |
| CheapestFirst.Run | src/Graph.java:146-162 | the search ends with an empty queue in a state that satisfies the invariant |
| CheapestFirst.PollKeeps | src/Graph.java:147-151 | the polled entry's id has a cost; a stale entry is dropped keeping the invariant; otherwise the entry is at its id's cost, which is the least of all queued |
| CheapestFirst.RelaxFromMono | src/Graph.java:155-157 | the inner loop never forgets a cost and never raises one |
| CheapestFirst.RelaxFromFixed | src/Graph.java:154-157 | with positive weights the inner loop leaves the current id's cost, and every cost not above it, as it was |
| CheapestFirst.RelaxFromQueueGrows | src/Graph.java:158 | the inner loop only adds entries to the queue |
| CheapestFirst.RelaxFromEntries | src/Graph.java:156-158 | every entry the inner loop adds costs more than the current id, and is for an id costing at most the entry |
| CheapestFirst.RelaxFromCases | src/Graph.java:155-159 | after the inner loop each id kept its cost, predecessor and edge, or got its cost through an edge of the current id, with a queue entry at that cost |
| CheapestFirst.RelaxFromReaches | src/Graph.java:152-160 | after the inner loop each edge of the current id leads to an id costing at most the current cost plus the edge's weight |
| CheapestFirst.RelaxFromKeys | src/Graph.java:157-159 | the cost and predecessor maps keep the same keys |
| CheapestFirst.RelaxAllKeeps | src/Graph.java:152-161 | relaxing all edges of a freshly polled id and marking it relaxed restores the invariant |
| CheapestFirst.KeepsSource | src/Graph.java:139-142 | the source stays its own predecessor |
| CheapestFirst.KeepsInside | src/Graph.java:157 | every id with a cost has an adjacency entry |
| CheapestFirst.KeepsNonnegative | src/Graph.java:154-157 | no cost becomes negative |
| CheapestFirst.KeepsQueued | src/Graph.java:157-158 | every entry is for an id costing at most the entry |
| CheapestFirst.KeepsSettledBound | src/Graph.java:147-158 | the relaxed ids cost no more than any entry |
| CheapestFirst.KeepsRelaxed | src/Graph.java:152-160 | the edges of every relaxed id lead to ids costing at most its cost plus the edge's weight |
| CheapestFirst.KeepsPending | src/Graph.java:157-158 | every id with a cost is relaxed or has an entry at exactly that cost |
| CheapestFirst.KeepsThrough | src/Graph.java:157-159 | every id but the source got its cost through an edge from its predecessor |
| CheapestFirst.SettleKeeps | src/Graph.java:146-161 | one outer iteration keeps the invariant, and relaxes one more id or shortens the queue |
| CheapestFirst.SettleStep | src/Graph.java:146-161 | SettleKeeps, stated on Settle, with the drop of the termination measure |
| CheapestFirst.InitKeeps | src/Graph.java:138-145 | the seeded state satisfies the invariant |
| CheapestFirst.RunStep | src/Graph.java:146-161 | a non-empty queue takes one outer iteration |
| CheapestFirst.RunStop | src/Graph.java:146 | an empty queue ends the search |
| CheapestFirst.RelaxEdges | src/Graph.java:152-161 | the inner loop ends in the state RelaxFrom gives |
| CheapestFirst.CheapestCosts | src/Graph.java:138-162 | the outer loop ends in the state Run gives |
| CheapestFirst.EndPriced | src/Graph.java:146-162 | at the end every id with a cost is relaxed, costs more than its predecessor, and costs exactly the predecessor's cost plus the cheapest edge between them |
| CheapestFirst.ChainBack | src/Graph.java:173-182 | the predecessor chain from the source to an id with a cost |
| CheapestFirst.CheapestCorrect | src/Graph.java:138-165 | the destination gets a predecessor exactly when it is reachable; its cost is then the weight of some edge path from the source, and no edge path weighs less |
| CheapestFirst.PricedRank | src/Graph.java:173-182 | a measure that drops along the predecessor chain, so the walk back ends |
| CheapestFirst.PricedChain | src/Graph.java:173-182 | a predecessor chain from the source is a walk, and its last id costs the walk's cheapest cost |
| MentionGraph.Graph.constructor | src/Graph.java:18-30 | the graph holds what Load computes, and it is well formed |
| MentionGraph.Graph.LoadArtists | src/Graph.java:32-49 | the three maps become what PutArtists computes |
| MentionGraph.Graph.LoadMentions | src/Graph.java:51-68 | the three maps become what PutMentions computes |
| MentionGraph.Graph.GetArtistById | src/Graph.java:70-72 | the artist filed under the id, or none exactly when the id is unknown; in a valid graph it has that id |
| MentionGraph.Graph.GetArtistByName | src/Graph.java:74-76 | the artist filed under the name, or none exactly when the name is unknown; in a valid graph it has that name and a known id |
| MentionGraph.Graph.GetOutgoingMentions | src/Graph.java:78-80 | the adjacency of the id, or none exactly when the id is unknown; in a valid graph its edges leave that id, reach a known artist and weigh more than 0 |
| MentionGraph.Graph.ShortestPath | src/Graph.java:82-125 | fails on an unknown name; otherwise fails exactly when source and destination are equal or no walk joins them; on success it reports a walk from source to destination with the fewest hops of any walk, its hop count, its reported cost and its artists |
| MentionGraph.Graph.ValidClosed | src/Graph.java:61-64 | in a valid graph every edge ends at an id with an adjacency entry |
| MentionGraph.Graph.ValidPositive | src/Graph.java:59-62 | in a valid graph every edge weighs more than 0 |
| MentionGraph.Graph.MinCostPath | src/Graph.java:128-167 | fails on an unknown name; otherwise fails exactly when no walk joins source and destination (a source reaches itself, so source as destination succeeds with zero hops); on success it reports a walk whose cheapest cost is the least weight of any edge path between them; the reported cost is never below that weight, and equals it when no two edges of an artist share a destination |
| MentionGraph.Graph.Report | src/Graph.java:169-191 | the path runs from source to destination following the predecessor map; the hop count is one less than its length; the cost adds the first matching edge of each hop; the artists are those filed under the path's ids |

## Left out

- Reading the two files, and the `IOException` that the constructor catches and prints (src/Graph.java:23-29, 33-35, 52-54). The constructor takes the lines already split into records (`ArtistRecord`, `MentionRecord`).
- `String.split` and `Integer.parseInt`, whose `NumberFormatException` is not caught. A line of the wrong shape is a `Malformed…` record and is skipped, as the length check does. A line that fails to parse is not modelled.
- A mention count of 0 or below. The model requires every parsed count to be positive (`CountsPositive`). Java would store an infinite or negative weight, and a negative weight breaks the minimum-cost search.
- IEEE-754 doubles. Weights and costs are exact `real`s, so there is no rounding, no NaN and no -0.0. `Double.POSITIVE_INFINITY` as the default cost is written as "no cost yet".
- 32-bit wrap-around of the `int` ids. Ids are unbounded integers; they are only compared and used as keys.
- The order of `HashSet` and `HashMap`. An adjacency is a sequence in input order, which fixes the order in which the searches meet edges.
- Java hashing internals and the anonymous `HashSet` subclass at src/Graph.java:44.
- PoidsSources.Poll: the heap order of `PriorityQueue` is not modelled. Poll takes the first entry, in insertion order, that no other entry compares below. The Java queue may return any least entry, and `PollOf`'s contract states only what holds for every least entry.
- The console output of both queries and of the report (src/Graph.java:183-190). The queries return a `QueryResult` and the report returns a `PathReport`.
- `Mention.toString` (src/Mention.java:20-22): it renders numbers in decimal, which a `real` weight does not fix.
- The two failures of each query throw the same `RuntimeException`. They are told apart in the result (`ArtistNotFound`, `PathNotFound`).
- Java `equals` and `==` on `Mention`: `Mention` does not override `equals`. The model never compares edges, and a sequence keeps every copy of a parallel edge.
- The predecessor of the source is `null` in Java (src/Graph.java:98, 142). The model stores the source as its own predecessor; the value is never read.
- `getOutgoingMentions` on an id without an adjacency entry returns `null` in Java. Inside the searches this cannot happen in a valid graph. `Paths.Out` gives the empty sequence there, while `MentionGraph.Graph.GetOutgoingMentions` returns `None`.
- Each Java query method is split in the model. The searches' loops are module-level methods over the adjacency map (`BreadthFirst.FewestHops`, `CheapestFirst.CheapestCosts`); the query methods resolve the names and call them. The proof-only parts of the search states are ghost: depth, discovering edge, expanded ids, relaxed ids.
