/** Paths in the mention graph and what the two searches rely on: walks (node
    sequences joined by edges), edge paths and their costs, the cost the shared
    reporting routine adds up, and the lemmas that turn the searches' loop
    invariants into their results (src/Graph.java:82-191). */
module Paths {
  import opened Mentions

  type Adjacency = map<int, seq<Mention>>

  /** The outgoing edges of `x`, none for an unknown id. */
  function Out(adj: Adjacency, x: int): seq<Mention> {
    if x in adj then adj[x] else []
  }

  /** Some edge of `edges` ends at `y`. */
  ghost predicate Links(edges: seq<Mention>, y: int) {
    exists k :: 0 <= k < |edges| && edges[k].destination == y
  }

  /** `p` is a walk from `s` to `d`: a non-empty sequence of ids starting at
      `s`, ending at `d`, each id joined to the next by an edge. */
  ghost predicate WalkBetween(adj: Adjacency, p: seq<int>, s: int, d: int)
    decreases |p|
  {
    |p| > 0 && p[0] == s &&
    if |p| == 1 then s == d else Links(Out(adj, s), p[1]) && WalkBetween(adj, p[1..], p[1], d)
  }

  /** `d` can be reached from `s` by following edges. */
  ghost predicate Reachable(adj: Adjacency, s: int, d: int) {
    exists p :: WalkBetween(adj, p, s, d)
  }

  /** `es` is a sequence of stored edges leading from `s` to `d`; parallel
      edges make several edge paths along one walk. */
  ghost predicate IsEdgePath(adj: Adjacency, es: seq<Mention>, s: int, d: int)
    decreases |es|
  {
    if es == [] then s == d
    else es[0] in Out(adj, s) && IsEdgePath(adj, es[1..], es[0].destination, d)
  }

  /** The total weight of an edge path. */
  function Cost(es: seq<Mention>): real
    decreases |es|
  {
    if es == [] then 0.0 else es[0].weight + Cost(es[1..])
  }

  /** No edge of `edges` has a negative weight. */
  ghost predicate NotNegative(edges: seq<Mention>) {
    forall e :: e in edges ==> e.weight >= 0.0
  }

  /** What the reporting loop adds for one hop to `v`: the weight of the first
      edge of `edges`, in adjacency order, that ends at `v`; nothing when no
      edge does (src/Graph.java:174-179). */
  function FirstWeightTo(edges: seq<Mention>, v: int): (w: real)
    ensures !Links(edges, v) ==> w == 0.0
    ensures NotNegative(edges) ==> w >= 0.0
    decreases |edges|
  {
    if edges == [] then 0.0
    else if edges[0].destination == v then edges[0].weight
    else
      FirstWeightTo(edges[1..], v)
  }

  /** The cost the reporting routine gives a path: for each hop, the weight of
      the first edge joining its two ids. */
  function ReportedCost(adj: Adjacency, p: seq<int>): (c: real)
    ensures |p| < 2 ==> c == 0.0
    ensures (forall x :: x in adj ==> NotNegative(adj[x])) ==> c >= 0.0
    decreases |p|
  {
    if |p| < 2 then 0.0 else FirstWeightTo(Out(adj, p[0]), p[1]) + ReportedCost(adj, p[1..])
  }


  lemma LinksTail(edges: seq<Mention>, v: int)
    requires Links(edges, v) && edges[0].destination != v
    ensures Links(edges[1..], v)
  {
    var k :| 0 <= k < |edges| && edges[k].destination == v;
    assert edges[1..][k - 1] == edges[k];
  }

  /** Among the edges of `edges` that end at `v`, one of least weight. */
  ghost function CheapestTo(edges: seq<Mention>, v: int): (e: Mention)
    requires Links(edges, v)
    ensures e in edges && e.destination == v
    ensures forall k :: 0 <= k < |edges| && edges[k].destination == v ==> e.weight <= edges[k].weight
    decreases |edges|
  {
    if edges[0].destination == v then
      if Links(edges[1..], v) then
        var c := CheapestTo(edges[1..], v);
        assert forall k :: 1 <= k < |edges| ==> edges[k] == edges[1..][k - 1];
        if edges[0].weight <= c.weight then edges[0] else c
      else
        edges[0]
    else
      LinksTail(edges, v);
      var c := CheapestTo(edges[1..], v);
      assert forall k :: 1 <= k < |edges| ==> edges[k] == edges[1..][k - 1];
      c
  }

  /** The cost of a walk when every hop takes its cheapest edge. */
  ghost function CheapestCost(adj: Adjacency, p: seq<int>): real
    requires |p| > 0 && WalkBetween(adj, p, p[0], p[|p| - 1])
    decreases |p|
  {
    if |p| == 1 then 0.0 else CheapestTo(Out(adj, p[0]), p[1]).weight + CheapestCost(adj, p[1..])
  }

  /** The edges that CheapestCost adds up. */
  ghost function CheapestRoute(adj: Adjacency, p: seq<int>): seq<Mention>
    requires |p| > 0 && WalkBetween(adj, p, p[0], p[|p| - 1])
    decreases |p|
  {
    if |p| == 1 then [] else [CheapestTo(Out(adj, p[0]), p[1])] + CheapestRoute(adj, p[1..])
  }

  /** The first-edge weight of a hop is that of the first edge in adjacency
      order ending at `v`, and nothing when there is none. */
  lemma {:induction false} FirstWeightAt(edges: seq<Mention>, v: int, k: nat)
    requires k <= |edges|
    requires forall j :: 0 <= j < k ==> edges[j].destination != v
    requires k < |edges| ==> edges[k].destination == v
    ensures FirstWeightTo(edges, v) == if k < |edges| then edges[k].weight else 0.0
    decreases k
  {
    if k > 0 {
      assert edges[0].destination != v;
      assert forall j :: 0 <= j < k - 1 ==> edges[1..][j] == edges[j + 1];
      FirstWeightAt(edges[1..], v, k - 1);
    }
  }

  /** A hop's first-edge weight is never below its cheapest edge's weight. */
  lemma {:induction false} FirstNotBelowCheapest(edges: seq<Mention>, v: int)
    requires Links(edges, v)
    ensures FirstWeightTo(edges, v) >= CheapestTo(edges, v).weight
    decreases |edges|
  {
    if edges[0].destination != v {
      LinksTail(edges, v);
      FirstNotBelowCheapest(edges[1..], v);
    }
  }

  /** No two edges of one adjacency sequence end at the same artist. */
  ghost predicate NoParallelEdges(adj: Adjacency) {
    forall x, i, j :: x in adj && 0 <= i < j < |adj[x]| ==> adj[x][i].destination != adj[x][j].destination
  }

  /** Without parallel edges the first edge of a hop is its only one. */
  lemma {:induction false} FirstIsCheapestWhenUnique(edges: seq<Mention>, v: int)
    requires Links(edges, v)
    requires forall i, j :: 0 <= i < j < |edges| ==> edges[i].destination != edges[j].destination
    ensures FirstWeightTo(edges, v) == CheapestTo(edges, v).weight
    decreases |edges|
  {
    var k :| 0 <= k < |edges| && edges[k].destination == v;
    FirstWeightAt(edges, v, k);
  }

  /** The cost the reporting routine gives a walk is at least its cheapest
      cost, and equal to it when the graph has no parallel edges. */
  lemma {:induction false} ReportedNotBelowCheapest(adj: Adjacency, p: seq<int>)
    requires |p| > 0 && WalkBetween(adj, p, p[0], p[|p| - 1])
    ensures ReportedCost(adj, p) >= CheapestCost(adj, p)
    ensures NoParallelEdges(adj) ==> ReportedCost(adj, p) == CheapestCost(adj, p)
    decreases |p|
  {
    if |p| > 1 {
      ReportedNotBelowCheapest(adj, p[1..]);
      FirstNotBelowCheapest(Out(adj, p[0]), p[1]);
      if NoParallelEdges(adj) {
        FirstIsCheapestWhenUnique(Out(adj, p[0]), p[1]);
      }
    }
  }

  /** The cheapest cost of a walk is the cost of an actual edge path. */
  lemma {:induction false} CheapestRouteIsEdgePath(adj: Adjacency, p: seq<int>)
    requires |p| > 0 && WalkBetween(adj, p, p[0], p[|p| - 1])
    ensures IsEdgePath(adj, CheapestRoute(adj, p), p[0], p[|p| - 1])
    ensures Cost(CheapestRoute(adj, p)) == CheapestCost(adj, p)
    decreases |p|
  {
    if |p| > 1 {
      CheapestRouteIsEdgePath(adj, p[1..]);
      var r := CheapestRoute(adj, p);
      assert r[1..] == CheapestRoute(adj, p[1..]);
    }
  }

  /** A walk that starts inside a set closed under edges stays inside it. */
  lemma {:induction false} WalkStaysInside(adj: Adjacency, inside: set<int>, p: seq<int>, s: int, d: int)
    requires WalkBetween(adj, p, s, d)
    requires s in inside
    requires forall x, y :: x in inside && Links(Out(adj, x), y) ==> y in inside
    ensures d in inside
    decreases |p|
  {
    if |p| > 1 {
      WalkStaysInside(adj, inside, p[1..], p[1], d);
    }
  }

  /** Nothing outside a set closed under edges is reachable from inside it. */
  lemma ClosedUnreachable(adj: Adjacency, inside: set<int>, s: int, d: int)
    requires s in inside && d !in inside
    requires forall x, y :: x in inside && Links(Out(adj, x), y) ==> y in inside
    ensures !Reachable(adj, s, d)
  {
    forall p | WalkBetween(adj, p, s, d) ensures false {
      WalkStaysInside(adj, inside, p, s, d);
    }
  }

  /** `p` follows a predecessor map backwards: every id after the first has the
      id before it as predecessor, and only the first is `root`. */
  ghost predicate FollowsPred(pred: map<int, int>, root: int, p: seq<int>) {
    && |p| > 0
    && (forall i :: 0 < i < |p| ==> p[i] in pred && pred[p[i]] == p[i - 1])
    && (forall i :: 0 < i < |p| ==> p[i] != root)
  }

  /** A chain of predecessors along which each predecessor has an edge to its
      successor is a walk. */
  lemma {:induction false} PredChainWalk(adj: Adjacency, pred: map<int, int>, root: int, p: seq<int>)
    requires FollowsPred(pred, root, p)
    requires forall v :: v in pred && v != root ==> Links(Out(adj, pred[v]), v)
    ensures WalkBetween(adj, p, p[0], p[|p| - 1])
    decreases |p|
  {
    if |p| > 1 {
      assert p[1] in pred && pred[p[1]] == p[0] && p[1] != root;
      assert forall i :: 0 < i < |p| - 1 ==> p[1..][i] == p[i + 1];
      PredChainWalk(adj, pred, root, p[1..]);
    }
  }

  /** Along a predecessor chain where each id lies one level below its
      predecessor, the last id lies as many levels below the first as there are
      hops. */
  lemma {:induction false} PredChainDepth(pred: map<int, int>, dist: map<int, nat>, root: int, p: seq<int>)
    requires FollowsPred(pred, root, p)
    requires p[0] in dist
    requires forall v :: v in pred && v != root ==> v in dist && pred[v] in dist && dist[v] == dist[pred[v]] + 1
    ensures p[|p| - 1] in dist && dist[p[|p| - 1]] == dist[p[0]] + |p| - 1
    decreases |p|
  {
    if |p| > 1 {
      assert p[1] in pred && pred[p[1]] == p[0] && p[1] != root;
      assert forall i :: 0 < i < |p| - 1 ==> p[1..][i] == p[i + 1];
      PredChainDepth(pred, dist, root, p[1..]);
    }
  }

  /** Along a predecessor chain where each id's cost is its predecessor's plus
      the cheapest edge between them, the last id's cost is the first's plus the
      chain's cheapest cost. */
  lemma {:induction false} PredChainCheapest(adj: Adjacency, pred: map<int, int>, best: map<int, real>, root: int, p: seq<int>)
    requires FollowsPred(pred, root, p)
    requires WalkBetween(adj, p, p[0], p[|p| - 1])
    requires p[0] in best
    requires forall v :: v in pred && v != root ==>
      v in best && pred[v] in best && Links(Out(adj, pred[v]), v) &&
      best[v] == best[pred[v]] + CheapestTo(Out(adj, pred[v]), v).weight
    ensures p[|p| - 1] in best && best[p[|p| - 1]] == best[p[0]] + CheapestCost(adj, p)
    decreases |p|
  {
    if |p| > 1 {
      assert p[1] in pred && pred[p[1]] == p[0] && p[1] != root;
      assert forall i :: 0 < i < |p| - 1 ==> p[1..][i] == p[i + 1];
      PredChainCheapest(adj, pred, best, root, p[1..]);
    }
  }

  /** The breadth-first lower bound. Suppose every id of `dist` is either
      expanded (in `done`; each of its edges leads to an id of `dist` at most
      one level further) or waiting in `frontier` at level `level` or deeper,
      and the destination `d` is not expanded and lies at most at `level + 1`.
      Then no walk reaches `d` in fewer hops than its level below the walk's
      start. */
  lemma {:induction false} FrontierLowerBound(adj: Adjacency, dist: map<int, nat>, done: set<int>,
                                              frontier: seq<int>, level: nat, p: seq<int>, x: int, d: int)
    requires WalkBetween(adj, p, x, d)
    requires x in dist && done <= dist.Keys
    requires forall u, y :: u in done && Links(Out(adj, u), y) ==> y in dist && dist[y] <= dist[u] + 1
    requires forall v :: v in dist ==> v in done || v in frontier
    requires forall v :: v in frontier ==> v in dist && dist[v] >= level
    requires d in dist && d !in done && dist[d] <= level + 1
    ensures dist[d] <= dist[x] + |p| - 1
    decreases |p|
  {
    if x in done {
      assert |p| > 1;
      FrontierLowerBound(adj, dist, done, frontier, level, p[1..], p[1], d);
    }
  }

  /** The label-correcting lower bound. If every id of `best` has been
      relaxed (each of its edges leads to an id of `best` whose cost is at most
      its own plus the edge's weight), then every edge path from an id of
      `best` ends at an id of `best`, at a cost at most the start's plus the
      path's weight. */
  lemma {:induction false} RelaxedLowerBound(adj: Adjacency, best: map<int, real>, es: seq<Mention>, x: int, d: int)
    requires IsEdgePath(adj, es, x, d)
    requires x in best
    requires forall u, e :: u in best && e in Out(adj, u) ==>
      e.destination in best && best[e.destination] <= best[u] + e.weight
    ensures d in best && best[d] <= best[x] + Cost(es)
    decreases |es|
  {
    if es != [] {
      RelaxedLowerBound(adj, best, es[1..], es[0].destination, d);
    }
  }

  /** The ids whose cost is below `v`'s. */
  ghost function Below(best: map<int, real>, v: int): set<int>
    requires v in best
  {
    set x | x in best && best[x] < best[v]
  }

  /** Fewer ids are cheaper than a cheaper id: the count of cheaper ids is a
      natural-number measure that drops along a predecessor chain. */
  lemma BelowShrinks(best: map<int, real>, u: int, v: int)
    requires u in best && v in best && best[u] < best[v]
    ensures |Below(best, u)| < |Below(best, v)|
  {
    var bu, bv := Below(best, u), Below(best, v);
    assert bu <= bv;
    assert u in bv - bu;
    assert bv == bu + (bv - bu);
    assert |bv - bu| >= 1;
  }

  /** Every edge stored under an id leads to an id with an adjacency entry. */
  ghost predicate Closed(adj: Adjacency) {
    forall x, e :: x in adj && e in adj[x] ==> e.destination in adj
  }

  /** Removing ids from the ones still to be taken shrinks their number. */
  lemma FewerLeft(keys: set<int>, a: set<int>, b: set<int>)
    requires a < b <= keys
    ensures |keys - b| < |keys - a|
  {
    assert keys - a == (keys - b) + (b - a);
    assert (keys - b) !! (b - a);
    assert |b - a| > 0;
  }
}
