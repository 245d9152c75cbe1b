/** The fewest-edges search (src/Graph.java:93-119): its bookkeeping as
    predicates on its variables, the search as a function on its state with
    one lemma per step showing that the step keeps them, what it computes, and
    the loops that carry it out. */
module BreadthFirst {
  import opened Mentions
  import opened Paths

  /** Everything the search has discovered: the discovered ids are the keys
      of the predecessor map and of the (proof-only) depth map and all have
      adjacency entries; the source is its own predecessor, at depth 0; every
      other discovered id lies one level deeper than its predecessor and was
      discovered along the edge of its predecessor at (proof-only) index
      `via[v]`. */
  ghost predicate Discovered(adj: Adjacency, s: int, pred: map<int, int>, visited: set<int>,
                             dist: map<int, nat>, via: map<int, nat>) {
    && s in visited && visited == pred.Keys && visited == dist.Keys && visited <= adj.Keys
    && pred[s] == s && dist[s] == 0
    && forall v {:trigger pred[v]} :: v in pred && v != s ==>
         && pred[v] in pred && dist[v] == dist[pred[v]] + 1
         && v in via && via[v] < |Out(adj, pred[v])| && Out(adj, pred[v])[via[v]].destination == v
  }

  /** The queue holds discovered ids in order of depth: its first `m` lie at
      depth `level`, the rest one level deeper. */
  ghost predicate Layered(queue: seq<int>, dist: map<int, nat>, level: nat, m: nat) {
    && m <= |queue|
    && forall i :: 0 <= i < |queue| ==>
         queue[i] in dist && dist[queue[i]] == if i < m then level else level + 1
  }

  /** The ids whose edges have all been followed lie no deeper than `level`,
      and each of their edges leads to a discovered id at most one level
      deeper. */
  ghost predicate Expanded(adj: Adjacency, done: set<int>, dist: map<int, nat>, level: nat) {
    && done <= dist.Keys
    && (forall u :: u in done ==> dist[u] <= level)
    && forall u, e :: u in done && e in Out(adj, u) ==> e.destination in dist && dist[e.destination] <= dist[u] + 1
  }

  /** Every discovered id is expanded or still waiting in the queue. */
  ghost predicate Covered(visited: set<int>, done: set<int>, queue: seq<int>) {
    forall v :: v in visited ==> v in done || v in queue
  }

  /** Every edge of `es` leads to a discovered id no deeper than `bound`. */
  ghost predicate Reaches(dist: map<int, nat>, es: seq<Mention>, bound: nat) {
    forall e :: e in es ==> e.destination in dist && dist[e.destination] <= bound
  }

  lemma Start(adj: Adjacency, s: int)
    requires s in adj
    ensures Discovered(adj, s, map[s := s], {s}, map[s := 0], map[])
    ensures Layered([s], map[s := 0], 0, 1)
    ensures Expanded(adj, {}, map[s := 0], 0)
    ensures Covered({s}, {}, [s])
  {
  }

  /** Discovering `v` along the edge at index `k` of the discovered id `u`. */
  lemma Discover(adj: Adjacency, s: int, pred: map<int, int>, visited: set<int>, dist: map<int, nat>, via: map<int, nat>,
                 u: int, k: nat, v: int)
    requires Discovered(adj, s, pred, visited, dist, via)
    requires u in visited && k < |Out(adj, u)| && Out(adj, u)[k].destination == v && v in adj && v !in visited
    ensures Discovered(adj, s, pred[v := u], visited + {v}, dist[v := dist[u] + 1], via[v := k])
  {
  }

  /** Appending a newly discovered id one level deeper. */
  lemma LayeredAppend(queue: seq<int>, dist: map<int, nat>, level: nat, m: nat, v: int)
    requires Layered(queue, dist, level, m) && v !in dist
    ensures Layered(queue + [v], dist[v := level + 1], level, m)
  {
  }

  /** Once the ids at depth `level` are used up, the queue holds only ids at
      the next depth. */
  lemma LayeredNext(queue: seq<int>, dist: map<int, nat>, level: nat)
    requires Layered(queue, dist, level, 0)
    ensures Layered(queue, dist, level + 1, |queue|)
  {
  }

  /** Taking the head of the queue: it lies at depth `level`. */
  lemma LayeredPop(queue: seq<int>, dist: map<int, nat>, level: nat, m: nat)
    requires Layered(queue, dist, level, m) && 0 < m
    ensures queue[0] in dist && dist[queue[0]] == level
    ensures Layered(queue[1..], dist, level, m - 1)
  {
    assert forall i :: 0 <= i < |queue| - 1 ==> queue[1..][i] == queue[i + 1];
  }

  lemma ExpandedGrow(adj: Adjacency, done: set<int>, dist: map<int, nat>, level: nat, v: int, n: nat)
    requires Expanded(adj, done, dist, level) && v !in dist
    ensures Expanded(adj, done, dist[v := n], level)
  {
  }

  lemma ExpandedNext(adj: Adjacency, done: set<int>, dist: map<int, nat>, level: nat)
    requires Expanded(adj, done, dist, level)
    ensures Expanded(adj, done, dist, level + 1)
  {
  }

  /** Finishing id `u` at depth `level` once all its edges are followed. */
  lemma ExpandedAdd(adj: Adjacency, done: set<int>, dist: map<int, nat>, level: nat, u: int)
    requires Expanded(adj, done, dist, level)
    requires u in dist && dist[u] == level && Reaches(dist, Out(adj, u), level + 1)
    ensures Expanded(adj, done + {u}, dist, level)
  {
  }

  lemma ReachesGrow(dist: map<int, nat>, es: seq<Mention>, bound: nat, v: int, n: nat)
    requires Reaches(dist, es, bound) && v !in dist
    ensures Reaches(dist[v := n], es, bound)
  {
  }

  lemma ReachesSnoc(dist: map<int, nat>, es: seq<Mention>, e: Mention, bound: nat)
    requires Reaches(dist, es, bound)
    requires e.destination in dist && dist[e.destination] <= bound
    ensures Reaches(dist, es + [e], bound)
  {
  }

  /** An id seen again while expanding `current` lies at most one level below
      it. */
  lemma SeenDepth(adj: Adjacency, visited: set<int>, dist: map<int, nat>, done: set<int>, queue: seq<int>, level: nat, m: nat,
                  current: int, v: int)
    requires visited == dist.Keys
    requires Layered(queue, dist, level, m)
    requires Expanded(adj, done, dist, level)
    requires Covered(visited, done + {current}, queue)
    requires current in dist && dist[current] == level
    requires v in visited
    ensures dist[v] <= level + 1
  {
    if v !in done && v != current {
      var i :| 0 <= i < |queue| && queue[i] == v;
    }
  }

  lemma CoveredPop(visited: set<int>, done: set<int>, queue: seq<int>)
    requires Covered(visited, done, queue) && queue != []
    ensures Covered(visited, done + {queue[0]}, queue[1..])
  {
    forall v | v in visited ensures v in done + {queue[0]} || v in queue[1..] {
      if v !in done && v != queue[0] {
        var i :| 0 <= i < |queue| && queue[i] == v;
        assert queue[1..][i - 1] == v;
      }
    }
  }

  lemma CoveredAppend(visited: set<int>, done: set<int>, queue: seq<int>, v: int)
    requires Covered(visited, done, queue)
    ensures Covered(visited + {v}, done, queue + [v])
  {
    forall w | w in visited + {v} ensures w in done || w in queue + [v] {
      if w in queue {
        var i :| 0 <= i < |queue| && queue[i] == w;
        assert (queue + [v])[i] == w;
      }
    }
  }

  /** Expanded, stated on links rather than on edges. */
  lemma LinksClosed(adj: Adjacency, done: set<int>, dist: map<int, nat>, level: nat)
    requires Expanded(adj, done, dist, level)
    ensures done <= dist.Keys
    ensures forall u, y :: u in done && Links(Out(adj, u), y) ==> y in dist && dist[y] <= dist[u] + 1
  {
    forall u, y | u in done && Links(Out(adj, u), y) ensures y in dist && dist[y] <= dist[u] + 1 {
      var k :| 0 <= k < |Out(adj, u)| && Out(adj, u)[k].destination == y;
      assert Out(adj, u)[k] in Out(adj, u);
    }
  }

  /** The ids not yet expanded are the queue and the head just taken, and
      none of them lies above the head's depth. */
  lemma Frontier(visited: set<int>, dist: map<int, nat>, done: set<int>, queue: seq<int>, level: nat, m: nat, current: int)
    requires visited == dist.Keys
    requires Layered(queue, dist, level, m)
    requires Covered(visited, done + {current}, queue)
    requires current in dist && dist[current] == level
    ensures forall v :: v in dist ==> v in done || v in queue + [current]
    ensures forall v :: v in queue + [current] ==> v in dist && dist[v] >= level
  {
    var frontier := queue + [current];
    forall v | v in dist ensures v in done || v in frontier {
      if v !in done && v != current {
        var i :| 0 <= i < |queue| && queue[i] == v;
        assert frontier[i] == v;
      }
    }
    forall v | v in frontier ensures v in dist && dist[v] >= level {
      var i :| 0 <= i < |frontier| && frontier[i] == v;
      if i < |queue| {
        assert queue[i] == v;
      }
    }
  }

  /** FrontierLowerBound for every walk at once. */
  lemma NoShorterWalk(adj: Adjacency, dist: map<int, nat>, done: set<int>, frontier: seq<int>, level: nat, x: int, d: int)
    requires x in dist && done <= dist.Keys
    requires forall u, y :: u in done && Links(Out(adj, u), y) ==> y in dist && dist[y] <= dist[u] + 1
    requires forall v :: v in dist ==> v in done || v in frontier
    requires forall v :: v in frontier ==> v in dist && dist[v] >= level
    requires d in dist && d !in done && dist[d] <= level + 1
    ensures forall p :: WalkBetween(adj, p, x, d) ==> dist[d] <= dist[x] + |p| - 1
  {
    forall p | WalkBetween(adj, p, x, d) ensures dist[d] <= dist[x] + |p| - 1 {
      FrontierLowerBound(adj, dist, done, frontier, level, p, x, d);
    }
  }

  /** When the destination is discovered from `current`, the head just taken
      at depth `level`, no walk from the source (at depth 0) reaches it in
      fewer hops than its depth. */
  lemma NearestWhenFound(adj: Adjacency, s: int, d: int, visited: set<int>, dist: map<int, nat>,
                         done: set<int>, queue: seq<int>, level: nat, m: nat, current: int)
    requires visited == dist.Keys && s in dist && dist[s] == 0
    requires Layered(queue, dist, level, m)
    requires Expanded(adj, done, dist, level)
    requires Covered(visited, done + {current}, queue)
    requires current in dist && dist[current] == level
    requires d in dist && d !in done && dist[d] <= level + 1
    ensures forall p :: WalkBetween(adj, p, s, d) ==> dist[d] <= |p| - 1
  {
    LinksClosed(adj, done, dist, level);
    Frontier(visited, dist, done, queue, level, m, current);
    NoShorterWalk(adj, dist, done, queue + [current], level, s, d);
  }

  /** When the queue runs out, the discovered ids are closed under edges, so
      an undiscovered destination is unreachable from the source. */
  lemma UnreachableWhenExhausted(adj: Adjacency, s: int, d: int, visited: set<int>,
                                 dist: map<int, nat>, done: set<int>, level: nat)
    requires visited == dist.Keys && s in visited
    requires Expanded(adj, done, dist, level)
    requires Covered(visited, done, [])
    requires d !in visited
    ensures !Reachable(adj, s, d)
  {
    LinksClosed(adj, done, dist, level);
    ClosedUnreachable(adj, visited, s, d);
  }

  /** The chain of predecessors back from a discovered id is a walk from the
      source with as many hops as the id's depth, and it passes only through
      discovered ids. */
  lemma ChainIsShortestWalk(adj: Adjacency, s: int, pred: map<int, int>, visited: set<int>, dist: map<int, nat>,
                            via: map<int, nat>, p: seq<int>)
    requires Discovered(adj, s, pred, visited, dist, via)
    requires FollowsPred(pred, s, p) && p[0] == s
    ensures WalkBetween(adj, p, s, p[|p| - 1])
    ensures p[|p| - 1] in dist && dist[p[|p| - 1]] == |p| - 1
  {
    forall v | v in pred && v != s ensures Links(Out(adj, pred[v]), v) {
      assert Out(adj, pred[v])[via[v]].destination == v;
    }
    PredChainWalk(adj, pred, s, p);
    PredChainDepth(pred, dist, s, p);
  }

  /** The state of the search: the queue, the predecessor map and the set of
      discovered ids of src/Graph.java:93-101 and whether the destination was
      found, together with the proof-only bookkeeping the predicates above
      speak of (depths, the index of the discovering edges, the expanded ids,
      the current depth and how many queue entries lie at it). */
  datatype Bfs = Bfs(queue: seq<int>, pred: map<int, int>, visited: set<int>, found: bool,
                     dist: map<int, nat>, via: map<int, nat>, done: set<int>, level: nat, m: nat)

  /** The state before the first iteration: only the source is discovered. */
  function Init(s: int): (r: Bfs)
    ensures r.queue == [s] && r.visited == {s} && !r.found
    ensures r.pred.Keys == {s} && r.pred[s] == s
  {
    Bfs([s], map[s := s], {s}, false, map[s := 0], map[], {}, 0, 1)
  }

  /** One edge `e`, at index `k`, of `current`: an undiscovered destination
      is queued and recorded with `current` as predecessor; reaching `d`
      sets the flag (src/Graph.java:108-116). */
  function Follow(d: int, current: int, e: Mention, k: nat, b: Bfs): (r: Bfs)
    ensures b.visited <= r.visited && (r.visited == b.visited ==> r.queue == b.queue)
    ensures r.visited <= b.visited + {e.destination}
    ensures r.done == b.done && r.level == b.level && r.m == b.m
    ensures e.destination !in b.visited ==>
      r.queue == b.queue + [e.destination] && r.pred == b.pred[e.destination := current]
    ensures e.destination in b.visited ==> r.queue == b.queue && r.pred == b.pred
    ensures r.found <==> b.found || e.destination == d
  {
    var v := e.destination;
    if v in b.visited then b.(found := b.found || v == d)
    else
      b.(queue := b.queue + [v], pred := b.pred[v := current], visited := b.visited + {v},
         dist := b.dist[v := b.level + 1], via := b.via[v := k], found := b.found || v == d)
  }

  /** The inner loop from edge `k` on: it stops after the edge that reaches
      `d` (src/Graph.java:107-117). */
  function FollowFrom(d: int, current: int, edges: seq<Mention>, k: nat, b: Bfs): (r: Bfs)
    requires k <= |edges|
    ensures b.visited <= r.visited && (r.visited == b.visited ==> r.queue == b.queue)
    ensures forall v :: v in r.visited ==> v in b.visited || exists j :: k <= j < |edges| && edges[j].destination == v
    ensures r.done == b.done && r.level == b.level && r.m == b.m
    decreases |edges| - k
  {
    if k == |edges| || b.found then b
    else FollowFrom(d, current, edges, k + 1, Follow(d, current, edges[k], k, b))
  }

  /** Taking the head of the queue, after moving on to the next depth when the
      current one is used up (src/Graph.java:103). */
  function Pop(b: Bfs): (r: Bfs)
    requires b.queue != []
    ensures r.queue == b.queue[1..] && r.visited == b.visited && r.done == b.done
  {
    var b' := if b.m == 0 then b.(level := b.level + 1, m := |b.queue|) else b;
    b'.(queue := b'.queue[1..], m := b'.m - 1)
  }

  /** Following all edges of `current`, which is then expanded unless the
      destination was found among them. */
  function Expand(adj: Adjacency, d: int, current: int, b: Bfs): (r: Bfs)
    ensures b.visited <= r.visited && (r.visited == b.visited ==> r.queue == b.queue)
    ensures forall v :: v in r.visited ==> v in b.visited || Links(Out(adj, current), v)
  {
    var r := FollowFrom(d, current, Out(adj, current), 0, b);
    if r.found then r else r.(done := r.done + {current})
  }

  /** The whole search from state `b` (src/Graph.java:102-118): it stops when
      the queue is empty, when the destination was found, or when the
      destination itself is taken from the queue. */
  ghost function Search(adj: Adjacency, d: int, b: Bfs): (r: Bfs)
    requires Closed(adj) && b.visited <= adj.Keys
    ensures r.visited <= adj.Keys
    decreases |adj.Keys - b.visited|, |b.queue|
  {
    if b.queue == [] || b.found then b
    else
      var current := b.queue[0];
      var b1 := Pop(b);
      if current == d then b1
      else
        var b2 := Expand(adj, d, current, b1);
        ExpandInside(adj, d, current, b1);
        assert b2.visited != b1.visited ==> |adj.Keys - b2.visited| < |adj.Keys - b1.visited| by {
          if b2.visited != b1.visited {
            FewerLeft(adj.Keys, b1.visited, b2.visited);
          }
        }
        Search(adj, d, b2)
  }

  /** Expanding an id of a closed adjacency discovers only ids that have an
      adjacency entry. */
  lemma ExpandInside(adj: Adjacency, d: int, current: int, b: Bfs)
    requires Closed(adj) && b.visited <= adj.Keys
    ensures Expand(adj, d, current, b).visited <= adj.Keys
  {
    forall v | v in Expand(adj, d, current, b).visited && v !in b.visited ensures v in adj {
      var j :| 0 <= j < |Out(adj, current)| && Out(adj, current)[j].destination == v;
      assert Out(adj, current)[j] in adj[current];
    }
  }

  /** No walk from the source reaches `d` in fewer hops than its depth. */
  ghost predicate Nearest(adj: Adjacency, s: int, d: int, dist: map<int, nat>) {
    d in dist && forall p :: WalkBetween(adj, p, s, d) ==> dist[d] <= |p| - 1
  }

  /** What holds of the search state at the head of the outer loop when the
      source differs from the destination: the flag is set exactly when the
      destination is discovered, it is then nearest, and otherwise the layered
      queue and the expanded ids together cover everything discovered. */
  ghost predicate Inv(adj: Adjacency, s: int, d: int, b: Bfs) {
    && Discovered(adj, s, b.pred, b.visited, b.dist, b.via)
    && (b.found <==> d in b.visited)
    && (b.found ==> Nearest(adj, s, d, b.dist))
    && (!b.found ==> Layered(b.queue, b.dist, b.level, b.m) && Expanded(adj, b.done, b.dist, b.level)
                      && Covered(b.visited, b.done, b.queue))
  }

  /** What holds while the edges of `current`, the head just taken at depth
      `level`, are being followed. */
  ghost predicate InnerInv(adj: Adjacency, s: int, d: int, current: int, b: Bfs) {
    && Discovered(adj, s, b.pred, b.visited, b.dist, b.via)
    && (b.found <==> d in b.visited)
    && (b.found ==> Nearest(adj, s, d, b.dist))
    && Layered(b.queue, b.dist, b.level, b.m)
    && Expanded(adj, b.done, b.dist, b.level)
    && Covered(b.visited, b.done + {current}, b.queue)
    && current in b.dist && b.dist[current] == b.level
  }

  /** The start state satisfies Inv. */
  lemma InitKeeps(adj: Adjacency, s: int, d: int)
    requires s in adj && s != d
    ensures Inv(adj, s, d, Init(s))
  {
    Start(adj, s);
  }

  /** Taking the head of the queue (which is not the destination). */
  lemma PopKeeps(adj: Adjacency, s: int, d: int, b: Bfs)
    requires Inv(adj, s, d, b) && !b.found && b.queue != []
    ensures b.queue[0] != d
    ensures InnerInv(adj, s, d, b.queue[0], Pop(b))
  {
    var b' := if b.m == 0 then b.(level := b.level + 1, m := |b.queue|) else b;
    if b.m == 0 {
      LayeredNext(b.queue, b.dist, b.level);
      ExpandedNext(adj, b.done, b.dist, b.level);
    }
    LayeredPop(b'.queue, b'.dist, b'.level, b'.m);
    CoveredPop(b.visited, b.done, b.queue);
  }

  /** Follow on an undiscovered destination, unfolded. */
  lemma FollowUnseen(d: int, current: int, e: Mention, k: nat, b: Bfs)
    requires e.destination !in b.visited
    ensures var v := e.destination;
      Follow(d, current, e, k, b) ==
        b.(queue := b.queue + [v], pred := b.pred[v := current], visited := b.visited + {v},
           dist := b.dist[v := b.level + 1], via := b.via[v := k], found := b.found || v == d)
  {
  }

  /** Follow on a discovered destination other than `d` changes nothing. */
  lemma FollowSeenSame(d: int, current: int, e: Mention, k: nat, b: Bfs)
    requires e.destination in b.visited && e.destination != d
    ensures Follow(d, current, e, k, b) == b
  {
  }

  /** Following an edge of `current` to an undiscovered id: it is discovered
      one level deeper, and if it is the destination no walk reaches it in
      fewer hops. */
  lemma FollowNew(adj: Adjacency, s: int, d: int, current: int, k: nat, b: Bfs) returns (r: Bfs)
    requires Closed(adj) && InnerInv(adj, s, d, current, b) && !b.found
    requires k < |Out(adj, current)| && Reaches(b.dist, Out(adj, current)[..k], b.level + 1)
    requires Out(adj, current)[k].destination !in b.visited
    ensures r == Follow(d, current, Out(adj, current)[k], k, b)
    ensures InnerInv(adj, s, d, current, r) && Reaches(r.dist, Out(adj, current)[..k + 1], r.level + 1)
  {
    var edges := Out(adj, current);
    var e := edges[k];
    var v := e.destination;
    r := b.(queue := b.queue + [v], pred := b.pred[v := current], visited := b.visited + {v},
            dist := b.dist[v := b.level + 1], via := b.via[v := k], found := b.found || v == d);
    FollowUnseen(d, current, e, k, b);
    assert edges[..k + 1] == edges[..k] + [e];
    assert e in adj[current];
    Discover(adj, s, b.pred, b.visited, b.dist, b.via, current, k, v);
    LayeredAppend(b.queue, b.dist, b.level, b.m, v);
    ExpandedGrow(adj, b.done, b.dist, b.level, v, b.level + 1);
    CoveredAppend(b.visited, b.done + {current}, b.queue, v);
    ReachesGrow(b.dist, edges[..k], b.level + 1, v, b.level + 1);
    var dist' := b.dist[v := b.level + 1];
    ReachesSnoc(dist', edges[..k], e, b.level + 1);
    if v == d {
      NearestWhenFound(adj, s, d, b.visited + {v}, dist', b.done, b.queue + [v], b.level, b.m, current);
    }
  }

  /** Following an edge of `current` to an id discovered before, which is
      not the destination. */
  lemma FollowSeen(adj: Adjacency, s: int, d: int, current: int, k: nat, b: Bfs)
    requires InnerInv(adj, s, d, current, b) && !b.found
    requires k < |Out(adj, current)| && Reaches(b.dist, Out(adj, current)[..k], b.level + 1)
    requires Out(adj, current)[k].destination in b.visited
    ensures Out(adj, current)[k].destination != d
    ensures Reaches(b.dist, Out(adj, current)[..k + 1], b.level + 1)
  {
    var edges := Out(adj, current);
    var e := edges[k];
    assert edges[..k + 1] == edges[..k] + [e];
    SeenDepth(adj, b.visited, b.dist, b.done, b.queue, b.level, b.m, current, e.destination);
    ReachesSnoc(b.dist, edges[..k], e, b.level + 1);
  }

  /** Following one edge of `current`. */
  lemma FollowKeeps(adj: Adjacency, s: int, d: int, current: int, k: nat, b: Bfs) returns (r: Bfs)
    requires Closed(adj) && InnerInv(adj, s, d, current, b) && !b.found
    requires k < |Out(adj, current)| && Reaches(b.dist, Out(adj, current)[..k], b.level + 1)
    ensures r == Follow(d, current, Out(adj, current)[k], k, b)
    ensures InnerInv(adj, s, d, current, r) && Reaches(r.dist, Out(adj, current)[..k + 1], r.level + 1)
  {
    if Out(adj, current)[k].destination in b.visited {
      FollowSeen(adj, s, d, current, k, b);
      FollowSeenSame(d, current, Out(adj, current)[k], k, b);
      r := b;
    } else {
      r := FollowNew(adj, s, d, current, k, b);
    }
  }

  /** Following the edges of `current` from index `k` on. */
  lemma {:induction false} FollowFromKeeps(adj: Adjacency, s: int, d: int, current: int, k: nat, b: Bfs)
    requires Closed(adj) && InnerInv(adj, s, d, current, b)
    requires k <= |Out(adj, current)| && Reaches(b.dist, Out(adj, current)[..k], b.level + 1)
    ensures var r := FollowFrom(d, current, Out(adj, current), k, b);
      InnerInv(adj, s, d, current, r) && (!r.found ==> Reaches(r.dist, Out(adj, current), r.level + 1))
    decreases |Out(adj, current)| - k
  {
    var edges := Out(adj, current);
    if k == |edges| {
      assert edges[..k] == edges;
    } else if !b.found {
      var b' := FollowKeeps(adj, s, d, current, k, b);
      FollowFromKeeps(adj, s, d, current, k + 1, b');
    }
  }

  /** Expanding `current` restores Inv. */
  lemma ExpandKeeps(adj: Adjacency, s: int, d: int, current: int, b: Bfs)
    requires Closed(adj) && InnerInv(adj, s, d, current, b)
    ensures Inv(adj, s, d, Expand(adj, d, current, b))
  {
    FollowFromKeeps(adj, s, d, current, 0, b);
    var r := FollowFrom(d, current, Out(adj, current), 0, b);
    if !r.found {
      ExpandedAdd(adj, r.done, r.dist, r.level, current);
    }
  }

  /** Search stops when it takes the destination from the queue. */
  lemma SearchHit(adj: Adjacency, d: int, b: Bfs)
    requires Closed(adj) && b.visited <= adj.Keys
    requires b.queue != [] && !b.found && b.queue[0] == d
    ensures Search(adj, d, b) == Pop(b)
  {
  }

  /** Search stops when the queue is empty or the destination was found. */
  lemma SearchStop(adj: Adjacency, d: int, b: Bfs)
    requires Closed(adj) && b.visited <= adj.Keys
    requires b.queue == [] || b.found
    ensures Search(adj, d, b) == b
  {
  }

  /** One step of the inner loop, unfolded. */
  lemma FollowFromStep(d: int, current: int, edges: seq<Mention>, k: nat, b: Bfs)
    requires k < |edges| && !b.found
    ensures FollowFrom(d, current, edges, k, b) == FollowFrom(d, current, edges, k + 1, Follow(d, current, edges[k], k, b))
  {
  }

  /** The inner loop stops once the destination is found or the edges are
      used up. */
  lemma FollowFromStop(d: int, current: int, edges: seq<Mention>, k: nat, b: Bfs)
    requires k <= |edges| && (k == |edges| || b.found)
    ensures FollowFrom(d, current, edges, k, b) == b
  {
  }

  /** One iteration of the outer loop keeps Inv. */
  lemma StepKeeps(adj: Adjacency, s: int, d: int, b: Bfs) returns (b2: Bfs)
    requires Closed(adj) && Inv(adj, s, d, b) && b.queue != [] && !b.found
    ensures b.queue[0] != d && b2 == Expand(adj, d, b.queue[0], Pop(b)) && Inv(adj, s, d, b2)
  {
    PopKeeps(adj, s, d, b);
    ExpandKeeps(adj, s, d, b.queue[0], Pop(b));
    b2 := Expand(adj, d, b.queue[0], Pop(b));
  }

  /** One iteration of Search, unfolded. */
  lemma SearchStep(adj: Adjacency, d: int, b: Bfs)
    requires Closed(adj) && b.visited <= adj.Keys
    requires b.queue != [] && !b.found && b.queue[0] != d
    ensures Expand(adj, d, b.queue[0], Pop(b)).visited <= adj.Keys
    ensures Search(adj, d, b) == Search(adj, d, Expand(adj, d, b.queue[0], Pop(b)))
  {
    ExpandInside(adj, d, b.queue[0], Pop(b));
  }

  /** The whole search keeps Inv, and it ends with the flag set or the queue
      empty. */
  lemma {:induction false} SearchKeeps(adj: Adjacency, s: int, d: int, b: Bfs) returns (r: Bfs)
    requires Closed(adj) && Inv(adj, s, d, b)
    ensures r == Search(adj, d, b)
    ensures Inv(adj, s, d, r) && (r.found || r.queue == [])
    decreases |adj.Keys - b.visited|, |b.queue|
  {
    if b.queue == [] || b.found {
      r := b;
    } else {
      var b2 := StepKeeps(adj, s, d, b);
      SearchStep(adj, d, b);
      if b2.visited != b.visited {
        FewerLeft(adj.Keys, b.visited, b2.visited);
      }
      r := SearchKeeps(adj, s, d, b2);
    }
  }

  /** The predecessor chain of a discovered id, back to the source. */
  ghost function ChainTo(adj: Adjacency, s: int, pred: map<int, int>, visited: set<int>, dist: map<int, nat>,
                         via: map<int, nat>, v: int): (p: seq<int>)
    requires Discovered(adj, s, pred, visited, dist, via) && v in visited
    ensures FollowsPred(pred, s, p) && p[0] == s && p[|p| - 1] == v
    decreases dist[v]
  {
    if v == s then [s]
    else
      var q := ChainTo(adj, s, pred, visited, dist, via, pred[v]);
      assert forall i :: 0 < i < |q| ==> (q + [v])[i] == q[i];
      q + [v]
  }

  /** Every discovered id is reachable from the source. */
  lemma DiscoveredReachable(adj: Adjacency, s: int, pred: map<int, int>, visited: set<int>, dist: map<int, nat>,
                            via: map<int, nat>, v: int)
    requires Discovered(adj, s, pred, visited, dist, via) && v in visited
    ensures Reachable(adj, s, v)
  {
    var p := ChainTo(adj, s, pred, visited, dist, via, v);
    ChainIsShortestWalk(adj, s, pred, visited, dist, via, p);
  }

  /** What the fewest-edges search computes from the source `s`: the flag is
      set exactly when the source differs from the destination and the
      destination is reachable, and the destination is then discovered at a
      depth no walk from the source undercuts. */
  lemma SearchCorrect(adj: Adjacency, s: int, d: int)
    requires Closed(adj) && s in adj
    ensures var r := Search(adj, d, Init(s));
      && Discovered(adj, s, r.pred, r.visited, r.dist, r.via)
      && (r.found <==> s != d && Reachable(adj, s, d))
      && (r.found ==> Nearest(adj, s, d, r.dist))
  {
    var r := Search(adj, d, Init(s));
    if s == d {
      Start(adj, s);
      assert r == Pop(Init(s));
    } else {
      InitKeeps(adj, s, d);
      var r' := SearchKeeps(adj, s, d, Init(s));
      if r.found {
        DiscoveredReachable(adj, s, r.pred, r.visited, r.dist, r.via, d);
      } else {
        UnreachableWhenExhausted(adj, s, d, r.visited, r.dist, r.done, r.level);
      }
    }
  }

  /** The inner loop of the fewest-edges search (src/Graph.java:107-117):
      follows the edges of `current` in order, queueing and recording each
      undiscovered destination, and stops after the edge that reaches `d`. */
  method FollowEdges(d: int, current: int, edges: seq<Mention>, ghost b: Bfs,
                     queue0: seq<int>, pred0: map<int, int>, visited0: set<int>)
    returns (queue: seq<int>, pred: map<int, int>, visited: set<int>, found: bool)
    requires queue0 == b.queue && pred0 == b.pred && visited0 == b.visited && !b.found
    ensures var r := FollowFrom(d, current, edges, 0, b);
      queue == r.queue && pred == r.pred && visited == r.visited && found == r.found
  {
    queue, pred, visited, found := queue0, pred0, visited0, false;
    ghost var r := b;
    var k := 0;
    while k < |edges|
      invariant 0 <= k <= |edges| && !found
      invariant queue == r.queue && pred == r.pred && visited == r.visited && found == r.found
      invariant FollowFrom(d, current, edges, k, r) == FollowFrom(d, current, edges, 0, b)
    {
      FollowFromStep(d, current, edges, k, r);
      var voisin := edges[k].destination;
      if voisin !in visited {
        queue := queue + [voisin];
        pred := pred[voisin := current];
        visited := visited + {voisin};
      }
      r := Follow(d, current, edges[k], k, r);
      if voisin == d {
        found := true;
        FollowFromStop(d, current, edges, k + 1, r);
        return;
      }
      k := k + 1;
    }
    FollowFromStop(d, current, edges, k, r);
  }

  /** The outer loop of the fewest-edges search (src/Graph.java:93-118): a
      first-in first-out queue seeded with the source, stopped when it runs
      out, when the destination was found, or when the destination itself is
      taken from it. Its result is that of Search. */
  method FewestHops(adj: Adjacency, s: int, d: int) returns (pred: map<int, int>, found: bool)
    requires Closed(adj) && s in adj
    ensures var r := Search(adj, d, Init(s)); pred == r.pred && found == r.found
  {
    var queue := [s];
    var visited := {s};
    pred, found := map[s := s], false;
    ghost var r := Init(s);
    while queue != [] && !found
      invariant r.visited <= adj.Keys
      invariant queue == r.queue && pred == r.pred && visited == r.visited && found == r.found
      invariant Search(adj, d, r) == Search(adj, d, Init(s))
      decreases |adj.Keys - visited|, |queue|
    {
      var current := queue[0];
      queue := queue[1..];
      ghost var b1 := Pop(r);
      if current == d {
        SearchHit(adj, d, r);
        r := b1;
        return;
      }
      var edges := Out(adj, current);
      queue, pred, visited, found := FollowEdges(d, current, edges, b1, queue, pred, visited);
      ghost var b2 := FollowFrom(d, current, edges, 0, b1);
      if !found {
        b2 := b2.(done := b2.done + {current});
      }
      SearchStep(adj, d, r);
      if visited != r.visited {
        FewerLeft(adj.Keys, r.visited, visited);
      }
      r := b2;
    }
    SearchStop(adj, d, r);
  }
}
