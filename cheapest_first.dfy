/** The minimum-cost search (src/Graph.java:138-162) as a function on its
    state, the invariant each of its steps keeps, what it computes, and the
    loops that carry it out. */
module CheapestFirst {
  import opened Mentions
  import opened PoidsSources
  import opened Paths

  /** The state of the search: the cost map (`definitive`), the predecessor
      map and the priority queue of src/Graph.java:138-145, together with the
      proof-only set of ids whose edges have been relaxed and, for every id
      but the source, the edge its cost was last set through. */
  datatype Dij = Dij(definitive: map<int, real>, pred: map<int, int>, queue: seq<PoidsSource>,
                     settled: set<int>, via: map<int, Mention>)

  /** The state before the first iteration: the source at cost 0. */
  function Init(s: int): (r: Dij)
    ensures r.definitive.Keys == r.pred.Keys == {s}
    ensures r.definitive[s] == 0.0 && r.pred[s] == s
    ensures r.queue == [PoidsSource(0.0, s)] && r.settled == {}
  {
    Dij(map[s := 0.0], map[s := s], [PoidsSource(0.0, s)], {}, map[])
  }

  /** Every edge has a positive weight. */
  ghost predicate Positive(adj: Adjacency) {
    forall x, e :: x in adj && e in adj[x] ==> e.weight > 0.0
  }

  /** One edge of `current`: when going through it is cheaper than the cost
      known for its destination, or the destination has none, the
      destination's cost and predecessor are set and a queue entry is added
      for it (src/Graph.java:152-160). */
  function Relax(current: int, e: Mention, st: Dij): (r: Dij)
    requires current in st.definitive
    ensures st.settled == r.settled && st.definitive.Keys <= r.definitive.Keys
  {
    var v := e.destination;
    var cout := e.weight + st.definitive[current];
    if v !in st.definitive || cout < st.definitive[v] then
      st.(definitive := st.definitive[v := cout], pred := st.pred[v := current],
          queue := st.queue + [PoidsSource(cout, v)], via := st.via[v := e])
    else st
  }

  /** The inner loop from edge `k` on. */
  function RelaxFrom(current: int, edges: seq<Mention>, k: nat, st: Dij): (r: Dij)
    requires current in st.definitive && k <= |edges|
    ensures st.settled == r.settled && st.definitive.Keys <= r.definitive.Keys
    decreases |edges| - k
  {
    if k == |edges| then st else RelaxFrom(current, edges, k + 1, Relax(current, edges[k], st))
  }

  /** Relax on an edge that lowers its destination's cost, unfolded. */
  lemma RelaxLowers(current: int, e: Mention, st: Dij)
    requires current in st.definitive
    requires e.destination !in st.definitive || e.weight + st.definitive[current] < st.definitive[e.destination]
    ensures var v, cout := e.destination, e.weight + st.definitive[current];
      Relax(current, e, st) ==
        st.(definitive := st.definitive[v := cout], pred := st.pred[v := current],
            queue := st.queue + [PoidsSource(cout, v)], via := st.via[v := e])
  {
  }

  /** Relax on any other edge changes nothing. */
  lemma RelaxKeepsCost(current: int, e: Mention, st: Dij)
    requires current in st.definitive
    requires e.destination in st.definitive && st.definitive[e.destination] <= e.weight + st.definitive[current]
    ensures Relax(current, e, st) == st
  {
  }

  /** One step of the inner loop, unfolded. */
  lemma RelaxFromStep(current: int, edges: seq<Mention>, k: nat, st: Dij)
    requires current in st.definitive && k < |edges|
    ensures RelaxFrom(current, edges, k, st) == RelaxFrom(current, edges, k + 1, Relax(current, edges[k], st))
  {
  }

  /** The inner loop ends with the edges. */
  lemma RelaxFromStop(current: int, edges: seq<Mention>, st: Dij)
    requires current in st.definitive
    ensures RelaxFrom(current, edges, |edges|, st) == st
  {
  }

  /** The relaxations of an id all of whose edges are already relaxed change
      nothing. */
  lemma {:induction false} RelaxFromNothing(current: int, edges: seq<Mention>, k: nat, st: Dij)
    requires current in st.definitive && k <= |edges|
    requires forall j :: k <= j < |edges| ==>
      edges[j].destination in st.definitive && st.definitive[edges[j].destination] <= edges[j].weight + st.definitive[current]
    ensures RelaxFrom(current, edges, k, st) == st
    decreases |edges| - k
  {
    if k < |edges| {
      RelaxFromNothing(current, edges, k + 1, st);
    }
  }

  /** Whether a polled entry is stale: its id has meanwhile got a lower cost
      (src/Graph.java:149-151). An id without a cost is not stale. */
  predicate Stale(st: Dij, entry: PoidsSource): (r: bool)
    ensures entry.artist !in st.definitive ==> !r
    ensures Queued(st.queue, st.definitive) && entry in st.queue ==>
      (!r <==> st.definitive[entry.artist] == entry.poids)
  {
    entry.artist in st.definitive && st.definitive[entry.artist] < entry.poids
  }

  /** What holds of the search state at the head of the outer loop: the cost
      and predecessor maps share their keys, which have adjacency entries;
      the source costs 0 and is its own predecessor; costs are never negative;
      each queue entry is for an id with a cost at most the entry's; relaxed
      ids cost no more than any entry, and each of their edges leads to an id
      whose cost is at most theirs plus the edge's weight; every id with a
      cost is relaxed or has an entry at exactly that cost; and every other id
      got its cost through a stored edge from its predecessor, costing at
      least the predecessor's cost plus the edge's weight. */
  ghost predicate Inv(adj: Adjacency, s: int, st: Dij) {
    && s in st.definitive && st.definitive.Keys == st.pred.Keys && st.definitive.Keys <= adj.Keys
    && st.definitive[s] == 0.0 && st.pred[s] == s
    && (forall v :: v in st.definitive ==> st.definitive[v] >= 0.0)
    && Queued(st.queue, st.definitive)
    && st.settled <= st.definitive.Keys
    && (forall x, e :: x in st.settled && e in st.queue ==> st.definitive[x] <= e.poids)
    && Relaxed(adj, st.settled, st.definitive)
    && Pending(st.definitive, st.settled, st.queue)
    && Through(adj, s, st.pred, st.definitive, st.via)
  }

  /** Each queue entry is for an id with a cost at most the entry's. */
  ghost predicate Queued(queue: seq<PoidsSource>, best: map<int, real>) {
    forall e :: e in queue ==> e.artist in best && best[e.artist] <= e.poids
  }

  /** Every id with a cost is in `done` or has a queue entry at exactly that
      cost. */
  ghost predicate Pending(best: map<int, real>, done: set<int>, queue: seq<PoidsSource>) {
    forall v :: v in best ==> v in done || PoidsSource(best[v], v) in queue
  }

  /** Each edge of an id of `done` leads to an id whose cost is at most that
      id's cost plus the edge's weight. */
  ghost predicate Relaxed(adj: Adjacency, done: set<int>, best: map<int, real>)
    requires done <= best.Keys
  {
    forall x, e :: x in done && e in Out(adj, x) ==>
      e.destination in best && best[e.destination] <= best[x] + e.weight
  }

  /** Every id but the source got its cost through the stored edge `via[v]`
      from its predecessor, and costs at least the predecessor's cost plus
      that edge's weight. */
  ghost predicate Through(adj: Adjacency, s: int, pred: map<int, int>, best: map<int, real>, via: map<int, Mention>)
    requires pred.Keys == best.Keys
  {
    forall v {:trigger pred[v]} :: v in pred && v != s ==>
      pred[v] in best && v in via && via[v] in Out(adj, pred[v]) &&
      via[v].destination == v && best[pred[v]] + via[v].weight <= best[v]
  }

  /** The outer loop's body (src/Graph.java:146-161): the least entry is
      polled; unless it is stale, the edges of its id are relaxed. */
  function Settle(adj: Adjacency, st: Dij): (r: Dij)
    requires st.queue != []
    requires forall e :: e in st.queue ==> e.artist in st.definitive
    ensures var (entry, rest) := PollOf(st.queue);
      && (Stale(st, entry) ==> r == st.(queue := rest))
      && (!Stale(st, entry) ==> r.settled == st.settled + {entry.artist})
    ensures forall x :: x in st.definitive ==> x in r.definitive && r.definitive[x] <= st.definitive[x]
  {
    var (entry, rest) := PollOf(st.queue);
    var st1 := st.(queue := rest);
    if Stale(st, entry) then st1
    else
      var r := RelaxFrom(entry.artist, Out(adj, entry.artist), 0, st1);
      assert forall x :: x in st1.definitive ==> x in r.definitive && r.definitive[x] <= st1.definitive[x] by {
        forall x | x in st1.definitive {
          RelaxFromMono(entry.artist, Out(adj, entry.artist), 0, st1, x);
        }
      }
      r.(settled := r.settled + {entry.artist})
  }

  /** The whole search from state `st`, until the queue runs out. */
  ghost function Run(adj: Adjacency, s: int, st: Dij): (r: Dij)
    requires Closed(adj) && Positive(adj) && Inv(adj, s, st)
    ensures Inv(adj, s, r) && r.queue == []
    decreases |adj.Keys - st.settled|, |st.queue|
  {
    if st.queue == [] then st
    else
      SettleStep(adj, s, st);
      Run(adj, s, Settle(adj, st))
  }

  /** Taking the least entry off the queue: a stale one is dropped and the
      invariant stays; otherwise the entry is at its id's cost and that cost
      is the least of all queued and not above what is relaxed. */
  lemma PollKeeps(adj: Adjacency, s: int, st: Dij)
    requires Inv(adj, s, st) && st.queue != []
    ensures var (entry, rest) := PollOf(st.queue);
      && entry.artist in st.definitive
      && (Stale(st, entry) ==> Inv(adj, s, st.(queue := rest)))
      && (!Stale(st, entry) ==> RelaxInv(adj, s, entry.artist, entry.poids, st.(queue := rest)))
  {
    var (entry, rest) := PollOf(st.queue);
    var st1 := st.(queue := rest);
    forall v | v in st.definitive && v !in st.settled && (Stale(st, entry) || v != entry.artist)
      ensures PoidsSource(st.definitive[v], v) in rest
    {
      assert PoidsSource(st.definitive[v], v) != entry;
    }
  }

  /** What holds while the edges of `current`, polled at cost `poids`, are
      being relaxed. */
  ghost predicate RelaxInv(adj: Adjacency, s: int, current: int, poids: real, st: Dij) {
    && s in st.definitive && st.definitive.Keys == st.pred.Keys && st.definitive.Keys <= adj.Keys
    && st.definitive[s] == 0.0 && st.pred[s] == s
    && (forall v :: v in st.definitive ==> st.definitive[v] >= 0.0)
    && Queued(st.queue, st.definitive)
    && current in st.definitive && st.definitive[current] == poids
    && (forall e :: e in st.queue ==> poids <= e.poids)
    && st.settled <= st.definitive.Keys
    && (forall x :: x in st.settled ==> st.definitive[x] <= poids)
    && Relaxed(adj, st.settled, st.definitive)
    && Pending(st.definitive, st.settled + {current}, st.queue)
    && Through(adj, s, st.pred, st.definitive, st.via)
  }

  /** Every edge of `edges` has a positive weight. */
  ghost predicate Weighted(edges: seq<Mention>) {
    forall e :: e in edges ==> e.weight > 0.0
  }

  /** The inner loop never forgets a cost and never raises one. */
  lemma {:induction false} RelaxFromMono(current: int, edges: seq<Mention>, k: nat, st: Dij, x: int)
    requires current in st.definitive && k <= |edges| && x in st.definitive
    ensures x in RelaxFrom(current, edges, k, st).definitive
    ensures RelaxFrom(current, edges, k, st).definitive[x] <= st.definitive[x]
    decreases |edges| - k
  {
    if k < |edges| {
      RelaxFromStep(current, edges, k, st);
      RelaxFromMono(current, edges, k + 1, Relax(current, edges[k], st), x);
    }
  }

  /** With positive weights the inner loop leaves `current`'s cost, and every
      cost not above it, as it was. */
  lemma {:induction false} RelaxFromFixed(current: int, edges: seq<Mention>, k: nat, st: Dij, x: int)
    requires current in st.definitive && k <= |edges| && Weighted(edges)
    requires x in st.definitive && st.definitive[x] <= st.definitive[current]
    ensures x in RelaxFrom(current, edges, k, st).definitive
    ensures RelaxFrom(current, edges, k, st).definitive[x] == st.definitive[x]
    ensures RelaxFrom(current, edges, k, st).definitive[current] == st.definitive[current]
    decreases |edges| - k
  {
    if k < |edges| {
      var st1 := Relax(current, edges[k], st);
      assert edges[k] in edges;
      assert st1.definitive[current] == st.definitive[current] && st1.definitive[x] == st.definitive[x];
      RelaxFromStep(current, edges, k, st);
      RelaxFromFixed(current, edges, k + 1, st1, x);
    }
  }

  /** The inner loop only appends to the queue. */
  lemma {:induction false} RelaxFromQueueGrows(current: int, edges: seq<Mention>, k: nat, st: Dij, e: PoidsSource)
    requires current in st.definitive && k <= |edges| && e in st.queue
    ensures e in RelaxFrom(current, edges, k, st).queue
    decreases |edges| - k
  {
    if k < |edges| {
      RelaxFromStep(current, edges, k, st);
      RelaxFromQueueGrows(current, edges, k + 1, Relax(current, edges[k], st), e);
    }
  }

  /** Every entry the inner loop adds costs more than `current` and is for an
      id whose cost is at most the entry's. */
  lemma {:induction false} RelaxFromEntries(current: int, edges: seq<Mention>, k: nat, st: Dij, e: PoidsSource)
    requires current in st.definitive && k <= |edges| && Weighted(edges)
    ensures var r := RelaxFrom(current, edges, k, st);
      e in r.queue ==>
        (e in st.queue ||
         (e.poids > st.definitive[current] && e.artist in r.definitive && r.definitive[e.artist] <= e.poids))
    decreases |edges| - k
  {
    if k < |edges| {
      var st1 := Relax(current, edges[k], st);
      assert edges[k] in edges;
      assert st1.definitive[current] == st.definitive[current];
      RelaxFromStep(current, edges, k, st);
      RelaxFromEntries(current, edges, k + 1, st1, e);
      if e in st1.queue && e !in st.queue {
        assert e.artist in st1.definitive && st1.definitive[e.artist] == e.poids;
        RelaxFromMono(current, edges, k + 1, st1, e.artist);
      }
    }
  }

  /** The id `x` has the same cost, predecessor and edge in `r` as in `st`. */
  ghost predicate Untouched(st: Dij, r: Dij, x: int) {
    && x in st.definitive && x in r.definitive && r.definitive[x] == st.definitive[x]
    && (x in st.pred ==> x in r.pred && r.pred[x] == st.pred[x])
    && (x in st.via ==> x in r.via && r.via[x] == st.via[x])
  }

  /** In `r`, the id `x` got its cost through one of `edges`, leaving from
      `current` at cost `c`, and has a queue entry at that cost. */
  ghost predicate SetThrough(current: int, edges: seq<Mention>, c: real, r: Dij, x: int) {
    && x in r.definitive && x in r.pred && r.pred[x] == current
    && x in r.via && r.via[x] in edges && r.via[x].destination == x
    && r.definitive[x] == r.via[x].weight + c
    && PoidsSource(r.definitive[x], x) in r.queue
  }

  /** After the inner loop every id with a cost either kept what it had or
      got it through an edge of `current`. */
  lemma {:induction false} RelaxFromCases(current: int, edges: seq<Mention>, k: nat, st: Dij, x: int)
    requires current in st.definitive && k <= |edges| && Weighted(edges)
    ensures var r := RelaxFrom(current, edges, k, st);
      x in r.definitive ==> Untouched(st, r, x) || SetThrough(current, edges, st.definitive[current], r, x)
    decreases |edges| - k
  {
    if k < |edges| {
      var st1 := Relax(current, edges[k], st);
      assert edges[k] in edges;
      assert st1.definitive[current] == st.definitive[current];
      RelaxFromStep(current, edges, k, st);
      var r := RelaxFrom(current, edges, k + 1, st1);
      RelaxFromCases(current, edges, k + 1, st1, x);
      if x in r.definitive && Untouched(st1, r, x) && !Untouched(st, st1, x) {
        assert SetThrough(current, edges, st.definitive[current], st1, x);
        RelaxFromQueueGrows(current, edges, k + 1, st1, PoidsSource(st1.definitive[x], x));
      }
    }
  }

  /** After the inner loop from `k`, the destination of each edge `j >= k`
      costs at most `current`'s cost plus the edge's weight. */
  lemma {:induction false} RelaxFromReaches(current: int, edges: seq<Mention>, k: nat, st: Dij, j: nat)
    requires current in st.definitive && k <= j < |edges| && Weighted(edges)
    ensures var r := RelaxFrom(current, edges, k, st);
      edges[j].destination in r.definitive &&
      r.definitive[edges[j].destination] <= st.definitive[current] + edges[j].weight
    decreases |edges| - k
  {
    var st1 := Relax(current, edges[k], st);
    assert edges[k] in edges;
    assert st1.definitive[current] == st.definitive[current];
    RelaxFromStep(current, edges, k, st);
    if j == k {
      RelaxFromMono(current, edges, k + 1, st1, edges[k].destination);
    } else {
      RelaxFromReaches(current, edges, k + 1, st1, j);
    }
  }

  /** The inner loop keeps the cost and predecessor maps on the same keys. */
  lemma {:induction false} RelaxFromKeys(current: int, edges: seq<Mention>, k: nat, st: Dij)
    requires current in st.definitive && k <= |edges| && st.definitive.Keys == st.pred.Keys
    ensures RelaxFrom(current, edges, k, st).definitive.Keys == RelaxFrom(current, edges, k, st).pred.Keys
    decreases |edges| - k
  {
    if k < |edges| {
      RelaxFromStep(current, edges, k, st);
      RelaxFromKeys(current, edges, k + 1, Relax(current, edges[k], st));
    }
  }

  /** Relaxing all edges of `current`, polled at its cost `poids`, and
      marking it relaxed restores Inv. */
  lemma RelaxAllKeeps(adj: Adjacency, s: int, current: int, poids: real, st: Dij) returns (r: Dij)
    requires Closed(adj) && Positive(adj) && RelaxInv(adj, s, current, poids, st)
    ensures r == RelaxFrom(current, Out(adj, current), 0, st).(settled := st.settled + {current})
    ensures Inv(adj, s, r)
  {
    var edges := Out(adj, current);
    assert Weighted(edges);
    var r1 := RelaxFrom(current, edges, 0, st);
    r := r1.(settled := st.settled + {current});
    RelaxFromKeys(current, edges, 0, st);
    RelaxFromFixed(current, edges, 0, st, s);
    KeepsSource(adj, s, current, edges, st);
    KeepsInside(adj, current, edges, st);
    KeepsNonnegative(current, edges, st);
    KeepsQueued(current, edges, st);
    KeepsSettledBound(current, edges, st);
    KeepsRelaxed(adj, current, st);
    KeepsPending(current, edges, st);
    KeepsThrough(adj, s, current, st);
  }

  /** The source keeps its own id as predecessor. */
  lemma KeepsSource(adj: Adjacency, s: int, current: int, edges: seq<Mention>, st: Dij)
    requires Weighted(edges) && current in st.definitive && st.definitive[current] >= 0.0
    requires s in st.definitive && st.definitive[s] == 0.0 && s in st.pred && st.pred[s] == s
    ensures var r := RelaxFrom(current, edges, 0, st); s in r.pred && r.pred[s] == s
  {
    RelaxFromCases(current, edges, 0, st, s);
    RelaxFromFixed(current, edges, 0, st, s);
  }

  /** Every id with a cost has an adjacency entry. */
  lemma KeepsInside(adj: Adjacency, current: int, edges: seq<Mention>, st: Dij)
    requires Closed(adj) && current in adj && edges == Out(adj, current) && Weighted(edges)
    requires current in st.definitive && st.definitive.Keys <= adj.Keys
    ensures RelaxFrom(current, edges, 0, st).definitive.Keys <= adj.Keys
  {
    var r := RelaxFrom(current, edges, 0, st);
    forall x | x in r.definitive ensures x in adj {
      RelaxFromCases(current, edges, 0, st, x);
    }
  }

  /** No cost becomes negative. */
  lemma KeepsNonnegative(current: int, edges: seq<Mention>, st: Dij)
    requires Weighted(edges) && current in st.definitive
    requires forall v :: v in st.definitive ==> st.definitive[v] >= 0.0
    ensures var r := RelaxFrom(current, edges, 0, st); forall v :: v in r.definitive ==> r.definitive[v] >= 0.0
  {
    var r := RelaxFrom(current, edges, 0, st);
    forall v | v in r.definitive ensures r.definitive[v] >= 0.0 {
      RelaxFromCases(current, edges, 0, st, v);
    }
  }

  /** Queued still holds. */
  lemma KeepsQueued(current: int, edges: seq<Mention>, st: Dij)
    requires Weighted(edges) && current in st.definitive && Queued(st.queue, st.definitive)
    ensures var r := RelaxFrom(current, edges, 0, st); Queued(r.queue, r.definitive)
  {
    var r := RelaxFrom(current, edges, 0, st);
    forall e | e in r.queue ensures e.artist in r.definitive && r.definitive[e.artist] <= e.poids {
      RelaxFromEntries(current, edges, 0, st, e);
      if e in st.queue {
        RelaxFromMono(current, edges, 0, st, e.artist);
      }
    }
  }

  /** The relaxed ids and `current` cost no more than any entry. */
  lemma KeepsSettledBound(current: int, edges: seq<Mention>, st: Dij)
    requires Weighted(edges) && current in st.definitive && st.settled <= st.definitive.Keys
    requires forall e :: e in st.queue ==> st.definitive[current] <= e.poids
    requires forall x :: x in st.settled ==> st.definitive[x] <= st.definitive[current]
    ensures var r := RelaxFrom(current, edges, 0, st);
      forall x, e :: x in st.settled + {current} && e in r.queue ==> x in r.definitive && r.definitive[x] <= e.poids
  {
    var r := RelaxFrom(current, edges, 0, st);
    forall x, e | x in st.settled + {current} && e in r.queue ensures x in r.definitive && r.definitive[x] <= e.poids {
      RelaxFromFixed(current, edges, 0, st, x);
      RelaxFromEntries(current, edges, 0, st, e);
    }
  }

  /** Relaxed holds of the relaxed ids and `current`. */
  lemma KeepsRelaxed(adj: Adjacency, current: int, st: Dij)
    requires Positive(adj) && current in st.definitive && st.settled <= st.definitive.Keys
    requires forall x :: x in st.settled ==> st.definitive[x] <= st.definitive[current]
    requires Relaxed(adj, st.settled, st.definitive)
    ensures var r := RelaxFrom(current, Out(adj, current), 0, st);
      st.settled + {current} <= r.definitive.Keys && Relaxed(adj, st.settled + {current}, r.definitive)
  {
    var edges := Out(adj, current);
    assert Weighted(edges);
    var r := RelaxFrom(current, edges, 0, st);
    RelaxFromFixed(current, edges, 0, st, current);
    forall x, e | x in st.settled + {current} && e in Out(adj, x)
      ensures e.destination in r.definitive && r.definitive[e.destination] <= r.definitive[x] + e.weight
    {
      if x == current {
        var j :| 0 <= j < |edges| && edges[j] == e;
        RelaxFromReaches(current, edges, 0, st, j);
      } else {
        RelaxFromFixed(current, edges, 0, st, x);
        RelaxFromMono(current, edges, 0, st, e.destination);
      }
    }
  }

  /** Pending holds with `current` among the relaxed ids. */
  lemma KeepsPending(current: int, edges: seq<Mention>, st: Dij)
    requires Weighted(edges) && current in st.definitive
    requires Pending(st.definitive, st.settled + {current}, st.queue)
    ensures var r := RelaxFrom(current, edges, 0, st); Pending(r.definitive, st.settled + {current}, r.queue)
  {
    var r := RelaxFrom(current, edges, 0, st);
    forall v | v in r.definitive && v !in st.settled + {current} ensures PoidsSource(r.definitive[v], v) in r.queue {
      RelaxFromCases(current, edges, 0, st, v);
      if Untouched(st, r, v) {
        RelaxFromQueueGrows(current, edges, 0, st, PoidsSource(st.definitive[v], v));
      }
    }
  }

  /** Through still holds. */
  lemma KeepsThrough(adj: Adjacency, s: int, current: int, st: Dij)
    requires Positive(adj) && current in st.definitive && st.definitive.Keys == st.pred.Keys
    requires Through(adj, s, st.pred, st.definitive, st.via)
    requires s in st.definitive && st.definitive[s] <= st.definitive[current] && st.pred[s] == s
    ensures var r := RelaxFrom(current, Out(adj, current), 0, st);
      r.definitive.Keys == r.pred.Keys && Through(adj, s, r.pred, r.definitive, r.via)
  {
    var edges := Out(adj, current);
    assert Weighted(edges);
    var r := RelaxFrom(current, edges, 0, st);
    RelaxFromKeys(current, edges, 0, st);
    RelaxFromFixed(current, edges, 0, st, current);
    forall v {:trigger r.pred[v]} | v in r.pred && v != s
      ensures r.pred[v] in r.definitive && v in r.via && r.via[v] in Out(adj, r.pred[v])
      ensures r.via[v].destination == v && r.definitive[r.pred[v]] + r.via[v].weight <= r.definitive[v]
    {
      RelaxFromCases(current, edges, 0, st, v);
      if Untouched(st, r, v) {
        RelaxFromMono(current, edges, 0, st, st.pred[v]);
      }
    }
  }

  /** One iteration of the outer loop keeps Inv, and either makes one more id
      relaxed or shortens the queue. */
  lemma SettleKeeps(adj: Adjacency, s: int, st: Dij) returns (r: Dij)
    requires Closed(adj) && Positive(adj) && Inv(adj, s, st) && st.queue != []
    ensures r == Settle(adj, st) && Inv(adj, s, r)
    ensures r.settled <= adj.Keys
    ensures st.settled < r.settled || (r.settled == st.settled && |r.queue| < |st.queue|)
  {
    PollKeeps(adj, s, st);
    var (entry, rest) := PollOf(st.queue);
    var st1 := st.(queue := rest);
    if Stale(st, entry) {
      r := st1;
    } else {
      var current := entry.artist;
      if current in st.settled {
        assert forall j :: 0 <= j < |Out(adj, current)| ==> Out(adj, current)[j] in Out(adj, current);
        RelaxFromNothing(current, Out(adj, current), 0, st1);
      }
      r := RelaxAllKeeps(adj, s, current, entry.poids, st1);
    }
  }

  /** SettleKeeps, stated on Settle. */
  lemma SettleStep(adj: Adjacency, s: int, st: Dij)
    requires Closed(adj) && Positive(adj) && Inv(adj, s, st) && st.queue != []
    ensures Inv(adj, s, Settle(adj, st))
    ensures Settle(adj, st).settled <= adj.Keys
    ensures st.settled < Settle(adj, st).settled ||
            (Settle(adj, st).settled == st.settled && |Settle(adj, st).queue| < |st.queue|)
    ensures |adj.Keys - Settle(adj, st).settled| < |adj.Keys - st.settled| ||
            (Settle(adj, st).settled == st.settled && |Settle(adj, st).queue| < |st.queue|)
  {
    var r := SettleKeeps(adj, s, st);
    if st.settled < r.settled {
      FewerLeft(adj.Keys, st.settled, r.settled);
    }
  }

  /** The initial state satisfies Inv. */
  lemma InitKeeps(adj: Adjacency, s: int)
    requires s in adj
    ensures Inv(adj, s, Init(s))
  {
  }

  /** Run takes one outer iteration when the queue is not empty. */
  lemma RunStep(adj: Adjacency, s: int, st: Dij)
    requires Closed(adj) && Positive(adj) && Inv(adj, s, st) && st.queue != []
    ensures Inv(adj, s, Settle(adj, st))
    ensures Run(adj, s, st) == Run(adj, s, Settle(adj, st))
  {
    SettleStep(adj, s, st);
  }

  /** Run stops when the queue is empty. */
  lemma RunStop(adj: Adjacency, s: int, st: Dij)
    requires Closed(adj) && Positive(adj) && Inv(adj, s, st) && st.queue == []
    ensures Run(adj, s, st) == st
  {
  }

  /** The inner loop of the minimum-cost search (src/Graph.java:152-160):
      relaxes the edges of `current` in order. */
  method RelaxEdges(current: int, edges: seq<Mention>, ghost st: Dij,
                    definitive0: map<int, real>, pred0: map<int, int>, queue0: seq<PoidsSource>)
    returns (definitive: map<int, real>, pred: map<int, int>, queue: seq<PoidsSource>)
    requires definitive0 == st.definitive && pred0 == st.pred && queue0 == st.queue
    requires current in st.definitive
    ensures var r := RelaxFrom(current, edges, 0, st);
      definitive == r.definitive && pred == r.pred && queue == r.queue
  {
    definitive, pred, queue := definitive0, pred0, queue0;
    ghost var r := st;
    var k := 0;
    while k < |edges|
      invariant 0 <= k <= |edges| && current in r.definitive
      invariant definitive == r.definitive && pred == r.pred && queue == r.queue
      invariant RelaxFrom(current, edges, k, r) == RelaxFrom(current, edges, 0, st)
    {
      RelaxFromStep(current, edges, k, r);
      var mention := edges[k];
      var destination := mention.destination;
      var cout := mention.weight + definitive[current];
      if destination !in definitive || cout < definitive[destination] {
        RelaxLowers(current, mention, r);
        var newCost := mention.weight + definitive[current];
        definitive := definitive[destination := newCost];
        queue := queue + [PoidsSource(newCost, destination)];
        pred := pred[destination := current];
      } else {
        RelaxKeepsCost(current, mention, r);
      }
      r := Relax(current, mention, r);
      k := k + 1;
    }
    RelaxFromStop(current, edges, r);
  }

  /** The outer loop of the minimum-cost search (src/Graph.java:138-162),
      seeded with the source at cost 0 and run until the queue is empty. Its
      result is that of Run. */
  method CheapestCosts(adj: Adjacency, s: int) returns (definitive: map<int, real>, pred: map<int, int>)
    requires Closed(adj) && Positive(adj) && s in adj
    ensures var r := Run(adj, s, Init(s)); definitive == r.definitive && pred == r.pred
  {
    definitive := map[s := 0.0];
    pred := map[s := s];
    var file := [PoidsSource(0.0, s)];
    ghost var r := Init(s);
    InitKeeps(adj, s);
    while file != []
      invariant Inv(adj, s, r)
      invariant definitive == r.definitive && pred == r.pred && file == r.queue
      invariant Run(adj, s, r) == Run(adj, s, Init(s))
      decreases |adj.Keys - r.settled|, |file|
    {
      ghost var st := r;
      SettleStep(adj, s, st);
      RunStep(adj, s, st);
      var poidsSource, rest := Poll(file);
      file := rest;
      var current := poidsSource.artist;
      if current in definitive && definitive[current] < poidsSource.poids {
        r := st.(queue := rest);
        assert r == Settle(adj, st);
        continue;
      }
      definitive, pred, file := RelaxEdges(current, Out(adj, current), st.(queue := rest), definitive, pred, file);
      r := RelaxFrom(current, Out(adj, current), 0, st.(queue := rest));
      r := r.(settled := r.settled + {current});
      assert r == Settle(adj, st);
    }
    RunStop(adj, s, r);
  }

  /** What the search leaves behind: the cost and predecessor maps share
      their keys, all of which have adjacency entries; the source costs 0 and is its own predecessor; every other
      id is reached from its predecessor by an edge, costs more than it, and
      costs exactly its cost plus the cheapest edge between the two; and no
      edge leads from an id with a cost to an id without one or to one costing
      more than going through that edge. */
  ghost predicate Priced(adj: Adjacency, s: int, pred: map<int, int>, best: map<int, real>) {
    && best.Keys == pred.Keys && best.Keys <= adj.Keys && s in best && best[s] == 0.0 && pred[s] == s
    && (forall v {:trigger pred[v]} :: v in pred && v != s ==>
          && pred[v] in pred && Links(Out(adj, pred[v]), v) && best[pred[v]] < best[v]
          && best[v] == best[pred[v]] + CheapestTo(Out(adj, pred[v]), v).weight)
    && (forall u, e :: u in best && e in Out(adj, u) ==>
          e.destination in best && best[e.destination] <= best[u] + e.weight)
  }

  /** The state Run ends in satisfies Priced. */
  lemma {:induction false} EndPriced(adj: Adjacency, s: int, st: Dij)
    requires Positive(adj) && Inv(adj, s, st) && st.queue == []
    ensures Priced(adj, s, st.pred, st.definitive)
  {
    forall v | v in st.definitive ensures v in st.settled {
      assert PoidsSource(st.definitive[v], v) !in st.queue;
    }
    forall v {:trigger st.pred[v]} | v in st.pred && v != s
      ensures st.pred[v] in st.pred && Links(Out(adj, st.pred[v]), v) && st.definitive[st.pred[v]] < st.definitive[v]
      ensures st.definitive[v] == st.definitive[st.pred[v]] + CheapestTo(Out(adj, st.pred[v]), v).weight
    {
      var u, e := st.pred[v], st.via[v];
      var edges := Out(adj, u);
      var j :| 0 <= j < |edges| && edges[j] == e;
      assert Links(edges, v);
      assert u in adj && e in adj[u];
      var c := CheapestTo(edges, v);
      assert c.weight <= e.weight;
      assert st.definitive[v] <= st.definitive[u] + c.weight;
    }
  }

  /** Every id but `s` has a predecessor with a cost below its own. */
  ghost predicate Descends(s: int, pred: map<int, int>, best: map<int, real>) {
    && pred.Keys == best.Keys
    && forall v {:trigger pred[v]} :: v in pred && v != s ==> pred[v] in pred && best[pred[v]] < best[v]
  }

  /** The chain of predecessors from the source to `v`. */
  ghost function ChainBack(s: int, pred: map<int, int>, best: map<int, real>, v: int): (p: seq<int>)
    requires Descends(s, pred, best) && v in pred
    ensures FollowsPred(pred, s, p) && p[0] == s && p[|p| - 1] == v
    decreases |Below(best, v)|
  {
    if v == s then [s]
    else
      BelowShrinks(best, pred[v], v);
      var q := ChainBack(s, pred, best, pred[v]);
      assert forall i :: 0 < i < |q| ==> (q + [v])[i] == q[i];
      q + [v]
  }

  /** What the minimum-cost search computes from the source `s`: the final
      maps satisfy Priced, the destination `d` has a predecessor exactly when
      it is reachable, and its cost is then the least weight of an edge path
      from `s` to `d`: one such path weighs exactly that, and none weighs
      less. */
  lemma CheapestCorrect(adj: Adjacency, s: int, d: int)
    requires Closed(adj) && Positive(adj) && s in adj
    ensures var r := Run(adj, s, Init(s));
      && Priced(adj, s, r.pred, r.definitive)
      && (d in r.pred <==> Reachable(adj, s, d))
      && (d in r.pred ==> exists es :: IsEdgePath(adj, es, s, d) && Cost(es) == r.definitive[d])
      && (forall es :: IsEdgePath(adj, es, s, d) ==> d in r.definitive && r.definitive[d] <= Cost(es))
  {
    InitKeeps(adj, s);
    var r := Run(adj, s, Init(s));
    EndPriced(adj, s, r);
    if d in r.pred {
      var p := ChainBack(s, r.pred, r.definitive, d);
      PricedChain(adj, s, r.pred, r.definitive, p);
      CheapestRouteIsEdgePath(adj, p);
    } else {
      forall x, y | x in r.definitive && Links(Out(adj, x), y) ensures y in r.definitive {
        var j :| 0 <= j < |Out(adj, x)| && Out(adj, x)[j].destination == y;
        assert Out(adj, x)[j] in Out(adj, x);
      }
      ClosedUnreachable(adj, r.definitive.Keys, s, d);
    }
    forall es | IsEdgePath(adj, es, s, d) ensures d in r.definitive && r.definitive[d] <= Cost(es) {
      RelaxedLowerBound(adj, r.definitive, es, s, d);
    }
  }

  /** A measure that drops along the predecessor chain, by which the
      reporting routine's walk back ends. */
  lemma PricedRank(adj: Adjacency, s: int, pred: map<int, int>, best: map<int, real>) returns (rank: map<int, nat>)
    requires Priced(adj, s, pred, best)
    ensures rank.Keys == pred.Keys
    ensures forall v {:trigger pred[v]} :: v in pred && v != s ==> pred[v] in pred && rank[pred[v]] < rank[v]
  {
    rank := map v | v in best :: |Below(best, v)|;
    forall v | v in pred && v != s ensures rank[pred[v]] < rank[v] {
      BelowShrinks(best, pred[v], v);
    }
  }

  /** A predecessor chain from the source is a walk, and the cost of its last
      id is the walk's cheapest cost. */
  lemma PricedChain(adj: Adjacency, s: int, pred: map<int, int>, best: map<int, real>, p: seq<int>)
    requires Priced(adj, s, pred, best) && FollowsPred(pred, s, p) && p[0] == s
    ensures WalkBetween(adj, p, s, p[|p| - 1])
    ensures p[|p| - 1] in best && best[p[|p| - 1]] == CheapestCost(adj, p)
  {
    PredChainWalk(adj, pred, s, p);
    PredChainCheapest(adj, pred, best, s, p);
  }
}
