/** The mention graph (src/Graph.java): its three indexes, the load step, the
    lookups, the fewest-edges and minimum-cost searches, and the reporting
    routine both searches share. */
module MentionGraph {
  import opened Artists
  import opened Mentions
  import opened Loading
  import opened Paths
  import opened BreadthFirst
  import CheapestFirst

  datatype Option<T> = None | Some(value: T)

  /** A successful query's answer: the ids along the path from source to
      destination, the artists they name, the number of hops and the cost the
      reporting routine adds up. */
  datatype PathReport = PathReport(path: seq<int>, artists: seq<Artist>, hopCount: nat, cost: real)

  /** The outcome of a query. The source throws the same RuntimeException for
      both failures; they are told apart here. */
  datatype QueryResult = Found(report: PathReport) | ArtistNotFound | PathNotFound

  class Graph {
    var artistsById: map<int, Artist>
    var artistsByName: map<string, Artist>
    var adjacency: map<int, seq<Mention>>

    /** The three indexes as one value. */
    function State(): Store
      reads this
    {
      Store(artistsById, artistsByName, adjacency)
    }

    /** What loading guarantees and every query relies on. */
    ghost predicate Valid()
      reads this
    {
      WellFormed(State())
    }

    /** A report of a path from `s` to `d`: a walk of the graph, its hop count,
        the cost the reporting routine gives it and the artists along it. */
    ghost predicate Describes(rep: PathReport, s: int, d: int)
      reads this
    {
      && WalkBetween(adjacency, rep.path, s, d)
      && rep.path[|rep.path| - 1] == d
      && rep.hopCount == |rep.path| - 1
      && rep.cost == ReportedCost(adjacency, rep.path)
      && |rep.artists| == |rep.path|
      && (forall i :: 0 <= i < |rep.path| ==>
            rep.path[i] in artistsById && rep.artists[i] == artistsById[rep.path[i]])
    }

    /** Builds the graph from the already-split lines of the artist file and
        of the mention file (src/Graph.java:18-30). */
    constructor (artists: seq<ArtistRecord>, mentions: seq<MentionRecord>)
      requires CountsPositive(mentions)
      ensures State() == Load(artists, mentions)
      ensures Valid()
    {
      artistsById := map[];
      artistsByName := map[];
      adjacency := map[];
      new;
      LoadArtists(artists);
      PutArtistsKeys(EMPTY, artists);
      LoadMentions(mentions);
      LoadWellFormed(artists, mentions);
    }

    /** Files each parsed artist line under its id and name, with an empty
        adjacency entry (src/Graph.java:32-49). */
    method LoadArtists(rs: seq<ArtistRecord>)
      modifies this
      ensures State() == PutArtists(old(State()), rs)
    {
      ghost var st0 := State();
      var i := 0;
      while i < |rs|
        invariant 0 <= i <= |rs|
        invariant State() == PutArtists(st0, rs[..i])
      {
        assert rs[..i + 1][..i] == rs[..i];
        if rs[i].ArtistLine? {
          var artist := Artist(rs[i].id, rs[i].name, rs[i].category);
          artistsById := artistsById[rs[i].id := artist];
          artistsByName := artistsByName[rs[i].name := artist];
          adjacency := adjacency[rs[i].id := []];
        }
        i := i + 1;
      }
      assert rs[..|rs|] == rs;
    }

    /** Appends an edge of weight `1 / count` for each parsed mention line whose
        two endpoints are known artists (src/Graph.java:51-68). */
    method LoadMentions(ms: seq<MentionRecord>)
      requires CountsPositive(ms)
      requires artistsById.Keys <= adjacency.Keys
      modifies this
      ensures State() == PutMentions(old(State()), ms)
    {
      ghost var st0 := State();
      var i := 0;
      while i < |ms|
        invariant 0 <= i <= |ms|
        invariant CountsPositive(ms[..i])
        invariant artistsById == st0.byId && artistsById.Keys <= adjacency.Keys
        invariant State() == PutMentions(st0, ms[..i])
      {
        assert ms[..i + 1][..i] == ms[..i];
        assert ms[i] in ms;
        if ms[i].MentionLine? {
          var weight := WeightOf(ms[i].count);
          if ms[i].sourceId in artistsById && ms[i].destId in artistsById {
            var mention := Mention(ms[i].sourceId, ms[i].destId, weight);
            adjacency := adjacency[ms[i].sourceId := adjacency[ms[i].sourceId] + [mention]];
          }
        }
        i := i + 1;
      }
      assert ms[..|ms|] == ms;
    }

    /** The artist with id `id`, if any (src/Graph.java:70-72). */
    function GetArtistById(id: int): (r: Option<Artist>)
      reads this
      ensures r.Some? <==> id in artistsById
      ensures r.Some? ==> r.value == artistsById[id]
      ensures Valid() && r.Some? ==> r.value.id == id
    {
      if id in artistsById then Some(artistsById[id]) else None
    }

    /** The artist named `name`, if any (src/Graph.java:74-76). */
    function GetArtistByName(name: string): (r: Option<Artist>)
      reads this
      ensures r.Some? <==> name in artistsByName
      ensures r.Some? ==> r.value == artistsByName[name]
      ensures Valid() && r.Some? ==> r.value.name == name && r.value.id in artistsById
    {
      if name in artistsByName then Some(artistsByName[name]) else None
    }

    /** The outgoing edges of `id`, if it is a known artist (src/Graph.java:78-80). */
    function GetOutgoingMentions(id: int): (r: Option<seq<Mention>>)
      reads this
      ensures r.Some? <==> id in adjacency
      ensures r.Some? ==> r.value == adjacency[id]
      ensures Valid() ==> (r.Some? <==> id in artistsById)
      ensures Valid() && r.Some? ==>
        forall e :: e in r.value ==> e.source == id && e.destination in artistsById && e.weight > 0.0
    {
      if id in adjacency then Some(adjacency[id]) else None
    }

    /** The fewest-edges query (src/Graph.java:82-125): a breadth-first search
        from the source that stops as soon as the destination is reached.
        It fails when a name is unknown, and otherwise exactly when the
        destination is the source itself or cannot be reached; on success the
        path is a walk of the graph with the fewest hops. */
    method ShortestPath(sourceName: string, destName: string) returns (r: QueryResult)
      requires Valid()
      ensures r.ArtistNotFound? <==> (sourceName !in artistsByName || destName !in artistsByName)
      ensures sourceName in artistsByName && destName in artistsByName ==>
        var s, d := artistsByName[sourceName].id, artistsByName[destName].id;
        && (r.PathNotFound? <==> (s == d || !Reachable(adjacency, s, d)))
        && (r.Found? ==>
              Describes(r.report, s, d) &&
              forall p :: WalkBetween(adjacency, p, s, d) ==> r.report.hopCount <= |p| - 1)
    {
      if sourceName !in artistsByName || destName !in artistsByName {
        return ArtistNotFound;
      }
      var s := artistsByName[sourceName].id;
      var d := artistsByName[destName].id;

      ValidClosed();
      var pred, found := FewestHops(adjacency, s, d);
      ghost var res := Search(adjacency, d, Init(s));
      SearchCorrect(adjacency, s, d);
      if !found {
        return PathNotFound;
      }
      var report := Report(s, d, pred, res.dist);
      ChainIsShortestWalk(adjacency, s, pred, res.visited, res.dist, res.via, report.path);
      return Found(report);
    }

    /** The adjacency of a valid graph is closed under edges. */
    lemma ValidClosed()
      requires Valid()
      ensures Closed(adjacency)
    {
    }

    /** Every edge of a valid graph has a positive weight. */
    lemma ValidPositive()
      requires Valid()
      ensures CheapestFirst.Positive(adjacency)
    {
    }

    /** The minimum-cost query (src/Graph.java:128-167): a Dijkstra search
        with lazy deletion of stale queue entries. It fails when a name is
        unknown, and otherwise exactly when the destination cannot be reached
        (a source is reached from itself by the empty path). On success the
        path is a walk whose cheapest edges weigh exactly the least weight of
        an edge path from source to destination; the reported cost, which
        takes the first edge of each hop, equals it when no two edges of an
        artist share a destination. */
    method MinCostPath(sourceName: string, destName: string) returns (r: QueryResult)
      requires Valid()
      ensures r.ArtistNotFound? <==> (sourceName !in artistsByName || destName !in artistsByName)
      ensures sourceName in artistsByName && destName in artistsByName ==>
        var s, d := artistsByName[sourceName].id, artistsByName[destName].id;
        && (r.PathNotFound? <==> !Reachable(adjacency, s, d))
        && (s == d ==> r.Found? && r.report.hopCount == 0)
        && (r.Found? ==>
              Describes(r.report, s, d) &&
              (exists es :: IsEdgePath(adjacency, es, s, d) && Cost(es) == CheapestCost(adjacency, r.report.path)) &&
              r.report.cost >= CheapestCost(adjacency, r.report.path) &&
              (NoParallelEdges(adjacency) ==> r.report.cost == CheapestCost(adjacency, r.report.path)) &&
              forall es :: IsEdgePath(adjacency, es, s, d) ==> CheapestCost(adjacency, r.report.path) <= Cost(es))
    {
      if sourceName !in artistsByName || destName !in artistsByName {
        return ArtistNotFound;
      }
      var s := artistsByName[sourceName].id;
      var d := artistsByName[destName].id;

      ValidClosed();
      ValidPositive();
      var definitive, pred := CheapestFirst.CheapestCosts(adjacency, s);
      CheapestFirst.CheapestCorrect(adjacency, s, d);
      assert WalkBetween(adjacency, [s], s, s);
      if d !in pred {
        return PathNotFound;
      }
      ghost var rank := CheapestFirst.PricedRank(adjacency, s, pred, definitive);
      var report := Report(s, d, pred, rank);
      CheapestFirst.PricedChain(adjacency, s, pred, definitive, report.path);
      ReportedNotBelowCheapest(adjacency, report.path);
      return Found(report);
    }

    /** The reporting routine both queries share (src/Graph.java:169-191):
        walks the predecessor map back from the destination to the source,
        adding for each hop the weight of the first edge of the predecessor
        that reaches the hop's id. `rank` is a proof-only measure that drops
        along the predecessor chain, so the walk back ends. */
    method Report(s: int, d: int, pred: map<int, int>, ghost rank: map<int, nat>) returns (rep: PathReport)
      requires Valid()
      requires d in pred
      requires forall v :: v in pred ==> v in rank && v in artistsById
      requires forall v {:trigger pred[v]} :: v in pred && v != s ==> pred[v] in pred && pred[v] in rank && rank[pred[v]] < rank[v]
      ensures |rep.path| > 0 && rep.path[0] == s && rep.path[|rep.path| - 1] == d
      ensures FollowsPred(pred, s, rep.path)
      ensures rep.hopCount == |rep.path| - 1
      ensures rep.cost == ReportedCost(adjacency, rep.path)
      ensures |rep.artists| == |rep.path|
      ensures forall i :: 0 <= i < |rep.path| ==> rep.path[i] in artistsById && rep.artists[i] == artistsById[rep.path[i]]
    {
      var chemin: seq<int> := [];
      var current := d;
      var cost := 0.0;
      while current != s
        invariant current in pred && Valid()
        invariant forall v :: v in pred ==> v in artistsById
        invariant FollowsPred(pred, s, [current] + chemin)
        invariant ([current] + chemin)[|chemin|] == d
        invariant cost == ReportedCost(adjacency, [current] + chemin)
        decreases rank[current]
      {
        assert pred[current] in artistsById;
        var edges := adjacency[pred[current]];
        var k := 0;
        while k < |edges| && edges[k].destination != current
          invariant 0 <= k <= |edges|
          invariant forall j :: 0 <= j < k ==> edges[j].destination != current
        {
          k := k + 1;
        }
        FirstWeightAt(edges, current, k);
        if k < |edges| {
          cost := cost + edges[k].weight;
        }
        ghost var hop := [pred[current]] + ([current] + chemin);
        assert hop[1..] == [current] + chemin;
        chemin := [current] + chemin;
        current := pred[current];
      }
      var path := [s] + chemin;
      var byId := artistsById;
      var artists := seq(|path|, i requires 0 <= i < |path| && path[i] in byId => byId[path[i]]);
      rep := PathReport(path, artists, |chemin|, cost);
    }
  }
}
