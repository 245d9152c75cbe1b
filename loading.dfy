/** What the load step of the mention graph computes (src/Graph.java:32-68),
    stated on values: the input records, the three indexes as one store value,
    the per-record updates, and what the indexes hold once every record is in. */
module Loading {
  import opened Artists
  import opened Mentions

  /** One line of the artist file once split on its first two commas. A line
      that does not split into three fields is malformed and skipped. */
  datatype ArtistRecord = ArtistLine(id: int, name: string, category: string) | MalformedArtistLine

  /** One line of the mention file once split on its commas. A line that does
      not split into exactly three fields is malformed and skipped. */
  datatype MentionRecord = MentionLine(sourceId: int, destId: int, count: int) | MalformedMentionLine

  /** The graph's three indexes: artists by id, artists by name, and the
      outgoing edges of each id in insertion order. */
  datatype Store = Store(byId: map<int, Artist>, byName: map<string, Artist>, adjacency: map<int, seq<Mention>>)

  /** The indexes of a graph under construction, before any record is read. */
  const EMPTY: Store := Store(map[], map[], map[])

  /** Every parsed mention line has a positive count, so that `1 / count` is a
      positive weight. */
  predicate CountsPositive(ms: seq<MentionRecord>) {
    forall r :: r in ms && r.MentionLine? ==> r.count > 0
  }

  /** The store as the source's invariants leave it: an adjacency entry for
      exactly the known ids, each artist filed under its own id and name, the
      artist of every name still known by its id, and every edge stored under
      its source, ending at a known artist, with a positive weight. */
  ghost predicate WellFormed(st: Store) {
    && st.adjacency.Keys == st.byId.Keys
    && (forall id :: id in st.byId ==> st.byId[id].id == id)
    && (forall n :: n in st.byName ==> st.byName[n].name == n && st.byName[n].id in st.byId)
    && (forall x, e :: x in st.adjacency && e in st.adjacency[x] ==>
          e.source == x && e.destination in st.byId && e.weight > 0.0)
  }

  /** One artist record: a parsed line files a new artist under its id and its
      name, overwriting an earlier artist with the same id or name, and gives
      the id a fresh, empty adjacency entry (src/Graph.java:37-45). */
  function PutArtist(st: Store, r: ArtistRecord): (st': Store)
    ensures r.MalformedArtistLine? ==> st' == st
    ensures r.ArtistLine? ==>
      && st'.byId.Keys == st.byId.Keys + {r.id}
      && st'.byName.Keys == st.byName.Keys + {r.name}
      && st'.adjacency.Keys == st.adjacency.Keys + {r.id}
      && st'.byId[r.id] == Artist(r.id, r.name, r.category)
      && r.name in st'.byName && st'.byName[r.name] == st'.byId[r.id]
      && r.id in st'.adjacency && st'.adjacency[r.id] == []
    ensures r.ArtistLine? ==>
      && (forall x :: x in st.byId && x != r.id ==> st'.byId[x] == st.byId[x])
      && (forall n :: n in st.byName && n != r.name ==> n in st'.byName && st'.byName[n] == st.byName[n])
      && (forall x :: x in st.adjacency && x != r.id ==> x in st'.adjacency && st'.adjacency[x] == st.adjacency[x])
  {
    match r
    case MalformedArtistLine => st
    case ArtistLine(id, name, category) =>
      var a := Artist(id, name, category);
      Store(st.byId[id := a], st.byName[name := a], st.adjacency[id := []])
  }

  /** The artist records in file order (src/Graph.java:35-47). */
  function PutArtists(st: Store, rs: seq<ArtistRecord>): (st': Store)
    ensures st.byId.Keys <= st'.byId.Keys && st.byName.Keys <= st'.byName.Keys
    ensures st.adjacency.Keys <= st'.adjacency.Keys
    ensures rs == [] ==> st' == st
    decreases |rs|
  {
    if rs == [] then st else PutArtist(PutArtists(st, rs[..|rs| - 1]), rs[|rs| - 1])
  }

  /** One mention record: when both endpoints are known artists, an edge of
      weight `1 / count` is appended to its source's adjacency sequence;
      otherwise the record is dropped (src/Graph.java:56-64). */
  function PutMention(st: Store, r: MentionRecord): (st': Store)
    requires st.byId.Keys <= st.adjacency.Keys
    requires r.MentionLine? ==> r.count > 0
    ensures st'.byId == st.byId && st'.byName == st.byName
    ensures st'.adjacency.Keys == st.adjacency.Keys
  {
    match r
    case MalformedMentionLine => st
    case MentionLine(src, dst, count) =>
      if src in st.byId && dst in st.byId then
        st.(adjacency := st.adjacency[src := st.adjacency[src] + [Mention(src, dst, WeightOf(count))]])
      else st
  }

  /** The mention records in file order (src/Graph.java:54-66). */
  function PutMentions(st: Store, ms: seq<MentionRecord>): (st': Store)
    requires st.byId.Keys <= st.adjacency.Keys
    requires CountsPositive(ms)
    ensures st'.byId == st.byId && st'.byName == st.byName
    ensures st'.adjacency.Keys == st.adjacency.Keys
    decreases |ms|
  {
    if ms == [] then st
    else
      assert ms[|ms| - 1] in ms;
      PutMention(PutMentions(st, ms[..|ms| - 1]), ms[|ms| - 1])
  }

  /** The whole load: the artist file, then the mention file. */
  function Load(artists: seq<ArtistRecord>, mentions: seq<MentionRecord>): (st: Store)
    requires CountsPositive(mentions)
    ensures forall x :: x in st.byId <==>
      exists j :: 0 <= j < |artists| && artists[j].ArtistLine? && artists[j].id == x
    ensures st.adjacency.Keys == st.byId.Keys
  {
    PutArtistsKeys(EMPTY, artists);
    PutArtistsWellFormed(EMPTY, artists);
    assert forall x :: x in PutArtists(EMPTY, artists).byId <==>
      exists j :: 0 <= j < |artists| && artists[j].ArtistLine? && artists[j].id == x
    by {
      forall x {
        ArtistIds(EMPTY, artists, x);
      }
    }
    PutMentions(PutArtists(EMPTY, artists), mentions)
  }

  /** Loading artists keeps the adjacency keys in step with the id keys. */
  lemma {:induction false} PutArtistsKeys(st: Store, rs: seq<ArtistRecord>)
    requires st.byId.Keys <= st.adjacency.Keys
    ensures PutArtists(st, rs).byId.Keys <= PutArtists(st, rs).adjacency.Keys
    decreases |rs|
  {
    if rs != [] {
      PutArtistsKeys(st, rs[..|rs| - 1]);
    }
  }

  /** Reading an artist record keeps a store well formed. */
  lemma PutArtistWellFormed(st: Store, r: ArtistRecord)
    requires WellFormed(st)
    ensures WellFormed(PutArtist(st, r))
  {
  }

  /** Reading artist records keeps a store well formed. */
  lemma {:induction false} PutArtistsWellFormed(st: Store, rs: seq<ArtistRecord>)
    requires WellFormed(st)
    ensures WellFormed(PutArtists(st, rs))
    decreases |rs|
  {
    if rs != [] {
      PutArtistsWellFormed(st, rs[..|rs| - 1]);
      PutArtistWellFormed(PutArtists(st, rs[..|rs| - 1]), rs[|rs| - 1]);
    }
  }

  /** Reading mention records keeps a store well formed: no dangling edge and
      no non-positive weight ever enters the adjacency. */
  lemma {:induction false} PutMentionsWellFormed(st: Store, ms: seq<MentionRecord>)
    requires WellFormed(st)
    requires CountsPositive(ms)
    ensures WellFormed(PutMentions(st, ms))
    decreases |ms|
  {
    if ms != [] {
      PutMentionsWellFormed(st, ms[..|ms| - 1]);
      assert ms[|ms| - 1] in ms;
    }
  }

  /** After loading, the graph is well formed: every edge stored under id `s`
      has source `s`, both endpoints are known artists, and its weight is
      positive; every loaded id has an adjacency entry. */
  lemma LoadWellFormed(artists: seq<ArtistRecord>, mentions: seq<MentionRecord>)
    requires CountsPositive(mentions)
    ensures WellFormed(Load(artists, mentions))
  {
    PutArtistsWellFormed(EMPTY, artists);
    PutMentionsWellFormed(PutArtists(EMPTY, artists), mentions);
  }

  /** Last write wins in the id index: the artist filed under an id is the one
      built from the last parsed line with that id. */
  lemma {:induction false} LastArtistWinsById(st: Store, rs: seq<ArtistRecord>, i: nat)
    requires i < |rs| && rs[i].ArtistLine?
    requires forall j :: i < j < |rs| && rs[j].ArtistLine? ==> rs[j].id != rs[i].id
    ensures rs[i].id in PutArtists(st, rs).byId
    ensures PutArtists(st, rs).byId[rs[i].id] == Artist(rs[i].id, rs[i].name, rs[i].category)
    decreases |rs|
  {
    if i < |rs| - 1 {
      LastArtistWinsById(st, rs[..|rs| - 1], i);
    }
  }

  /** Last write wins in the name index as well. */
  lemma {:induction false} LastArtistWinsByName(st: Store, rs: seq<ArtistRecord>, i: nat)
    requires i < |rs| && rs[i].ArtistLine?
    requires forall j :: i < j < |rs| && rs[j].ArtistLine? ==> rs[j].name != rs[i].name
    ensures rs[i].name in PutArtists(st, rs).byName
    ensures PutArtists(st, rs).byName[rs[i].name] == Artist(rs[i].id, rs[i].name, rs[i].category)
    decreases |rs|
  {
    if i < |rs| - 1 {
      LastArtistWinsByName(st, rs[..|rs| - 1], i);
    }
  }

  /** The ids known after the artist file are those already known and those of
      its parsed lines; each of them has an adjacency entry, left empty when
      loading starts from nothing. */
  lemma {:induction false} ArtistIds(st: Store, rs: seq<ArtistRecord>, x: int)
    ensures x in PutArtists(st, rs).byId <==>
      (x in st.byId || exists j :: 0 <= j < |rs| && rs[j].ArtistLine? && rs[j].id == x)
    ensures (forall y :: y in st.adjacency ==> st.adjacency[y] == []) ==>
      forall y :: y in PutArtists(st, rs).adjacency ==> PutArtists(st, rs).adjacency[y] == []
    decreases |rs|
  {
    if rs != [] {
      var init := rs[..|rs| - 1];
      ArtistIds(st, init, x);
      if exists j :: 0 <= j < |rs| && rs[j].ArtistLine? && rs[j].id == x {
        var j :| 0 <= j < |rs| && rs[j].ArtistLine? && rs[j].id == x;
        if j < |rs| - 1 {
          assert init[j] == rs[j];
        }
      }
      if exists j :: 0 <= j < |init| && init[j].ArtistLine? && init[j].id == x {
        var j :| 0 <= j < |init| && init[j].ArtistLine? && init[j].id == x;
        assert rs[j] == init[j];
      }
    }
  }

  /** The names known after the artist file are those already known and those
      of its parsed lines. */
  lemma {:induction false} ArtistNames(st: Store, rs: seq<ArtistRecord>, n: string)
    ensures n in PutArtists(st, rs).byName <==>
      (n in st.byName || exists j :: 0 <= j < |rs| && rs[j].ArtistLine? && rs[j].name == n)
    decreases |rs|
  {
    if rs != [] {
      var init := rs[..|rs| - 1];
      ArtistNames(st, init, n);
      if exists j :: 0 <= j < |rs| && rs[j].ArtistLine? && rs[j].name == n {
        var j :| 0 <= j < |rs| && rs[j].ArtistLine? && rs[j].name == n;
        if j < |rs| - 1 {
          assert init[j] == rs[j];
        }
      }
      if exists j :: 0 <= j < |init| && init[j].ArtistLine? && init[j].name == n {
        var j :| 0 <= j < |init| && init[j].ArtistLine? && init[j].name == n;
        assert rs[j] == init[j];
      }
    }
  }

  /** The edges a mention file gives to artist `x`, stated independently of the
      load loop: in file order, one edge per parsed line whose source is `x` and
      whose two endpoints are both known; every other line contributes
      nothing. Repeated lines give repeated edges. */
  function Kept(byId: map<int, Artist>, ms: seq<MentionRecord>, x: int): seq<Mention>
    requires CountsPositive(ms)
    decreases |ms|
  {
    if ms == [] then []
    else
      var r := ms[0];
      assert r in ms;
      assert CountsPositive(ms[1..]) by {
        forall q | q in ms[1..] ensures q in ms { }
      }
      (if r.MentionLine? && r.sourceId == x && r.sourceId in byId && r.destId in byId
       then [Mention(x, r.destId, WeightOf(r.count))] else [])
      + Kept(byId, ms[1..], x)
  }

  /** Kept over a file with one more line at its end. */
  lemma {:induction false} KeptSnoc(byId: map<int, Artist>, ms: seq<MentionRecord>, r: MentionRecord, x: int)
    requires CountsPositive(ms + [r])
    ensures CountsPositive(ms)
    ensures Kept(byId, ms + [r], x) == Kept(byId, ms, x) +
      (if r.MentionLine? && r.sourceId == x && r.sourceId in byId && r.destId in byId
       then [Mention(x, r.destId, WeightOf(r.count))] else [])
    decreases |ms|
  {
    assert forall q :: q in ms ==> q in ms + [r];
    if ms != [] {
      assert (ms + [r])[1..] == ms[1..] + [r];
      KeptSnoc(byId, ms[1..], r, x);
    }
  }

  /** The load loop appends to `x`'s adjacency exactly the edges Kept gives it:
      an edge is stored if and only if both its endpoints are known, and in
      file order. */
  lemma {:induction false} PutMentionsKept(st: Store, ms: seq<MentionRecord>, x: int)
    requires st.byId.Keys <= st.adjacency.Keys
    requires CountsPositive(ms)
    requires x in st.adjacency
    ensures PutMentions(st, ms).adjacency[x] == st.adjacency[x] + Kept(st.byId, ms, x)
    decreases |ms|
  {
    if ms == [] {
    } else {
      var init, r := ms[..|ms| - 1], ms[|ms| - 1];
      assert ms == init + [r];
      KeptSnoc(st.byId, init, r, x);
      PutMentionsKept(st, init, x);
    }
  }

  /** After loading, the adjacency sequence of every known artist is exactly
      the kept edges of the mention file whose source it is. */
  lemma LoadedAdjacency(artists: seq<ArtistRecord>, mentions: seq<MentionRecord>, x: int)
    requires CountsPositive(mentions)
    requires x in Load(artists, mentions).byId
    ensures x in Load(artists, mentions).adjacency
    ensures Load(artists, mentions).adjacency[x] == Kept(Load(artists, mentions).byId, mentions, x)
  {
    var st := PutArtists(EMPTY, artists);
    PutArtistsKeys(EMPTY, artists);
    ArtistIds(EMPTY, artists, x);
    PutMentionsKept(st, mentions, x);
  }
}
