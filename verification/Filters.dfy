/** What each filter of the trace list means, column by column, over the whole walk. */
module Filters {
  import opened Types
  import opened Batches
  import opened Writes
  import opened Ordering
  import opened Reads
  import opened Paging

  /** Everything a client sees that follows the cursors from the first page to the end. */
  ghost function Walk(codec: Codec, t: Tables, p: Id, f: Filter, limit: nat): seq<Listed>
    requires limit >= 1
  {
    Collect(codec, t, p, f, limit, None, |t.traces| + 1)
  }

  ghost predicate Shown(walk: seq<Listed>, id: Id) {
    exists i :: 0 <= i < |walk| && walk[i].id == id
  }

  const ANY := Filter(None, None, None, None, None, [], None, None)

  // ---------------------------------------------------------------- enough requests

  ghost function SortKeys(t: Tables, keys: set<RowKey>): set<Rank>
    requires keys <= t.traces.Keys
  {
    set k | k in keys :: (t.traces[k].startedAt, k.id)
  }

  lemma {:induction false} FewerPlaces(t: Tables, keys: set<RowKey>)
    requires keys <= t.traces.Keys
    ensures |SortKeys(t, keys)| <= |keys|
    decreases keys
  {
    if keys != {} {
      var k :| k in keys;
      FewerPlaces(t, keys - {k});
      assert SortKeys(t, keys) == SortKeys(t, keys - {k}) + {(t.traces[k].startedAt, k.id)};
    } else {
      assert SortKeys(t, keys) == {};
    }
  }

  lemma NoMoreThanStored(t: Tables, p: Id, f: Filter)
    ensures |Candidates(t, p, f)| <= |t.traces|
  {
    var keys := set k | k in t.traces && k.project == p && Matches(t.traces[k], f);
    FewerPlaces(t, keys);
    assert Candidates(t, p, f) == SortKeys(t, keys);
    Subset(keys, t.traces.Keys);
  }

  lemma {:induction false} Subset(a: set<RowKey>, b: set<RowKey>)
    requires a <= b
    ensures |a| <= |b|
    decreases a
  {
    if a != {} {
      var k :| k in a;
      Subset(a - {k}, b - {k});
    }
  }

  lemma WalkShows(codec: Codec, t: Tables, p: Id, f: Filter, limit: nat, id: Id)
    requires limit >= 1 && Faithful(codec)
    ensures Shown(Walk(codec, t, p, f, limit), id)
            <==> RowKey(p, id) in t.traces && Matches(t.traces[RowKey(p, id)], f)
  {
    var walk, k := Walk(codec, t, p, f, limit), RowKey(p, id);
    NoMoreThanStored(t, p, f);
    WalkListsAll(codec, t, p, f, limit, |t.traces| + 1);
    if Shown(walk, id) {
      var i :| 0 <= i < |walk| && walk[i].id == id;
      assert PageRanks(walk)[i] == ListedRank(walk[i]) && ListedRank(walk[i]) in PageRanks(walk);
      CandidateIsRow(t, p, f, ListedRank(walk[i]));
    }
    if k in t.traces && Matches(t.traces[k], f) {
      var r := (t.traces[k].startedAt, id);
      assert r in Candidates(t, p, f) && r in PageRanks(walk);
      var i :| 0 <= i < |walk| && PageRanks(walk)[i] == r;
      assert walk[i].id == id;
    }
  }

  // ---------------------------------------------------------------- one filter at a time

  /** Without a filter the walk shows every trace of the project, and no other. */
  lemma UnfilteredShowsAll(codec: Codec, t: Tables, p: Id, limit: nat, id: Id)
    requires limit >= 1 && Faithful(codec)
    ensures Shown(Walk(codec, t, p, ANY, limit), id) <==> RowKey(p, id) in t.traces
  {
    WalkShows(codec, t, p, ANY, limit, id);
  }

  /** A filter on one text column shows exactly the traces with that value there; NULL is no value. */
  lemma OneTextFilter(codec: Codec, t: Tables, p: Id, limit: nat, v: string, id: Id)
    requires limit >= 1 && Faithful(codec) && RowKey(p, id) in t.traces
    ensures var about := t.traces[RowKey(p, id)].about;
      && (Shown(Walk(codec, t, p, ANY.(name := Some(v)), limit), id) <==> about.name == Some(v))
      && (Shown(Walk(codec, t, p, ANY.(userId := Some(v)), limit), id) <==> about.userId == Some(v))
      && (Shown(Walk(codec, t, p, ANY.(sessionId := Some(v)), limit), id) <==> about.sessionId == Some(v))
      && (Shown(Walk(codec, t, p, ANY.(environment := Some(v)), limit), id) <==> about.environment == Some(v))
      && (Shown(Walk(codec, t, p, ANY.(release := Some(v)), limit), id) <==> about.release == Some(v))
  {
    WalkShows(codec, t, p, ANY.(name := Some(v)), limit, id);
    WalkShows(codec, t, p, ANY.(userId := Some(v)), limit, id);
    WalkShows(codec, t, p, ANY.(sessionId := Some(v)), limit, id);
    WalkShows(codec, t, p, ANY.(environment := Some(v)), limit, id);
    WalkShows(codec, t, p, ANY.(release := Some(v)), limit, id);
  }

  /** One tag shows the traces that carry it; a range shows those that start in it, its lower end included. */
  lemma OneTagOrRange(codec: Codec, t: Tables, p: Id, limit: nat, x: string, at: int, id: Id)
    requires limit >= 1 && Faithful(codec) && RowKey(p, id) in t.traces
    ensures var row := t.traces[RowKey(p, id)];
      && (Shown(Walk(codec, t, p, ANY.(tags := [x]), limit), id) <==> x in row.about.tags)
      && (Shown(Walk(codec, t, p, ANY.(since := Some(at)), limit), id) <==> at <= row.startedAt)
      && (Shown(Walk(codec, t, p, ANY.(until := Some(at)), limit), id) <==> row.startedAt < at)
  {
    WalkShows(codec, t, p, ANY.(tags := [x]), limit, id);
    WalkShows(codec, t, p, ANY.(since := Some(at)), limit, id);
    WalkShows(codec, t, p, ANY.(until := Some(at)), limit, id);
  }

  // ---------------------------------------------------------------- several at once

  /** No field but the tags is set in both. */
  predicate Apart(f: Filter, g: Filter) {
    && (f.name == None || g.name == None) && (f.userId == None || g.userId == None)
    && (f.sessionId == None || g.sessionId == None) && (f.environment == None || g.environment == None)
    && (f.release == None || g.release == None)
    && (f.since == None || g.since == None) && (f.until == None || g.until == None)
  }

  function Either<T>(a: Option<T>, b: Option<T>): Option<T> {
    if a.Some? then a else b
  }

  /** The filters of both, the tags one after the other. */
  function Both(f: Filter, g: Filter): Filter {
    Filter(Either(f.name, g.name), Either(f.userId, g.userId), Either(f.sessionId, g.sessionId),
           Either(f.environment, g.environment), Either(f.release, g.release), f.tags + g.tags,
           Either(f.since, g.since), Either(f.until, g.until))
  }

  /** Asking for both shows what each of the two shows: every filter narrows, and every tag is wanted. */
  lemma FiltersIntersect(codec: Codec, t: Tables, p: Id, f: Filter, g: Filter, limit: nat, id: Id)
    requires limit >= 1 && Faithful(codec) && Apart(f, g)
    ensures Shown(Walk(codec, t, p, Both(f, g), limit), id)
            <==> Shown(Walk(codec, t, p, f, limit), id) && Shown(Walk(codec, t, p, g, limit), id)
  {
    WalkShows(codec, t, p, Both(f, g), limit, id);
    WalkShows(codec, t, p, f, limit, id);
    WalkShows(codec, t, p, g, limit, id);
    if RowKey(p, id) in t.traces {
      MatchesBoth(t.traces[RowKey(p, id)], f, g);
    }
  }

  lemma MatchesBoth(row: TraceRow, f: Filter, g: Filter)
    requires Apart(f, g)
    ensures Matches(row, Both(f, g)) <==> Matches(row, f) && Matches(row, g)
  {
    assert forall tag :: tag in f.tags + g.tags <==> tag in f.tags || tag in g.tags;
  }

  /** Two ranges together show what lies in both, which begins at the later of their beginnings and stops at the
      earlier of their ends. */
  lemma RangesIntersect(codec: Codec, t: Tables, p: Id, f: Filter, a: int, b: int, limit: nat, id: Id)
    requires limit >= 1 && Faithful(codec)
    ensures Shown(Walk(codec, t, p, f.(since := Some(if a <= b then b else a)), limit), id)
            <==> Shown(Walk(codec, t, p, f.(since := Some(a)), limit), id)
                 && Shown(Walk(codec, t, p, f.(since := Some(b)), limit), id)
    ensures Shown(Walk(codec, t, p, f.(until := Some(if a <= b then a else b)), limit), id)
            <==> Shown(Walk(codec, t, p, f.(until := Some(a)), limit), id)
                 && Shown(Walk(codec, t, p, f.(until := Some(b)), limit), id)
  {
    WalkShows(codec, t, p, f.(since := Some(if a <= b then b else a)), limit, id);
    WalkShows(codec, t, p, f.(since := Some(a)), limit, id);
    WalkShows(codec, t, p, f.(since := Some(b)), limit, id);
    WalkShows(codec, t, p, f.(until := Some(if a <= b then a else b)), limit, id);
    WalkShows(codec, t, p, f.(until := Some(a)), limit, id);
    WalkShows(codec, t, p, f.(until := Some(b)), limit, id);
  }

  /** The walk runs from the newest start to the oldest, and from the greatest id to the least within one start. */
  lemma WalkIsNewestFirst(codec: Codec, t: Tables, p: Id, f: Filter, limit: nat, i: nat, j: nat)
    requires limit >= 1 && Faithful(codec)
    ensures var walk := Walk(codec, t, p, f, limit);
            i < j < |walk| ==> walk[i].row.startedAt > walk[j].row.startedAt
                               || (walk[i].row.startedAt == walk[j].row.startedAt && walk[i].id > walk[j].id)
  {
    var walk := Walk(codec, t, p, f, limit);
    NoMoreThanStored(t, p, f);
    WalkListsAll(codec, t, p, f, limit, |t.traces| + 1);
    if i < j < |walk| {
      assert Below(PageRanks(walk)[j], PageRanks(walk)[i]);
    }
  }
}
