/** Daily partition maintenance (migrations 0001 and 0003) under the ingest window. */
module Partitions {
  import opened Types
  import opened Batches
  import opened Writes
  import opened History
  import opened Windows
  import Router
  import Pricing
  import Tenancy

  const DAYS_AHEAD := 30
  const DAYS_BEHIND := 8

  /** Some stored row falls on this day. */
  predicate Occupied(obs: map<ObsKey, ObsRow>, day: int) {
    exists key :: key in obs && Day(obs[key].startedAt) == day
  }

  /** Postgres routes a row to its day's partition when there is one, and to DEFAULT otherwise. */
  predicate Stranded(obs: map<ObsKey, ObsRow>, days: set<int>, day: int) {
    day !in days && Occupied(obs, day)
  }

  /** The days that have a partition after a run: those before, and every day of the range with nothing
      stranded on it. */
  ghost function Maintained(obs: map<ObsKey, ObsRow>, days: set<int>, first: int, last: int): set<int> {
    days + set d | first <= d <= last && !Stranded(obs, days, d)
  }

  /** ensure_observations_partitions(ahead, behind): one pass over the range, a day at a time. */
  method EnsurePartitions(store: Router.Store, today: int, ahead: int, behind: int) returns (created: nat)
    modifies store`partitions
    ensures store.partitions == Maintained(store.observations, old(store.partitions), today - behind, today + ahead)
    ensures created == |store.partitions| - |old(store.partitions)|
  {
    created := 0;
    ghost var first, last, before := today - behind, today + ahead, store.partitions;
    var day := today - behind;
    MaintainedNothing(store.observations, before, first, day - 1);
    while day <= today + ahead
      invariant first <= day && (day == first || day <= last + 1)
      invariant store.partitions == Maintained(store.observations, before, first, day - 1)
      invariant created == |store.partitions| - |before|
      decreases last - day
    {
      MaintainedStep(store.observations, before, first, day);
      if day !in store.partitions && !Occupied(store.observations, day) {
        store.partitions := store.partitions + {day};
        created := created + 1;
      }
      day := day + 1;
    }
    if day == first {
      MaintainedNothing(store.observations, before, first, day - 1);
      MaintainedNothing(store.observations, before, first, last);
    } else {
      assert day - 1 == last;
    }
  }

  lemma MaintainedNothing(obs: map<ObsKey, ObsRow>, days: set<int>, first: int, last: int)
    requires last < first
    ensures Maintained(obs, days, first, last) == days
  {
  }

  lemma MaintainedStep(obs: map<ObsKey, ObsRow>, days: set<int>, first: int, day: int)
    requires first <= day
    ensures var before := Maintained(obs, days, first, day - 1);
            Maintained(obs, days, first, day)
            == if day !in before && !Occupied(obs, day) then before + {day} else before
  {
    var before, after := Maintained(obs, days, first, day - 1), Maintained(obs, days, first, day);
    forall d ensures d in after <==> d in before || (d == day && day !in before && !Occupied(obs, day)) {
    }
  }

  // ---------------------------------------------------------------- runs of maintenance and ingest

  datatype Event = Maintain(now: Time) | Serve(req: Request)

  datatype World = World(tables: Tables, days: set<int>)

  ghost function React(w: World, e: Event): World {
    match e
    case Maintain(now) =>
      w.(days := Maintained(w.tables.observations, w.days, Day(now) - DAYS_BEHIND, Day(now) + DAYS_AHEAD))
    case Serve(req) => w.(tables := Step(w.tables, req))
  }

  ghost function After(w: World, events: seq<Event>): World {
    if events == [] then w else React(After(w, events[..|events| - 1]), events[|events| - 1])
  }

  const FRESH := World(EMPTY, {})

  /** The write is served at most 29 days after the run. */
  predicate ServedWithin(run: Time, now: Time) {
    Day(run) <= Day(now) <= Day(run) + DAYS_AHEAD - 1
  }

  /** Every write is served at most 29 days after some earlier run. */
  ghost predicate Timely(events: seq<Event>) {
    forall i :: 0 <= i < |events| && events[i].Serve?
      ==> exists j :: 0 <= j < i && events[j].Maintain? && ServedWithin(events[j].now, events[i].req.now)
  }

  /** A run's whole range has partitions. */
  predicate Provided(days: set<int>, run: Time) {
    forall d :: Day(run) - DAYS_BEHIND <= d <= Day(run) + DAYS_AHEAD ==> d in days
  }

  ghost predicate NothingStranded(w: World) {
    forall key :: key in w.tables.observations ==> Day(w.tables.observations[key].startedAt) in w.days
  }

  lemma DayMoves(t: int, now: int)
    requires now - MAX_AGE <= t <= now + MAX_FUTURE
    ensures Day(now) - 7 <= Day(t) <= Day(now) + 1
  {
  }

  lemma {:induction false} AcceptedInWindow(pairs: seq<Pair>, project: Id, now: Time, book: Pricing.Book, r: ObsRow)
    requires r in AcceptedRows(pairs, project, now, book)
    ensures InWindow(r.startedAt, now)
    decreases |pairs|
  {
    if r in AcceptedRows(pairs[..|pairs| - 1], project, now, book) {
      AcceptedInWindow(pairs[..|pairs| - 1], project, now, book, r);
    }
  }

  /** The accepted window lies inside the partitioned one for 29 days after a run. */
  lemma AcceptedIsProvided(days: set<int>, run: Time, req: Request, r: ObsRow)
    requires Provided(days, run) && ServedWithin(run, req.now) && r in RowsBy(req)
    ensures Day(r.startedAt) in days
  {
    AcceptedInWindow(Pairs(req.batch), req.project, req.now, req.book, r);
    DayMoves(r.startedAt, req.now);
  }

  lemma InsertedFrom(m: map<ObsKey, ObsRow>, rows: seq<ObsRow>, key: ObsKey)
    requires key in InsertObservations(m, rows)
    ensures (key in m && InsertObservations(m, rows)[key] == m[key])
            || (key !in m && InsertObservations(m, rows)[key] in rows)
  {
    Tenancy.InsertAt(m, rows, key);
    InsertKeepsFirst(rows, key);
  }

  ghost predicate AllProvided(events: seq<Event>, days: set<int>) {
    forall j :: 0 <= j < |events| && events[j].Maintain? ==> Provided(days, events[j].now)
  }

  lemma RowsAreProvided(events: seq<Event>, days: set<int>, req: Request)
    requires AllProvided(events, days)
    requires exists j :: 0 <= j < |events| && events[j].Maintain? && ServedWithin(events[j].now, req.now)
    ensures forall r :: r in RowsBy(req) ==> Day(r.startedAt) in days
  {
    var j :| 0 <= j < |events| && events[j].Maintain? && ServedWithin(events[j].now, req.now);
    forall r | r in RowsBy(req) ensures Day(r.startedAt) in days {
      AcceptedIsProvided(days, events[j].now, req, r);
    }
  }

  lemma ServeStaysClean(w: World, req: Request)
    requires NothingStranded(w) && forall r :: r in RowsBy(req) ==> Day(r.startedAt) in w.days
    ensures NothingStranded(React(w, Serve(req)))
  {
    if Admissible(req.batch) {
      var u := React(w, Serve(req));
      forall key | key in u.tables.observations ensures Day(u.tables.observations[key].startedAt) in w.days {
        InsertedFrom(w.tables.observations, ProposedRows(req), key);
      }
    }
  }

  /** In every timely run nothing is ever stranded and no run of maintenance skips a day. */
  lemma {:induction false} TimelyRunsStayClean(events: seq<Event>)
    requires Timely(events)
    ensures NothingStranded(After(FRESH, events)) && AllProvided(events, After(FRESH, events).days)
    decreases |events|
  {
    if events != [] {
      var init, last := events[..|events| - 1], events[|events| - 1];
      PrefixIsTimely(events);
      TimelyRunsStayClean(init);
      var w, u := After(FRESH, init), After(FRESH, events);
      assert forall i :: 0 <= i < |events| ==> events[i] == (if i < |init| then init[i] else last);
      match last
      case Serve(req) =>
        var j :| 0 <= j < |init| && events[j].Maintain? && ServedWithin(events[j].now, req.now);
        assert init[j] == events[j];
        RowsAreProvided(init, w.days, req);
        ServeStaysClean(w, req);
      case Maintain(now) =>
        forall d ensures !Stranded(w.tables.observations, w.days, d) {
        }
        assert w.days <= u.days && Provided(u.days, now);
    }
  }

  lemma PrefixIsTimely(events: seq<Event>)
    requires Timely(events) && events != []
    ensures Timely(events[..|events| - 1])
  {
    var init := events[..|events| - 1];
    forall i | 0 <= i < |init| && init[i].Serve?
      ensures exists j :: 0 <= j < i && init[j].Maintain? && ServedWithin(init[j].now, init[i].req.now)
    {
      var j :| 0 <= j < i && events[j].Maintain? && ServedWithin(events[j].now, events[i].req.now);
      assert init[j] == events[j];
    }
  }

  /** So no accepted row of a timely run is ever routed to DEFAULT, not even a duplicate. */
  lemma NoRowReachesDefault(events: seq<Event>, i: nat, r: ObsRow)
    requires Timely(events) && i < |events| && events[i].Serve? && r in RowsBy(events[i].req)
    ensures Day(r.startedAt) in After(FRESH, events[..i]).days
  {
    TimelyPrefix(events, i);
    TimelyRunsStayClean(events[..i]);
    var j :| 0 <= j < i && events[j].Maintain? && ServedWithin(events[j].now, events[i].req.now);
    assert events[..i][j] == events[j];
    RowsAreProvided(events[..i], After(FRESH, events[..i]).days, events[i].req);
  }

  lemma TimelyPrefix(events: seq<Event>, n: nat)
    requires Timely(events) && n <= |events|
    ensures Timely(events[..n])
  {
    forall i | 0 <= i < n && events[..n][i].Serve?
      ensures exists j :: 0 <= j < i && events[..n][j].Maintain? && ServedWithin(events[..n][j].now, events[..n][i].req.now)
    {
      var j :| 0 <= j < i && events[j].Maintain? && ServedWithin(events[j].now, events[i].req.now);
      assert events[..n][j] == events[j];
    }
  }

  // ---------------------------------------------------------------- the bound is tight, the damage permanent

  predicate InFirstRange(run: Time, day: int) {
    Day(run) - DAYS_BEHIND <= day <= Day(run) + DAYS_AHEAD
  }

  /** The days that have a partition once maintenance has run on an empty table. */
  ghost function DaysAfterFirst(run: Time): set<int> {
    React(FRESH, Maintain(run)).days
  }

  lemma FirstRunCreatesItsRange(run: Time)
    ensures forall d :: d in DaysAfterFirst(run) <==> InFirstRange(run, d)
  {
    assert forall d :: !Stranded(map[], {}, d);
  }

  /** Exactly for 29 days after a first run do the partitions it created hold everything ingest may accept. */
  lemma CoverageIsExactly29Days(run: Time, now: Time)
    requires Day(run) <= Day(now)
    ensures (forall t: int :: InWindow(t, now) ==> Day(t) in DaysAfterFirst(run)) <==> ServedWithin(run, now)
  {
    FirstRunCreatesItsRange(run);
    if ServedWithin(run, now) {
      forall t: int | InWindow(t, now) ensures Day(t) in DaysAfterFirst(run) {
        DayMoves(t, now);
      }
    } else {
      var t := now + MAX_FUTURE;
      assert InWindow(t, now) && Day(t) == Day(now) + 1 && !InFirstRange(run, Day(t));
    }
  }

  lemma TwoEvents(a: Event, b: Event)
    ensures After(FRESH, [a, b]) == React(React(FRESH, a), b)
  {
    assert [a, b][..1] == [a] && [a][..0] == [];
    assert After(FRESH, [a]) == React(FRESH, a);
  }

  lemma FirstWriteOccupies(w: World, req: Request, o: Obs)
    requires w.tables.observations == map[]
    requires req.batch.traces == [] && req.batch.observations == [o]
    requires o.startedAt.Some? && InWindow(o.startedAt.value, req.now)
    ensures Occupied(React(w, Serve(req)).tables.observations, Day(o.startedAt.value))
    ensures React(w, Serve(req)).days == w.days
  {
    var r := MakeRow((o, None), req.project, req.book);
    OneObservation(req, o);
    assert InsertObservations(map[], [r]) == map[r.Key() := r] by {
      assert [r][..0] == [];
    }
    assert r.Key() in React(w, Serve(req)).tables.observations;
  }

  /** Once the 29 days are over, one observation as far ahead as ingest accepts is stranded in DEFAULT. */
  lemma LateWriteStrands(run: Time, req: Request, o: Obs)
    requires Day(run) <= Day(req.now) && !ServedWithin(run, req.now)
    requires req.batch.traces == [] && req.batch.observations == [o]
    requires o.startedAt.Some? && o.startedAt.value == req.now + MAX_FUTURE
    ensures var w := After(FRESH, [Maintain(run), Serve(req)]);
            Stranded(w.tables.observations, w.days, Day(req.now) + 1)
  {
    TwoEvents(Maintain(run), Serve(req));
    FirstRunCreatesItsRange(run);
    FirstWriteOccupies(React(FRESH, Maintain(run)), req, o);
    assert Day(o.startedAt.value) == Day(req.now) + 1;
  }

  /** And its day never gets a partition again, however often maintenance runs afterwards. */
  lemma LateWriteStrandsForever(run: Time, req: Request, o: Obs, later: seq<Event>)
    requires Day(run) <= Day(req.now) && !ServedWithin(run, req.now)
    requires req.batch.traces == [] && req.batch.observations == [o]
    requires o.startedAt.Some? && o.startedAt.value == req.now + MAX_FUTURE
    ensures Day(req.now) + 1 !in After(After(FRESH, [Maintain(run), Serve(req)]), later).days
  {
    LateWriteStrands(run, req, o);
    StrandedForever(After(FRESH, [Maintain(run), Serve(req)]), later, Day(req.now) + 1);
  }

  lemma RowsAreKept(w: World, e: Event, day: int)
    requires Stranded(w.tables.observations, w.days, day)
    ensures Stranded(React(w, e).tables.observations, React(w, e).days, day)
  {
    var key :| key in w.tables.observations && Day(w.tables.observations[key].startedAt) == day;
    if e.Serve? && Admissible(e.req.batch) {
      Tenancy.InsertAt(w.tables.observations, ProposedRows(e.req), key);
      assert Lookup(InsertObservations(w.tables.observations, ProposedRows(e.req)), key) == Some(w.tables.observations[key]);
    }
  }

  /** Once a row is stranded in DEFAULT, its day never gets a partition again, whatever happens. */
  lemma {:induction false} StrandedForever(w: World, events: seq<Event>, day: int)
    requires Stranded(w.tables.observations, w.days, day)
    ensures Stranded(After(w, events).tables.observations, After(w, events).days, day)
    decreases |events|
  {
    if events != [] {
      StrandedForever(w, events[..|events| - 1], day);
      RowsAreKept(After(w, events[..|events| - 1]), events[|events| - 1], day);
    }
  }
}
