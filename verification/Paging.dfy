/** routers/traces.py: the filtered list, newest first, and the walk that follows its cursors. */
module Paging {
  import opened Types
  import opened Batches
  import opened Writes
  import opened Ordering
  import opened Reads
  import opened Tenancy
  import Cursor
  import History
  import Windows

  /** The query's filters; tags are a containment test, the range is [since, until). */
  datatype Filter = Filter(name: Option<string>, userId: Option<string>, sessionId: Option<string>,
                           environment: Option<string>, release: Option<string>, tags: seq<string>,
                           since: Option<int>, until: Option<int>)

  /** An equality test against a nullable column: no filter passes all, and NULL equals nothing. */
  predicate Equals(column: Option<string>, wanted: Option<string>) {
    wanted.None? || column == wanted
  }

  predicate Matches(row: TraceRow, f: Filter) {
    && Equals(row.about.name, f.name)
    && Equals(row.about.userId, f.userId)
    && Equals(row.about.sessionId, f.sessionId)
    && Equals(row.about.environment, f.environment)
    && Equals(row.about.release, f.release)
    && (forall tag :: tag in f.tags ==> tag in row.about.tags)
    && (f.since.Some? ==> f.since.value <= row.startedAt)
    && (f.until.Some? ==> row.startedAt < f.until.value)
  }

  /** The sort keys (started_at, id) of the traces a session bound to p can list under a filter. */
  ghost function Candidates(t: Tables, p: Id, f: Filter): set<Rank> {
    set k | k in t.traces && k.project == p && Matches(t.traces[k], f) :: (t.traces[k].startedAt, k.id)
  }

  lemma CandidateIsRow(t: Tables, p: Id, f: Filter, r: Rank)
    requires r in Candidates(t, p, f)
    ensures 0 <= r.1 < 0x1_0000_0000_0000_0000_0000_0000_0000_0000
    ensures RowKey(p, r.1) in t.traces && t.traces[RowKey(p, r.1)].startedAt == r.0
    ensures Matches(t.traces[RowKey(p, r.1)], f)
  {
    var k :| k in t.traces && k.project == p && Matches(t.traces[k], f) && r == (t.traces[k].startedAt, k.id);
    assert k == RowKey(p, r.1);
  }

  /** What is left below a cursor position, compared as a row value. */
  ghost function Remaining(t: Tables, p: Id, f: Filter, below: Option<Rank>): set<Rank> {
    set r | r in Candidates(t, p, f) && (below.None? || Below(r, below.value))
  }

  /** One page, with the position its cursor stands for. */
  datatype Page = Page(data: seq<Listed>, next: Option<Rank>, hasMore: bool)

  function ListedRank(x: Listed): Rank {
    (x.row.startedAt, x.id)
  }

  function PageRanks(data: seq<Listed>): (s: seq<Rank>)
    ensures |s| == |data|
  {
    seq(|data|, i requires 0 <= i < |data| => ListedRank(data[i]))
  }

  /** SELECT ... ORDER BY started_at DESC, id DESC from a position on: the stored rows of what remains, in order. */
  ghost predicate Selected(t: Tables, p: Id, f: Filter, below: Option<Rank>, rows: seq<Listed>) {
    ListsDown(PageRanks(rows), Remaining(t, p, f, below)) && IsPage(t, p, rows)
  }

  ghost function RowFor(t: Tables, p: Id, f: Filter, r: Rank): (x: Listed)
    requires r in Candidates(t, p, f)
    ensures ListedRank(x) == r && Lookup(t.traces, RowKey(p, x.id)) == Some(x.row)
  {
    CandidateIsRow(t, p, f, r);
    Listed(r.1, t.traces[RowKey(p, r.1)])
  }

  lemma SelectionExists(t: Tables, p: Id, f: Filter, below: Option<Rank>)
    ensures exists rows :: Selected(t, p, f, below, rows)
  {
    var ordered := Descending(Remaining(t, p, f, below));
    forall i | 0 <= i < |ordered| ensures ordered[i] in Candidates(t, p, f) {
      assert ordered[i] in ordered;
    }
    var rows := seq(|ordered|, i requires 0 <= i < |ordered| => RowFor(t, p, f, ordered[i]));
    assert PageRanks(rows) == ordered;
    assert Selected(t, p, f, below, rows);
  }

  lemma RowsFromRanks(t: Tables, p: Id, a: seq<Listed>, b: seq<Listed>)
    requires IsPage(t, p, a) && IsPage(t, p, b) && PageRanks(a) == PageRanks(b)
    ensures a == b
  {
    forall i | 0 <= i < |a| ensures a[i] == b[i] {
      assert PageRanks(a)[i] == ListedRank(a[i]) && PageRanks(b)[i] == ListedRank(b[i]);
    }
  }

  lemma SelectionIsUnique(t: Tables, p: Id, f: Filter, below: Option<Rank>, a: seq<Listed>, b: seq<Listed>)
    requires Selected(t, p, f, below, a) && Selected(t, p, f, below, b)
    ensures a == b
  {
    OneListingDown(PageRanks(a), PageRanks(b), Remaining(t, p, f, below));
    RowsFromRanks(t, p, a, b);
  }

  ghost function RowsBelow(t: Tables, p: Id, f: Filter, below: Option<Rank>): (rows: seq<Listed>)
    ensures Selected(t, p, f, below, rows)
  {
    SelectionExists(t, p, f, below);
    var rows :| Selected(t, p, f, below, rows);
    rows
  }

  /** LIMIT limit + 1: the one extra row answers has_more, and the position is that of the last row kept. */
  function Paginate(rows: seq<Listed>, limit: nat): Page
    requires limit >= 1
  {
    var fetched := if |rows| > limit + 1 then rows[..limit + 1] else rows;
    var hasMore := |fetched| > limit;
    var kept := if hasMore then fetched[..limit] else fetched;
    Page(kept, if kept != [] && hasMore then Some(ListedRank(kept[|kept| - 1])) else None, hasMore)
  }

  ghost function PageBelow(t: Tables, p: Id, f: Filter, limit: nat, below: Option<Rank>): Page
    requires limit >= 1
  {
    Paginate(RowsBelow(t, p, f, below), limit)
  }

  /** A page is the first rows of what is selected, has_more says exactly whether more remain, and the position
      handed on is that of the last row shown. */
  lemma PageIsPrefix(rows: seq<Listed>, limit: nat)
    requires limit >= 1
    ensures Paginate(rows, limit)
         == if |rows| > limit then Page(rows[..limit], Some(ListedRank(rows[limit - 1])), true)
            else Page(rows, None, false)
  {
    if |rows| > limit + 1 {
      assert rows[..limit + 1][..limit] == rows[..limit];
    }
  }

  lemma RemainingBelow(t: Tables, p: Id, f: Filter, below: Option<Rank>, cut: Rank)
    requires below.Some? ==> Below(cut, below.value)
    ensures Remaining(t, p, f, Some(cut)) == KeysBelow(Remaining(t, p, f, below), cut)
  {
  }

  /** Selecting from the position of row n on gives the rows after it. */
  lemma SelectedAfter(t: Tables, p: Id, f: Filter, below: Option<Rank>, rows: seq<Listed>, n: nat)
    requires Selected(t, p, f, below, rows) && 1 <= n <= |rows|
    ensures Selected(t, p, f, Some(ListedRank(rows[n - 1])), rows[n..])
    ensures below.Some? ==> Below(ListedRank(rows[n - 1]), below.value)
  {
    var cut := ListedRank(rows[n - 1]);
    assert PageRanks(rows)[n - 1] == cut && cut in PageRanks(rows);
    RemainingBelow(t, p, f, below, cut);
    assert PageRanks(rows[n..]) == PageRanks(rows)[n..];
    CutListing(PageRanks(rows), Remaining(t, p, f, below), n);
  }

  lemma RowsAfter(t: Tables, p: Id, f: Filter, below: Option<Rank>, n: nat)
    requires 1 <= n <= |RowsBelow(t, p, f, below)|
    ensures RowsBelow(t, p, f, Some(ListedRank(RowsBelow(t, p, f, below)[n - 1]))) == RowsBelow(t, p, f, below)[n..]
  {
    var rows := RowsBelow(t, p, f, below);
    var cut := Some(ListedRank(rows[n - 1]));
    SelectedAfter(t, p, f, below, rows, n);
    SelectionIsUnique(t, p, f, cut, RowsBelow(t, p, f, cut), rows[n..]);
  }

  // ---------------------------------------------------------------- the endpoint

  /** How positions travel through the client as opaque text. */
  datatype Codec = Codec(encode: (Time, Id) -> string, decode: string -> Cursor.Decoded)

  /** All the list needs of its cursors: an issued one decodes to the row it was issued for. */
  ghost predicate Faithful(codec: Codec) {
    forall t: Time, id: Id :: codec.decode(codec.encode(t, id)) == Cursor.Position(t, id)
  }

  /** The cursors of services/cursor.py. */
  const ISSUED: Codec := Codec((t: Time, id: Id) => Cursor.Encode(t, id), (text: string) => Cursor.Decode(text))

  lemma IssuedCursorsAreFaithful()
    ensures Faithful(ISSUED)
  {
    forall t: Time, id: Id ensures ISSUED.decode(ISSUED.encode(t, id)) == Cursor.Position(t, id) {
      Cursor.RoundTrip(t, id);
    }
  }

  datatype Response = BadCursor | Response(data: seq<Listed>, nextCursor: Option<string>, hasMore: bool)

  /** GET /v1/traces: a malformed cursor is refused, never read as the first page. */
  ghost function ListTraces(codec: Codec, t: Tables, p: Id, f: Filter, limit: nat, cursor: Option<string>): Response
    requires limit >= 1
  {
    if cursor.None? then Respond(codec, PageBelow(t, p, f, limit, None))
    else
      match codec.decode(cursor.value)
      case Invalid(_) => BadCursor
      case Position(at, id) => Respond(codec, PageBelow(t, p, f, limit, Some((at, id))))
  }

  function Respond(codec: Codec, page: Page): Response {
    Response(page.data, if page.data != [] && page.hasMore then Some(CursorOf(codec, page.data[|page.data| - 1])) else None,
             page.hasMore)
  }

  function CursorOf(codec: Codec, x: Listed): string {
    codec.encode(x.row.startedAt, x.id)
  }

  /** The cursor text stands for this position; no cursor stands for the top. */
  ghost predicate StandsFor(codec: Codec, cursor: Option<string>, below: Option<Rank>) {
    if cursor.None? then below.None?
    else
      match codec.decode(cursor.value)
      case Invalid(_) => false
      case Position(at, id) => below == Some((at, id))
  }

  /** Through the text and back, the endpoint pages by position. */
  lemma EndpointPages(codec: Codec, t: Tables, p: Id, f: Filter, limit: nat, cursor: Option<string>, below: Option<Rank>)
    requires limit >= 1 && Faithful(codec) && StandsFor(codec, cursor, below)
    ensures var r, rows := ListTraces(codec, t, p, f, limit, cursor), RowsBelow(t, p, f, below);
            if |rows| > limit then
              r.Response? && r.data == rows[..limit] && r.hasMore
              && StandsFor(codec, r.nextCursor, Some(ListedRank(rows[limit - 1])))
            else r == Response(rows, None, false)
  {
    PageIsPrefix(RowsBelow(t, p, f, below), limit);
  }

  /** A cursor is refused exactly when it does not decode; a page served for one that does shows only rows below its
      position. */
  lemma MalformedIsRefused(codec: Codec, t: Tables, p: Id, f: Filter, limit: nat, text: string)
    requires limit >= 1
    ensures var (r, at) := (ListTraces(codec, t, p, f, limit, Some(text)), codec.decode(text));
      && (r.BadCursor? <==> at.Invalid?)
      && (r.Response? ==> forall i :: 0 <= i < |r.data| ==> Below(ListedRank(r.data[i]), (at.startedAt, at.id)))
  {
    var at := codec.decode(text);
    if at.Position? {
      var rows := RowsBelow(t, p, f, Some((at.startedAt, at.id)));
      PageIsPrefix(rows, limit);
      forall i | 0 <= i < |rows| ensures Below(ListedRank(rows[i]), (at.startedAt, at.id)) {
        assert PageRanks(rows)[i] in PageRanks(rows);
      }
    }
  }

  // ---------------------------------------------------------------- the walk over one store

  /** What a client collects in at most n requests, following next_cursor while has_more holds. */
  ghost function Collect(codec: Codec, t: Tables, p: Id, f: Filter, limit: nat, cursor: Option<string>, n: nat): seq<Listed>
    requires limit >= 1
    decreases n, 0
  {
    if n == 0 then [] else Continue(codec, t, p, f, limit, ListTraces(codec, t, p, f, limit, cursor), n - 1)
  }

  ghost function Continue(codec: Codec, t: Tables, p: Id, f: Filter, limit: nat, r: Response, n: nat): seq<Listed>
    requires limit >= 1
    decreases n, 1
  {
    if r.BadCursor? then [] else if !r.hasMore then r.data
    else r.data + Collect(codec, t, p, f, limit, r.nextCursor, n)
  }

  lemma PageRanksJoin(a: seq<Listed>, b: seq<Listed>)
    ensures PageRanks(a + b) == PageRanks(a) + PageRanks(b)
  {
  }

  /** The client's walk ends within as many requests as there are rows left, plus one, having seen them all. */
  lemma {:induction false} CollectsTheRest(codec: Codec, t: Tables, p: Id, f: Filter, limit: nat, cursor: Option<string>,
                                           below: Option<Rank>, n: nat)
    requires limit >= 1 && Faithful(codec) && StandsFor(codec, cursor, below) && n > |RowsBelow(t, p, f, below)|
    ensures Collect(codec, t, p, f, limit, cursor, n) == RowsBelow(t, p, f, below)
    decreases n
  {
    var rows := RowsBelow(t, p, f, below);
    EndpointPages(codec, t, p, f, limit, cursor, below);
    var r := ListTraces(codec, t, p, f, limit, cursor);
    if |rows| > limit {
      var cut := Some(ListedRank(rows[limit - 1]));
      RowsAfter(t, p, f, below, limit);
      CollectsTheRest(codec, t, p, f, limit, r.nextCursor, cut, n - 1);
      assert rows[..limit] + rows[limit..] == rows;
    }
  }

  lemma SelectionCount(t: Tables, p: Id, f: Filter, below: Option<Rank>, rows: seq<Listed>)
    requires Selected(t, p, f, below, rows)
    ensures |rows| == |Remaining(t, p, f, below)|
  {
    OneListingDown(PageRanks(rows), Descending(Remaining(t, p, f, below)), Remaining(t, p, f, below));
  }

  /** Following the cursors from the first page terminates and lists every matching trace once, newest first. */
  lemma WalkListsAll(codec: Codec, t: Tables, p: Id, f: Filter, limit: nat, n: nat)
    requires limit >= 1 && Faithful(codec) && n > |Candidates(t, p, f)|
    ensures var all := Collect(codec, t, p, f, limit, None, n);
            ListsDown(PageRanks(all), Candidates(t, p, f)) && IsPage(t, p, all)
  {
    assert Remaining(t, p, f, None) == Candidates(t, p, f);
    SelectionCount(t, p, f, None, RowsBelow(t, p, f, None));
    CollectsTheRest(codec, t, p, f, limit, None, None, n);
  }

  function Between(f: Filter, since: int, until: int): Filter {
    f.(since := Some(since), until := Some(until))
  }

  /** Consecutive ranges tile: the later half followed by the earlier half is the whole, whatever the page sizes. */
  lemma RangesTile(codec: Codec, t: Tables, p: Id, f: Filter, a: int, b: int, c: int, l: nat, m: nat, n: nat, enough: nat)
    requires Faithful(codec) && a <= b <= c && l >= 1 && m >= 1 && n >= 1
    requires enough > |Candidates(t, p, Between(f, b, c))| && enough > |Candidates(t, p, Between(f, a, b))|
    requires enough > |Candidates(t, p, Between(f, a, c))|
    ensures Collect(codec, t, p, Between(f, b, c), l, None, enough) + Collect(codec, t, p, Between(f, a, b), m, None, enough)
         == Collect(codec, t, p, Between(f, a, c), n, None, enough)
  {
    var x, y := Collect(codec, t, p, Between(f, b, c), l, None, enough), Collect(codec, t, p, Between(f, a, b), m, None, enough);
    var z := Collect(codec, t, p, Between(f, a, c), n, None, enough);
    WalkListsAll(codec, t, p, Between(f, b, c), l, enough);
    WalkListsAll(codec, t, p, Between(f, a, b), m, enough);
    WalkListsAll(codec, t, p, Between(f, a, c), n, enough);
    PageRanksJoin(x, y);
    TiledListing(t, p, f, a, b, c, PageRanks(x), PageRanks(y));
    OneListingDown(PageRanks(x) + PageRanks(y), PageRanks(z), Candidates(t, p, Between(f, a, c)));
    RowsFromRanks(t, p, x + y, z);
  }

  lemma CandidatesIn(t: Tables, p: Id, f: Filter, a: int, b: int, r: Rank)
    ensures r in Candidates(t, p, Between(f, a, b))
            <==> r in Candidates(t, p, f.(since := None, until := None)) && a <= r.0 < b
  {
    var g, h := Between(f, a, b), f.(since := None, until := None);
    if r in Candidates(t, p, g) {
      CandidateIsRow(t, p, g, r);
      var k := RowKey(p, r.1);
      assert Matches(t.traces[k], h);
    }
    if r in Candidates(t, p, h) && a <= r.0 < b {
      CandidateIsRow(t, p, h, r);
      var k := RowKey(p, r.1);
      assert Matches(t.traces[k], g);
    }
  }

  lemma TiledListing(t: Tables, p: Id, f: Filter, a: int, b: int, c: int, x: seq<Rank>, y: seq<Rank>)
    requires a <= b <= c
    requires ListsDown(x, Candidates(t, p, Between(f, b, c)))
    requires ListsDown(y, Candidates(t, p, Between(f, a, b)))
    ensures ListsDown(x + y, Candidates(t, p, Between(f, a, c)))
  {
    forall r ensures r in x + y <==> r in Candidates(t, p, Between(f, a, c)) {
      CandidatesIn(t, p, f, b, c, r);
      CandidatesIn(t, p, f, a, b, r);
      CandidatesIn(t, p, f, a, c, r);
    }
    forall i | 0 <= i < |x| ensures b <= x[i].0 {
      CandidatesIn(t, p, f, b, c, x[i]);
    }
    forall j | 0 <= j < |y| ensures y[j].0 < b {
      CandidatesIn(t, p, f, a, b, y[j]);
    }
  }

  // ---------------------------------------------------------------- the walk while others write

  /** The same walk with one store per request: whatever was ingested in between. */
  ghost function CollectOver(codec: Codec, stores: seq<Tables>, p: Id, f: Filter, limit: nat, cursor: Option<string>): seq<Listed>
    requires limit >= 1
    decreases |stores|, 0
  {
    if stores == [] then []
    else ContinueOver(codec, stores[1..], p, f, limit, ListTraces(codec, stores[0], p, f, limit, cursor))
  }

  ghost function ContinueOver(codec: Codec, stores: seq<Tables>, p: Id, f: Filter, limit: nat, r: Response): seq<Listed>
    requires limit >= 1
    decreases |stores|, 1
  {
    if r.BadCursor? then [] else if !r.hasMore then r.data
    else r.data + CollectOver(codec, stores, p, f, limit, r.nextCursor)
  }

  /** The walk reaches a page that reports no more. */
  ghost predicate Finishes(codec: Codec, stores: seq<Tables>, p: Id, f: Filter, limit: nat, cursor: Option<string>)
    requires limit >= 1
    decreases |stores|, 0
  {
    stores != [] && FinishesAfter(codec, stores[1..], p, f, limit, ListTraces(codec, stores[0], p, f, limit, cursor))
  }

  ghost predicate FinishesAfter(codec: Codec, stores: seq<Tables>, p: Id, f: Filter, limit: nat, r: Response)
    requires limit >= 1
    decreases |stores|, 1
  {
    r.Response? && (r.hasMore ==> Finishes(codec, stores, p, f, limit, r.nextCursor))
  }

  /** The rows selected for each request of the walk. */
  ghost function Selections(stores: seq<Tables>, p: Id, f: Filter, limit: nat, below: Option<Rank>): seq<seq<Listed>>
    requires limit >= 1
  {
    if stores == [] then []
    else
      var rows := RowsBelow(stores[0], p, f, below);
      [rows] + (if |rows| <= limit then [] else Selections(stores[1..], p, f, limit, Some(ListedRank(rows[limit - 1]))))
  }

  /** The pages cut from those rows, end to end. */
  function Stitch(s: seq<seq<Listed>>, limit: nat): seq<Listed>
    requires limit >= 1
  {
    if s == [] then []
    else if |s[0]| <= limit then s[0]
    else s[0][..limit] + Stitch(s[1..], limit)
  }

  /** Some request found no more than a page. */
  predicate WalkEnded(s: seq<seq<Listed>>, limit: nat) {
    s != [] && (|s[0]| > limit ==> WalkEnded(s[1..], limit))
  }

  lemma SelectionsStep(stores: seq<Tables>, p: Id, f: Filter, limit: nat, below: Option<Rank>)
    requires limit >= 1 && stores != []
    ensures var s, rows := Selections(stores, p, f, limit, below), RowsBelow(stores[0], p, f, below);
            && s != [] && s[0] == rows
            && s[1..] == (if |rows| <= limit then [] else Selections(stores[1..], p, f, limit, Some(ListedRank(rows[limit - 1]))))
  {
  }

  lemma {:induction false} CollectOverIsStitch(codec: Codec, stores: seq<Tables>, p: Id, f: Filter, limit: nat,
                                               cursor: Option<string>, below: Option<Rank>)
    requires limit >= 1 && Faithful(codec) && StandsFor(codec, cursor, below)
    ensures CollectOver(codec, stores, p, f, limit, cursor) == Stitch(Selections(stores, p, f, limit, below), limit)
    ensures Finishes(codec, stores, p, f, limit, cursor) ==> WalkEnded(Selections(stores, p, f, limit, below), limit)
    decreases |stores|
  {
    if stores != [] {
      var rows := RowsBelow(stores[0], p, f, below);
      EndpointPages(codec, stores[0], p, f, limit, cursor, below);
      SelectionsStep(stores, p, f, limit, below);
      if |rows| > limit {
        var r := ListTraces(codec, stores[0], p, f, limit, cursor);
        CollectOverIsStitch(codec, stores[1..], p, f, limit, r.nextCursor, Some(ListedRank(rows[limit - 1])));
        assert FinishesAfter(codec, stores[1..], p, f, limit, r) ==> Finishes(codec, stores[1..], p, f, limit, r.nextCursor);
      }
    }
  }

  // -------- on the selections alone

  ghost predicate RowsSorted(rows: seq<Listed>) {
    forall i, j :: 0 <= i < j < |rows| ==> Below(ListedRank(rows[j]), ListedRank(rows[i]))
  }

  ghost predicate AllBelow(rows: seq<Listed>, cut: Rank) {
    forall i :: 0 <= i < |rows| ==> Below(ListedRank(rows[i]), cut)
  }

  /** Every selection is in order; each but the last overflows its page, and the next lies below what was kept. */
  ghost predicate Chained(s: seq<seq<Listed>>, limit: nat)
    requires limit >= 1
  {
    s == []
    || (RowsSorted(s[0]) && Chained(s[1..], limit)
        && (|s| > 1 ==> |s[0]| > limit && AllBelow(s[1], ListedRank(s[0][limit - 1]))))
  }

  lemma BelowBoth(a: Rank, b: Rank, c: Rank)
    requires Below(a, b) && Below(b, c)
    ensures Below(a, c)
  {
  }

  /** Nothing served from a selection on lies at or above what the selection itself lies below. */
  lemma {:induction false} StitchedBelow(s: seq<seq<Listed>>, limit: nat, cut: Rank)
    requires limit >= 1 && Chained(s, limit) && (s != [] ==> AllBelow(s[0], cut))
    ensures AllBelow(Stitch(s, limit), cut)
    decreases |s|
  {
    if s != [] && |s[0]| > limit {
      var inner, rest := ListedRank(s[0][limit - 1]), Stitch(s[1..], limit);
      StitchedBelow(s[1..], limit, inner);
      forall i | 0 <= i < |rest| ensures Below(ListedRank(rest[i]), cut) {
        BelowBoth(ListedRank(rest[i]), inner, cut);
      }
    }
  }

  /** The stitched pages are strictly descending, so no sort key is served twice. */
  lemma {:induction false} StitchedSorted(s: seq<seq<Listed>>, limit: nat)
    requires limit >= 1 && Chained(s, limit)
    ensures RowsSorted(Stitch(s, limit))
    decreases |s|
  {
    if s != [] && |s[0]| > limit {
      var inner, rest := ListedRank(s[0][limit - 1]), Stitch(s[1..], limit);
      StitchedSorted(s[1..], limit);
      StitchedBelow(s[1..], limit, inner);
      forall i, j | 0 <= i < limit && 0 <= j < |rest| ensures Below(ListedRank(rest[j]), ListedRank(s[0][i])) {
        if i < limit - 1 {
          BelowBoth(ListedRank(rest[j]), inner, ListedRank(s[0][i]));
        }
      }
    }
  }

  ghost predicate ShowsRank(rows: seq<Listed>, r: Rank) {
    exists n :: 0 <= n < |rows| && ListedRank(rows[n]) == r
  }

  /** The first selection shows r, and so does every later one that starts above it. */
  ghost predicate StillShown(s: seq<seq<Listed>>, limit: nat, r: Rank)
    requires limit >= 1
  {
    s != [] && ShowsRank(s[0], r)
    && (|s[0]| > limit && Below(r, ListedRank(s[0][limit - 1])) ==> StillShown(s[1..], limit, r))
  }

  /** A sort key that every selection would still show is shown by some page. */
  lemma {:induction false} StitchedShows(s: seq<seq<Listed>>, limit: nat, r: Rank)
    requires limit >= 1 && Chained(s, limit) && StillShown(s, limit, r)
    ensures ShowsRank(Stitch(s, limit), r)
    decreases |s|
  {
    var n :| 0 <= n < |s[0]| && ListedRank(s[0][n]) == r;
    if |s[0]| <= limit || n < limit {
      assert ListedRank(Stitch(s, limit)[n]) == r;
    } else {
      assert Below(r, ListedRank(s[0][limit - 1]));
      StitchedShows(s[1..], limit, r);
      var m :| 0 <= m < |Stitch(s[1..], limit)| && ListedRank(Stitch(s[1..], limit)[m]) == r;
      assert ListedRank(Stitch(s, limit)[limit + m]) == r;
    }
  }

  // -------- the selections of a walk

  lemma SelectionSorted(t: Tables, p: Id, f: Filter, below: Option<Rank>, rows: seq<Listed>)
    requires Selected(t, p, f, below, rows)
    ensures RowsSorted(rows) && (below.Some? ==> AllBelow(rows, below.value))
  {
    var ranks := PageRanks(rows);
    forall i | 0 <= i < |rows| ensures ranks[i] == ListedRank(rows[i]) && ranks[i] in Remaining(t, p, f, below) {
      assert ranks[i] in ranks;
    }
  }

  lemma {:induction false} SelectionsAreChained(stores: seq<Tables>, p: Id, f: Filter, limit: nat, below: Option<Rank>)
    requires limit >= 1
    ensures Chained(Selections(stores, p, f, limit, below), limit)
    ensures var s := Selections(stores, p, f, limit, below);
            s != [] && below.Some? ==> AllBelow(s[0], below.value)
    decreases |stores|
  {
    if stores != [] {
      var s, rows := Selections(stores, p, f, limit, below), RowsBelow(stores[0], p, f, below);
      SelectionSorted(stores[0], p, f, below, rows);
      if |rows| > limit {
        var next := Some(ListedRank(rows[limit - 1]));
        SelectionsAreChained(stores[1..], p, f, limit, next);
        assert s[1..] == Selections(stores[1..], p, f, limit, next);
      } else {
        assert s[1..] == [];
      }
    }
  }

  /** A trace that keeps its sort key and keeps matching, whatever else happens to it. */
  ghost predicate Stays(stores: seq<Tables>, p: Id, f: Filter, r: Rank) {
    forall i :: 0 <= i < |stores| ==> r in Candidates(stores[i], p, f)
  }

  lemma {:induction false} StayingIsShown(stores: seq<Tables>, p: Id, f: Filter, limit: nat, below: Option<Rank>, r: Rank)
    requires limit >= 1 && Stays(stores, p, f, r) && (below.Some? ==> Below(r, below.value))
    requires WalkEnded(Selections(stores, p, f, limit, below), limit)
    ensures StillShown(Selections(stores, p, f, limit, below), limit, r)
    decreases |stores|
  {
    var s, rows := Selections(stores, p, f, limit, below), RowsBelow(stores[0], p, f, below);
    assert r in PageRanks(rows);
    var n :| 0 <= n < |rows| && PageRanks(rows)[n] == r;
    assert ShowsRank(s[0], r);
    if |rows| > limit && Below(r, ListedRank(rows[limit - 1])) {
      var next := Some(ListedRank(rows[limit - 1]));
      assert s[1..] == Selections(stores[1..], p, f, limit, next);
      assert Stays(stores[1..], p, f, r) by {
        forall i | 0 <= i < |stores[1..]| ensures r in Candidates(stores[1..][i], p, f) {
          var j := i + 1;
          assert stores[1..][i] == stores[j];
        }
      }
      StayingIsShown(stores[1..], p, f, limit, next, r);
    }
  }

  ghost predicate IsRowOf(t: Tables, p: Id, x: Listed) {
    Lookup(t.traces, RowKey(p, x.id)) == Some(x.row)
  }

  /** A served row is a row of the store its page was read from. */
  lemma {:induction false} ServedFromSome(stores: seq<Tables>, p: Id, f: Filter, limit: nat, below: Option<Rank>, i: nat)
    requires limit >= 1 && i < |Stitch(Selections(stores, p, f, limit, below), limit)|
    ensures exists t :: t in stores && IsRowOf(t, p, Stitch(Selections(stores, p, f, limit, below), limit)[i])
    decreases |stores|
  {
    var s, rows := Selections(stores, p, f, limit, below), RowsBelow(stores[0], p, f, below);
    if |rows| <= limit || i < limit {
      assert IsRowOf(stores[0], p, Stitch(s, limit)[i]);
    } else {
      var next := Some(ListedRank(rows[limit - 1]));
      assert s[1..] == Selections(stores[1..], p, f, limit, next);
      ServedFromSome(stores[1..], p, f, limit, next, i - limit);
    }
  }

  /** While anything at all is written between the requests, a trace whose sort key and filter columns stay is
      returned exactly once over the whole walk. */
  lemma StableTraceIsServedOnce(codec: Codec, stores: seq<Tables>, p: Id, f: Filter, limit: nat, r: Rank) returns (at: nat)
    requires limit >= 1 && Faithful(codec) && Finishes(codec, stores, p, f, limit, None) && Stays(stores, p, f, r)
    ensures var all := CollectOver(codec, stores, p, f, limit, None);
            && at < |all| && ListedRank(all[at]) == r
            && forall j :: 0 <= j < |all| && all[j].id == r.1 ==> j == at
  {
    CollectOverIsStitch(codec, stores, p, f, limit, None, None);
    var s := Selections(stores, p, f, limit, None);
    SelectionsAreChained(stores, p, f, limit, None);
    StayingIsShown(stores, p, f, limit, None, r);
    StitchedShows(s, limit, r);
    StitchedSorted(s, limit);
    var all := Stitch(s, limit);
    at :| 0 <= at < |all| && ListedRank(all[at]) == r;
    forall j: nat | j < |all| && all[j].id == r.1 ensures j == at {
      ServedFromSome(stores, p, f, limit, None, j);
      var t :| t in stores && IsRowOf(t, p, all[j]);
      CandidateIsRow(t, p, f, r);
      OnePlace(all, at, j);
    }
  }

  lemma OnePlace(rows: seq<Listed>, i: nat, j: nat)
    requires RowsSorted(rows) && i < |rows| && j < |rows| && ListedRank(rows[i]) == ListedRank(rows[j])
    ensures i == j
  {
  }

  /** A request that does not carry a trace explicitly leaves its sort key and its filter columns alone. */
  lemma UnsentIsUnmoved(t: Tables, req: Request, k: RowKey)
    requires k in t.traces && (req.project != k.project || k.id !in ExplicitIds(req.batch))
    ensures k in Step(t, req).traces
    ensures Step(t, req).traces[k].startedAt == t.traces[k].startedAt && Step(t, req).traces[k].about == t.traces[k].about
  {
    History.StepAt(t, req, k);
    UnsentTouches(req, k);
    var h := History.TouchesBy(req, k);
    assert h != [] ==> h[..|h| - 1] == [];
  }

  lemma UnsentTouches(req: Request, k: RowKey)
    requires req.project != k.project || k.id !in ExplicitIds(req.batch)
    ensures var h := History.TouchesBy(req, k); h == [] || (|h| == 1 && h[0].Stubbed?)
  {
    if Admissible(req.batch) {
      SendsOk(req);
      Windows.SendTouchesOf(req.batch.traces, ProposedRows(req), req.project,
                            EffectiveSdk(req.sdkHeader, req.batch.sdkVersion), k, req.now);
      assert History.SendTouches(Sends(req), k, req.now) == [];
    }
  }

  /** So a trace no request re-sends explicitly stays where the walk will find it. */
  lemma {:induction false} UnsentStays(t: Tables, reqs: seq<Request>, p: Id, f: Filter, r: Rank)
    requires r in Candidates(t, p, f)
    requires forall i :: 0 <= i < |reqs| ==> reqs[i].project != p || r.1 !in ExplicitIds(reqs[i].batch)
    ensures r in Candidates(RunFrom(t, reqs), p, f)
    decreases |reqs|
  {
    if reqs != [] {
      var init, last := reqs[..|reqs| - 1], reqs[|reqs| - 1];
      assert forall i :: 0 <= i < |init| ==> init[i] == reqs[i];
      UnsentStays(t, init, p, f, r);
      CandidateIsRow(RunFrom(t, init), p, f, r);
      UnsentIsUnmoved(RunFrom(t, init), last, RowKey(p, r.1));
      assert Matches(RunFrom(t, reqs).traces[RowKey(p, r.1)], f);
    }
  }

  // ---------------------------------------------------------------- the list sees one tenant

  lemma RowsOfSlice(t: Tables, p: Id, f: Filter, below: Option<Rank>)
    ensures RowsBelow(t, p, f, below) == RowsBelow(Slice(t, p), p, f, below)
  {
    var s := Slice(t, p);
    assert Candidates(s, p, f) == Candidates(t, p, f);
    assert Remaining(s, p, f, below) == Remaining(t, p, f, below);
    var a, b := RowsBelow(t, p, f, below), RowsBelow(s, p, f, below);
    forall i | 0 <= i < |b| ensures Lookup(t.traces, RowKey(p, b[i].id)) == Some(b[i].row) {
      assert Lookup(s.traces, RowKey(p, b[i].id)) == Some(b[i].row);
    }
    SelectionIsUnique(t, p, f, below, a, b);
  }

  lemma ListSeesOnlyTheSlice(codec: Codec, t: Tables, p: Id, f: Filter, limit: nat, cursor: Option<string>)
    requires limit >= 1
    ensures ListTraces(codec, t, p, f, limit, cursor) == ListTraces(codec, Slice(t, p), p, f, limit, cursor)
  {
    if cursor.None? {
      RowsOfSlice(t, p, f, None);
    } else {
      match codec.decode(cursor.value)
      case Invalid(_) =>
      case Position(at, id) => RowsOfSlice(t, p, f, Some((at, id)));
    }
  }

  /** Every list page of a project is that of the run with the other projects' requests removed. */
  lemma TenantPagesAreIsolated(codec: Codec, history: seq<Request>, p: Id, f: Filter, limit: nat, cursor: Option<string>)
    requires limit >= 1
    ensures ListTraces(codec, Run(history), p, f, limit, cursor) == ListTraces(codec, Run(Mine(history, p)), p, f, limit, cursor)
  {
    TenantsAreIsolated(history, p);
    ListSeesOnlyTheSlice(codec, Run(history), p, f, limit, cursor);
    ListSeesOnlyTheSlice(codec, Run(Mine(history, p)), p, f, limit, cursor);
  }
}
