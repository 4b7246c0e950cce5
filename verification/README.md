# Ingest, reads and trace trees, modelled and proved

This project models the heart of a tracing service and proves what its parts promise each other.

* **The ingest/read store.** `POST /v1/ingest` normalises a batch, folds it into per-trace windows, and applies
  four chunked bulk writes with different conflict rules. The list and detail endpoints trust the stored windows to
  bound their scans, and page through traces with opaque keyset cursors. A daily job creates partitions below.
  (`Types`, `Batches`, `IngestSchema`, `Writes`, `Router`, `History`, `Windows`, `Delivery`, `Replay`, `RawDelivery`,
  `Readings`, `Presence`, `Inserts`, `Tenancy`, `Envelopes`, `Ordering`, `Reads`, `Tallies`, `Paging`, `Filters`, `Partitions`, and `Base64Url`, `Calendar`, `Numerals`, `Cursor` for the cursor text.)
* **The span forest.** The dashboard rebuilds a forest from parent pointers nobody validated, sorts it in place and
  flattens it. (`SpanForest`, `SpanRows` and `SpanOrder` on values, `SpanTree` on the heap, `TraceView` from the store to the screen.)
* **The pricebook.** A prefix-stripping normaliser, longest dash-bounded resolution, and a fixed-point cost frozen into
  every observation. (`Pricing`, `Pricebook`, `Costs`, `Spend`.)

The imperative parts keep the program's own form: a `Store` whose tables are reassigned statement by statement, models
whose fields the validators assign, loops over pairs, chunks, prefixes, days and ancestors, and span nodes linked on the
heap. Each method is proved against a function of its inputs or of the old state, and the theorems are about those
functions: over every history of requests, every store, every page walk, every run of maintenance and ingest, every list
of spans.

Conventions: an instant is an integer of microseconds since 0001-01-01 UTC; an id is the 128-bit number of a UUID; a
rate is in thousandths of a USD per million tokens, so the exact cost of a request is a whole number of nano-USD, and a
stored cost is in units of 1e-8 USD. A history is the sequence of requests that were served, each with its backfilled
batch, the clock and the pricebook in force; the store it leads to starts empty. `RawDelivery` speaks of the batches as
they arrive, before backfilling.

`dafny verify dfyconfig.toml` checks everything.

## Where the code and its own comments differ

The model follows the code.

* The comment on `_observation_window` (apps/api/app/routers/traces.py:109) calls the window exact. It always covers;
  `Windows.ExactIffDisplacedEnclosed` says when it is exact and `Windows.WindowsCanBeTooWide` gives a run where it
  is not.
* Migration 0005 (lines 18-21 of apps/api/alembic/versions/0005_repair_observation_windows.py) is said to fix the rows
  on disk. It cannot fix the window of a trace that stores no observation, even when every observation has a trace row:
  `Windows.RepairIsExactIff` says when every window comes out exact, `Windows.RepairCanLeaveAWindow` gives a run where
  one does not.
* The comment on `_upsert_traces` (apps/api/app/routers/ingest.py:291-292) says replaying any batch converges. A batch
  with one trace twice in a 500-row slice is refused by Postgres instead, and the whole request fails
  (`Router.FailsIff`, `Router.TraceSentTwiceFails`). Nor does replaying converge when the clock decides: a row refused as
  too far ahead is stored on a later replay, and a trace without a start is given the later one (`Replay.ReplayIsNoOp`,
  `Replay.LateReplayStores`, `RawDelivery.RawReplayIsNoOp`, `RawDelivery.UnstampedReplayMoves`).
* `orphaned` is documented as naming a parent that is not in the response (apps/web/lib/trace-tree.ts:7). Nodes on, or
  leading into, a parent cycle are flagged as well (`SpanRows.FlaggedThoughParentPresentIff`, `SpanRows.CycleIsFlagged`).
* `byStartTime` compares JavaScript dates, which hold whole milliseconds, so siblings that start within one millisecond
  are ordered by id although the API orders them by microsecond (`SpanOrder.ForestInStartOrderIff`,
  `SpanOrder.MicrosecondsAreIgnored`).
* `decode_cursor` (apps/api/app/services/cursor.py:45-49) is said to refuse whatever the server did not issue. It
  accepts other spellings of a timestamp or id (`Cursor.UnissuedTextDecodes`); `Cursor.IssuedIffReencodes` says exactly
  which texts were issued.
* Migration 0003 calls the partitioned range a superset of the accepted one (lines 19-22 of
  apps/api/alembic/versions/0003_widen_partition_backfill.py). Measured from one run of the job this holds for exactly 29
  days (`Partitions.CoverageIsExactly29Days`), and a write on the day after can be stranded for good
  (`Partitions.LateWriteStrands`, `Partitions.LateWriteStrandsForever`).

## Model

| member | source | states |
|---|---|---|
| `Router.Store.Ingest` | apps/api/app/routers/ingest.py:444-543 | One request is one transaction: afterwards the tables are exactly the step of the specification (all four writes, or nothing when a size limit or a refused statement stops it), and the reply counts what was stored and what was refused. |
| `Router.Store.Transact` | apps/api/app/routers/ingest.py:504-510 | The four writes take effect together, traces before stubs, or not at all when the upsert is refused. |
| `Router.Store.Upsert` | apps/api/app/routers/ingest.py:277-340 | Writing trace rows 500 to a statement merges them one after another in batch order, and stops with a failure exactly when some statement names a trace twice or a row has no start. |
| `Router.Store.UpsertStubs` | apps/api/app/routers/ingest.py:343-408 | Each orphan trace is created with its measured window, or has its stored window widened and nothing else changed, however the rows fall into statements. |
| `Router.Store.AddObservations` | apps/api/app/routers/ingest.py:411-430 | Afterwards the table holds its old rows and, for each new key, the first row of that key; chunking does not show. |
| `Router.Store.AddScores` | apps/api/app/routers/ingest.py:262-274 | The same for scores, keyed by project and id. |
| `Router.ObservationRows` | apps/api/app/routers/ingest.py:101-214 | The flattening pass yields the priced rows of exactly the accepted observations, a window for every trace those rows touch equal to the span of its rows, the traces the batch does not carry, and the number refused for their age. |
| `Router.ScoreRowsOf` | apps/api/app/routers/ingest.py:231-259 | One row per score with a target, and a count of the others. |
| `Router.UpsertInParts` | apps/api/app/routers/ingest.py:66-68 | Cutting a list of trace rows into statements anywhere leaves the same traces. |
| `Router.StubsInParts` | apps/api/app/routers/ingest.py:387-408 | Cutting the stubs into statements leaves the same traces. |
| `Writes.SendsOk` | apps/api/app/routers/ingest.py:298-301 | The rows the upsert really receives, windows and all, are refused exactly when the batch's bare traces would be. |
| `Writes.ChunksOkIff` | apps/api/app/routers/ingest.py:66-68 | Going through the rows 500 at a time accepts them exactly when every row has a start and no two positions of one slice share a key. |
| `Writes.StatementsOkIff` | apps/api/app/routers/ingest.py:298-300 | Postgres takes the traces of a batch exactly when every trace has a start and no two of one 500-row slice share an id. |
| `Router.FailsIff` | apps/api/app/routers/ingest.py:298-300 | A request of acceptable size fails exactly when a trace has no start or two of one slice share an id; a request that is not accepted leaves every table as it was. |
| `Router.TraceSentTwiceFails` | apps/api/app/routers/ingest.py:291-300 | A batch carrying one trace twice fails and stores nothing, on any store. |
| `Writes.ScoreValuesStayApart` | apps/api/app/routers/ingest.py:217-228 | Two scores that differ only in value get the same columns exactly when the values are the same, so a boolean true never reads as a numeric 1. |
| `Batches.CountsThePairs` | apps/api/app/schemas/ingest.py:494-496 | The nested part of observation_count is the number of pairs the router iterates over. |
| `History.StepAt` | apps/api/app/routers/ingest.py:507-510 | On any one trace row, the bulk statements of a request act as the fold of the writes that name that row, sends in batch order and the stub last. |
| `History.FoldReads` | apps/api/app/routers/ingest.py:304-337 | After any sequence of writes a trace row is its declarative reading: last non-null name, user, session, environment, release, end and SDK version, last non-empty tags, last value of each metadata key, start of the last explicit send or else of the first stub, first and last write times. |
| `History.StoredRowsAreFirst` | apps/api/app/routers/ingest.py:262-274 | Over a whole history, an observation or score key holds the first accepted row of that key, and is absent exactly when none was accepted. |
| `History.InsertKeepsFirst` | apps/api/app/routers/ingest.py:411-430 | ON CONFLICT DO NOTHING over any list of rows keeps the first row of every key. |
| `Inserts.ObservationsAreFirstSent` | apps/api/app/routers/ingest.py:141-208 | An observation key is stored exactly when some admitted batch holds an acceptable observation of that id and start; the row holds the columns of the first of them in delivery order, its own trace or else the enclosing one or else its own id, and its cost by the book of that request. |
| `Inserts.ScoresAreFirstSent` | apps/api/app/routers/ingest.py:217-259 | A score is stored exactly when some admitted batch holds one of its id with a target; the row names that score's own trace and observation, keeps its value in the columns of its kind, and its own time or else the moment it was received. |
| `Inserts.ReplyCounts` | apps/api/app/routers/ingest.py:537-543 | An admitted request is answered with the number of its traces, of its observations that start within the window, of its scores with a target, of its observations that start outside the window, and of its scores without a target. |
| `Inserts.TooLargeIff` | apps/api/app/routers/ingest.py:475-491 | A request is refused for its size exactly when it carries over a thousand traces or over five thousand observations, nested and flat together. |
| `Windows.TraceReading` | apps/api/app/routers/ingest.py:277-408 | After any history, a trace row exists exactly when some served batch carried the trace or an accepted observation of it, it reads as the history says, and its window is the least and greatest start of the rows accepted for it; Readings and Presence say the same over the batches themselves. |
| `Windows.WindowReads` | apps/api/app/routers/ingest.py:331-336 | The stored window is the span of every row accepted for the trace over the whole history. |
| `Readings.ColumnsAreLastSent` | apps/api/app/routers/ingest.py:304-324 | Each of name, user, session, environment, release, tags, end, SDK version (the header's, or the body's where there is no header or an empty one) and every metadata key of a stored trace is what the last trace of that id in the admitted batches that says anything there says; a column nobody spoke of is empty. |
| `Presence.StoredSinceFirstSpoken` | apps/api/app/routers/ingest.py:141-175 | A trace is stored exactly when some admitted batch carries it or an observation that names it, is nested in it, or names none and stands alone under its id, starting between a week ago and tomorrow; its creation and update moments are those of the first and the last such request. |
| `Presence.StartIsLastSentOrFirstSeen` | apps/api/app/routers/ingest.py:310-322 | Its start is the last one the batches' traces of that id carry; for a trace no batch carries, the least start among its observations in the first batch that had any. |
| `Presence.WindowIsOfTheStartsSent` | apps/api/app/routers/ingest.py:331-336 | Its window runs from the least to the greatest start of the observations accepted for it over all batches, and there is none exactly when none was. |
| `Windows.SpanIsMinMax` | apps/api/app/routers/ingest.py:170-175 | The incrementally widened window is the minimum and maximum of the starts it was shown. |
| `Windows.TouchWindows` | apps/api/app/routers/ingest.py:496-502 | Every write a request makes to a trace proposes the same window, the span of the request's rows for it, and a trace that gets rows gets a write. |
| `Windows.ReachableIsCovered` | apps/api/app/routers/ingest.py:393-404 | On every reachable state each stored observation has a trace row and lies inside that row's window. |
| `Windows.ExactIffDisplacedEnclosed` | apps/api/app/routers/traces.py:106-124 | On every reachable state the windows are exactly the span of what is stored if and only if, among the rows accepted so far, every row whose key was first accepted for another trace falls inside the span of the rows first accepted for its own. |
| `Windows.StoredSpanOfKept` | apps/api/app/routers/ingest.py:426-430 | What a trace stores spans the rows that were the first of their keys among those accepted. |
| `Windows.RepeatedKeyBreaksExactness` | apps/api/app/routers/ingest.py:426-430 | A history whose only two accepted rows are one key for one trace and the same key for another leaves a window that is not exact, around nothing stored. |
| `Windows.WindowsCanBeTooWide` | apps/api/app/routers/ingest.py:417-430 | Two concrete one-observation batches make such a history, so exactness is not a property of every run. |
| `Windows.ConsistentKeysAreExact` | apps/api/app/routers/ingest.py:393-404 | When a key (id, start) always names the same trace, every window is exact and the 0005 recomputation changes nothing. |
| `Windows.RepairRestores` | apps/api/alembic/versions/0005_repair_observation_windows.py:42-60 | From any state whatever the recomputation makes the windows cover everything if and only if every observation has a trace row, makes them exact for every trace that stores an observation, and changes nothing when run again. |
| `Windows.RepairIsExactIff` | apps/api/alembic/versions/0005_repair_observation_windows.py:42-60 | After the recomputation every window is exact if and only if no trace without stored observations had a window to begin with. |
| `Windows.RepairCanLeaveAWindow` | apps/api/alembic/versions/0005_repair_observation_windows.py:47-55 | A concrete run whose every observation has a trace row is not made exact: the trace of a dropped row keeps its window with nothing stored. |
| `Windows.RepairWindows` | apps/api/alembic/versions/0005_repair_observation_windows.py:42-60 | The UPDATE, run on the store in place, leaves exactly the recomputed windows and no other change. |
| `Windows.GroupByTrace` | apps/api/alembic/versions/0005_repair_observation_windows.py:48-52 | One pass over the observations yields, for every trace, the span of its stored observations, and no group for a trace without any. |
| `Delivery.OrderIndependent` | apps/api/app/routers/ingest.py:343-430 | Any two runs delivering the same batches, in any order, with any repetitions and at any prices, agree on trace ids, windows, and which observations and scores are stored, whether or not keys are used consistently, scores are stamped, or the batches agree in names, tags and metadata. |
| `Delivery.SameObservationsStored` | apps/api/app/routers/ingest.py:411-430 | They store the very same observations when over both runs a key always names the same row, cost included. |
| `Delivery.SameScoresStored` | apps/api/app/routers/ingest.py:262-274 | They store the very same scores when over both runs a score key always names the same score, its time included. |
| `Delivery.StampedScoresStored` | apps/api/app/routers/ingest.py:256-256 | For scores that carry their own time it is enough that keys are consistent within one run. |
| `Delivery.OrderMattersForNames` | apps/api/app/routers/ingest.py:304-305 | Two batches naming one trace differently leave different stores in the two orders, so the descriptive columns are last-writer. |
| `Replay.ReplayIsNoOp` | apps/api/app/routers/ingest.py:291-340 | Replaying a whole history, in order, at any later times and prices, on the state it produced changes no column of any table except updated_at if and only if every row the replay accepts has its key stored and its start inside its trace's window already. |
| `Replay.RefusedStaysRefused` | apps/api/app/routers/ingest.py:166-168 | In particular the replay is a no-op when nothing refused at its first delivery is accepted at its second. |
| `Replay.LateReplayStores` | apps/api/app/routers/ingest.py:119-120 | It is not a no-op for a batch whose one observation was refused for lying too far ahead and is accepted now. |
| `Replay.LateReplayIsNoNoOp` | apps/api/app/routers/ingest.py:119-120 | A concrete such batch, refused at time zero and stored a microsecond later. |
| `Replay.ReplayAddsNoRows` | apps/api/app/routers/ingest.py:411-430 | A replay adds no score, and adds no observation if and only if the key of every row it accepts is stored already, whatever prices have become. |
| `Replay.ReplaySaysTheSame` | apps/api/app/routers/ingest.py:304-324 | For every descriptive column, the last thing a replay says about a trace is the last thing the original history said, whenever it is served and even if starts and observations differ; likewise for the start when starts are sent again. |
| `Replay.RehearsalIsNoOp` | apps/api/app/routers/ingest.py:304-337 | Sending a history again with other starts and observations changes no column except updated_at if and only if every row accepted now is taken in already and for every trace the last start sent is the one sent last before. |
| `RawDelivery.BackfillIsTimelessIff` | apps/api/app/schemas/ingest.py:303-323 | Backfilling a batch gives the same result at every moment if and only if every trace has a start or a stamped child and every unstamped flat observation names a trace of the batch. |
| `RawDelivery.RawReplayIsNoOp` | apps/api/app/schemas/ingest.py:303-323 | Replaying any raw batches, each backfilled afresh by the clock of its delivery, changes no column except updated_at if and only if every row the replay accepts is taken in already and every trace is last given the start it was last given before. |
| `RawDelivery.StampedReplayIsNoOp` | apps/api/app/schemas/ingest.py:475-492 | For batches that stamp themselves the condition on starts always holds. |
| `RawDelivery.RawOrderIndependent` | apps/api/app/schemas/ingest.py:475-492 | The order theorem for raw batches in which no observation takes its start from the clock. |
| `RawDelivery.ObservationsTimelessIff` | apps/api/app/schemas/ingest.py:312-321 | A batch's observations come out of backfilling alike at two different moments if and only if each nested one has a stamped trace, which is one with a start or a stamped child, and each unstamped flat one names a trace of the batch whose last mention is stamped. |
| `RawDelivery.UnstampedReplayMoves` | apps/api/app/schemas/ingest.py:314-315 | Replaying a lone trace that carries no start at another moment moves its stored start, so it is not a no-op. |
| `Tenancy.ForeignRequest` | apps/api/alembic/versions/0001_initial_schema.py:273-284 | A request leaves every other project's traces, observations and scores as they were. |
| `Tenancy.OwnRequest` | apps/api/app/deps.py:328-345 | What a request leaves in its own project depends on that project's rows alone. |
| `Tenancy.TenantsAreIsolated` | apps/api/app/deps.py:328-345 | For any interleaving of batches from any projects, one project's slice equals that of the run with the others' batches removed. |
| `IngestSchema.NormaliseEnvelope` | apps/api/app/schemas/ingest.py:426-473 | Refuses exactly the bodies with none of the four keys; of any other the lists become what was sent directly followed by what the events of each kind carry, in the order of the stream and with nothing skipped but entries that are no objects. |
| `IngestSchema.EnvelopedIff` | apps/api/app/schemas/ingest.py:455-473 | That describes one batch only. |
| `IngestSchema.CarriedIsPicked` | apps/api/app/schemas/ingest.py:462-471 | A list drawn from the stream at rising positions that miss no event of the kind is the list the loop appends. |
| `IngestSchema.IngestTrace.Backfill` | apps/api/app/schemas/ingest.py:303-323 | Fills the trace's start from its own, else its earliest child, else the clock, and every child's missing trace id and start, in place, touching nothing else. |
| `IngestSchema.BackfillFlat` | apps/api/app/schemas/ingest.py:475-492 | Gives every flat observation without a start that of its trace in the same batch, else the clock's, in place. |
| `IngestSchema.IngestObservation.DeriveLatency` | apps/api/app/schemas/ingest.py:245-256 | Sets the latency to the whole milliseconds between start and end exactly when both are sent, in order, and no measurement was. |
| `IngestSchema.ChildStartIsEarliest` | apps/api/app/schemas/ingest.py:312-315 | The start derived from the children is the least one among them, and there is none exactly when no child has one. |
| `IngestSchema.BackfillCompletes` | apps/api/app/schemas/ingest.py:303-323 | After backfilling no trace and no observation lacks a start, nothing the client gave is moved, and the count is unchanged. |
| `IngestSchema.CoerceTags` | apps/api/app/schemas/ingest.py:100-121 | Whatever arrives becomes the first thirty-two distinct tags, none empty or longer than sixty-four characters. |
| `IngestSchema.AllTagsOnce` | apps/api/app/schemas/ingest.py:112-121 | Reduction keeps exactly the non-empty trimmed strings of the list, each once. |
| `IngestSchema.TagIsInner` | apps/api/app/schemas/ingest.py:117-117 | The tag of a text is the text without its outer spaces, cut at sixty-four characters. |
| `IngestSchema.TagsByShape` | apps/api/app/schemas/ingest.py:107-116 | One text counts as a list of one, what is neither text nor list gives no tags, and an element that is no text gives none. |
| `IngestSchema.BackfilledIsOwnOrEarliest` | apps/api/app/schemas/ingest.py:303-323 | A trace comes out with its own start, else the least its observations carry, else the clock's; its observations take its id and that start where they have none and keep everything else. |
| `Envelopes.NothingVanishes` | apps/api/app/routers/ingest.py:141-168 | For a request body in either envelope, or both at once, the reply accounts for every trace, for every observation sent nested, directly or as an event of any unrecognised kind (accepted plus refused), and for every score. |
| `Envelopes.FlatEqualsNested` | apps/api/app/schemas/ingest.py:379-402 | On any store, a body that is one stream of events, carrying the traces of a nested body, all their observations in any order and its scores, interleaved anyhow, leaves the same store behind as the nested body. |
| `Envelopes.SameRows` | apps/api/app/routers/ingest.py:128-155 | The two envelopes propose the same observation rows. |
| `Reads.BoundLosesNothing` | apps/api/app/routers/traces.py:127-162 | Bounding the GROUP BY by any page that shows a trace keeps all of its observations, and when the query is skipped there are none. |
| `Reads.DetailIsComplete` | apps/api/app/routers/traces.py:337-419 | The detail view bounded by the trace's window lists every observation of the trace once in (start, id) order, with the totals of an unbounded scan and every score naming the trace or one of them. |
| `Reads.ListAndDetailAgree` | apps/api/app/routers/traces.py:165-194 | A trace's list row and its detail view show the same count, tokens, cost and latency, those of an unbounded scan. |
| `Reads.ReachableReadsAgree` | apps/api/app/routers/traces.py:106-162 | That agreement holds on every reachable state, for every page and every trace on it. |
| `Tallies.ObservationAddsItsColumns` | apps/api/app/routers/traces.py:134-145 | One further stored observation raises its trace's count by one, and its prompt, completion, total, cost and latency figures by that observation's own columns (NULL as zero), both in the list and in the detail. |
| `Tallies.OtherTracesKeepTheirTotals` | apps/api/app/routers/traces.py:134-150 | It changes no figure of any other trace. |
| `Tallies.NothingStoredShowsZeros` | apps/api/app/routers/traces.py:153-162 | A trace without observations shows zeros in both. |
| `Tallies.ReachableTotalsAdd` | apps/api/app/routers/traces.py:404-419 | The first of these holds between any two reachable states one observation apart. |
| `Tallies.ScoresShown` | apps/api/app/routers/traces.py:378-401 | The detail shows a score exactly when it is the project's and names the trace or one of its stored observations. |
| `Tallies.DetailShowsTheTrace` | apps/api/app/routers/traces.py:331-369 | A trace is found exactly when the project stores it, and is shown with its stored row and its observations by start and then id, earliest first. |
| `Reads.TenantReadsAreIsolated` | apps/api/app/routers/traces.py:319-335 | Totals and detail read as one project equal those of the run with the other projects' batches removed. |
| `Spend.CostIsFrozen` | apps/api/app/routers/ingest.py:195-199 | A stored cost is the one computed from the pricebook in force when a served request proposed that very row, and no later history moves it. |
| `Spend.SumIsExactToHalves` | apps/api/app/routers/traces.py:143-143 | The sum of n stored costs, each priced by its own book, is within n/2 units of 1e-8 USD of the exact total. |
| `Spend.TraceTotalIsExactToHalves` | apps/api/app/routers/traces.py:404-419 | On every reachable state, however often prices changed, the total a trace shows in the list and the one it shows in detail are within n/2 units of the exact cost of its n priced observations, each at the prices it was stored under. |
| `Paging.PageIsPrefix` | apps/api/app/routers/traces.py:295-306 | A page is the first rows selected, has_more says exactly whether rows remain, and the cursor is the last row shown. |
| `Paging.EndpointPages` | apps/api/app/routers/traces.py:273-306 | Through the cursor text and back the endpoint serves the rows below the position the cursor stands for. |
| `Paging.IssuedCursorsAreFaithful` | apps/api/app/services/cursor.py:36-80 | The service's own cursors decode to the row they were issued for, which is all the walk needs. |
| `Paging.WalkListsAll` | apps/api/app/routers/traces.py:266-306 | For every store, filter and page size, following the cursors from the first page ends and lists every matching trace once, newest first. |
| `Paging.CollectsTheRest` | apps/api/app/routers/traces.py:287-296 | From any cursor the walk ends having served exactly the rows below it, in order. |
| `Paging.MalformedIsRefused` | apps/api/app/routers/traces.py:273-279 | A cursor is refused exactly when it does not decode; otherwise every row served lies below the position it decodes to. |
| `Filters.UnfilteredShowsAll` | apps/api/app/routers/traces.py:249-249 | Without filters the walk shows every trace of the project and no other. |
| `Filters.OneTextFilter` | apps/api/app/routers/traces.py:251-260 | A filter on name, user, session, environment or release shows exactly the traces with that value in that column; a NULL matches nothing. |
| `Filters.OneTagOrRange` | apps/api/app/routers/traces.py:261-271 | A tag shows exactly the traces that carry it, a lower bound those that start at it or later, an upper bound those that start before it. |
| `Filters.FiltersIntersect` | apps/api/app/routers/traces.py:251-271 | Filters together show what each of them shows, so tags a and b show the traces that carry both. |
| `Filters.RangesIntersect` | apps/api/app/routers/traces.py:266-271 | Two bounds on one side act as the tighter of them. |
| `Filters.WalkIsNewestFirst` | apps/api/app/routers/traces.py:295-296 | The walk runs from the newest start to the oldest, and from the greatest id to the least within one start. |
| `Paging.RangesTile` | apps/api/app/routers/traces.py:266-271 | A walk over [b, c) followed by one over [a, b) is the walk over [a, c), whatever the page sizes. |
| `Paging.StableTraceIsServedOnce` | apps/api/app/routers/traces.py:273-306 | With anything at all written between page requests, a trace whose sort key and filter columns stay is returned exactly once over a finished walk. |
| `Paging.UnsentStays` | apps/api/app/routers/ingest.py:320-322 | A trace that no batch re-sends explicitly keeps its sort key and filter columns, so it stays where the walk finds it. |
| `Paging.TenantPagesAreIsolated` | apps/api/app/routers/traces.py:207-306 | Every list page of a project equals that of the run with the other projects' batches removed. |
| `Ordering.OneListing` | apps/api/app/routers/traces.py:240-243 | A set of (time, id) keys has exactly one sorted listing, so the sort is total. |
| `Ordering.CutListing` | apps/api/app/routers/traces.py:280-293 | Cutting a descending listing after a row leaves the listing of the keys below that row. |
| `Cursor.RoundTrip` | apps/api/app/services/cursor.py:36-80 | Decoding an issued cursor gives back its instant to the microsecond and its id to the bit. |
| `Cursor.CursorsAreDistinct` | apps/api/app/services/cursor.py:36-39 | Two rows share a cursor exactly when they are the same row. |
| `Cursor.CursorIsUrlSafe` | apps/api/app/services/cursor.py:36-39 | An issued cursor is made of the letters, digits, hyphens and underscores of section 5 of RFC 4648, without padding. |
| `Cursor.UnissuedTextDecodes` | apps/api/app/services/cursor.py:42-80 | For every row there is a text that decodes to it and that no row is ever issued: its cursor with the hyphens of the id left out. |
| `Cursor.IssuedIffReencodes` | apps/api/app/services/cursor.py:36-80 | A text was issued for some row if and only if it decodes and encoding the answer gives the text back. |
| `Cursor.IsoRoundTrip` | apps/api/app/services/cursor.py:65-68 | The RFC 3339 (section 5.6) text of an instant, with a fraction only when it is not zero, parses back to the instant. |
| `Cursor.NaiveReadingIsUtc` | apps/api/app/services/cursor.py:75-78 | A timestamp text without an offset is read as UTC. |
| `Cursor.OffsetIsTakenOff` | apps/api/app/services/cursor.py:65-68 | With another offset the same reading names the instant that many minutes earlier, or later behind UTC. |
| `Cursor.UuidRoundTrip` | apps/api/app/services/cursor.py:70-73 | The RFC 9562 (section 4) text of an id parses back to the id. |
| `Base64Url.StrippedRoundTrip` | apps/api/app/services/cursor.py:39-53 | Base64url (RFC 4648, section 5) with its padding stripped and restored to a multiple of four decodes to the original bytes. |
| `Numerals.SplitThree` | apps/api/app/services/cursor.py:57-59 | Three separator-free parts joined by the separator split into exactly those three. |
| `Calendar.FromTime` | apps/api/app/services/cursor.py:38-38 | Every instant has a valid calendar reading that converts back to it. |
| `Partitions.EnsurePartitions` | apps/api/alembic/versions/0001_initial_schema.py:211-258 | A run gives a partition to exactly the days of its range that hold no stranded row, keeps those there were, and returns how many it created. |
| `Partitions.TimelyRunsStayClean` | apps/api/alembic/versions/0003_widen_partition_backfill.py:19-26 | In every run of maintenance and ingest in which each write is served at most 29 days after some run, nothing is ever stranded and every range asked for is fully partitioned. |
| `Partitions.NoRowReachesDefault` | apps/api/app/routers/ingest.py:157-168 | In such a run no accepted row is ever routed to DEFAULT. |
| `Partitions.CoverageIsExactly29Days` | apps/api/alembic/versions/0003_widen_partition_backfill.py:42-50 | The partitions a run creates on an empty table hold every day ingest may accept if and only if at most 29 days have passed since. |
| `Partitions.LateWriteStrands` | apps/api/alembic/versions/0003_widen_partition_backfill.py:9-17 | Any later, one observation as far ahead as ingest accepts is stranded in DEFAULT. |
| `Partitions.LateWriteStrandsForever` | apps/api/alembic/versions/0001_initial_schema.py:236-248 | And its day gets no partition however often maintenance runs afterwards. |
| `Partitions.StrandedForever` | apps/api/alembic/versions/0001_initial_schema.py:236-248 | Once a row is stranded its day never gets a partition again, whatever happens. |
| `Pricing.PriceLookup.Lookup` | apps/api/app/services/pricing.py:217-249 | The loop returns the one price the book gives, adds the name it looked up to the warned set exactly when it finds none and there is room, never forgets a name it has warned about, and never tracks more than 512. |
| `Pricing.Normalise` | apps/api/app/services/pricing.py:186-214 | The stripping loops terminate at the normal form defined by the unique remainder. |
| `Pricing.NormalisedTwiceIff` | apps/api/app/services/pricing.py:186-214 | Normalising a name again changes nothing if and only if it has no capital, no outer space, no colon, no vendor in front, dotted or not, and no version suffix. |
| `Pricing.RemainderIsUnique` | apps/api/app/services/pricing.py:195-201 | A name has exactly one remainder behind a chain of vendor prefixes with no prefix in front, so the order in which prefixes are tried is irrelevant. |
| `Pricing.PrefixFree` | apps/api/app/services/pricing.py:166-178 | No vendor prefix is a prefix of another. |
| `Pricing.OrderIsIrrelevant` | apps/api/app/services/pricing.py:231-241 | Two books with the same entries resolve every name alike, whatever their order: its own entry, else the longest key claiming it across a dash, else nothing. |
| `Pricing.LongestClaimant` | apps/api/app/services/pricing.py:235-241 | When some key claims a name, a longest one does. |
| `Pricing.PriceIsLongestContinued` | apps/api/app/services/pricing.py:227-249 | A model id costs what the entry of its normalised name says; without one, what the longest key says that the name continues with a dash; without any, nothing is known. |
| `Pricing.SpellingIsIgnored` | apps/api/app/services/pricing.py:193-193 | Capitals and outer spaces make no difference to the name a model id is looked up under. |
| `Pricebook.WrappedKeyResolves` | apps/api/app/services/pricing.py:193-214 | Any chain of vendor prefixes, a dotted vendor, a version suffix and a colon tail around a canonical key resolve to that key's own price. |
| `Pricebook.ShippedBookIsCanonical` | apps/api/app/services/pricing.py:108-162 | Every shipped key is such a key, and no shipped cached rate exceeds its input rate. |
| `Pricebook.TwoVersionsTakeTwoRounds` | apps/api/app/services/pricing.py:206-207 | A clean canonical key behind two version suffixes keeps one of them, so normalising is not idempotent. |
| `Pricebook.RegionBehindVendorTakesTwoRounds` | apps/api/app/services/pricing.py:195-212 | Nor is it for such a key behind a region behind a dotted vendor, of which the region is left. |
| `Pricebook.ShippedKeysAreDistinct` | apps/api/app/services/pricing.py:108-162 | The shipped book names no model twice. |
| `Pricebook.ShippedKeyResolves` | apps/api/app/services/pricing.py:108-214 | So every such spelling of a shipped key is priced by the shipped book as that key's own entry. |
| `Pricebook.UnlistedVersionHasNoPrice` | apps/api/app/services/pricing.py:235-241 | By the shipped book gpt-5.3 has no price: gpt-5 does not claim it. |
| `Pricebook.DatedSnapshotTakesLongest` | apps/api/app/services/pricing.py:220-222 | By the shipped book gpt-4o-mini-2024-07-18 costs what gpt-4o-mini costs, and not what gpt-4o does. |
| `Costs.ComputeCost` | apps/api/app/services/pricing.py:252-300 | The computed cost is the specified one, and pricing never shrinks the set of warned names. |
| `Costs.RoundingIsNearest` | apps/api/app/services/pricing.py:300-300 | Rounding lands within half a unit, ties away from zero. |
| `Costs.CostIsExactToHalfAUnit` | apps/api/app/services/pricing.py:278-300 | A cost exists exactly when the model is priced and a count was reported; it is not negative and within half of 1e-8 USD of the exact cost. |
| `Costs.CostIsMonotone` | apps/api/app/services/pricing.py:285-298 | More prompt or completion tokens never cost less. |
| `Costs.CostIsAntitoneInCached` | apps/api/app/services/pricing.py:287-298 | More cached tokens never cost more, and all beyond the prompt are ignored. |
| `Costs.CachingNeverCostsIffDiscounted` | apps/api/app/services/pricing.py:287-298 | A price lets no cached subset raise the stored figure if and only if its cached rate does not exceed its input rate. |
| `Costs.NothingCostsNothing` | apps/api/app/services/pricing.py:285-300 | No prompt and no completion tokens cost nothing, whatever is cached. |
| `Costs.MissingCountsAreZero` | apps/api/app/services/pricing.py:285-287 | A count that is missing on one side is priced as zero. |
| `Costs.TenMoreCompletions` | apps/api/app/services/pricing.py:294-298 | Ten more completion tokens add exactly the output rate to the stored figure. |
| `Costs.TenMoreFreshPrompts` | apps/api/app/services/pricing.py:294-298 | Ten more prompt tokens outside the cached subset add exactly the input rate. |
| `Costs.TenMoreCached` | apps/api/app/services/pricing.py:288-298 | Moving ten prompt tokens into the cached subset changes the figure by the cached rate less the input rate, and by nothing where no cached rate is listed. |
| `Costs.CachedBeyondPromptIsIgnored` | apps/api/app/services/pricing.py:287-287 | A cached count beyond the prompt is the whole prompt. |
| `Costs.TenfoldIsExact` | apps/api/app/services/pricing.py:294-300 | At ten times any counts the stored figure is exactly the fresh, cached and completion counts at their listed rates; at the counts themselves it is a tenth of that to within half a unit, ties upwards. |
| `SpanTree.BuildSpanTree` | apps/web/lib/trace-tree.ts:30-83 | For any list with any parent pointers the build terminates, and the nodes it leaves on the heap show exactly the forest specified for the list's first occurrences. |
| `SpanTree.WouldCycle` | apps/web/lib/trace-tree.ts:42-52 | The walk with a set of seen ids terminates and answers true exactly when the chain of named parents never ends. |
| `SpanTree.MakeNodes` | apps/web/lib/trace-tree.ts:31-40 | One fresh, unlinked node per distinct id, holding its first occurrence, in the order in which the ids first appear. |
| `SpanTree.LinkOne` | apps/web/lib/trace-tree.ts:55-70 | One turn of the linking loop adds the node to the children of the parent it names or to the roots, sets its flag, and disturbs nothing linked before. |
| `SpanTree.LinkAll` | apps/web/lib/trace-tree.ts:54-70 | After the loop every node holds exactly its attached children, the roots are exactly the rest, and the flags are right. |
| `SpanTree.AssignDepth` | apps/web/lib/trace-tree.ts:74-78 | Numbering and sorting a node's subtree terminates, writes only nodes at or below it, and leaves it showing its tree. |
| `SpanTree.Sorted` | apps/web/lib/trace-tree.ts:85-91 | Sorting by the comparison leaves the one strictly ordered listing of the same nodes. |
| `SpanTree.FlattenRoots` | apps/web/lib/trace-tree.ts:94-102 | Walking the nodes yields the rows of the forest in order. |
| `SpanForest.RevisitNeverEnds` | apps/web/lib/trace-tree.ts:46-51 | A chain of named parents that revisits a node never ends. |
| `SpanForest.LinksAreAcyclic` | apps/web/lib/trace-tree.ts:64-69 | No node becomes its own proper ancestor. |
| `SpanForest.HoldsFirst` | apps/web/lib/trace-tree.ts:32-33 | The nodes map holds, for every id of the list, its first occurrence. |
| `SpanForest.ListingIsUnique` | apps/web/lib/trace-tree.ts:85-91 | A set of nodes has one strictly ordered listing by whole milliseconds and then id. |
| `SpanForest.PermutationInvariant` | apps/web/lib/trace-tree.ts:30-91 | For a list with distinct ids the forest is the same for every permutation of it. |
| `SpanRows.ForestOnce` | apps/web/lib/trace-tree.ts:94-102 | Flattening yields each distinct id exactly once, with its first occurrence's data. |
| `SpanRows.RowsTellTheForest` | apps/web/lib/trace-tree.ts:55-70 | A row is at the top exactly when its chain of parents does not end or its parent is absent or unnamed; otherwise the nearest earlier row one level up is the parent it names; it is flagged exactly when it names a parent but is at the top. |
| `SpanRows.SubtreeIsOneBlock` | apps/web/lib/trace-tree.ts:94-102 | The rows from a node to the next that is not deeper are its subtree, each node once, and nothing else. |
| `SpanRows.ForestSurvivesFlattening` | apps/web/lib/trace-tree.ts:72-102 | Rebuilding from the order and depths of the rows gives back the forest. |
| `SpanRows.ForestIsOrdered` | apps/web/lib/trace-tree.ts:74-91 | Siblings, and the roots among themselves, are strictly sorted by start in whole milliseconds and then id, at every level. |
| `SpanOrder.ForestInStartOrderIff` | apps/web/lib/trace-tree.ts:85-91 | They are sorted by the start itself and then id, at every level, if and only if no two roots, or two children of one node, that start in one millisecond have their ids in the opposite order to their starts. |
| `SpanOrder.MicrosecondsAreIgnored` | apps/web/lib/trace-tree.ts:85-91 | Two concrete spans a microsecond apart are shown the later one first. |
| `SpanRows.FlaggedThoughParentPresentIff` | apps/web/lib/trace-tree.ts:61-66 | The parent a flagged node names is in the list if and only if its chain of parents never ends. |
| `SpanRows.FlaggedRowSays` | apps/web/lib/trace-tree.ts:61-66 | The same of every flagged row on screen. |
| `SpanRows.CycleIsFlagged` | apps/web/lib/trace-tree.ts:61-66 | Two spans that name each other are both flagged, with both parents present. |
| `TraceView.RenderedOnce` | apps/web/lib/trace-tree.ts:26-40 | Of the observations that share an id, the first in the list is rendered, in exactly one row. |
| `TraceView.NothingIsHidden` | apps/api/app/routers/traces.py:337-374 | On every reachable state, every stored observation of a trace has exactly one row on its page, which shows the id, parent, start and body of the earliest-started stored observation of the trace with that id. |
| `SpanRows.RowsFallShortExactlyOnRepeats` | apps/web/lib/trace-tree.ts:26-33 | The tree never shows more rows than there are observations, and as many exactly when no id repeats. |

## Left out

- HTTP, authentication, scopes, pooling, logging and SQL text: a statement is modelled by its meaning and a request is one atomic transaction bound to one project.
- Concurrent transactions: requests are served one after another.
- The clock is read once per request; the program reads it separately for the age window, the scores' arrival and the database's now().
- Minting of missing ids (`uuid4`), alias spellings of fields, type errors and length ceilings answered with 422 before the router runs.
- Column widths and 32-bit integer ranges, the clipping of over-long strings, and NUMERIC(18,6) rounding of score values.
- JSON bodies and metadata values are opaque and compared for equality; a metadata document is a flat map.
- Decimal context precision (28 digits) and the float arithmetic of latencies: both are exact integers here.
- Rounding of float counts (`_coerce_count`) and the text form of prompt versions (`_coerce_version`): small total helpers.
- Case folding and whitespace beyond ASCII in model names and tags.
- Spellings of timestamps and ids that `fromisoformat` and `UUID` accept besides those the server issues, other offsets and hyphenless ids, and cursor text outside ASCII after decoding.
- Pricing.Normalise: claims no idempotence, which fails as Pricebook.TwoVersionsTakeTwoRounds and Pricebook.RegionBehindVendorTakesTwoRounds show; Pricing.NormalisedTwiceIff says when it holds.
- Pricebook.WrappedKeyResolves: assumes a book without repeated keys, as a dict is; Pricebook.ShippedKeyResolves drops the assumption for the shipped book.
- Costs.CostIsAntitoneInCached: assumes a cached rate no higher than the input rate, which Pricebook.ShippedBookIsCanonical shows of every shipped entry and without which the property fails (Costs.CachingNeverCostsIffDiscounted).
- Delivery.OrderIndependent: assumes every observation is within the accepted age at each delivery, since the server's clock decides otherwise which rows exist.
- Delivery.SameObservationsStored: assumes a key always names the same row over both runs, cost included, since the first to arrive wins; re-sending other contents under a key, or at other prices, is covered by Delivery.OrderIndependent alone.
- Delivery.SameScoresStored: assumes a score key always names the same score over both runs, for the same reason; a score without a time of its own is given the time of its first arrival.
- RawDelivery.RawOrderIndependent: assumes no observation takes its start from the clock, which RawDelivery.ObservationsTimelessIff shows to be exactly when the clock leaves them alone.
- Envelopes.FlatEqualsNested: asks that traces with one id in a batch share one start, since the flat form inherits from the last of them, and that a key names one row, since the first in the batch wins and the events may come in another order.
- Paging.StableTraceIsServedOnce: speaks of walks that reach a page with no more rows; traces ingested faster than they are paged can keep a walk going.
- SpanTree.Sorted: stands for the engine's Array.sort and is proved for the result of the comparison, not for the engine's algorithm.
- Invalid dates, empty ids and locale rules in the trace tree: start times are integers and localeCompare is the numeric order of UUIDs, which their lower-case text shares.
- The order of scores in the detail view and the duration column.
- Session time zones: current_date is taken in UTC, as every stored instant is.
- Cron scheduling, role grants, downgrades, the other migrations, sign-in, keys, and all rendering.
