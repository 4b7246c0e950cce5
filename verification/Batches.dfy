/** What a parsed batch carries, and the columns a row of each table holds. */
module Batches {
  import opened Types

  /** An opaque JSON value, compared only for equality. */
  type Json = string

  /** The pass-through columns of an observation. */
  datatype Detail = Detail(
    parent: Option<Id>, model: Option<string>, promptTokens: Option<nat>, completionTokens: Option<nat>,
    cachedTokens: Option<nat>, reasoningTokens: Option<nat>, body: Json)

  datatype Obs = Obs(id: Id, traceId: Option<Id>, startedAt: Option<Time>, endedAt: Option<Time>,
                     latencyMs: Option<nat>, detail: Detail)

  /** The descriptive fields of a trace. */
  datatype About = About(
    name: Option<string>, userId: Option<string>, sessionId: Option<string>, tags: seq<string>,
    environment: Option<string>, release: Option<string>, metadata: map<string, Json>)

  datatype Trace = Trace(id: Id, about: About, startedAt: Option<Time>, endedAt: Option<Time>,
                         observations: seq<Obs>)

  datatype ScoreValue = Flag(on: bool) | Number(n: real) | Label(text: string)

  datatype Score = Score(id: Id, traceId: Option<Id>, observationId: Option<Id>, name: string, value: ScoreValue,
                         scoredAt: Option<Time>, body: Json)
  {
    predicate HasTarget() {
      traceId.Some? || observationId.Some?
    }
  }

  datatype Batch = Batch(traces: seq<Trace>, observations: seq<Obs>, scores: seq<Score>, sdkVersion: Option<string>)

  /** Every observation of the batch with its enclosing trace, nested ones first. */
  function Pairs(batch: Batch): seq<(Obs, Option<Trace>)> {
    NestedPairs(batch.traces) + FlatPairs(batch.observations)
  }

  function NestedPairs(traces: seq<Trace>): seq<(Obs, Option<Trace>)> {
    if traces == [] then []
    else NestedPairs(traces[..|traces| - 1]) + PairsOf(traces[|traces| - 1])
  }

  function PairsOf(trace: Trace): seq<(Obs, Option<Trace>)> {
    seq(|trace.observations|, i requires 0 <= i < |trace.observations| => (trace.observations[i], Some(trace)))
  }

  function FlatPairs(observations: seq<Obs>): seq<(Obs, Option<Trace>)> {
    seq(|observations|, i requires 0 <= i < |observations| => (observations[i], None))
  }

  function ObservationCount(batch: Batch): nat {
    NestedCount(batch.traces) + |batch.observations|
  }

  function NestedCount(traces: seq<Trace>): nat {
    if traces == [] then 0 else NestedCount(traces[..|traces| - 1]) + |traces[|traces| - 1].observations|
  }

  lemma {:induction false} CountsThePairs(traces: seq<Trace>)
    ensures |NestedPairs(traces)| == NestedCount(traces)
  {
    if traces != [] {
      CountsThePairs(traces[..|traces| - 1]);
    }
  }

  // ---------------------------------------------------------------- rows

  datatype ObsKey = ObsKey(project: Id, id: Id, startedAt: Time)

  datatype ObsRow = ObsRow(id: Id, project: Id, traceId: Id, startedAt: Time, endedAt: Option<Time>,
                           latencyMs: Option<nat>, detail: Detail, cost: Option<int>)
  {
    function Key(): ObsKey {
      ObsKey(project, id, startedAt)
    }

    /** The generated column. */
    function TotalTokens(): nat {
      detail.promptTokens.GetOr(0) + detail.completionTokens.GetOr(0)
    }
  }

  datatype RowKey = RowKey(project: Id, id: Id)

  datatype ScoreKind = Numeric | Boolean | Categorical

  datatype ScoreRow = ScoreRow(id: Id, project: Id, traceId: Option<Id>, observationId: Option<Id>, name: string,
                               kind: ScoreKind, value: Option<real>, valueText: Option<string>, scoredAt: Time,
                               body: Json)
  {
    function Key(): RowKey {
      RowKey(project, id)
    }
  }

  datatype Window = Window(lo: Time, hi: Time)

  /** The row an explicit trace proposes, before the merge. */
  datatype TraceSend = TraceSend(id: Id, project: Id, about: About, startedAt: Option<Time>, endedAt: Option<Time>,
                                 sdkVersion: Option<string>, window: Option<Window>)
  {
    function Key(): RowKey {
      RowKey(project, id)
    }

    function Lo(): Option<Time> {
      if window.None? then None else Some(window.value.lo)
    }

    function Hi(): Option<Time> {
      if window.None? then None else Some(window.value.hi)
    }
  }

  /** A stored trace. */
  datatype TraceRow = TraceRow(about: About, startedAt: Time, endedAt: Option<Time>, sdkVersion: Option<string>,
                               obsMin: Option<Time>, obsMax: Option<Time>, createdAt: Time, updatedAt: Time)

  /** The tenant tables. */
  datatype Tables = Tables(traces: map<RowKey, TraceRow>, observations: map<ObsKey, ObsRow>, scores: map<RowKey, ScoreRow>)

  const EMPTY := Tables(map[], map[], map[])
}
