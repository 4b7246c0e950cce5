/** schemas/ingest.py: the two envelopes, and the fields the validators fill in before the router runs. */
module IngestSchema {
  import opened Types
  import opened Batches
  import Pricing

  const MAX_TAGS := 32
  const MAX_TAG_CHARS := 64

  // ---------------------------------------------------------------- envelopes

  /** One entry of the flat stream: its `type` decides where it goes; an entry that is no object is skipped. */
  datatype Event = TraceEvent(trace: Trace) | ScoreEvent(score: Score) | OtherEvent(observation: Obs) | NotAnObject

  datatype Events = Absent | NotAList | Listed(events: seq<Event>)

  /** The request body; a missing key is None. */
  datatype Body = Body(events: Events, traces: Option<seq<Trace>>, observations: Option<seq<Obs>>,
                       scores: Option<seq<Score>>, sdkVersion: Option<string>)

  datatype Parsed = Refused | Parsed(batch: Batch)

  predicate Recognised(body: Body) {
    !body.events.Absent? || body.traces.Some? || body.observations.Some? || body.scores.Some?
  }

  function AsTrace(e: Event): Option<Trace> {
    if e.TraceEvent? then Some(e.trace) else None
  }

  function AsScore(e: Event): Option<Score> {
    if e.ScoreEvent? then Some(e.score) else None
  }

  function AsObservation(e: Event): Option<Obs> {
    if e.OtherEvent? then Some(e.observation) else None
  }

  /** What one kind of event carries, in the order of the stream. */
  function Picked<T>(events: seq<Event>, pick: Event -> Option<T>): seq<T> {
    if events == [] then []
    else
      var before := Picked(events[..|events| - 1], pick);
      var x := pick(events[|events| - 1]);
      if x.Some? then before + [x.value] else before
  }

  function EventsOf(body: Body): seq<Event> {
    if body.events.Listed? then body.events.events else []
  }

  /** Both envelopes in the one internal shape. */
  function Enveloped(body: Body): Parsed {
    if !Recognised(body) then Refused
    else
      var events := EventsOf(body);
      Parsed(Batch(body.traces.GetOr([]) + Picked(events, AsTrace),
                   body.observations.GetOr([]) + Picked(events, AsObservation),
                   body.scores.GetOr([]) + Picked(events, AsScore), body.sdkVersion))
  }

  // ---------------------------------------------------------------- the stream, read by positions

  /** r is what the events at the given positions carry, in order, and no other event carries anything. */
  ghost predicate CarriedAt<T>(events: seq<Event>, pick: Event -> Option<T>, r: seq<T>, at: seq<int>) {
    && |at| == |r|
    && (forall i :: 0 <= i < |at| ==> 0 <= at[i] < |events| && pick(events[at[i]]) == Some(r[i]))
    && (forall i, j :: 0 <= i < j < |at| ==> at[i] < at[j])
    && (forall k :: 0 <= k < |events| && pick(events[k]).Some? ==> k in at)
  }

  lemma {:induction false} PickedIsCarried<T>(events: seq<Event>, pick: Event -> Option<T>) returns (at: seq<int>)
    ensures CarriedAt(events, pick, Picked(events, pick), at)
    decreases |events|
  {
    at := [];
    if events != [] {
      var init, last := events[..|events| - 1], events[|events| - 1];
      var before := PickedIsCarried(init, pick);
      CarriedStep(init, pick, Picked(init, pick), before, last);
      assert events == init + [last];
      at := if pick(last).Some? then before + [|init|] else before;
    }
  }

  lemma CarriedStep<T>(events: seq<Event>, pick: Event -> Option<T>, r: seq<T>, at: seq<int>, e: Event)
    requires CarriedAt(events, pick, r, at)
    ensures pick(e).Some? ==> CarriedAt(events + [e], pick, r + [pick(e).value], at + [|events|])
    ensures pick(e).None? ==> CarriedAt(events + [e], pick, r, at)
  {
    var all, more := events + [e], at + [|events|];
    assert all[|events|] == e && forall k :: 0 <= k < |events| ==> all[k] == events[k];
    assert more[|at|] == |events| && forall i :: 0 <= i < |at| ==> more[i] == at[i];
    assert forall k :: k in more <==> k in at || k == |events|;
  }

  lemma LastOfRising(at: seq<int>, i: nat, bound: int)
    requires i < |at| && at[i] == bound
    requires forall a, b :: 0 <= a < b < |at| ==> at[a] < at[b]
    requires forall a :: 0 <= a < |at| ==> at[a] <= bound
    ensures i == |at| - 1
  {
    assert at[|at| - 1] <= bound;
  }

  lemma {:induction false} CarriedIsPicked<T>(events: seq<Event>, pick: Event -> Option<T>, r: seq<T>, at: seq<int>)
    requires CarriedAt(events, pick, r, at)
    ensures r == Picked(events, pick)
    decreases |events|
  {
    if events != [] {
      var init, last := events[..|events| - 1], |events| - 1;
      assert forall k :: 0 <= k < |init| ==> init[k] == events[k];
      if pick(events[last]).Some? {
        var n := |at| - 1;
        var i :| 0 <= i < |at| && at[i] == last;
        LastOfRising(at, i, last);
        CarriedBefore(events, pick, r, at);
        CarriedIsPicked(init, pick, r[..n], at[..n]);
        assert r == r[..n] + [r[n]];
      } else {
        CarriedIsPicked(init, pick, r, at);
      }
    }
  }

  lemma CarriedBefore<T>(events: seq<Event>, pick: Event -> Option<T>, r: seq<T>, at: seq<int>)
    requires CarriedAt(events, pick, r, at) && at != [] && at[|at| - 1] == |events| - 1
    ensures CarriedAt(events[..|events| - 1], pick, r[..|r| - 1], at[..|at| - 1])
  {
    var n := |at| - 1;
    forall k | 0 <= k < |events| - 1 && pick(events[k]).Some? ensures k in at[..n] {
      var i :| 0 <= i < |at| && at[i] == k;
      assert at[..n][i] == k;
    }
  }

  /** The positions of one kind of event. */
  ghost function Positions<T>(events: seq<Event>, pick: Event -> Option<T>): set<int> {
    set k | 0 <= k < |events| && pick(events[k]).Some?
  }

  /** As many are picked as there are events of the kind. */
  lemma {:induction false} PickedCount<T>(events: seq<Event>, pick: Event -> Option<T>)
    ensures |Picked(events, pick)| == |Positions(events, pick)|
    decreases |events|
  {
    if events != [] {
      var init, last := events[..|events| - 1], |events| - 1;
      PickedCount(init, pick);
      assert Positions(events, pick) == Positions(init, pick) + if pick(events[last]).Some? then {last} else {};
    }
  }

  /** The events carry exactly these, each kind in its own order, interleaved anyhow. */
  ghost predicate Interleaves(events: seq<Event>, traces: seq<Trace>, observations: seq<Obs>, scores: seq<Score>) {
    && (exists at :: CarriedAt(events, AsTrace, traces, at))
    && (exists at :: CarriedAt(events, AsObservation, observations, at))
    && (exists at :: CarriedAt(events, AsScore, scores, at))
  }

  lemma InterleavesIff(events: seq<Event>, traces: seq<Trace>, observations: seq<Obs>, scores: seq<Score>)
    ensures Interleaves(events, traces, observations, scores)
            <==> traces == Picked(events, AsTrace) && observations == Picked(events, AsObservation)
                 && scores == Picked(events, AsScore)
  {
    var traceAt := PickedIsCarried(events, AsTrace);
    var observationAt := PickedIsCarried(events, AsObservation);
    var scoreAt := PickedIsCarried(events, AsScore);
    if Interleaves(events, traces, observations, scores) {
      var a :| CarriedAt(events, AsTrace, traces, a);
      var b :| CarriedAt(events, AsObservation, observations, b);
      var c :| CarriedAt(events, AsScore, scores, c);
      CarriedIsPicked(events, AsTrace, traces, a);
      CarriedIsPicked(events, AsObservation, observations, b);
      CarriedIsPicked(events, AsScore, scores, c);
    }
  }

  /** The batch's lists are those sent directly followed by what the stream interleaves. */
  ghost predicate IsEnvelopeOf(body: Body, b: Batch) {
    && b.sdkVersion == body.sdkVersion
    && exists traces, observations, scores ::
         && Interleaves(EventsOf(body), traces, observations, scores)
         && b.traces == body.traces.GetOr([]) + traces
         && b.observations == body.observations.GetOr([]) + observations
         && b.scores == body.scores.GetOr([]) + scores
  }

  /** Only a body with none of the four keys is refused, and any other becomes the one batch that is its envelope. */
  lemma EnvelopedIff(body: Body, b: Batch)
    ensures Enveloped(body).Refused? <==> !Recognised(body)
    ensures Recognised(body) ==> (IsEnvelopeOf(body, b) <==> Enveloped(body) == Parsed(b))
  {
    var events := EventsOf(body);
    InterleavesIff(events, Picked(events, AsTrace), Picked(events, AsObservation), Picked(events, AsScore));
    if IsEnvelopeOf(body, b) {
      var traces, observations, scores :|
        && Interleaves(events, traces, observations, scores)
        && b.traces == body.traces.GetOr([]) + traces
        && b.observations == body.observations.GetOr([]) + observations
        && b.scores == body.scores.GetOr([]) + scores;
      InterleavesIff(events, traces, observations, scores);
    }
  }

  method NormaliseEnvelope(body: Body) returns (r: Parsed)
    ensures r == Enveloped(body)
    ensures r.Refused? <==> !Recognised(body)
    ensures r.Parsed? ==> IsEnvelopeOf(body, r.batch)
  {
    if body.events.Absent? && body.traces.None? && body.observations.None? && body.scores.None? {
      return Refused;
    }
    var traces, observations, scores := body.traces.GetOr([]), body.observations.GetOr([]), body.scores.GetOr([]);
    if !body.events.Listed? {
      r := Parsed(Batch(traces, observations, scores, body.sdkVersion));
      EnvelopedIff(body, r.batch);
      return;
    }
    var events := body.events.events;
    ghost var traces0, observations0, scores0 := traces, observations, scores;
    for i := 0 to |events|
      invariant traces == traces0 + Picked(events[..i], AsTrace)
      invariant observations == observations0 + Picked(events[..i], AsObservation)
      invariant scores == scores0 + Picked(events[..i], AsScore)
    {
      assert events[..i + 1][..i] == events[..i];
      match events[i]
      case TraceEvent(trace) => traces := traces + [trace];
      case ScoreEvent(score) => scores := scores + [score];
      case OtherEvent(observation) => observations := observations + [observation];
      case NotAnObject =>
    }
    assert events[..|events|] == events;
    r := Parsed(Batch(traces, observations, scores, body.sdkVersion));
    EnvelopedIff(body, r.batch);
  }

  // ---------------------------------------------------------------- tags

  /** What may arrive under `tags`; an element that is no string is None. */
  datatype TagInput = NoTags | OneTag(text: string) | TagList(items: seq<Option<string>>) | OtherShape

  function ItemsOf(value: TagInput): seq<Option<string>> {
    match value
    case OneTag(text) => [Some(text)]
    case TagList(items) => items
    case _ => []
  }

  /** The tag an element stands for, empty when it stands for none. */
  function TagOf(item: Option<string>): string {
    var text := Pricing.Strip(item.GetOr(""));
    if |text| > MAX_TAG_CHARS then text[..MAX_TAG_CHARS] else text
  }

  /** Every tag of a list once, in the order of first appearance. */
  function AllTags(items: seq<Option<string>>): seq<string> {
    if items == [] then []
    else
      var before := AllTags(items[..|items| - 1]);
      var tag := TagOf(items[|items| - 1]);
      if tag == "" || tag in before then before else before + [tag]
  }

  ghost predicate Tagged(items: seq<Option<string>>, tag: string) {
    exists i :: 0 <= i < |items| && TagOf(items[i]) == tag
  }

  /** No tag is repeated, empty or too long, and none is missing. */
  lemma {:induction false} AllTagsOnce(items: seq<Option<string>>)
    ensures Distinct(AllTags(items))
    ensures forall tag :: tag in AllTags(items) <==> tag != "" && Tagged(items, tag)
    ensures forall i :: 0 <= i < |AllTags(items)| ==> 0 < |AllTags(items)[i]| <= MAX_TAG_CHARS
    decreases |items|
  {
    if items != [] {
      AllTagsOnce(items[..|items| - 1]);
      forall tag ensures Tagged(items, tag) <==> TagOf(items[|items| - 1]) == tag || Tagged(items[..|items| - 1], tag) {
        TaggedStep(items, tag);
      }
    }
  }

  lemma TaggedStep(items: seq<Option<string>>, tag: string)
    requires items != []
    ensures Tagged(items, tag) <==> TagOf(items[|items| - 1]) == tag || Tagged(items[..|items| - 1], tag)
  {
    var init := items[..|items| - 1];
    assert forall i :: 0 <= i < |init| ==> init[i] == items[i];
  }

  lemma {:induction false} TagsExtend(items: seq<Option<string>>, n: nat)
    requires n <= |items|
    ensures AllTags(items[..n]) <= AllTags(items)
    decreases |items|
  {
    if n == |items| {
      assert items[..n] == items;
    } else {
      assert items[..|items| - 1][..n] == items[..n];
      TagsExtend(items[..|items| - 1], n);
    }
  }

  lemma TagsStep(items: seq<Option<string>>, i: nat)
    requires i < |items|
    ensures var before, tag := AllTags(items[..i]), TagOf(items[i]);
            AllTags(items[..i + 1]) == if tag == "" || tag in before then before else before + [tag]
    ensures AllTags(items[..i + 1]) <= AllTags(items)
  {
    assert items[..i + 1][..i] == items[..i];
    TagsExtend(items, i + 1);
  }

  /** The first thirty-two distinct tags of whatever arrived. */
  function FirstTags(items: seq<Option<string>>): (tags: seq<string>)
    ensures Distinct(tags) && forall i :: 0 <= i < |tags| ==> 0 < |tags[i]| <= MAX_TAG_CHARS
  {
    AllTagsOnce(items);
    if |AllTags(items)| > MAX_TAGS then AllTags(items)[..MAX_TAGS] else AllTags(items)
  }

  /** A tag is the text between outer spaces, cut at sixty-four characters: nothing before it but spaces, and nothing
      behind it but spaces unless it fills the column. */
  lemma TagIsInner(text: string) returns (front: string, back: string)
    ensures text == front + TagOf(Some(text)) + back && |TagOf(Some(text))| <= 64
    ensures Pricing.AllSpaces(front)
    ensures TagOf(Some(text)) != "" ==> !Pricing.IsSpace(TagOf(Some(text))[0])
    ensures |TagOf(Some(text))| < 64 ==> Pricing.AllSpaces(back)
  {
    front, back := Pricing.StripIsInner(text);
    Pricing.StrippedEnds(text);
    var inner, tag := Pricing.Strip(text), TagOf(Some(text));
    assert inner == tag + inner[|tag|..];
    back := inner[|tag|..] + back;
  }

  /** One text is a list of one; what is neither text nor list gives no tags, and an element that is no text none. */
  lemma {:induction false} TagsByShape(text: string, items: seq<Option<string>>)
    ensures FirstTags(ItemsOf(OneTag(text))) == if TagOf(Some(text)) == "" then [] else [TagOf(Some(text))]
    ensures FirstTags(ItemsOf(NoTags)) == [] && FirstTags(ItemsOf(OtherShape)) == []
    ensures FirstTags(ItemsOf(TagList(items + [None]))) == FirstTags(ItemsOf(TagList(items)))
    ensures ItemsOf(TagList(items)) == items
  {
    var one: seq<Option<string>> := [Some(text)];
    assert one[..0] == [] && AllTags(one[..0]) == [];
    assert ItemsOf(OneTag(text)) == one;
    assert (items + [None])[..|items|] == items;
  }

  method CoerceTags(value: TagInput) returns (tags: seq<string>)
    ensures tags == FirstTags(ItemsOf(value))
  {
    var items := ItemsOf(value);
    tags := [];
    for i := 0 to |items|
      invariant tags == AllTags(items[..i]) && |tags| < MAX_TAGS
    {
      TagsStep(items, i);
      if items[i].None? {
        continue;
      }
      var tag := TagOf(items[i]);
      if tag != "" && tag !in tags {
        tags := tags + [tag];
      }
      if |tags| >= MAX_TAGS {
        return tags;
      }
    }
    assert items[..|items|] == items;
  }

  // ---------------------------------------------------------------- backfilling

  /** The earliest start among the children that carry one. */
  function ChildStart(observations: seq<Obs>): Option<Time> {
    if observations == [] then None
    else Least(ChildStart(observations[..|observations| - 1]), observations[|observations| - 1].startedAt)
  }

  function TraceStart(trace: Trace, now: Time): Time {
    if trace.startedAt.Some? then trace.startedAt.value else ChildStart(trace.observations).GetOr(now)
  }

  function FillNested(o: Obs, trace: Id, start: Time): Obs {
    o.(traceId := Some(o.traceId.GetOr(trace)), startedAt := Some(o.startedAt.GetOr(start)))
  }

  function FillAll(observations: seq<Obs>, trace: Id, start: Time): seq<Obs> {
    seq(|observations|, i requires 0 <= i < |observations| => FillNested(observations[i], trace, start))
  }

  function BackfilledTrace(trace: Trace, now: Time): Trace {
    var start := TraceStart(trace, now);
    trace.(startedAt := Some(start), observations := FillAll(trace.observations, trace.id, start))
  }

  function BackfilledTraces(traces: seq<Trace>, now: Time): seq<Trace> {
    seq(|traces|, i requires 0 <= i < |traces| => BackfilledTrace(traces[i], now))
  }

  /** The starts dict of the batch: the last trace of an id decides. */
  function Starts(traces: seq<Trace>): map<Id, Option<Time>> {
    if traces == [] then map[]
    else Starts(traces[..|traces| - 1])[traces[|traces| - 1].id := traces[|traces| - 1].startedAt]
  }

  function FillFlat(o: Obs, starts: map<Id, Option<Time>>, now: Time): Obs {
    if o.startedAt.Some? then o
    else
      var inherited := if o.traceId.Some? && o.traceId.value in starts then starts[o.traceId.value] else None;
      o.(startedAt := Some(inherited.GetOr(now)))
  }

  function FillAllFlat(observations: seq<Obs>, starts: map<Id, Option<Time>>, now: Time): seq<Obs> {
    seq(|observations|, i requires 0 <= i < |observations| => FillFlat(observations[i], starts, now))
  }

  /** The batch as the router sees it. */
  function Backfilled(batch: Batch, now: Time): Batch {
    var traces := BackfilledTraces(batch.traces, now);
    batch.(traces := traces, observations := FillAllFlat(batch.observations, Starts(traces), now))
  }

  // ---------------------------------------------------------------- the models whose fields are assigned

  class IngestObservation {
    const id: Id
    var traceId: Option<Id>
    var startedAt: Option<Time>
    const endedAt: Option<Time>
    var latencyMs: Option<nat>
    const detail: Detail

    ghost function Value(): Obs
      reads this
    {
      Obs(id, traceId, startedAt, endedAt, latencyMs, detail)
    }

    constructor (o: Obs)
      ensures Value() == o
    {
      id, traceId, startedAt, endedAt, latencyMs, detail :=
        o.id, o.traceId, o.startedAt, o.endedAt, o.latencyMs, o.detail;
    }

    /** Fills in the latency, in whole milliseconds, when the client sent both ends and no measurement. */
    method DeriveLatency()
      modifies this`latencyMs
      ensures Value() == old(Value()).(latencyMs := latencyMs)
      ensures old(latencyMs).Some? || startedAt.None? || endedAt.None? || endedAt.value < startedAt.value
              ==> latencyMs == old(latencyMs)
      ensures old(latencyMs).None? && startedAt.Some? && endedAt.Some? && startedAt.value <= endedAt.value
              ==> latencyMs.Some?
                  && startedAt.value + 1000 * latencyMs.value <= endedAt.value < startedAt.value + 1000 * (latencyMs.value + 1)
    {
      if latencyMs.None? && startedAt.Some? && endedAt.Some? {
        var delta := endedAt.value - startedAt.value;
        if delta >= 0 {
          latencyMs := Some(delta / 1000);
        }
      }
    }
  }

  predicate Distinct<T(==)>(s: seq<T>) {
    forall i, j :: 0 <= i < j < |s| ==> s[i] != s[j]
  }

  ghost function Values(observations: seq<IngestObservation>): seq<Obs>
    reads observations
  {
    seq(|observations|, i requires 0 <= i < |observations| reads observations => observations[i].Value())
  }

  class IngestTrace {
    const id: Id
    const about: About
    var startedAt: Option<Time>
    const endedAt: Option<Time>
    const observations: seq<IngestObservation>

    ghost function Value(): Trace
      reads this, observations
    {
      Trace(id, about, startedAt, endedAt, Values(observations))
    }

    constructor (id: Id, about: About, startedAt: Option<Time>, endedAt: Option<Time>,
                 observations: seq<IngestObservation>)
      ensures Value() == Trace(id, about, startedAt, endedAt, Values(observations))
      ensures this.observations == observations
    {
      this.id, this.about, this.startedAt, this.endedAt, this.observations :=
        id, about, startedAt, endedAt, observations;
    }

    /** Makes the trace self-consistent: its own start, then its children's trace id and start. */
    method Backfill(now: Time)
      requires Distinct(observations)
      modifies this`startedAt, observations
      ensures Value() == BackfilledTrace(old(Value()), now)
    {
      ghost var before := Values(observations);
      if startedAt.None? {
        var earliest := None;
        for i := 0 to |observations|
          invariant earliest == ChildStart(before[..i])
        {
          assert before[..i + 1][..i] == before[..i];
          earliest := Least(earliest, observations[i].startedAt);
        }
        assert before[..|observations|] == before;
        startedAt := Some(earliest.GetOr(now));
      }
      for i := 0 to |observations|
        invariant startedAt == Some(TraceStart(old(Value()), now))
        invariant forall k :: 0 <= k < i ==> observations[k].Value() == FillNested(before[k], id, startedAt.value)
        invariant forall k :: i <= k < |observations| ==> observations[k].Value() == before[k]
      {
        var o := observations[i];
        if o.traceId.None? {
          o.traceId := Some(id);
        }
        if o.startedAt.None? {
          o.startedAt := startedAt;
        }
      }
    }
  }

  /** Gives every flat observation a start, in place. */
  method BackfillFlat(traces: seq<Trace>, observations: seq<IngestObservation>, now: Time)
    requires Distinct(observations)
    modifies observations
    ensures Values(observations) == FillAllFlat(old(Values(observations)), Starts(traces), now)
  {
    if |observations| == 0 {
      return;
    }
    var starts: map<Id, Option<Time>> := map[];
    for i := 0 to |traces|
      invariant starts == Starts(traces[..i])
    {
      assert traces[..i + 1][..i] == traces[..i];
      starts := starts[traces[i].id := traces[i].startedAt];
    }
    assert traces[..|traces|] == traces;
    for i := 0 to |observations|
      invariant forall k :: 0 <= k < i ==> observations[k].Value() == FillFlat(old(observations[k].Value()), starts, now)
      invariant forall k :: i <= k < |observations| ==> observations[k].Value() == old(observations[k].Value())
    {
      var o := observations[i];
      if o.startedAt.None? {
        var inherited := if o.traceId.Some? && o.traceId.value in starts then starts[o.traceId.value] else None;
        o.startedAt := Some(inherited.GetOr(now));
      }
    }
  }

  // ---------------------------------------------------------------- what normalisation guarantees

  /** Every trace and every observation the router receives has a start. */
  predicate FullyStarted(batch: Batch) {
    && (forall i :: 0 <= i < |batch.traces| ==> batch.traces[i].startedAt.Some?)
    && (forall i, j :: 0 <= i < |batch.traces| && 0 <= j < |batch.traces[i].observations|
          ==> batch.traces[i].observations[j].startedAt.Some? && batch.traces[i].observations[j].traceId.Some?)
    && (forall i :: 0 <= i < |batch.observations| ==> batch.observations[i].startedAt.Some?)
  }

  /** Backfilling leaves nothing without a start, and moves no start the client gave. */
  lemma BackfillCompletes(batch: Batch, now: Time)
    ensures FullyStarted(Backfilled(batch, now))
    ensures FullyStarted(batch) ==> Backfilled(batch, now) == batch
    ensures ObservationCount(Backfilled(batch, now)) == ObservationCount(batch)
  {
    SameCount(batch.traces, now);
    if FullyStarted(batch) {
      forall i | 0 <= i < |batch.traces| ensures BackfilledTrace(batch.traces[i], now) == batch.traces[i] {
        var t := batch.traces[i];
        forall j | 0 <= j < |t.observations| ensures FillNested(t.observations[j], t.id, TraceStart(t, now)) == t.observations[j] {
          assert t.observations[j].startedAt.Some? && t.observations[j].traceId.Some?;
        }
        assert FillAll(t.observations, t.id, TraceStart(t, now)) == t.observations;
      }
      assert BackfilledTraces(batch.traces, now) == batch.traces;
      assert FillAllFlat(batch.observations, Starts(batch.traces), now) == batch.observations;
    }
  }

  lemma {:induction false} SameCount(traces: seq<Trace>, now: Time)
    ensures NestedCount(BackfilledTraces(traces, now)) == NestedCount(traces)
    decreases |traces|
  {
    if traces != [] {
      var all := BackfilledTraces(traces, now);
      assert BackfilledTraces(traces[..|traces| - 1], now) == all[..|all| - 1];
      SameCount(traces[..|traces| - 1], now);
    }
  }

  /** A trace's start is its own, else its earliest child's, else the clock's. */
  lemma {:induction false} ChildStartIsEarliest(observations: seq<Obs>)
    ensures ChildStart(observations).None? <==> forall i :: 0 <= i < |observations| ==> observations[i].startedAt.None?
    ensures ChildStart(observations).Some? ==>
              && (exists i :: 0 <= i < |observations| && observations[i].startedAt == ChildStart(observations))
              && (forall i :: 0 <= i < |observations| && observations[i].startedAt.Some?
                    ==> ChildStart(observations).value <= observations[i].startedAt.value)
    decreases |observations|
  {
    if observations != [] {
      var init, o := observations[..|observations| - 1], observations[|observations| - 1];
      ChildStartIsEarliest(init);
      assert forall i :: 0 <= i < |observations| ==> observations[i] == (if i < |init| then init[i] else o);
      if ChildStart(init).Some? {
        var i :| 0 <= i < |init| && init[i].startedAt == ChildStart(init);
        assert observations[i].startedAt == ChildStart(init);
      }
    }
  }

  /** A trace leaves with its own start; without one, with the least its observations carry; without any, with the
      clock's. Its observations take its id and that start where they have none, and keep everything else. */
  lemma BackfilledIsOwnOrEarliest(trace: Trace, now: Time)
    ensures var r := BackfilledTrace(trace, now);
      && r.startedAt.Some? && StartsAsPromised(trace, r.startedAt.value, now)
      && r.id == trace.id && r.about == trace.about && r.endedAt == trace.endedAt
      && |r.observations| == |trace.observations|
      && forall i :: 0 <= i < |r.observations| ==> IsFilled(r.observations[i], trace.observations[i], trace.id, r.startedAt)
  {
    ChildStartIsEarliest(trace.observations);
  }

  predicate StartsAsPromised(trace: Trace, start: Time, now: Time) {
    if trace.startedAt.Some? then trace.startedAt == Some(start)
    else if exists o :: o in trace.observations && o.startedAt.Some? then
      && (exists o :: o in trace.observations && o.startedAt == Some(start))
      && forall o :: o in trace.observations && o.startedAt.Some? ==> start <= o.startedAt.value
    else start == now
  }

  predicate IsFilled(after: Obs, before: Obs, trace: Id, start: Option<Time>) {
    && after.id == before.id && after.endedAt == before.endedAt && after.latencyMs == before.latencyMs
    && after.detail == before.detail
    && (if before.traceId.Some? then after.traceId == before.traceId else after.traceId == Some(trace))
    && (if before.startedAt.Some? then after.startedAt == before.startedAt else after.startedAt == start)
  }
}
