/**
  * The token-usage aggregator (crates/adapter-dsh/src/usage.rs). Finding the usage object in a flow
  * value is an input: a value either gives a sample or does not.
  */
module Usage {
  import opened Core
  import Rfc3339

  const U64_MAX: nat := 0xFFFF_FFFF_FFFF_FFFF

  const UNKNOWN_SESSION: Text := [60, 117, 110, 107, 110, 111, 119, 110, 62]

  datatype Sample = Sample(sessionId: Option<Text>, inputTokens: nat, outputTokens: nat, cacheReadTokens: nat,
                           at: Option<nat>)

  datatype Accum = Accum(inputTokens: nat, outputTokens: nat, cacheReadTokens: nat, first: Option<nat>,
                         last: Option<nat>)

  const ZERO := Accum(0, 0, 0, None, None)

  datatype State = State(sessions: map<Text, Accum>, order: seq<Text>, usageEvents: nat, skippedEvents: nat)

  const EMPTY := State(map[], [], 0, 0)

  function Cap(n: nat): nat {
    if n > U64_MAX then U64_MAX else n
  }

  function SaturatingAdd(a: nat, b: nat): nat {
    Cap(a + b)
  }

  /** Capping at both levels is capping once. */
  lemma CapsAdd(a: nat, b: nat)
    ensures SaturatingAdd(Cap(a), Cap(b)) == Cap(a + b)
    ensures SaturatingAdd(Cap(a), b) == Cap(a + b)
  {
  }

  function Earlier(a: Option<nat>, b: Option<nat>): Option<nat> {
    if a.Some? && b.Some? then Some(if a.value < b.value then a.value else b.value) else if a.Some? then a else b
  }

  function Later(a: Option<nat>, b: Option<nat>): Option<nat> {
    if a.Some? && b.Some? then Some(if a.value > b.value then a.value else b.value) else if a.Some? then a else b
  }

  function KeyOf(sample: Sample, session: Option<Text>): Text {
    if sample.sessionId.Some? then sample.sessionId.value else if session.Some? then session.value else UNKNOWN_SESSION
  }

  function Added(a: Accum, s: Sample): Accum {
    Accum(SaturatingAdd(a.inputTokens, s.inputTokens), SaturatingAdd(a.outputTokens, s.outputTokens),
          SaturatingAdd(a.cacheReadTokens, s.cacheReadTokens), Earlier(a.first, s.at), Later(a.last, s.at))
  }

  function IngestStep(st: State, session: Option<Text>, sample: Option<Sample>): State {
    if sample.None? then st.(skippedEvents := st.skippedEvents + 1)
    else
      var key := KeyOf(sample.value, session);
      var known := key in st.sessions;
      State(st.sessions[key := Added(if known then st.sessions[key] else ZERO, sample.value)],
            if known then st.order else st.order + [key], st.usageEvents + 1, st.skippedEvents)
  }

  // ---------- What was ingested ----------

  datatype Entry = Entry(key: Text, sample: Sample)

  datatype Field = Input | Output | CacheRead

  function Tokens(s: Sample, f: Field): nat {
    match f
    case Input => s.inputTokens
    case Output => s.outputTokens
    case CacheRead => s.cacheReadTokens
  }

  /** The true sum over the samples of the given sessions. */
  function SumIn(log: seq<Entry>, keys: set<Text>, f: Field): nat {
    if log == [] then 0
    else
      var last := log[|log| - 1];
      SumIn(log[..|log| - 1], keys, f) + if last.key in keys then Tokens(last.sample, f) else 0
  }

  function Sum(log: seq<Entry>, f: Field): nat {
    if log == [] then 0 else Sum(log[..|log| - 1], f) + Tokens(log[|log| - 1].sample, f)
  }

  lemma SumOneMore(log: seq<Entry>, e: Entry, keys: set<Text>, f: Field)
    ensures SumIn(log + [e], keys, f) == SumIn(log, keys, f) + if e.key in keys then Tokens(e.sample, f) else 0
  {
    assert (log + [e])[..|log|] == log;
  }

  lemma {:induction false} SumOfUnion(log: seq<Entry>, keys: set<Text>, k: Text, f: Field)
    requires k !in keys
    ensures SumIn(log, keys + {k}, f) == SumIn(log, keys, f) + SumIn(log, {k}, f)
  {
    if log != [] {
      SumOfUnion(log[..|log| - 1], keys, k, f);
    }
  }

  lemma {:induction false} SumOfAll(log: seq<Entry>, keys: set<Text>, f: Field)
    requires forall i :: 0 <= i < |log| ==> log[i].key in keys
    ensures SumIn(log, keys, f) == Sum(log, f)
  {
    if log != [] {
      SumOfAll(log[..|log| - 1], keys, f);
    }
  }

  lemma {:induction false} SumOfNone(log: seq<Entry>, f: Field)
    ensures SumIn(log, {}, f) == 0
  {
    if log != [] {
      SumOfNone(log[..|log| - 1], f);
    }
  }

  predicate Timed(e: Entry, key: Text) {
    e.key == key && e.sample.at.Some?
  }

  /** The first and last times of a session's samples. */
  predicate Spans(log: seq<Entry>, key: Text, a: Accum) {
    && (a.first.Some? <==> exists i :: 0 <= i < |log| && Timed(log[i], key))
    && (a.last.Some? <==> a.first.Some?)
    && (a.first.Some? ==>
          && (exists i :: 0 <= i < |log| && Timed(log[i], key) && log[i].sample.at == a.first)
          && (exists i :: 0 <= i < |log| && Timed(log[i], key) && log[i].sample.at == a.last)
          && forall i :: 0 <= i < |log| && Timed(log[i], key) ==>
             a.first.value <= log[i].sample.at.value <= a.last.value)
  }

  predicate Aggregates(log: seq<Entry>, key: Text, a: Accum) {
    && a.inputTokens == Cap(SumIn(log, {key}, Input)) && a.outputTokens == Cap(SumIn(log, {key}, Output))
    && a.cacheReadTokens == Cap(SumIn(log, {key}, CacheRead)) && Spans(log, key, a)
  }

  predicate Appears(log: seq<Entry>, key: Text) {
    exists i :: 0 <= i < |log| && log[i].key == key
  }

  /** The position of a session's first sample. */
  function FirstSeen(log: seq<Entry>, key: Text): (n: nat)
    requires Appears(log, key)
    ensures n < |log| && log[n].key == key && forall i :: 0 <= i < n ==> log[i].key != key
  {
    FirstFrom(log, key, 0)
  }

  function FirstFrom(log: seq<Entry>, key: Text, from: nat): (n: nat)
    requires exists i :: from <= i < |log| && log[i].key == key
    ensures from <= n < |log| && log[n].key == key && forall i :: from <= i < n ==> log[i].key != key
    decreases |log| - from
  {
    if log[from].key == key then from else FirstFrom(log, key, from + 1)
  }

  /** The sessions of the list come in the order of their first samples. */
  predicate InFirstSeenOrder(order: seq<Text>, log: seq<Entry>) {
    && (forall i :: 0 <= i < |order| ==> Appears(log, order[i]))
    && forall i, j :: 0 <= i < j < |order| ==> FirstSeen(log, order[i]) < FirstSeen(log, order[j])
  }

  lemma FirstSeenStays(log: seq<Entry>, e: Entry, key: Text)
    requires Appears(log, key)
    ensures Appears(log + [e], key) && FirstSeen(log + [e], key) == FirstSeen(log, key)
  {
    var n := FirstSeen(log, key);
    assert (log + [e])[n].key == key;
    assert forall i :: 0 <= i < n ==> (log + [e])[i] == log[i];
  }

  lemma FirstSeenNow(log: seq<Entry>, e: Entry)
    requires !Appears(log, e.key)
    ensures Appears(log + [e], e.key) && FirstSeen(log + [e], e.key) == |log|
  {
    assert (log + [e])[|log|] == e;
    assert forall i :: 0 <= i < |log| ==> (log + [e])[i] == log[i];
  }

  lemma OrderOneMore(order: seq<Text>, log: seq<Entry>, e: Entry)
    requires InFirstSeenOrder(order, log)
    ensures InFirstSeenOrder(order, log + [e])
    ensures !Appears(log, e.key) ==> InFirstSeenOrder(order + [e.key], log + [e])
  {
    hide Appears;
    hide FirstSeen;
    forall i | 0 <= i < |order|
      ensures Appears(log + [e], order[i]) && FirstSeen(log + [e], order[i]) == FirstSeen(log, order[i]) < |log|
    {
      FirstSeenStays(log, e, order[i]);
    }
    if !Appears(log, e.key) {
      FirstSeenNow(log, e);
    }
  }

  ghost predicate Inv(st: State, log: seq<Entry>) {
    && InFirstSeenOrder(st.order, log)
    && (forall k :: k in st.order <==> k in st.sessions)
    && (forall k :: k in st.sessions <==> Appears(log, k))
    && (forall k :: k in st.sessions ==> Aggregates(log, k, st.sessions[k]))
    && st.usageEvents == |log|
  }

  lemma SpansOneMore(log: seq<Entry>, e: Entry, key: Text, a: Accum)
    requires Spans(log, key, a)
    ensures var spread := a.(first := Earlier(a.first, e.sample.at), last := Later(a.last, e.sample.at));
            Spans(log + [e], key, if e.key == key then spread else a)
  {
    var log' := log + [e];
    assert log'[|log|] == e && forall i :: 0 <= i < |log| ==> log'[i] == log[i];
  }

  lemma AggregatesOneMore(log: seq<Entry>, e: Entry, key: Text, a: Accum)
    requires Aggregates(log, key, a)
    ensures Aggregates(log + [e], key, if e.key == key then Added(a, e.sample) else a)
  {
    SpansOneMore(log, e, key, a);
    SumOneMore(log, e, {key}, Input);
    SumOneMore(log, e, {key}, Output);
    SumOneMore(log, e, {key}, CacheRead);
    hide SumIn;
    hide Spans;
    SpansOnlyTimes(log + [e], key, if e.key == key then Added(a, e.sample) else a,
                   if e.key == key then
                     a.(first := Earlier(a.first, e.sample.at), last := Later(a.last, e.sample.at)) else a);
  }

  lemma SpansOnlyTimes(log: seq<Entry>, key: Text, a: Accum, b: Accum)
    requires Spans(log, key, b) && a.first == b.first && a.last == b.last
    ensures Spans(log, key, a)
  {
  }

  lemma NothingYet(log: seq<Entry>, key: Text)
    requires !Appears(log, key)
    ensures Aggregates(log, key, ZERO)
  {
    NoSum(log, key, Input);
    NoSum(log, key, Output);
    NoSum(log, key, CacheRead);
  }

  lemma {:induction false} NoSum(log: seq<Entry>, key: Text, f: Field)
    requires !Appears(log, key)
    ensures SumIn(log, {key}, f) == 0
  {
    if log != [] {
      var front := log[..|log| - 1];
      assert forall i :: 0 <= i < |front| ==> front[i] == log[i];
      NoSum(front, key, f);
    }
  }

  lemma IngestKeepsInv(st: State, log: seq<Entry>, session: Option<Text>, sample: Sample)
    requires Inv(st, log)
    ensures Inv(IngestStep(st, session, Some(sample)), log + [Entry(KeyOf(sample, session), sample)])
  {
    var key := KeyOf(sample, session);
    var e := Entry(key, sample);
    var st', log' := IngestStep(st, session, Some(sample)), log + [e];
    hide Aggregates;
    hide Added;
    var before := if key in st.sessions then st.sessions[key] else ZERO;
    if key !in st.sessions {
      NothingYet(log, key);
    }
    assert log'[|log|] == e && forall i :: 0 <= i < |log| ==> log'[i] == log[i];
    forall k
      ensures k in st'.sessions <==> Appears(log', k)
    {
      assert Appears(log', k) <==> Appears(log, k) || k == key;
    }
    hide Appears;
    OrderOneMore(st.order, log, e);
    hide InFirstSeenOrder;
    AggregatesOneMore(log, e, key, before);
    forall k | k in st'.sessions
      ensures Aggregates(log', k, st'.sessions[k])
    {
      if k != key {
        AggregatesOneMore(log, e, k, st.sessions[k]);
      }
    }
  }

  // ---------- Adding up the sessions ----------

  lemma NothingVisited(log: seq<Entry>)
    ensures Cap(SumIn(log, {}, Input)) == 0 == Cap(SumIn(log, {}, Output))
  {
    SumOfNone(log, Input);
    SumOfNone(log, Output);
  }

  lemma {:induction false} SessionHoldsItsSums(st: State, log: seq<Entry>, k: Text)
    requires Inv(st, log) && k in st.sessions
    ensures st.sessions[k].inputTokens == Cap(SumIn(log, {k}, Input))
    ensures st.sessions[k].outputTokens == Cap(SumIn(log, {k}, Output))
    ensures st.sessions[k].cacheReadTokens == Cap(SumIn(log, {k}, CacheRead))
  {
    hide SumIn;
    hide Spans;
    hide Appears;
    hide Cap;
    assert Aggregates(log, k, st.sessions[k]);
  }

  lemma {:induction false} OneVisited(st: State, log: seq<Entry>, done: set<Text>, k: Text)
    requires Inv(st, log) && k in st.sessions && k !in done
    ensures SaturatingAdd(Cap(SumIn(log, done, Input)), st.sessions[k].inputTokens)
            == Cap(SumIn(log, done + {k}, Input))
    ensures SaturatingAdd(Cap(SumIn(log, done, Output)), st.sessions[k].outputTokens)
            == Cap(SumIn(log, done + {k}, Output))
  {
    hide SumIn;
    hide Inv;
    hide Cap;
    hide SaturatingAdd;
    SessionHoldsItsSums(st, log, k);
    SumOfUnion(log, done, k, Input);
    SumOfUnion(log, done, k, Output);
    CapsAdd(SumIn(log, done, Input), SumIn(log, {k}, Input));
    CapsAdd(SumIn(log, done, Output), SumIn(log, {k}, Output));
  }

  lemma AllVisited(st: State, log: seq<Entry>)
    requires Inv(st, log)
    ensures SumIn(log, st.sessions.Keys, Input) == Sum(log, Input)
            && SumIn(log, st.sessions.Keys, Output) == Sum(log, Output)
  {
    hide Aggregates;
    assert forall i :: 0 <= i < |log| ==> Appears(log, log[i].key);
    SumOfAll(log, st.sessions.Keys, Input);
    SumOfAll(log, st.sessions.Keys, Output);
  }

  // ---------- The aggregator object ----------

  datatype Totals = Totals(inputTokens: nat, outputTokens: nat, estimateCount: nat)

  datatype UsageRecord = UsageRecord(start: Text, end: Text, inputTokens: nat, outputTokens: nat,
                                     cacheReadTokens: Option<nat>, recordedAt: nat)

  function RecordOf(a: Accum, now: nat): UsageRecord {
    var start := if a.first.Some? then a.first.value else if a.last.Some? then a.last.value else now;
    var end := if a.last.Some? then a.last.value else start;
    UsageRecord(Rfc3339.UnixMsToRfc3339(start), Rfc3339.UnixMsToRfc3339(end), a.inputTokens, a.outputTokens,
                if a.cacheReadTokens > 0 then Some(a.cacheReadTokens) else None, now)
  }

  class UsageAggregator {
    var sessions: map<Text, Accum>
    var order: seq<Text>
    var usageEvents: nat
    var skippedEvents: nat
    /** Every sample ingested so far, under its session key. */
    ghost var log: seq<Entry>

    ghost function View(): State
      reads this
    {
      State(sessions, order, usageEvents, skippedEvents)
    }

    ghost predicate Valid()
      reads this
    {
      Inv(View(), log)
    }

    constructor ()
      ensures Valid() && View() == EMPTY && log == []
    {
      sessions, order, usageEvents, skippedEvents := map[], [], 0, 0;
      log := [];
    }

    method Ingest(session: Option<Text>, sample: Option<Sample>)
      requires Valid()
      modifies this
      ensures Valid() && View() == IngestStep(old(View()), session, sample)
      ensures log == if sample.Some? then old(log) + [Entry(KeyOf(sample.value, session), sample.value)] else old(log)
    {
      hide Aggregates;
      hide Appears;
      hide InFirstSeenOrder;
      if sample.None? {
        skippedEvents := skippedEvents + 1;
        return;
      }
      IngestKeepsInv(View(), log, session, sample.value);
      hide Inv;
      var key := KeyOf(sample.value, session);
      usageEvents := usageEvents + 1;
      var entry := ZERO;
      if key in sessions {
        entry := sessions[key];
      } else {
        order := order + [key];
      }
      sessions := sessions[key := Added(entry, sample.value)];
      log := log + [Entry(key, sample.value)];
    }

    /** The sessions are visited in an arbitrary order, with saturation at both levels, and the
        result is the true sum over all samples, capped once. */
    method ComputeTotals() returns (t: Totals)
      requires Valid()
      ensures t == Totals(Cap(Sum(log, Input)), Cap(Sum(log, Output)), |sessions|)
    {
      hide SumIn;
      hide Cap;
      hide SaturatingAdd;
      hide Inv;
      hide Sum;
      var input, output, todo := 0, 0, sessions.Keys;
      NothingVisited(log);
      assert sessions.Keys - todo == {};
      while todo != {}
        invariant todo <= sessions.Keys
        invariant input == Cap(SumIn(log, sessions.Keys - todo, Input))
        invariant output == Cap(SumIn(log, sessions.Keys - todo, Output))
      {
        var k :| k in todo;
        ghost var done := sessions.Keys - todo;
        OneVisited(View(), log, done, k);
        input := SaturatingAdd(input, sessions[k].inputTokens);
        output := SaturatingAdd(output, sessions[k].outputTokens);
        assert sessions.Keys - (todo - {k}) == done + {k};
        todo := todo - {k};
      }
      assert sessions.Keys - todo == sessions.Keys;
      AllVisited(View(), log);
      t := Totals(input, output, |sessions|);
    }

    /** One record a session, in the order the sessions were first seen. */
    method Snapshot(now: nat) returns (records: seq<UsageRecord>)
      requires Valid()
      ensures |records| == |order| == |sessions| && InFirstSeenOrder(order, log)
      ensures forall i :: 0 <= i < |order| ==> order[i] in sessions && records[i] == RecordOf(sessions[order[i]], now)
    {
      hide Aggregates;
      records := [];
      for i := 0 to |order|
        invariant |records| == i
        invariant forall j :: 0 <= j < i ==> order[j] in sessions && records[j] == RecordOf(sessions[order[j]], now)
      {
        assert order[i] in order;
        records := records + [RecordOf(sessions[order[i]], now)];
      }
      OrderIsDistinct(order, log);
      OrderCountsSessions(order, sessions);
    }
  }

  lemma OrderIsDistinct(order: seq<Text>, log: seq<Entry>)
    requires InFirstSeenOrder(order, log)
    ensures forall i, j :: 0 <= i < j < |order| ==> order[i] != order[j]
  {
    forall i, j | 0 <= i < j < |order|
      ensures order[i] != order[j]
    {
      assert FirstSeen(log, order[i]) < FirstSeen(log, order[j]);
    }
  }

  lemma {:induction false} DistinctCount(order: seq<Text>)
    requires forall i, j :: 0 <= i < j < |order| ==> order[i] != order[j]
    ensures |set k | k in order| == |order|
  {
    if order != [] {
      var front, last := order[..|order| - 1], order[|order| - 1];
      DistinctCount(front);
      assert order == front + [last];
      assert (set k | k in order) == (set k | k in front) + {last};
      assert last !in front;
    }
  }

  lemma OrderCountsSessions(order: seq<Text>, sessions: map<Text, Accum>)
    requires forall i, j :: 0 <= i < j < |order| ==> order[i] != order[j]
    requires forall k :: k in order <==> k in sessions
    ensures |order| == |sessions|
  {
    DistinctCount(order);
    assert (set k | k in order) == sessions.Keys;
  }

  // ---------- Any sequence of samples ----------

  function Ingested(inputs: seq<(Option<Text>, Option<Sample>)>): State {
    if inputs == [] then EMPTY
    else
      var last := inputs[|inputs| - 1];
      IngestStep(Ingested(inputs[..|inputs| - 1]), last.0, last.1)
  }

  function Logged(inputs: seq<(Option<Text>, Option<Sample>)>): seq<Entry> {
    if inputs == [] then []
    else
      var last := inputs[|inputs| - 1];
      Logged(inputs[..|inputs| - 1]) + if last.1.Some? then [Entry(KeyOf(last.1.value, last.0), last.1.value)] else []
  }

  /** After any sequence of values: each session is listed once, each value is counted once, each
      session holds its true sums capped, and the times of its first and last sample. */
  lemma {:induction false} AggregationIsFaithful(inputs: seq<(Option<Text>, Option<Sample>)>)
    ensures var st := Ingested(inputs); Inv(st, Logged(inputs)) && st.usageEvents + st.skippedEvents == |inputs|
  {
    if inputs != [] {
      var front, last := inputs[..|inputs| - 1], inputs[|inputs| - 1];
      AggregationIsFaithful(front);
      hide Aggregates;
      hide Appears;
      if last.1.Some? {
        IngestKeepsInv(Ingested(front), Logged(front), last.0, last.1.value);
        hide Inv;
      } else {
        assert Logged(inputs) == Logged(front);
      }
    }
  }

  /** The period of a record runs from the first to the last timed sample of the session; without
      one it is the moment of the snapshot. */
  lemma PeriodsAreOrdered(st: State, log: seq<Entry>, k: Text, now: nat)
    requires Inv(st, log) && k in st.sessions
    ensures var a, r := st.sessions[k], RecordOf(st.sessions[k], now);
            if exists i :: 0 <= i < |log| && Timed(log[i], k) then
              && a.first.Some? && a.last.Some? && a.first.value <= a.last.value
              && r.start == Rfc3339.UnixMsToRfc3339(a.first.value) && r.end == Rfc3339.UnixMsToRfc3339(a.last.value)
              && (forall i :: 0 <= i < |log| && Timed(log[i], k) ==>
                 a.first.value <= log[i].sample.at.value <= a.last.value)
              && (exists i :: 0 <= i < |log| && Timed(log[i], k) && log[i].sample.at == a.first)
              && (exists i :: 0 <= i < |log| && Timed(log[i], k) && log[i].sample.at == a.last)
            else r.start == r.end == Rfc3339.UnixMsToRfc3339(now)
  {
    hide Rfc3339.UnixMsToRfc3339;
    hide SumIn;
    hide InFirstSeenOrder;
    assert Aggregates(log, k, st.sessions[k]);
    assert Spans(log, k, st.sessions[k]);
  }

  /** A record carries the true sums of the session's samples, each capped; a cache sum of zero is left out. */
  lemma RecordsCarryTrueSums(st: State, log: seq<Entry>, k: Text, now: nat)
    requires Inv(st, log) && k in st.sessions
    ensures var r := RecordOf(st.sessions[k], now);
            && r.inputTokens == Cap(SumIn(log, {k}, Input)) && r.outputTokens == Cap(SumIn(log, {k}, Output))
            && (SumIn(log, {k}, CacheRead) == 0 ==> r.cacheReadTokens == None)
            && (SumIn(log, {k}, CacheRead) > 0 ==> r.cacheReadTokens == Some(Cap(SumIn(log, {k}, CacheRead))))
            && r.recordedAt == now
  {
    hide Rfc3339.UnixMsToRfc3339;
    hide SumIn;
    hide InFirstSeenOrder;
    assert Aggregates(log, k, st.sessions[k]);
  }

  /** A sample is filed under its own session id, whatever session it came with; one without an id counts as
      one of the session it came with, or of `<unknown>` when it came with none. No other session changes. */
  lemma SampleIsFiledUnder(st: State, session: Option<Text>, other: Option<Text>, sample: Sample, id: Text)
    ensures var own := Some(sample.(sessionId := Some(id)));
            && IngestStep(st, session, own) == IngestStep(st, other, own)
            && IngestStep(st, Some(id), Some(sample.(sessionId := None))) == IngestStep(st, session, own)
            && (forall k :: k != id ==> (k in st.sessions <==> k in IngestStep(st, session, own).sessions))
            && (forall k :: k in st.sessions && k != id ==>
                  IngestStep(st, session, own).sessions[k] == st.sessions[k])
    ensures IngestStep(st, None, Some(sample.(sessionId := None)))
            == IngestStep(st, None, Some(sample.(sessionId := Some(UNKNOWN_SESSION))))
  {
    hide Added;
    SameAmounts(ZERO, sample, id);
    SameAmounts(ZERO, sample, UNKNOWN_SESSION);
    if id in st.sessions {
      SameAmounts(st.sessions[id], sample, id);
    }
    if UNKNOWN_SESSION in st.sessions {
      SameAmounts(st.sessions[UNKNOWN_SESSION], sample, UNKNOWN_SESSION);
    }
  }

  lemma SameAmounts(a: Accum, sample: Sample, id: Text)
    ensures Added(a, sample.(sessionId := None)) == Added(a, sample.(sessionId := Some(id)))
  {
  }
}
