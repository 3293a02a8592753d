/**
  * The timer host (crates/daemon/src/scheduler.rs): registering and cancelling wakes, and the
  * worker pass that fires every due wake. Monotonic and wall clock readings are inputs, in
  * milliseconds. Beside the scheduler's own fields the model keeps a ledger of every accepted
  * registration, in registration order, with the times it fired.
  */
module Scheduler {
  import opened Core
  import Rfc3339

  const WAKE_ID_MIN_LEN := 8
  const WAKE_ID_MAX_LEN := 128
  const MIN_INTERVAL_MS := 50
  const MAX_INTERVAL_MS := 86400000

  datatype Reason = ScheduledDue | RecoveryRetry | UserRequested

  datatype Repeat = Repeat(intervalMs: nat, count: Option<nat>)

  datatype WakeRequest = WakeRequest(wakeId: Text, requestedAt: Text, deadline: Option<Text>, reason: Reason,
                                     repeat: Option<Repeat>)

  datatype Entry = Entry(number: nat, fireAt: int, request: WakeRequest, firesLeft: Option<nat>)

  datatype FiredWake = FiredWake(wakeId: Text, reason: Reason, requestedAt: Text, deadline: Option<Text>, firedAt: Text)

  datatype SchedulerError = InvalidPayload | Conflict

  datatype Accepted = Accepted(wakeId: Text, scheduledFor: Text, repeat: Option<Repeat>, pending: nat)

  datatype CancelReply = CancelReply(wakeId: Text, cancelled: bool, pending: nat)

  // ---------- The ledger of registrations ----------

  datatype Status = Pending | Cancelled | Completed

  datatype Wake = Wake(request: WakeRequest, firstAt: int, fires: seq<int>, status: Status)

  datatype World = World(entries: seq<Entry>, nextNumber: nat, registered: nat, cancelled: nat, fired: nat,
                         lastFired: Option<FiredWake>, ledger: seq<Wake>)

  const START := World([], 0, 0, 0, 0, None, [])

  // ---------- Registering ----------

  predicate ValidRequest(r: WakeRequest) {
    && WAKE_ID_MIN_LEN <= |r.wakeId| <= WAKE_ID_MAX_LEN
    && (r.repeat.Some? ==> ValidRepeat(r.repeat.value))
  }

  predicate ValidRepeat(r: Repeat) {
    MIN_INTERVAL_MS <= r.intervalMs <= MAX_INTERVAL_MS && r.count != Some(0)
  }

  /** The deadline when given, else the request time; both must be valid timestamps. */
  function FireTime(r: WakeRequest): Option<nat> {
    if Rfc3339.Parse(r.requestedAt).None? then None
    else if r.deadline.Some? then Rfc3339.Parse(r.deadline.value)
    else Rfc3339.Parse(r.requestedAt)
  }

  /** Monotonic firing time; a wake whose time has passed fires at once. */
  function FireAt(fireTime: nat, mono: int, wall: nat): int {
    mono + if fireTime > wall then fireTime - wall else 0
  }

  predicate Scheduled(entries: seq<Entry>, wakeId: Text) {
    exists i :: 0 <= i < |entries| && entries[i].request.wakeId == wakeId
  }

  function RegisterStep(w: World, r: WakeRequest, mono: int, wall: nat): (World, Result<Accepted, SchedulerError>) {
    if !ValidRequest(r) || FireTime(r).None? then (w, Err(InvalidPayload))
    else if Scheduled(w.entries, r.wakeId) then (w, Err(Conflict))
    else
      var fireAt := FireAt(FireTime(r).value, mono, wall);
      var entry := Entry(w.nextNumber, fireAt, r, if r.repeat.Some? then r.repeat.value.count else None);
      (w.(entries := w.entries + [entry], nextNumber := w.nextNumber + 1, registered := w.registered + 1,
          ledger := w.ledger + [Wake(r, fireAt, [], Pending)]),
       Ok(Accepted(r.wakeId, Rfc3339.NowTimestampLike(FireTime(r).value), r.repeat, |w.entries| + 1)))
  }

  // ---------- Cancelling ----------

  function Without(entries: seq<Entry>, wakeId: Text): seq<Entry> {
    if entries == [] then []
    else (if entries[0].request.wakeId == wakeId then [] else [entries[0]]) + Without(entries[1..], wakeId)
  }

  /** Marks the registrations of the removed entries. */
  function MarkCancelled(ledger: seq<Wake>, entries: seq<Entry>, wakeId: Text): seq<Wake> {
    if entries == [] then ledger
    else
      var rest := MarkCancelled(ledger, entries[1..], wakeId);
      if entries[0].request.wakeId == wakeId && entries[0].number < |rest|
      then rest[entries[0].number := rest[entries[0].number].(status := Cancelled)]
      else rest
  }

  function CancelStep(w: World, wakeId: Text): (World, Result<CancelReply, SchedulerError>) {
    if !(WAKE_ID_MIN_LEN <= |wakeId| <= WAKE_ID_MAX_LEN) then (w, Err(InvalidPayload))
    else
      var kept := Without(w.entries, wakeId);
      var removed := |kept| != |w.entries|;
      (w.(entries := kept, cancelled := w.cancelled + if removed then 1 else 0,
          ledger := MarkCancelled(w.ledger, w.entries, wakeId)),
       Ok(CancelReply(wakeId, removed, |kept|)))
  }

  // ---------- Firing ----------

  /** What is left of a wake after one fire, if anything. */
  function Rescheduled(e: Entry, t: int): Option<Entry>
    requires e.firesLeft != Some(0)
  {
    if e.request.repeat.None? then None
    else
      var firesLeft: Option<nat> := if e.firesLeft.Some? then Some(e.firesLeft.value - 1) else None;
      if firesLeft == Some(0) then None
      else Some(e.(fireAt := t + e.request.repeat.value.intervalMs, firesLeft := firesLeft))
  }

  function FireStep(w: World, i: nat, t: int, stamp: Text): World
    requires i < |w.entries| && w.entries[i].firesLeft != Some(0)
  {
    var e := w.entries[i];
    var next := Rescheduled(e, t);
    var r := e.request;
    w.(entries := w.entries[..i] + w.entries[i + 1..] + (if next.Some? then [next.value] else []),
       fired := w.fired + 1,
       lastFired := Some(FiredWake(r.wakeId, r.reason, r.requestedAt, r.deadline, stamp)),
       ledger := if e.number < |w.ledger|
                 then w.ledger[e.number := w.ledger[e.number].(fires := w.ledger[e.number].fires + [t],
                                                               status := if next.Some? then Pending else Completed)]
                 else w.ledger)
  }

  // ---------- The worker pass ----------

  function DueCount(entries: seq<Entry>, now: int): nat {
    if entries == [] then 0
    else (if entries[0].fireAt <= now then 1 else 0) + DueCount(entries[1..], now)
  }

  /** Index of the first due entry. */
  function FirstDue(entries: seq<Entry>, now: int): (i: Option<nat>)
    ensures i.Some? ==> i.value < |entries| && entries[i.value].fireAt <= now
                        && forall k :: 0 <= k < i.value ==> entries[k].fireAt > now
    ensures i.None? ==> forall k :: 0 <= k < |entries| ==> entries[k].fireAt > now
  {
    if entries == [] then None
    else if entries[0].fireAt <= now then Some(0)
    else
      var rest := FirstDue(entries[1..], now);
      assert rest.None? ==> forall k :: 1 <= k < |entries| ==> entries[k] == entries[1..][k - 1];
      if rest.Some? then Some(rest.value + 1) else None
  }

  predicate WellRepeated(e: Entry) {
    (e.request.repeat.Some? ==> ValidRepeat(e.request.repeat.value)) && e.firesLeft != Some(0)
  }

  /** The clock does not run backwards: readings taken while firing are not before the pass's own. */
  ghost predicate ClockFollows(clock: nat -> int, now: int) {
    forall i :: clock(i) >= now
  }

  lemma DueCountConcat(a: seq<Entry>, b: seq<Entry>, now: int)
    ensures DueCount(a + b, now) == DueCount(a, now) + DueCount(b, now)
  {
    if a != [] {
      assert (a + b)[1..] == a[1..] + b;
    } else {
      assert a + b == b;
    }
  }

  /** Firing a due entry leaves one due entry less: a repeat is rescheduled beyond `now`. */
  lemma FiringReducesDue(w: World, i: nat, t: int, stamp: Text, now: int)
    requires i < |w.entries| && WellRepeated(w.entries[i]) && w.entries[i].fireAt <= now <= t
    ensures DueCount(FireStep(w, i, t, stamp).entries, now) == DueCount(w.entries, now) - 1
  {
    var es := w.entries;
    var next := Rescheduled(es[i], t);
    var tail := if next.Some? then [next.value] else [];
    assert es == es[..i] + ([es[i]] + es[i + 1..]);
    DueCountConcat(es[..i], [es[i]] + es[i + 1..], now);
    DueCountConcat([es[i]], es[i + 1..], now);
    DueCountConcat(es[..i] + es[i + 1..], tail, now);
    DueCountConcat(es[..i], es[i + 1..], now);
  }

  predicate AllWellRepeated(entries: seq<Entry>) {
    forall k :: 0 <= k < |entries| ==> WellRepeated(entries[k])
  }

  lemma FiringKeepsRepeats(w: World, i: nat, t: int, stamp: Text)
    requires AllWellRepeated(w.entries) && i < |w.entries|
    ensures AllWellRepeated(FireStep(w, i, t, stamp).entries)
  {
  }

  /** One pass at a fixed `now`: fire the first due entry until none is due. The n-th fire of the
      scheduler's life reads `clock(n)` and stamps `stamps(n)`. */
  ghost function PassStep(w: World, now: int, clock: nat -> int, stamps: nat -> Text): World
    requires AllWellRepeated(w.entries) && ClockFollows(clock, now)
    decreases DueCount(w.entries, now)
  {
    match FirstDue(w.entries, now)
    case None => w
    case Some(i) =>
      FiringReducesDue(w, i, clock(w.fired), stamps(w.fired), now);
      FiringKeepsRepeats(w, i, clock(w.fired), stamps(w.fired));
      PassStep(FireStep(w, i, clock(w.fired), stamps(w.fired)), now, clock, stamps)
  }

  // ---------- The scheduler object ----------

  lemma Regroup(a: seq<Entry>, b: seq<Entry>, c: seq<Entry>)
    ensures a + (b + c) == (a + b) + c && [] + c == c && a + [] == a
  {
  }

  method Retain(entries: seq<Entry>, wakeId: Text) returns (kept: seq<Entry>)
    ensures kept == Without(entries, wakeId)
  {
    kept := [];
    for i := 0 to |entries|
      invariant kept + Without(entries[i..], wakeId) == Without(entries, wakeId)
    {
      assert entries[i..][1..] == entries[i + 1..];
      Regroup(kept, [entries[i]], Without(entries[i + 1..], wakeId));
      if entries[i].request.wakeId != wakeId {
        kept := kept + [entries[i]];
      }
    }
    Regroup(kept, [], []);
  }

  class TimerHost {
    var entries: seq<Entry>
    var nextNumber: nat
    var shutdown: bool
    var registered: nat
    var cancelled: nat
    var fired: nat
    var lastFired: Option<FiredWake>
    ghost var ledger: seq<Wake>

    ghost function View(): World
      reads this
    {
      World(entries, nextNumber, registered, cancelled, fired, lastFired, ledger)
    }

    constructor ()
      ensures View() == START && !shutdown
    {
      entries, nextNumber, shutdown := [], 0, false;
      registered, cancelled, fired, lastFired := 0, 0, 0, None;
      ledger := [];
    }

    method Register(r: WakeRequest, mono: int, wall: nat) returns (result: Result<Accepted, SchedulerError>)
      modifies this
      ensures (View(), result) == RegisterStep(old(View()), r, mono, wall) && shutdown == old(shutdown)
    {
      hide Rfc3339.Parse;
      hide Rfc3339.NowTimestampLike;
      if !ValidRequest(r) {
        return Err(InvalidPayload);
      }
      var requested := Rfc3339.ParseRfc3339(r.requestedAt);
      if requested.None? {
        return Err(InvalidPayload);
      }
      var fireTime := requested;
      if r.deadline.Some? {
        fireTime := Rfc3339.ParseRfc3339(r.deadline.value);
        if fireTime.None? {
          return Err(InvalidPayload);
        }
      }
      var fireAt := FireAt(fireTime.value, mono, wall);
      for i := 0 to |entries|
        invariant View() == old(View())
        invariant forall k :: 0 <= k < i ==> entries[k].request.wakeId != r.wakeId
      {
        if entries[i].request.wakeId == r.wakeId {
          return Err(Conflict);
        }
      }
      entries := entries + [Entry(nextNumber, fireAt, r, if r.repeat.Some? then r.repeat.value.count else None)];
      nextNumber := nextNumber + 1;
      registered := registered + 1;
      ledger := ledger + [Wake(r, fireAt, [], Pending)];
      return Ok(Accepted(r.wakeId, Rfc3339.NowTimestampLike(fireTime.value), r.repeat, |entries|));
    }

    method Cancel(wakeId: Text) returns (result: Result<CancelReply, SchedulerError>)
      modifies this
      ensures (View(), result) == CancelStep(old(View()), wakeId) && shutdown == old(shutdown)
    {
      if !(WAKE_ID_MIN_LEN <= |wakeId| <= WAKE_ID_MAX_LEN) {
        return Err(InvalidPayload);
      }
      hide Without;
      hide MarkCancelled;
      var before := |entries|;
      var kept := Retain(entries, wakeId);
      ledger := MarkCancelled(ledger, entries, wakeId);
      entries := kept;
      var removed := before != |entries|;
      if removed {
        cancelled := cancelled + 1;
      }
      return Ok(CancelReply(wakeId, removed, |entries|));
    }

    /** Takes a due entry out of the list, records the fire, then reschedules a periodic wake or
        drops a finished one. */
    method Fire(i: nat, t: int, stamp: Text)
      requires i < |entries| && entries[i].firesLeft != Some(0)
      modifies this
      ensures View() == FireStep(old(View()), i, t, stamp) && shutdown == old(shutdown)
    {
      ledger := FireStep(View(), i, t, stamp).ledger;
      var e := entries[i];
      entries := entries[..i] + entries[i + 1..];
      fired := fired + 1;
      lastFired := Some(FiredWake(e.request.wakeId, e.request.reason, e.request.requestedAt, e.request.deadline,
        stamp));
      if e.request.repeat.None? {
        return;
      }
      var firesLeft: Option<nat> := if e.firesLeft.Some? then Some(e.firesLeft.value - 1) else None;
      if firesLeft == Some(0) {
        return;
      }
      entries := entries + [e.(fireAt := t + e.request.repeat.value.intervalMs, firesLeft := firesLeft)];
    }

    /** The worker's inner loop at one clock reading. */
    method WorkerPass(now: int, clock: nat -> int, stamps: nat -> Text)
      requires AllWellRepeated(entries) && ClockFollows(clock, now)
      modifies this
      ensures View() == PassStep(old(View()), now, clock, stamps) && shutdown == old(shutdown)
    {
      hide FireStep;
      var index := FindDue(now);
      while index.Some?
        invariant AllWellRepeated(entries) && shutdown == old(shutdown)
        invariant index == FirstDue(entries, now)
        invariant PassStep(old(View()), now, clock, stamps) == PassStep(View(), now, clock, stamps)
        decreases DueCount(entries, now)
      {
        FiringReducesDue(View(), index.value, clock(fired), stamps(fired), now);
        FiringKeepsRepeats(View(), index.value, clock(fired), stamps(fired));
        Fire(index.value, clock(fired), stamps(fired));
        index := FindDue(now);
      }
    }

    method FindDue(now: int) returns (index: Option<nat>)
      ensures index == FirstDue(entries, now)
    {
      for i := 0 to |entries|
        invariant FirstDue(entries, now) ==
                  var rest := FirstDue(entries[i..], now); if rest.Some? then Some(rest.value + i) else None
      {
        if entries[i].fireAt <= now {
          return Some(i);
        }
        assert entries[i..][1..] == entries[i + 1..];
      }
      return None;
    }
  }
}
