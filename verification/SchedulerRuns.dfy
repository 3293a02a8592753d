/** What holds of the timer host over every run of registrations, cancellations and worker passes. */
module SchedulerRuns {
  import opened Core
  import opened Scheduler
  import Rfc3339

  // ---------- Runs ----------

  datatype Op =
    | DoRegister(request: WakeRequest, mono: int, wall: nat)
    | DoCancel(wakeId: Text)
    | DoPass(now: int, clock: nat -> int, stamps: nat -> Text)

  ghost predicate Next(w: World, op: Op, w': World) {
    match op
    case DoRegister(r, mono, wall) => w' == RegisterStep(w, r, mono, wall).0
    case DoCancel(wakeId) => w' == CancelStep(w, wakeId).0
    case DoPass(now, clock, stamps) =>
      AllWellRepeated(w.entries) && ClockFollows(clock, now) && w' == PassStep(w, now, clock, stamps)
  }

  /** `worlds` are the states between the operations, from an empty scheduler. */
  ghost predicate IsRun(worlds: seq<World>, ops: seq<Op>) {
    && |worlds| == |ops| + 1 && worlds[0] == START
    && forall i :: 0 <= i < |ops| ==> Next(worlds[i], ops[i], worlds[i + 1])
  }

  // ---------- The invariant ----------

  /** How often a wake fires if it is not cancelled; none means forever. */
  function Total(r: WakeRequest): Option<nat> {
    if r.repeat.None? then Some(1) else r.repeat.value.count
  }

  predicate Spaced(wake: Wake) {
    && (wake.fires != [] ==> wake.fires[0] >= wake.firstAt)
    && forall k :: 1 <= k < |wake.fires| ==> SpacedAt(wake, k)
  }

  predicate SpacedAt(wake: Wake, k: nat)
    requires 1 <= k < |wake.fires|
  {
    wake.request.repeat.Some? && wake.fires[k] >= wake.fires[k - 1] + wake.request.repeat.value.intervalMs
  }

  predicate WakeOk(wake: Wake) {
    && ValidRequest(wake.request)
    && Spaced(wake)
    && (wake.status == Completed ==> Total(wake.request) == Some(|wake.fires|))
    && (wake.status != Completed ==> Total(wake.request).None? || |wake.fires| < Total(wake.request).value)
  }

  /** The entry is the pending rest of its registration. */
  predicate EntryOk(e: Entry, ledger: seq<Wake>) {
    && e.number < |ledger|
    && var wake := ledger[e.number];
    && wake.status == Pending && wake.request == e.request && WakeOk(wake)
    && e.firesLeft == (if e.request.repeat.Some? && e.request.repeat.value.count.Some?
                       then Some(e.request.repeat.value.count.value - |wake.fires|) else None)
    && e.fireAt == (if wake.fires == [] || e.request.repeat.None? then wake.firstAt
                    else wake.fires[|wake.fires| - 1] + e.request.repeat.value.intervalMs)
  }

  predicate Distinct(entries: seq<Entry>) {
    forall i, j :: 0 <= i < j < |entries| ==>
      entries[i].number != entries[j].number && entries[i].request.wakeId != entries[j].request.wakeId
  }

  function CountStatus(ledger: seq<Wake>, status: Status): nat {
    if ledger == [] then 0
    else CountStatus(ledger[..|ledger| - 1], status) + if ledger[|ledger| - 1].status == status then 1 else 0
  }

  function TotalFires(ledger: seq<Wake>): nat {
    if ledger == [] then 0 else TotalFires(ledger[..|ledger| - 1]) + |ledger[|ledger| - 1].fires|
  }

  predicate Inv(w: World) {
    && |w.ledger| == w.nextNumber == w.registered
    && (forall q :: 0 <= q < |w.ledger| ==> WakeOk(w.ledger[q]))
    && (forall i :: 0 <= i < |w.entries| ==> EntryOk(w.entries[i], w.ledger))
    && Distinct(w.entries)
    && |w.entries| == CountStatus(w.ledger, Pending)
    && w.cancelled == CountStatus(w.ledger, Cancelled)
    && w.fired == TotalFires(w.ledger)
  }

  // ---------- Counting after an update ----------

  function One(b: bool): int {
    if b then 1 else 0
  }

  lemma {:induction false} CountAfterUpdate(ledger: seq<Wake>, q: nat, wake: Wake, status: Status)
    requires q < |ledger|
    ensures CountStatus(ledger[q := wake], status)
         == CountStatus(ledger, status) - One(ledger[q].status == status) + One(wake.status == status)
    ensures TotalFires(ledger[q := wake]) == TotalFires(ledger) - |ledger[q].fires| + |wake.fires|
  {
    var n := |ledger| - 1;
    var updated := ledger[q := wake];
    if q == n {
      assert updated[..n] == ledger[..n];
    } else {
      assert updated[..n] == ledger[..n][q := wake];
      CountAfterUpdate(ledger[..n], q, wake, status);
    }
  }

  lemma CountAfterAppend(ledger: seq<Wake>, wake: Wake, status: Status)
    ensures CountStatus(ledger + [wake], status) == CountStatus(ledger, status) + One(wake.status == status)
    ensures TotalFires(ledger + [wake]) == TotalFires(ledger) + |wake.fires|
  {
    assert (ledger + [wake])[..|ledger|] == ledger;
  }

  lemma {:induction false} EveryWakeHasAStatus(ledger: seq<Wake>)
    ensures CountStatus(ledger, Pending) + CountStatus(ledger, Cancelled) + CountStatus(ledger, Completed) == |ledger|
  {
    if ledger != [] {
      EveryWakeHasAStatus(ledger[..|ledger| - 1]);
    }
  }

  // ---------- Steps keep the invariant ----------

  lemma RegisterOutcome(w: World, r: WakeRequest, mono: int, wall: nat) returns (fireAt: int)
    ensures var w' := RegisterStep(w, r, mono, wall).0;
            w' == w ||
            (&& ValidRequest(r) && !Scheduled(w.entries, r.wakeId)
             && var count := if r.repeat.Some? then r.repeat.value.count else None;
                w' == w.(entries := w.entries + [Entry(w.nextNumber, fireAt, r, count)],
                         nextNumber := w.nextNumber + 1, registered := w.registered + 1,
                         ledger := w.ledger + [Wake(r, fireAt, [], Pending)]))
  {
    hide Rfc3339.Parse;
    hide ValidRequest;
    fireAt := 0;
    if FireTime(r).Some? {
      fireAt := FireAt(FireTime(r).value, mono, wall);
    }
  }

  /** A new wake is in order, and so is its entry. */
  lemma NewWakeOk(ledger: seq<Wake>, r: WakeRequest, fireAt: int)
    requires ValidRequest(r)
    ensures var wake := Wake(r, fireAt, [], Pending);
            var entry := Entry(|ledger|, fireAt, r, if r.repeat.Some? then r.repeat.value.count else None);
            WakeOk(wake) && EntryOk(entry, ledger + [wake])
  {
  }

  lemma OldEntryOk(e: Entry, ledger: seq<Wake>, wake: Wake)
    requires EntryOk(e, ledger)
    ensures EntryOk(e, ledger + [wake]) && e.number < |ledger|
  {
  }

  lemma DistinctWithNew(entries: seq<Entry>, e: Entry)
    requires Distinct(entries) && !Scheduled(entries, e.request.wakeId)
    requires forall i :: 0 <= i < |entries| ==> entries[i].number < e.number
    ensures Distinct(entries + [e])
  {
  }

  lemma RegisterKeepsInv(w: World, r: WakeRequest, mono: int, wall: nat)
    requires Inv(w)
    ensures Inv(RegisterStep(w, r, mono, wall).0)
  {
    hide RegisterStep;
    hide WakeOk;
    hide EntryOk;
    hide Distinct;
    hide CountStatus;
    hide TotalFires;
    hide ValidRequest;
    hide Scheduled;
    var w' := RegisterStep(w, r, mono, wall).0;
    var fireAt := RegisterOutcome(w, r, mono, wall);
    if w' != w {
      var wake := Wake(r, fireAt, [], Pending);
      NewWakeOk(w.ledger, r, fireAt);
      CountAfterAppend(w.ledger, wake, Pending);
      CountAfterAppend(w.ledger, wake, Cancelled);
      forall i | 0 <= i < |w.entries|
        ensures EntryOk(w'.entries[i], w'.ledger) && w.entries[i].number < w.nextNumber
      {
        OldEntryOk(w.entries[i], w.ledger, wake);
      }
      DistinctWithNew(w.entries, w'.entries[|w.entries|]);
    }
  }

  /** The ledger record after one more fire at `t`. */
  function Fired(wake: Wake, t: int, again: bool): Wake {
    wake.(fires := wake.fires + [t], status := if again then Pending else Completed)
  }

  lemma FiredWakeOk(e: Entry, ledger: seq<Wake>, t: int)
    requires EntryOk(e, ledger) && e.fireAt <= t
    ensures e.firesLeft != Some(0)
    ensures var next := Rescheduled(e, t); var wake := Fired(ledger[e.number], t, next.Some?);
            WakeOk(wake) && (next.Some? ==> EntryOk(next.value, ledger[e.number := wake]))
  {
    var wake := ledger[e.number];
    var after := Fired(wake, t, Rescheduled(e, t).Some?);
    assert wake.request.repeat.None? ==> wake.fires == [];
    forall k | 1 <= k < |after.fires|
      ensures SpacedAt(after, k)
    {
      assert k < |wake.fires| ==> SpacedAt(wake, k);
    }
  }

  lemma FireShape(w: World, i: nat, t: int, stamp: Text)
    requires i < |w.entries| && w.entries[i].number < |w.ledger| && w.entries[i].firesLeft != Some(0)
    ensures var w', e, n := FireStep(w, i, t, stamp), w.entries[i], |w.entries| - 1;
            var next := Rescheduled(e, t);
            && |w'.entries| == n + One(next.Some?)
            && (next.Some? ==> w'.entries[n] == next.value)
            && (forall k :: 0 <= k < n ==> w'.entries[k] == w.entries[if k < i then k else k + 1])
            && w'.ledger == w.ledger[e.number := Fired(w.ledger[e.number], t, next.Some?)]
            && w'.nextNumber == w.nextNumber && w'.registered == w.registered && w'.cancelled == w.cancelled
            && w'.fired == w.fired + 1
  {
  }

  lemma FireKeepsInv(w: World, i: nat, t: int, stamp: Text)
    requires Inv(w) && i < |w.entries| && w.entries[i].fireAt <= t && w.entries[i].firesLeft != Some(0)
    ensures Inv(FireStep(w, i, t, stamp))
  {
    var e := w.entries[i];
    assert EntryOk(e, w.ledger);
    var w' := FireStep(w, i, t, stamp);
    FireShape(w, i, t, stamp);
    FireKeepsDistinct(w, i, t, stamp);
    hide FireStep;
    FiredWakeOk(e, w.ledger, t);
    hide Rescheduled;
    var wake := Fired(w.ledger[e.number], t, Rescheduled(e, t).Some?);
    CountAfterUpdate(w.ledger, e.number, wake, Pending);
    CountAfterUpdate(w.ledger, e.number, wake, Cancelled);
    hide EntryOk;
    hide WakeOk;
    hide CountStatus;
    hide TotalFires;
    hide Distinct;
    forall k | 0 <= k < |w'.entries|
      ensures EntryOk(w'.entries[k], w'.ledger)
    {
      if k < |w.entries| - 1 {
        var old_ := if k < i then k else k + 1;
        DistinctNumbers(w.entries, i, old_);
        OtherEntryOk(w.entries[old_], w.ledger, e.number, wake);
      }
    }
  }

  lemma DistinctNumbers(entries: seq<Entry>, i: nat, j: nat)
    requires Distinct(entries) && i < |entries| && j < |entries| && i != j
    ensures entries[i].number != entries[j].number && entries[i].request.wakeId != entries[j].request.wakeId
  {
  }

  lemma FireKeepsDistinct(w: World, i: nat, t: int, stamp: Text)
    requires Distinct(w.entries) && i < |w.entries| && w.entries[i].firesLeft != Some(0)
    ensures Distinct(FireStep(w, i, t, stamp).entries)
  {
    var es, es' := w.entries, FireStep(w, i, t, stamp).entries;
    assert forall k :: 0 <= k < |es| - 1 ==> es'[k] == es[if k < i then k else k + 1];
  }

  lemma OtherEntryOk(e: Entry, ledger: seq<Wake>, q: nat, wake: Wake)
    requires EntryOk(e, ledger) && q < |ledger| && e.number != q
    ensures EntryOk(e, ledger[q := wake])
  {
  }

  lemma {:induction false} NothingToCancel(entries: seq<Entry>, ledger: seq<Wake>, wakeId: Text)
    requires forall k :: 0 <= k < |entries| ==> entries[k].request.wakeId != wakeId
    ensures Without(entries, wakeId) == entries && MarkCancelled(ledger, entries, wakeId) == ledger
  {
    if entries != [] {
      NothingToCancel(entries[1..], ledger, wakeId);
    }
  }

  /** At most one entry carries the id, so cancelling removes that one and marks its registration. */
  lemma {:induction false} CancelOne(entries: seq<Entry>, ledger: seq<Wake>, wakeId: Text, i: nat)
    requires Distinct(entries) && i < |entries| && entries[i].request.wakeId == wakeId && entries[i].number < |ledger|
    ensures Without(entries, wakeId) == entries[..i] + entries[i + 1..]
    ensures MarkCancelled(ledger, entries, wakeId)
         == ledger[entries[i].number := ledger[entries[i].number].(status := Cancelled)]
  {
    if i == 0 {
      forall k | 0 <= k < |entries[1..]|
        ensures entries[1..][k].request.wakeId != wakeId
      {
        DistinctNumbers(entries, 0, k + 1);
      }
      NothingToCancel(entries[1..], ledger, wakeId);
    } else {
      DistinctNumbers(entries, 0, i);
      CancelOne(entries[1..], ledger, wakeId, i - 1);
      assert entries[1..][..i - 1] == entries[1..i] && entries[1..][i..] == entries[i + 1..];
      assert [entries[0]] + entries[1..i] == entries[..i];
    }
  }

  lemma CancelledWakeOk(wake: Wake)
    requires WakeOk(wake) && wake.status == Pending
    ensures WakeOk(wake.(status := Cancelled))
  {
    var after := wake.(status := Cancelled);
    forall k | 1 <= k < |after.fires|
      ensures SpacedAt(after, k)
    {
      assert SpacedAt(wake, k);
    }
  }

  lemma CancelShape(w: World, wakeId: Text) returns (i: nat)
    requires Distinct(w.entries) && forall k :: 0 <= k < |w.entries| ==> w.entries[k].number < |w.ledger|
    ensures var w' := CancelStep(w, wakeId).0;
            w' == w ||
            (&& i < |w.entries| && |w'.entries| == |w.entries| - 1
             && (forall k :: 0 <= k < |w'.entries| ==> w'.entries[k] == w.entries[if k < i then k else k + 1])
             && w'.ledger == w.ledger[w.entries[i].number := w.ledger[w.entries[i].number].(status := Cancelled)]
             && w'.nextNumber == w.nextNumber && w'.registered == w.registered && w'.fired == w.fired
             && w'.cancelled == w.cancelled + 1)
  {
    hide Without;
    hide MarkCancelled;
    hide Distinct;
    i := 0;
    if Scheduled(w.entries, wakeId) {
      i :| i < |w.entries| && w.entries[i].request.wakeId == wakeId;
      CancelOne(w.entries, w.ledger, wakeId, i);
    } else {
      NothingToCancel(w.entries, w.ledger, wakeId);
    }
  }

  lemma DistinctWithoutOne(entries: seq<Entry>, i: nat, kept: seq<Entry>)
    requires Distinct(entries) && i < |entries| && |kept| == |entries| - 1
    requires forall k :: 0 <= k < |kept| ==> kept[k] == entries[if k < i then k else k + 1]
    ensures Distinct(kept)
  {
  }

  lemma CancelKeepsInv(w: World, wakeId: Text)
    requires Inv(w)
    ensures Inv(CancelStep(w, wakeId).0)
  {
    hide CancelStep;
    hide Distinct;
    hide CountStatus;
    hide TotalFires;
    assert forall k :: 0 <= k < |w.entries| ==> EntryOk(w.entries[k], w.ledger);
    var i := CancelShape(w, wakeId);
    var w' := CancelStep(w, wakeId).0;
    if w' != w {
      var e := w.entries[i];
      var wake := w.ledger[e.number].(status := Cancelled);
      CancelledWakeOk(w.ledger[e.number]);
      CountAfterUpdate(w.ledger, e.number, wake, Pending);
      CountAfterUpdate(w.ledger, e.number, wake, Cancelled);
      DistinctWithoutOne(w.entries, i, w'.entries);
      hide EntryOk;
      hide WakeOk;
      forall k | 0 <= k < |w'.entries|
        ensures EntryOk(w'.entries[k], w'.ledger)
      {
        var was := if k < i then k else k + 1;
        DistinctNumbers(w.entries, i, was);
        OtherEntryOk(w.entries[was], w.ledger, e.number, wake);
      }
    }
  }

  lemma InvIsReady(w: World)
    requires Inv(w)
    ensures AllWellRepeated(w.entries)
  {
    forall k | 0 <= k < |w.entries|
      ensures WellRepeated(w.entries[k])
    {
      assert EntryOk(w.entries[k], w.ledger);
    }
  }

  lemma {:induction false} PassKeepsInv(w: World, now: int, clock: nat -> int, stamps: nat -> Text)
    requires Inv(w) && AllWellRepeated(w.entries) && ClockFollows(clock, now)
    ensures Inv(PassStep(w, now, clock, stamps))
    decreases DueCount(w.entries, now)
  {
    match FirstDue(w.entries, now)
    case None =>
    case Some(i) =>
      var t, stamp := clock(w.fired), stamps(w.fired);
      FiringReducesDue(w, i, t, stamp, now);
      FiringKeepsRepeats(w, i, t, stamp);
      FireKeepsInv(w, i, t, stamp);
      hide Inv;
      hide FireStep;
      PassKeepsInv(FireStep(w, i, t, stamp), now, clock, stamps);
  }

  lemma NextKeepsInv(w: World, op: Op, w': World)
    requires Inv(w) && Next(w, op, w')
    ensures Inv(w')
  {
    hide Inv;
    hide RegisterStep;
    hide CancelStep;
    hide PassStep;
    match op
    case DoRegister(r, mono, wall) => RegisterKeepsInv(w, r, mono, wall);
    case DoCancel(wakeId) => CancelKeepsInv(w, wakeId);
    case DoPass(now, clock, stamps) => PassKeepsInv(w, now, clock, stamps);
  }

  lemma {:induction false} RunsKeepInv(worlds: seq<World>, ops: seq<Op>, i: nat)
    requires IsRun(worlds, ops) && i < |worlds|
    ensures Inv(worlds[i])
  {
    if i == 0 {
      assert Inv(START);
    } else {
      RunsKeepInv(worlds, ops, i - 1);
      NextKeepsInv(worlds[i - 1], ops[i - 1], worlds[i]);
    }
  }

  // ---------- Main results over runs ----------

  /** Every accepted registration is pending, cancelled or completed, and the counters say how many
      are which; pending wake ids are distinct; no pending wake has zero fires left. */
  lemma RegistrationsAreConserved(worlds: seq<World>, ops: seq<Op>, i: nat)
    requires IsRun(worlds, ops) && i < |worlds|
    ensures var w := worlds[i];
            && w.registered == |w.entries| + w.cancelled + CountStatus(w.ledger, Completed)
            && w.fired == TotalFires(w.ledger)
            && Distinct(w.entries)
            && AllWellRepeated(w.entries)
  {
    RunsKeepInv(worlds, ops, i);
    EveryWakeHasAStatus(worlds[i].ledger);
    InvIsReady(worlds[i]);
  }

  /** A wake that completes has fired exactly as often as it asked for, an unlimited one never
      completes, and a wake that is pending or cancelled has fired less often. */
  lemma CompletedWakesFiredExactly(worlds: seq<World>, ops: seq<Op>, i: nat, q: nat)
    requires IsRun(worlds, ops) && i < |worlds| && q < |worlds[i].ledger|
    ensures var wake := worlds[i].ledger[q];
            && (wake.status == Completed <==> Total(wake.request) == Some(|wake.fires|))
            && (Total(wake.request).Some? ==> |wake.fires| <= Total(wake.request).value)
  {
    RunsKeepInv(worlds, ops, i);
    assert WakeOk(worlds[i].ledger[q]);
  }

  lemma {:induction false} SpacingAdds(wake: Wake, k: nat)
    requires Spaced(wake) && wake.request.repeat.Some? && k < |wake.fires|
    ensures wake.fires[k] >= wake.fires[0] + k * wake.request.repeat.value.intervalMs
  {
    if k > 0 {
      assert SpacedAt(wake, k);
      SpacingAdds(wake, k - 1);
    }
  }

  /** The k-th further fire of a periodic wake comes at least k intervals after the first, which is
      not before the scheduled time. */
  lemma PeriodicFiresAreSpaced(worlds: seq<World>, ops: seq<Op>, i: nat, q: nat, k: nat)
    requires IsRun(worlds, ops) && i < |worlds| && q < |worlds[i].ledger| && k < |worlds[i].ledger[q].fires|
    requires worlds[i].ledger[q].request.repeat.Some?
    ensures var wake := worlds[i].ledger[q];
            && wake.fires[0] >= wake.firstAt
            && wake.fires[k] >= wake.fires[0] + k * wake.request.repeat.value.intervalMs
  {
    RunsKeepInv(worlds, ops, i);
    assert WakeOk(worlds[i].ledger[q]);
    SpacingAdds(worlds[i].ledger[q], k);
  }

  // ---------- One pass ----------

  /** Registration `q` has a due entry. */
  predicate Due(w: World, q: nat, now: int) {
    exists i :: 0 <= i < |w.entries| && w.entries[i].number == q && w.entries[i].fireAt <= now
  }

  lemma RescheduledIsLater(e: Entry, ledger: seq<Wake>, t: int)
    requires EntryOk(e, ledger) && Rescheduled(e, t).Some?
    ensures Rescheduled(e, t).value.number == e.number && Rescheduled(e, t).value.fireAt > t
  {
  }

  lemma FiringChangesDue(w: World, i: nat, t: int, stamp: Text, now: int, q: nat)
    requires Inv(w) && i < |w.entries| && w.entries[i].fireAt <= now <= t && w.entries[i].firesLeft != Some(0)
    ensures Due(FireStep(w, i, t, stamp), q, now) <==> Due(w, q, now) && q != w.entries[i].number
  {
    hide FireStep;
    hide Rescheduled;
    hide WakeOk;
    hide CountStatus;
    hide TotalFires;
    hide Distinct;
    var w' := FireStep(w, i, t, stamp);
    var e, n := w.entries[i], |w.entries| - 1;
    assert EntryOk(e, w.ledger);
    FireShape(w, i, t, stamp);
    if Rescheduled(e, t).Some? {
      RescheduledIsLater(e, w.ledger, t);
    }
    if j :| 0 <= j < |w.entries| && w.entries[j].number == q && w.entries[j].fireAt <= now && j != i {
      var k := if j < i then j else j - 1;
      assert w'.entries[k] == w.entries[j];
    }
    if k :| 0 <= k < n && w'.entries[k].number == q && w'.entries[k].fireAt <= now {
      var j := if k < i then k else k + 1;
      assert w.entries[j] == w'.entries[k];
      DistinctNumbers(w.entries, i, j);
    }
  }

  /** A pass fires every wake due at its `now` exactly once, at a reading not before `now`; touches
      no other registration; and leaves nothing due. */
  lemma {:induction false} PassFiresDueOnce(w: World, now: int, clock: nat -> int, stamps: nat -> Text, q: nat)
    requires Inv(w) && AllWellRepeated(w.entries) && ClockFollows(clock, now) && q < |w.ledger|
    ensures var w' := PassStep(w, now, clock, stamps);
            && |w'.ledger| == |w.ledger| && w'.fired == w.fired + DueCount(w.entries, now)
            && (forall k :: 0 <= k < |w'.entries| ==> w'.entries[k].fireAt > now)
            && (!Due(w, q, now) ==> w'.ledger[q] == w.ledger[q])
            && (Due(w, q, now) ==> |w'.ledger[q].fires| == |w.ledger[q].fires| + 1
                                   && w'.ledger[q].fires[..|w.ledger[q].fires|] == w.ledger[q].fires
                                   && w'.ledger[q].fires[|w.ledger[q].fires|] >= now)
    decreases DueCount(w.entries, now)
  {
    match FirstDue(w.entries, now)
    case None =>
      NoneDue(w.entries, now);
    case Some(i) =>
      var t, stamp := clock(w.fired), stamps(w.fired);
      var w1 := FireStep(w, i, t, stamp);
      assert EntryOk(w.entries[i], w.ledger);
      FireShape(w, i, t, stamp);
      FiringReducesDue(w, i, t, stamp, now);
      FiringKeepsRepeats(w, i, t, stamp);
      FireKeepsInv(w, i, t, stamp);
      FiringChangesDue(w, i, t, stamp, now, q);
      hide FireStep;
      hide Rescheduled;
      hide Inv;
      assert w.entries[i].number == q ==> Due(w, q, now);
      hide Due;
      PassFiresDueOnce(w1, now, clock, stamps, q);
  }

  lemma {:induction false} NoneDue(entries: seq<Entry>, now: int)
    requires forall k :: 0 <= k < |entries| ==> entries[k].fireAt > now
    ensures DueCount(entries, now) == 0
  {
    if entries != [] {
      NoneDue(entries[1..], now);
    }
  }

  /** A wake asked for at a printed instant is due exactly when the wall clock gets there, and at
      once when it is past; the reply names the same instant. */
  lemma PrintedTimeIsHonoured(w: World, r: WakeRequest, asked: nat, due: nat, mono: int, wall: nat)
    requires asked < Rfc3339.YEAR_10000 && due < Rfc3339.YEAR_10000
    requires r.requestedAt == Rfc3339.NowTimestampLike(asked)
    requires if r.deadline.Some? then r.deadline.value == Rfc3339.NowTimestampLike(due) else due == asked
    requires ValidRequest(r) && !Scheduled(w.entries, r.wakeId)
    ensures var (w', result) := RegisterStep(w, r, mono, wall);
            && result.Ok? && result.value.scheduledFor == Rfc3339.NowTimestampLike(due)
            && |w'.entries| == |w.entries| + 1 && w'.entries[..|w.entries|] == w.entries
            && var e := w'.entries[|w.entries|];
               e.request == r && (due > wall ==> e.fireAt - mono == due - wall) && (due <= wall ==> e.fireAt == mono)
  {
    Rfc3339.ParseAfterPrint(asked);
    Rfc3339.ParseAfterPrint(due);
    hide Rfc3339.Parse;
    hide Rfc3339.NowTimestampLike;
    hide ValidRequest;
  }
}
