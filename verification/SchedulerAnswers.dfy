/** What the timer host answers, and what an answer means for every later run. */
module SchedulerAnswers {
  import opened Core
  import opened Scheduler
  import opened SchedulerRuns
  import Rfc3339

  // ---------- Registering ----------

  /** Both times of the request can be read. */
  predicate Readable(r: WakeRequest) {
    Rfc3339.Parse(r.requestedAt).Some? && (r.deadline.Some? ==> Rfc3339.Parse(r.deadline.value).Some?)
  }

  /** It is to fire at `due`: the deadline, or the request time when it has none. */
  predicate AsksFor(r: WakeRequest, due: nat) {
    Rfc3339.Parse(if r.deadline.Some? then r.deadline.value else r.requestedAt) == Some(due)
  }

  /** The id is of a legal length, and a repeat is neither too fast nor too slow nor empty. */
  predicate InBounds(r: WakeRequest) {
    && 8 <= |r.wakeId| <= 128
    && (r.repeat.Some? ==> 50 <= r.repeat.value.intervalMs <= 86_400_000
                           && (r.repeat.value.count.Some? ==> r.repeat.value.count.value > 0))
  }

  lemma FireTimeIsAsked(r: WakeRequest)
    ensures FireTime(r).Some? <==> Readable(r)
    ensures FireTime(r).Some? ==> AsksFor(r, FireTime(r).value)
  {
    hide Rfc3339.Parse;
  }

  /** A wake is registered exactly when it is in bounds, its times can be read and no pending wake has its
      id; a refusal changes nothing. */
  lemma RegistersExactlyWhen(w: World, r: WakeRequest, mono: int, wall: nat)
    ensures var (w', result) := RegisterStep(w, r, mono, wall);
            && (result.Ok? <==> InBounds(r) && Readable(r) && !Scheduled(w.entries, r.wakeId))
            && (result == Err(Conflict) <==> InBounds(r) && Readable(r) && Scheduled(w.entries, r.wakeId))
            && (result.Err? ==> w' == w)
  {
    hide FireTime;
    hide Readable;
    hide Scheduled;
    FireTimeIsAsked(r);
    hide AsksFor;
  }

  /** An accepted wake waits behind the others for as long as the wall clock says; the reply tells when it
      fires and how many wakes are pending. */
  lemma RegisteredAsAsked(w: World, r: WakeRequest, due: nat, mono: int, wall: nat)
    requires RegisterStep(w, r, mono, wall).1.Ok? && AsksFor(r, due)
    ensures var (w', result) := RegisterStep(w, r, mono, wall);
            && result.value == Accepted(r.wakeId, Rfc3339.NowTimestampLike(due), r.repeat, |w'.entries|)
            && |w'.entries| == |w.entries| + 1 && w'.entries[..|w.entries|] == w.entries
            && var e := w'.entries[|w.entries|];
               && e.request == r && e.number == w.nextNumber
               && (due > wall ==> e.fireAt - mono == due - wall) && (due <= wall ==> e.fireAt == mono)
  {
    hide Rfc3339.Parse;
    hide Rfc3339.NowTimestampLike;
    hide Scheduled;
    hide ValidRequest;
  }

  // ---------- Cancelling ----------

  /** The entry at `p` is gone, the others are in their order, and its registration is marked. */
  predicate Removed(w: World, p: nat, w': World)
    requires p < |w.entries|
  {
    var q := w.entries[p].number;
    && q < |w.ledger| && w.ledger[q].status == Pending && w.ledger[q].request == w.entries[p].request
    && w' == w.(entries := w.entries[..p] + w.entries[p + 1..], cancelled := w.cancelled + 1,
                ledger := w.ledger[q := w.ledger[q].(status := Cancelled)])
  }

  /** The pending wakes have different ids, so the one found is the only one. */
  lemma CancelOneWake(w: World, wakeId: Text, p: nat)
    requires Inv(w) && 8 <= |wakeId| <= 128 && p < |w.entries| && w.entries[p].request.wakeId == wakeId
    ensures Removed(w, p, CancelStep(w, wakeId).0)
    ensures CancelStep(w, wakeId).1 == Ok(CancelReply(wakeId, true, |w.entries| - 1))
    ensures forall k :: 0 <= k < |w.entries| && w.entries[k].request.wakeId == wakeId ==> k == p
  {
    hide Without;
    hide MarkCancelled;
    hide WakeOk;
    assert EntryOk(w.entries[p], w.ledger);
    CancelOne(w.entries, w.ledger, wakeId, p);
    forall k | 0 <= k < |w.entries| && k != p
      ensures w.entries[k].request.wakeId != wakeId
    {
      DistinctNumbers(w.entries, k, p);
    }
  }

  lemma OthersStay(entries: seq<Entry>, wakeId: Text, p: nat)
    requires p < |entries| && forall k :: 0 <= k < |entries| && entries[k].request.wakeId == wakeId ==> k == p
    ensures !Scheduled(entries[..p] + entries[p + 1..], wakeId)
  {
  }

  /** In every reachable state, cancelling takes the one pending wake of that id out of the list, leaves the
      others in their order, marks its registration and says whether there was one; an id of an illegal
      length is refused and changes nothing. */
  lemma CancelRemovesExactly(worlds: seq<World>, ops: seq<Op>, i: nat, wakeId: Text)
    requires IsRun(worlds, ops) && i < |worlds|
    ensures var w := worlds[i];
            var (w', result) := CancelStep(w, wakeId);
            if 8 <= |wakeId| <= 128 then
              && result == Ok(CancelReply(wakeId, Scheduled(w.entries, wakeId), |w'.entries|))
              && !Scheduled(w'.entries, wakeId)
              && (!Scheduled(w.entries, wakeId) ==> w' == w)
              && forall p :: 0 <= p < |w.entries| && w.entries[p].request.wakeId == wakeId ==> Removed(w, p, w')
            else result == Err(InvalidPayload) && w' == w
  {
    RunsKeepInv(worlds, ops, i);
    hide IsRun;
    hide Inv;
    hide Without;
    hide MarkCancelled;
    var w := worlds[i];
    if 8 <= |wakeId| <= 128 {
      if Scheduled(w.entries, wakeId) {
        var p :| 0 <= p < |w.entries| && w.entries[p].request.wakeId == wakeId;
        CancelOneWake(w, wakeId, p);
        OthersStay(w.entries, wakeId, p);
      } else {
        NothingToCancel(w.entries, w.ledger, wakeId);
      }
    }
  }

  // ---------- What has ended stays ended ----------

  lemma EndedIsNotDue(w: World, q: nat, now: int)
    requires Inv(w) && q < |w.ledger| && w.ledger[q].status != Pending
    ensures !Due(w, q, now)
  {
    forall k | 0 <= k < |w.entries|
      ensures w.entries[k].number != q
    {
      assert EntryOk(w.entries[k], w.ledger);
    }
  }

  lemma StepKeepsEnded(w: World, op: Op, w': World, q: nat)
    requires Inv(w) && Next(w, op, w') && q < |w.ledger| && w.ledger[q].status != Pending
    ensures q < |w'.ledger| && w'.ledger[q] == w.ledger[q]
  {
    match op
    case DoRegister(r, mono, wall) =>
      var fireAt := RegisterOutcome(w, r, mono, wall);
      hide RegisterStep;
    case DoCancel(wakeId) =>
      assert forall k :: 0 <= k < |w.entries| ==> EntryOk(w.entries[k], w.ledger);
      var i := CancelShape(w, wakeId);
      hide CancelStep;
    case DoPass(now, clock, stamps) =>
      EndedIsNotDue(w, q, now);
      PassFiresDueOnce(w, now, clock, stamps, q);
      hide PassStep;
  }

  /** A registration that is cancelled or completed never changes again: it fires no more, in any run. */
  lemma {:induction false} EndedStaysEnded(worlds: seq<World>, ops: seq<Op>, i: nat, j: nat, q: nat)
    requires IsRun(worlds, ops) && i <= j < |worlds| && q < |worlds[i].ledger|
    requires worlds[i].ledger[q].status != Pending
    ensures q < |worlds[j].ledger| && worlds[j].ledger[q] == worlds[i].ledger[q]
    decreases j
  {
    hide Next;
    if i < j {
      EndedStaysEnded(worlds, ops, i, j - 1, q);
      RunsKeepInv(worlds, ops, j - 1);
      hide Inv;
      StepKeepsEnded(worlds[j - 1], ops[j - 1], worlds[j], q);
    }
  }

  /** A wake that is pending when it is cancelled never fires again. */
  lemma CancelledNeverFires(worlds: seq<World>, ops: seq<Op>, i: nat, p: nat, j: nat)
    requires IsRun(worlds, ops) && i < j < |worlds| && p < |worlds[i].entries|
    requires ops[i] == DoCancel(worlds[i].entries[p].request.wakeId)
    ensures var q := worlds[i].entries[p].number;
            && q < |worlds[i].ledger| && q < |worlds[j].ledger|
            && worlds[j].ledger[q] == worlds[i].ledger[q].(status := Cancelled)
  {
    var w, w' := worlds[i], worlds[i + 1];
    var wakeId := w.entries[p].request.wakeId;
    RunsKeepInv(worlds, ops, i);
    assert Next(w, ops[i], w');
    assert EntryOk(w.entries[p], w.ledger);
    CancelRemovesExactly(worlds, ops, i, wakeId);
    hide Inv;
    hide Next;
    hide CancelStep;
    EndedStaysEnded(worlds, ops, i + 1, j, w.entries[p].number);
  }

  // ---------- What a pass reports ----------

  /** The report names the registration, and its latest fire is the reading of that fire. */
  predicate Reports(w: World, q: nat, t: int, stamp: Text)
    requires q < |w.ledger|
  {
    var wake := w.ledger[q];
    && wake.fires != [] && wake.fires[|wake.fires| - 1] == t
    && w.lastFired == Some(FiredWake(wake.request.wakeId, wake.request.reason, wake.request.requestedAt,
                                     wake.request.deadline, stamp))
  }

  lemma FireReports(w: World, i: nat, t: int, stamp: Text)
    requires Inv(w) && i < |w.entries| && w.entries[i].firesLeft != Some(0)
    ensures var w' := FireStep(w, i, t, stamp);
            w.entries[i].number < |w'.ledger| && Reports(w', w.entries[i].number, t, stamp) && w'.fired == w.fired + 1
  {
    assert EntryOk(w.entries[i], w.ledger);
  }

  /** The last fire of a pass from `w` to `w'`. */
  predicate LastFireOf(w: World, w': World, q: nat, now: int, clock: nat -> int, stamps: nat -> Text) {
    && w'.fired > w.fired && q < |w'.ledger| && Due(w, q, now)
    && Reports(w', q, clock(w'.fired - 1), stamps(w'.fired - 1))
  }

  lemma NothingDueNothingChanges(w: World, now: int, clock: nat -> int, stamps: nat -> Text)
    requires AllWellRepeated(w.entries) && ClockFollows(clock, now) && DueCount(w.entries, now) == 0
    ensures PassStep(w, now, clock, stamps) == w
  {
    if FirstDue(w.entries, now).Some? {
      var i := FirstDue(w.entries, now).value;
      FiringReducesDue(w, i, clock(w.fired), stamps(w.fired), now);
    }
  }

  /** The first fire of a pass, and what is left of the pass behind it. */
  lemma FirstFire(w: World, now: int, clock: nat -> int, stamps: nat -> Text) returns (w1: World, q: nat)
    requires Inv(w) && AllWellRepeated(w.entries) && ClockFollows(clock, now) && DueCount(w.entries, now) > 0
    ensures Inv(w1) && AllWellRepeated(w1.entries) && DueCount(w1.entries, now) < DueCount(w.entries, now)
    ensures PassStep(w, now, clock, stamps) == PassStep(w1, now, clock, stamps)
    ensures LastFireOf(w, w1, q, now, clock, stamps)
    ensures forall p: nat :: Due(w1, p, now) ==> Due(w, p, now)
  {
    if FirstDue(w.entries, now).None? {
      NoneDue(w.entries, now);
    }
    var i := FirstDue(w.entries, now).value;
    var t, stamp := clock(w.fired), stamps(w.fired);
    w1, q := FireStep(w, i, t, stamp), w.entries[i].number;
    assert WellRepeated(w.entries[i]);
    FiringReducesDue(w, i, t, stamp, now);
    FiringKeepsRepeats(w, i, t, stamp);
    FireKeepsInv(w, i, t, stamp);
    FireReports(w, i, t, stamp);
    hide Reports;
    hide FireStep;
    assert Due(w, q, now);
    forall p: nat | Due(w1, p, now)
      ensures Due(w, p, now)
    {
      FiringChangesDue(w, i, t, stamp, now, p);
    }
    hide Inv;
    hide Due;
  }

  /** A pass that fires anything reports its last fire: a wake that was due, at the last clock reading,
      with the last stamp. */
  lemma {:induction false} PassReportsItsLastFire(w: World, now: int, clock: nat -> int, stamps: nat -> Text)
      returns (q: nat)
    requires Inv(w) && AllWellRepeated(w.entries) && ClockFollows(clock, now) && DueCount(w.entries, now) > 0
    ensures LastFireOf(w, PassStep(w, now, clock, stamps), q, now, clock, stamps)
    decreases DueCount(w.entries, now)
  {
    hide Inv;
    hide Due;
    hide Reports;
    hide DueCount;
    hide PassStep;
    var w1: World;
    w1, q := FirstFire(w, now, clock, stamps);
    if DueCount(w1.entries, now) == 0 {
      NothingDueNothingChanges(w1, now, clock, stamps);
    } else {
      q := PassReportsItsLastFire(w1, now, clock, stamps);
    }
  }
}
