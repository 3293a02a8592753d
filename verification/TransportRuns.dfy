/** What holds of the transport server in every interleaving of its accept loops, workers and issuers. */
module TransportRuns {
  import opened Core
  import opened Transport

  // ---------- Counting connections ----------

  datatype Class = Slots | EndedWith(reason: Reason) | Admitting | BeforeSlot | Uncounted

  predicate In(p: Phase, k: Class) {
    match k
    case Slots => p.Holding? || p.Admitted? || p.Established? || p.Leaving? || p.Counted?
    case EndedWith(r) => p == Counted(r) || p == Gone(r)
    case Admitting => p.Admitted?
    case BeforeSlot => p.Waiting? || p.Trying? || p.Refused?
    case Uncounted => !p.Counted? && !p.Gone?
  }

  function One(b: bool): nat {
    if b then 1 else 0
  }

  function Count(conns: seq<Phase>, k: Class): nat {
    if conns == [] then 0 else Count(conns[..|conns| - 1], k) + One(In(conns[|conns| - 1], k))
  }

  lemma {:induction false} CountAfterMove(conns: seq<Phase>, c: nat, p: Phase, k: Class)
    requires c < |conns|
    ensures Count(conns[c := p], k) + One(In(conns[c], k)) == Count(conns, k) + One(In(p, k))
  {
    hide In;
    var last := |conns| - 1;
    if c == last {
      assert conns[c := p][..last] == conns[..last];
    } else {
      CountAfterMove(conns[..last], c, p, k);
      assert conns[c := p][..last] == conns[..last][c := p];
    }
  }

  lemma CountAfterArrival(conns: seq<Phase>, p: Phase, k: Class)
    ensures Count(conns + [p], k) == Count(conns, k) + One(In(p, k))
  {
    assert (conns + [p])[..|conns|] == conns;
  }

  /** A member of a class is counted. */
  lemma {:induction false} CountedIn(conns: seq<Phase>, c: nat, k: Class)
    requires c < |conns| && In(conns[c], k)
    ensures Count(conns, k) >= 1
  {
    if c < |conns| - 1 {
      CountedIn(conns[..|conns| - 1], c, k);
    }
  }

  lemma {:induction false} NoneCounted(conns: seq<Phase>, k: Class)
    requires forall c :: 0 <= c < |conns| ==> !In(conns[c], k)
    ensures Count(conns, k) == 0
  {
    if conns != [] {
      NoneCounted(conns[..|conns| - 1], k);
    }
  }

  function Ends(conns: seq<Phase>): nat {
    Count(conns, EndedWith(Busy)) + Count(conns, EndedWith(BadCredential)) + Count(conns, EndedWith(PeerClosed))
    + Count(conns, EndedWith(Protocol)) + Count(conns, EndedWith(TimedOut)) + Count(conns, EndedWith(IoFailed))
  }

  lemma EndedOnce(p: Phase)
    ensures One(In(p, EndedWith(Busy))) + One(In(p, EndedWith(BadCredential))) + One(In(p, EndedWith(PeerClosed)))
            + One(In(p, EndedWith(Protocol))) + One(In(p, EndedWith(TimedOut))) + One(In(p, EndedWith(IoFailed)))
            + One(In(p, Uncounted)) == 1
  {
    if p.Counted? || p.Gone? {
      assert forall r :: In(p, EndedWith(r)) <==> r == p.reason;
      match p.reason
      case Busy =>
      case BadCredential =>
      case PeerClosed =>
      case Protocol =>
      case TimedOut =>
      case IoFailed =>
    }
  }

  /** Every connection is counted under exactly one reason or not counted yet. */
  lemma {:induction false} EveryConnectionIsCounted(conns: seq<Phase>)
    ensures |conns| == Ends(conns) + Count(conns, Uncounted)
  {
    if conns != [] {
      EveryConnectionIsCounted(conns[..|conns| - 1]);
      EndedOnce(conns[|conns| - 1]);
      hide In;
    }
  }

  // ---------- The limiter and the counters ----------

  predicate SlotInv(max: nat, s: State) {
    && s.limiter == Count(s.conns, Slots) <= max
    && s.stats.accepted == |s.conns|
    && s.stats.credentialsConsumed == s.stats.authenticated + Count(s.conns, Admitting)
    && forall r :: Tally(s.stats, r) == Count(s.conns, EndedWith(r))
  }

  /** Where the thread of a step goes, if the step moves one. */
  function Mover(step: Step): Option<nat> {
    match step
    case Arrive | Insert(_, _, _) | CountIssue => None
    case Load(c, _) => Some(c)
    case Swap(c, _, _) => Some(c)
    case CountBusy(c) => Some(c)
    case HandshakeFails(c, _) => Some(c)
    case Present(c, _, _) => Some(c)
    case CountAuthenticated(c) => Some(c)
    case ReplyFails(c) => Some(c)
    case CountReplyFailure(c) => Some(c)
    case LoopEnds(c, _) => Some(c)
    case CountExit(c) => Some(c)
    case Release(c) => Some(c)
  }

  /** A step moves one connection, and changes each number by what the move changes its class. */
  lemma MoveShape(max: nat, s: State, step: Step)
    requires Enabled(max, s, step) && Mover(step).Some?
    requires In(s.conns[Mover(step).value], Slots) ==> s.limiter >= 1
    ensures var s', c := Apply(max, s, step), Mover(step).value;
            && c < |s.conns| && |s'.conns| == |s.conns| && s'.conns == s.conns[c := s'.conns[c]]
            && s'.limiter + One(In(s.conns[c], Slots)) == s.limiter + One(In(s'.conns[c], Slots))
            && (s'.limiter <= s.limiter || s'.limiter <= max)
            && s'.stats.accepted == s.stats.accepted
            && s'.stats.credentialsConsumed + s.stats.authenticated + One(In(s.conns[c], Admitting))
               == s.stats.credentialsConsumed + s'.stats.authenticated + One(In(s'.conns[c], Admitting))
            && (forall r :: Tally(s'.stats, r) + One(In(s.conns[c], EndedWith(r)))
                            == Tally(s.stats, r) + One(In(s'.conns[c], EndedWith(r))))
  {
    hide AuthStep;
  }

  lemma MoveKeepsSlots(max: nat, s: State, step: Step)
    requires SlotInv(max, s) && Enabled(max, s, step) && Mover(step).Some?
    ensures SlotInv(max, Apply(max, s, step))
  {
    var s', c := Apply(max, s, step), Mover(step).value;
    assert c < |s.conns|;
    if In(s.conns[c], Slots) {
      CountedIn(s.conns, c, Slots);
    }
    MoveShape(max, s, step);
    hide Apply;
    hide Enabled;
    hide In;
    hide Tally;
    CountAfterMove(s.conns, c, s'.conns[c], Slots);
    CountAfterMove(s.conns, c, s'.conns[c], Admitting);
    forall r
      ensures Tally(s'.stats, r) == Count(s'.conns, EndedWith(r))
    {
      CountAfterMove(s.conns, c, s'.conns[c], EndedWith(r));
    }
  }

  lemma NextKeepsSlots(max: nat, s: State, step: Step, s': State)
    requires SlotInv(max, s) && Next(max, s, step, s')
    ensures SlotInv(max, s')
  {
    if Mover(step).Some? {
      MoveKeepsSlots(max, s, step);
    } else if step.Arrive? {
      forall k
        ensures Count(s'.conns, k) == Count(s.conns, k) + One(In(Waiting, k))
      {
        CountAfterArrival(s.conns, Waiting, k);
      }
    }
  }

  lemma {:induction false} RunsKeepSlots(max: nat, states: seq<State>, steps: seq<Step>, i: nat)
    requires IsRun(max, states, steps) && i < |states|
    ensures SlotInv(max, states[i])
  {
    hide Next;
    if i > 0 {
      RunsKeepSlots(max, states, steps, i - 1);
      hide SlotInv;
      NextKeepsSlots(max, states[i - 1], steps[i - 1], states[i]);
    }
  }

  /** In every interleaving the limiter is the number of slots held, never above the maximum, and a
      thread that is about to release finds it above zero, so the subtraction never wraps. */
  lemma LimiterCountsSlots(max: nat, states: seq<State>, steps: seq<Step>, i: nat)
    requires IsRun(max, states, steps) && i < |states|
    ensures states[i].limiter == Count(states[i].conns, Slots) <= max
    ensures i < |steps| && (steps[i].Release? || steps[i].ReplyFails?) ==>
            states[i + 1].limiter == states[i].limiter - 1
  {
    RunsKeepSlots(max, states, steps, i);
    if i < |steps| && (steps[i].Release? || steps[i].ReplyFails?) {
      assert Next(max, states[i], steps[i], states[i + 1]);
      CountedIn(states[i].conns, steps[i].c, Slots);
    }
  }

  function Outcomes(stats: Stats): nat {
    stats.rejectedBusy + stats.rejectedAuth + stats.closedPeer + stats.closedProtocol + stats.closedTimeout
      + stats.closedIo
  }

  /** At any moment the connections not yet counted are exactly the difference. */
  lemma ConnectionsAreAccounted(max: nat, states: seq<State>, steps: seq<Step>, i: nat)
    requires IsRun(max, states, steps) && i < |states|
    ensures states[i].stats.accepted == Outcomes(states[i].stats) + Count(states[i].conns, Uncounted)
    ensures states[i].stats.credentialsConsumed == states[i].stats.authenticated + Count(states[i].conns, Admitting)
  {
    RunsKeepSlots(max, states, steps, i);
    var s := states[i];
    EveryConnectionIsCounted(s.conns);
    assert forall r :: Tally(s.stats, r) == Count(s.conns, EndedWith(r));
    assert Tally(s.stats, Busy) == s.stats.rejectedBusy && Tally(s.stats, BadCredential) == s.stats.rejectedAuth;
    assert Tally(s.stats, PeerClosed) == s.stats.closedPeer && Tally(s.stats, Protocol) == s.stats.closedProtocol;
    assert Tally(s.stats, TimedOut) == s.stats.closedTimeout && Tally(s.stats, IoFailed) == s.stats.closedIo;
  }

  /** When no connection is in progress the counters balance and every slot is free. */
  lemma QuietServerBalances(max: nat, states: seq<State>, steps: seq<Step>, i: nat)
    requires IsRun(max, states, steps) && i < |states|
    requires forall c :: 0 <= c < |states[i].conns| ==> states[i].conns[c].Gone?
    ensures states[i].stats.accepted == Outcomes(states[i].stats)
    ensures states[i].stats.authenticated == states[i].stats.credentialsConsumed
    ensures states[i].limiter == 0
  {
    ConnectionsAreAccounted(max, states, steps, i);
    RunsKeepSlots(max, states, steps, i);
    NoneCounted(states[i].conns, Uncounted);
    NoneCounted(states[i].conns, Admitting);
    NoneCounted(states[i].conns, Slots);
  }

  lemma NoneIn(conns: seq<Phase>, k: Class, c: nat)
    requires Count(conns, k) == 0 && c < |conns|
    ensures !In(conns[c], k)
  {
    if In(conns[c], k) {
      CountedIn(conns, c, k);
    }
  }

  /** At an instant when every slot is free and nobody waits for one, the counters balance exactly
      when no connection has given its slot back before it was counted. */
  lemma FreeSlotsBalanceExactlyWhen(max: nat, states: seq<State>, steps: seq<Step>, i: nat)
    requires IsRun(max, states, steps) && i < |states|
    requires states[i].limiter == 0 && Count(states[i].conns, BeforeSlot) == 0
    ensures states[i].stats.accepted == Outcomes(states[i].stats) <==>
            forall c :: 0 <= c < |states[i].conns| ==> !states[i].conns[c].Unslotted?
  {
    RunsKeepSlots(max, states, steps, i);
    ConnectionsAreAccounted(max, states, steps, i);
    hide Next;
    var conns := states[i].conns;
    forall c | 0 <= c < |conns|
      ensures In(conns[c], Uncounted) <==> conns[c].Unslotted?
    {
      NoneIn(conns, Slots, c);
      NoneIn(conns, BeforeSlot, c);
    }
    if c :| 0 <= c < |conns| && conns[c].Unslotted? {
      CountedIn(conns, c, Uncounted);
    } else {
      NoneCounted(conns, Uncounted);
    }
  }

  lemma OneStepMore(max: nat, states: seq<State>, steps: seq<Step>, step: Step, s': State)
    requires IsRun(max, states, steps) && Next(max, states[|steps|], step, s')
    ensures IsRun(max, states + [s'], steps + [step])
  {
    hide Next;
  }

  lemma TokensExist() returns (token: Text)
    ensures TokenFormat(token)
  {
    var random: Text := [0, 0, 0, 0, 0, 0, 0, 0, 0, 0, 0, 0, 0, 0, 0, 0];
    token := TokenOf(random);
    TokensAreWellFormed(random, random);
  }

  /** One connection gets a slot. */
  lemma SlotTaken(max: nat) returns (states: seq<State>, steps: seq<Step>)
    requires max >= 1
    ensures IsRun(max, states, steps)
    ensures states[|steps|] == START.(limiter := 1, conns := [Holding], stats := START.stats.(accepted := 1))
  {
    states, steps := [START], [];
    var s1 := START.(conns := [Waiting], stats := START.stats.(accepted := 1));
    OneStepMore(max, states, steps, Arrive, s1);
    states, steps := states + [s1], steps + [Arrive];
    var s2 := s1.(conns := [Trying(0)]);
    OneStepMore(max, states, steps, Load(0, 0), s2);
    states, steps := states + [s2], steps + [Load(0, 0)];
    var s3 := s1.(conns := [Holding], limiter := 1);
    OneStepMore(max, states, steps, Swap(0, false, 0), s3);
    states, steps := states + [s3], steps + [Swap(0, false, 0)];
  }

  /** That state is reachable: a success reply that cannot be written frees the slot first. */
  lemma SlotFreedBeforeCounted(max: nat) returns (states: seq<State>, steps: seq<Step>)
    requires max >= 1
    ensures IsRun(max, states, steps)
    ensures var s := states[|steps|];
            s.limiter == 0 && s.stats.accepted == 1 && Outcomes(s.stats) == 0 && s.conns == [Unslotted]
  {
    var token := TokensExist();
    states, steps := SlotTaken(max);
    hide TokenFormat;
    hide IsRun;
    assert |states| == |steps| + 1 by {
      RunLength(max, states, steps);
    }
    var s0 := states[|steps|];
    var s1 := Apply(max, s0, Insert(token, 1, 0));
    assert token in s1.registry && s1.registry[token] == Issued(1, false);
    OneStepMore(max, states, steps, Insert(token, 1, 0), s1);
    states, steps := states + [s1], steps + [Insert(token, 1, 0)];
    var s2 := Apply(max, s1, Present(0, token, 0));
    assert s2.conns == [Admitted] && s2.limiter == 1;
    OneStepMore(max, states, steps, Present(0, token, 0), s2);
    states, steps := states + [s2], steps + [Present(0, token, 0)];
    hide AuthStep;
    hide IssueStep;
    var s3 := s2.(conns := [Established], stats := s2.stats.(authenticated := s2.stats.authenticated + 1));
    OneStepMore(max, states, steps, CountAuthenticated(0), s3);
    states, steps := states + [s3], steps + [CountAuthenticated(0)];
    var s4 := s3.(conns := [Unslotted], limiter := 0);
    OneStepMore(max, states, steps, ReplyFails(0), s4);
    states, steps := states + [s4], steps + [ReplyFails(0)];
  }

  lemma RunLength(max: nat, states: seq<State>, steps: seq<Step>)
    requires IsRun(max, states, steps)
    ensures |states| == |steps| + 1
  {
  }

  // ---------- Reading the counters and the limiter one after the other ----------

  /** The step counts the end of connection `c`. */
  predicate CountsEnd(step: Step, c: nat) {
    (step.CountBusy? || step.CountReplyFailure? || step.CountExit?) && step.c == c
  }

  predicate IsCounted(p: Phase) {
    p.Counted? || p.Gone?
  }

  /** A connection is counted once and for all. */
  lemma NextCounts(max: nat, s: State, step: Step, s': State, c: nat)
    requires Next(max, s, step, s') && c < |s.conns|
    ensures |s.conns| <= |s'.conns|
    ensures IsCounted(s'.conns[c]) <==> IsCounted(s.conns[c]) || CountsEnd(step, c)
    ensures CountsEnd(step, c) ==> !IsCounted(s.conns[c])
  {
    hide AuthStep;
    hide IssueStep;
  }

  /** Connection `c` is counted at some step from moment `i` to moment `j`. */
  predicate CountedBetween(steps: seq<Step>, i: nat, j: nat, c: nat) {
    exists k :: i <= k < j && k < |steps| && CountsEnd(steps[k], c)
  }

  lemma {:induction false} CountedBy(max: nat, states: seq<State>, steps: seq<Step>, i: nat, j: nat, c: nat)
    requires IsRun(max, states, steps) && i <= j < |states| && c < |states[i].conns|
    ensures |states[i].conns| <= |states[j].conns|
    ensures IsCounted(states[j].conns[c]) <==> IsCounted(states[i].conns[c]) || CountedBetween(steps, i, j, c)
    ensures CountedBetween(steps, i, j, c) ==> !IsCounted(states[i].conns[c])
    decreases j
  {
    hide Next;
    if i < j {
      CountedBy(max, states, steps, i, j - 1, c);
      NextCounts(max, states[j - 1], steps[j - 1], states[j], c);
      assert CountedBetween(steps, i, j, c) <==> CountedBetween(steps, i, j - 1, c) || CountsEnd(steps[j - 1], c);
    }
  }

  /** No connection accepted before moment `i` is counted from then to moment `j`, and none of them
      is before its slot or without it at moment `j`. */
  predicate Settled(states: seq<State>, steps: seq<Step>, i: nat, j: nat)
    requires i <= j < |states| && |states[i].conns| <= |states[j].conns|
  {
    forall c :: 0 <= c < |states[i].conns| ==>
      && !CountedBetween(steps, i, j, c)
      && !In(states[j].conns[c], BeforeSlot) && !states[j].conns[c].Unslotted?
  }

  /** A reader copies the counters at one moment and loads the limiter at a later one. When it sees
      every slot free, the copied counters balance exactly when the connections they count were
      settled by the load and none was counted in between. */
  lemma FreeSlotsReaderBalancesExactlyWhen(max: nat, states: seq<State>, steps: seq<Step>, i: nat, j: nat)
    requires IsRun(max, states, steps) && i <= j < |states| && states[j].limiter == 0
    ensures |states[i].conns| <= |states[j].conns|
    ensures states[i].stats.accepted == Outcomes(states[i].stats) <==> Settled(states, steps, i, j)
  {
    hide Next;
    ConnsGrow(max, states, steps, i, j);
    RunsKeepSlots(max, states, steps, j);
    ConnectionsAreAccounted(max, states, steps, i);
    hide CountedBetween;
    var before, after := states[i].conns, states[j].conns;
    forall c | 0 <= c < |before|
      ensures IsCounted(before[c]) <==>
              !CountedBetween(steps, i, j, c) && !In(after[c], BeforeSlot) && !after[c].Unslotted?
    {
      CountedBy(max, states, steps, i, j, c);
      NoneIn(after, Slots, c);
    }
    hide SlotInv;
    if c :| 0 <= c < |before| && !IsCounted(before[c]) {
      CountedIn(before, c, Uncounted);
    } else {
      NoneCounted(before, Uncounted);
    }
  }

  lemma {:induction false} ConnsGrow(max: nat, states: seq<State>, steps: seq<Step>, i: nat, j: nat)
    requires IsRun(max, states, steps) && i <= j < |states|
    ensures |states[i].conns| <= |states[j].conns|
    decreases j
  {
    hide Next;
    if i < j {
      ConnsGrow(max, states, steps, i, j - 1);
      NextGrows(max, states[j - 1], steps[j - 1], states[j]);
    }
  }

  lemma NextGrows(max: nat, s: State, step: Step, s': State)
    requires Next(max, s, step, s')
    ensures |s.conns| <= |s'.conns|
  {
    hide AuthStep;
    hide IssueStep;
  }

  /** Such a reader can be wrong although nobody waits and no slot is given back early: a connection
      that holds its slot when the counters are copied is counted and gone when the limiter is
      loaded. */
  lemma ReaderMissesAnEnding(max: nat) returns (states: seq<State>, steps: seq<Step>, i: nat)
    requires max >= 1
    ensures IsRun(max, states, steps) && i <= |steps| && states[|steps|].limiter == 0
    ensures states[i].conns == [Holding] && states[|steps|].conns == [Gone(TimedOut)]
    ensures states[i].stats.accepted == 1 && Outcomes(states[i].stats) == 0
  {
    states, steps := SlotTaken(max);
    RunLength(max, states, steps);
    hide IsRun;
    i := |steps|;
    var s0 := states[i];
    var s1 := s0.(conns := [Leaving(TimedOut)]);
    OneStepMore(max, states, steps, HandshakeFails(0, TimedOut), s1);
    states, steps := states + [s1], steps + [HandshakeFails(0, TimedOut)];
    var s2 := s1.(conns := [Counted(TimedOut)], stats := Tallied(s1.stats, TimedOut));
    OneStepMore(max, states, steps, CountExit(0), s2);
    states, steps := states + [s2], steps + [CountExit(0)];
    var s3 := s2.(conns := [Gone(TimedOut)], limiter := 0);
    OneStepMore(max, states, steps, Release(0), s3);
    states, steps := states + [s3], steps + [Release(0)];
  }

  // ---------- Credentials ----------

  /** The token was issued, valid until `expiresAt`. */
  predicate MintedUntil(minted: seq<(Text, nat)>, token: Text, expiresAt: nat) {
    exists k :: 0 <= k < |minted| && minted[k] == (token, expiresAt)
  }

  predicate WasAccepted(accepted: seq<(Text, nat)>, token: Text) {
    exists k :: 0 <= k < |accepted| && accepted[k].0 == token
  }

  predicate DistinctTokens(log: seq<(Text, nat)>) {
    forall j, k :: 0 <= j < k < |log| ==> log[j].0 != log[k].0
  }

  /** Accepted while it was still valid. */
  predicate InTime(minted: seq<(Text, nat)>, acceptance: (Text, nat)) {
    exists k :: 0 <= k < |minted| && minted[k].0 == acceptance.0 && acceptance.1 < minted[k].1
  }

  ghost predicate TokenInv(s: State) {
    && DistinctTokens(s.minted) && DistinctTokens(s.accepted)
    && (forall t :: t in s.registry ==> MintedUntil(s.minted, t, s.registry[t].expiresAt))
    && (forall t :: t in s.registry ==> (s.registry[t].used <==> WasAccepted(s.accepted, t)))
    && (forall k :: 0 <= k < |s.accepted| ==> InTime(s.minted, s.accepted[k]))
    && s.stats.credentialsConsumed == |s.accepted|
    && s.stats.credentialsIssued + s.uncountedIssues == |s.minted|
  }

  lemma InsertKeepsTokens(max: nat, s: State, step: Step)
    requires TokenInv(s) && step.Insert? && FreshToken(s, step)
    ensures TokenInv(Apply(max, s, step))
  {
    var s' := Apply(max, s, step);
    assert s'.minted[|s.minted|] == (step.token, step.expiresAt);
    assert forall k :: 0 <= k < |s.minted| ==> s'.minted[k] == s.minted[k];
    forall t | t in s'.registry && t != step.token
      ensures MintedUntil(s'.minted, t, s'.registry[t].expiresAt)
    {
      assert MintedUntil(s.minted, t, s.registry[t].expiresAt);
    }
    forall k | 0 <= k < |s.accepted|
      ensures InTime(s'.minted, s.accepted[k]) && s.accepted[k].0 != step.token
    {
      assert InTime(s.minted, s.accepted[k]);
    }
  }

  lemma AcceptingKeepsTokens(max: nat, s: State, step: Step)
    requires TokenInv(s) && step.Present? && Enabled(max, s, step) && AuthStep(s.registry, step.token, step.now).1.Ok?
    ensures TokenInv(Apply(max, s, step))
  {
    hide TokenFormat;
    var s', t := Apply(max, s, step), step.token;
    assert s'.registry == s.registry[t := s.registry[t].(used := true)] && s'.minted == s.minted;
    assert MintedUntil(s.minted, t, s.registry[t].expiresAt) && !WasAccepted(s.accepted, t);
    assert s'.accepted[|s.accepted|] == (t, step.now);
    assert forall k :: 0 <= k < |s.accepted| ==> s'.accepted[k] == s.accepted[k];
    assert WasAccepted(s'.accepted, t);
    assert InTime(s.minted, (t, step.now));
    forall u | u in s'.registry && u != t
      ensures WasAccepted(s'.accepted, u) <==> WasAccepted(s.accepted, u)
    {
    }
  }

  lemma NextKeepsTokens(max: nat, s: State, step: Step, s': State)
    requires TokenInv(s) && Next(max, s, step, s')
    ensures TokenInv(s')
  {
    if step.Insert? {
      InsertKeepsTokens(max, s, step);
    } else if step.Present? && AuthStep(s.registry, step.token, step.now).1.Ok? {
      AcceptingKeepsTokens(max, s, step);
    } else {
      assert s'.minted == s.minted && s'.accepted == s.accepted;
      assert forall t :: t in s'.registry ==> t in s.registry && s'.registry[t] == s.registry[t];
    }
  }

  lemma {:induction false} RunsKeepTokens(max: nat, states: seq<State>, steps: seq<Step>, i: nat)
    requires IsRun(max, states, steps) && i < |states|
    ensures TokenInv(states[i])
  {
    hide Next;
    if i > 0 {
      RunsKeepTokens(max, states, steps, i - 1);
      hide TokenInv;
      NextKeepsTokens(max, states[i - 1], steps[i - 1], states[i]);
    }
  }

  /** Each token is accepted at most once, only if it was issued, and only before it expires. */
  lemma TokensAreAcceptedOnce(max: nat, states: seq<State>, steps: seq<Step>, i: nat, j: nat, k: nat)
    requires IsRun(max, states, steps) && i < |states| && j < |states[i].accepted| && k < |states[i].accepted|
    ensures states[i].accepted[j].0 == states[i].accepted[k].0 ==> j == k
    ensures InTime(states[i].minted, states[i].accepted[j])
  {
    RunsKeepTokens(max, states, steps, i);
  }

  lemma NextKeepsLog(max: nat, s: State, step: Step, s': State)
    requires Next(max, s, step, s')
    ensures s.accepted <= s'.accepted
  {
  }

  lemma {:induction false} LogsGrow(max: nat, states: seq<State>, steps: seq<Step>, i: nat, j: nat)
    requires IsRun(max, states, steps) && i <= j < |states|
    ensures states[i].accepted <= states[j].accepted
    decreases j
  {
    hide Next;
    if i < j {
      LogsGrow(max, states, steps, i, j - 1);
      NextKeepsLog(max, states[j - 1], steps[j - 1], states[j]);
    }
  }

  /** An accepted token is refused ever after, whatever the clock says and whether or not a sweep
      has dropped its record. */
  lemma AcceptedTokenIsSpent(max: nat, states: seq<State>, steps: seq<Step>, i: nat, j: nat, token: Text, now: nat)
    requires IsRun(max, states, steps) && i <= j < |states| && WasAccepted(states[i].accepted, token)
    ensures AuthStep(states[j].registry, token, now).1.Err?
  {
    LogsGrow(max, states, steps, i, j);
    RunsKeepTokens(max, states, steps, j);
    var k :| 0 <= k < |states[i].accepted| && states[i].accepted[k].0 == token;
    assert states[j].accepted[k].0 == token;
    hide Next;
    assert token in states[j].registry ==> states[j].registry[token].used;
  }

  function Tokens(log: seq<(Text, nat)>): set<Text> {
    set k | 0 <= k < |log| :: log[k].0
  }

  lemma {:induction false} DistinctTokensCount(log: seq<(Text, nat)>)
    requires DistinctTokens(log)
    ensures |Tokens(log)| == |log|
  {
    if log != [] {
      var front, last := log[..|log| - 1], log[|log| - 1];
      DistinctTokensCount(front);
      assert Tokens(log) == Tokens(front) + {last.0} by {
        assert forall k :: 0 <= k < |front| ==> front[k] == log[k];
        assert log[|log| - 1].0 in Tokens(log);
        assert forall t :: t in Tokens(front) ==> t in Tokens(log);
      }
      assert last.0 !in Tokens(front);
    }
  }

  lemma SubsetCount(a: set<Text>, b: set<Text>)
    requires a <= b
    ensures |a| <= |b|
  {
    assert b == a + (b - a);
  }

  /** Once no issue call is between its two locks, no more credentials are consumed than issued. */
  lemma ConsumedNeverExceedsIssued(max: nat, states: seq<State>, steps: seq<Step>, i: nat)
    requires IsRun(max, states, steps) && i < |states|
    ensures states[i].stats.credentialsConsumed <= states[i].stats.credentialsIssued + states[i].uncountedIssues
    ensures states[i].uncountedIssues == 0 ==> states[i].stats.credentialsConsumed <= states[i].stats.credentialsIssued
  {
    RunsKeepTokens(max, states, steps, i);
    var s := states[i];
    DistinctTokensCount(s.minted);
    DistinctTokensCount(s.accepted);
    forall t | t in Tokens(s.accepted)
      ensures t in Tokens(s.minted)
    {
      var k :| 0 <= k < |s.accepted| && s.accepted[k].0 == t;
      assert InTime(s.minted, s.accepted[k]);
    }
    SubsetCount(Tokens(s.accepted), Tokens(s.minted));
  }
}
