/** What holds of the broker over every sequence of operations. */
module BrokerRuns {
  import opened Core
  import opened Broker

  // ---------- Scope coverage ----------

  lemma CoversIsReflexive(a: Scope)
    ensures a.Covers(a)
  {
  }

  /** `b` still constrains every list that `a` constrains. */
  predicate KeepsLists(a: Scope, b: Scope) {
    (a.domains != [] ==> b.domains != []) && (a.resources != [] ==> b.resources != [])
  }

  /** A text longer than every text of the list. */
  function Longer(xs: seq<Text>): Text {
    if xs == [] then [0]
    else
      var rest := Longer(xs[1..]);
      if |rest| > |xs[0]| then rest else xs[0] + [0]
  }

  lemma {:induction false} LongerIsNew(xs: seq<Text>)
    ensures forall x :: x in xs ==> |x| < |Longer(xs)|
  {
    if xs != [] {
      LongerIsNew(xs[1..]);
      assert forall x :: x in xs ==> x == xs[0] || x in xs[1..];
    }
  }

  /** Inside a covered scope, coverage chains exactly when no constrained list was dropped. */
  lemma CoversChains(a: Scope, b: Scope)
    requires a.Covers(b)
    ensures (forall c: Scope :: b.Covers(c) ==> a.Covers(c)) <==> KeepsLists(a, b)
  {
    if !KeepsLists(a, b) {
      LongerIsNew(a.domains);
      LongerIsNew(a.resources);
      var dropsDomains := a.domains != [] && b.domains == [];
      var c := Scope(b.sessionId, b.workspace,
                     if dropsDomains then [Longer(a.domains)] else [],
                     if dropsDomains then [] else [Longer(a.resources)]);
      assert b.Covers(c);
      if dropsDomains {
        assert Longer(a.domains) in c.domains && Longer(a.domains) !in a.domains;
      } else {
        assert Longer(a.resources) in c.resources && Longer(a.resources) !in a.resources;
      }
      assert !a.Covers(c);
    }
  }

  // ---------- Runs ----------

  datatype Op =
    | DoGrant(grant: Grant, now: nat)
    | DoLease(lease: Lease, now: nat)
    | DoRevoke(id: Text, reason: Reason, now: nat)
    | DoNegotiate(agent: Text, n: Negotiated, now: nat)
    | DoRevokeActivation(activation: Text, reason: Reason, now: nat)

  function Step(s: State, op: Op): State {
    match op
    case DoGrant(grant, now) => GrantStep(s, grant, now).0
    case DoLease(lease, now) => LeaseStep(s, lease, now).0
    case DoRevoke(id, reason, now) => RevokeStep(s, id, reason, now)
    case DoNegotiate(agent, n, now) => Negotiate(s, agent, n, now).0
    case DoRevokeActivation(activation, reason, now) => RevokeActivation(s, activation, reason, now)
  }

  function Run(s: State, ops: seq<Op>): State {
    if ops == [] then s else Step(Run(s, ops[..|ops| - 1]), ops[|ops| - 1])
  }

  lemma {:induction false} RunOfBoth(s: State, a: seq<Op>, b: seq<Op>)
    ensures Run(s, a + b) == Run(Run(s, a), b)
  {
    hide Step;
    if b == [] {
      assert a + b == a;
    } else {
      var n := |b| - 1;
      RunOfBoth(s, a, b[..n]);
      assert (a + b)[..|a| + n] == a + b[..n];
    }
  }

  // ---------- Every live lease matches the current grant ----------

  predicate BackedByGrant(grants: map<CapabilityId, Grant>, lease: Lease) {
    && lease.capability in grants
    && grants[lease.capability].owner == lease.owner
    && grants[lease.capability].generation == lease.generation
    && grants[lease.capability].scope.Covers(lease.scope)
  }

  predicate Inv(s: State) {
    && (forall c :: c in s.grants ==> s.grants[c].capability == c)
    && (forall k :: k in s.leases ==> s.leases[k].id == k)
    && (forall k :: k in s.leases && s.leases[k].revoked.None? ==> BackedByGrant(s.grants, s.leases[k]))
  }

  /** A revocation loop leaves no selected lease live and changes nothing else. */
  lemma SelectedAreRevoked(leases: map<Text, Lease>, p: Selection, reason: Reason, now: nat)
    ensures var r := RevokeSelected(leases, p, reason, now);
            && r.Keys == leases.Keys
            && (forall k :: k in r && r[k].revoked.None? ==> r[k] == leases[k] && !Selects(p, r[k]))
            && (forall k :: k in r ==> r[k].(revoked := leases[k].revoked) == leases[k])
            && (forall k :: k in r && leases[k].revoked.Some? ==> r[k] == leases[k])
            && (forall k :: k in r && !Selects(p, leases[k]) ==> r[k] == leases[k])
  {
  }

  lemma GrantOutcomes(s: State, grant: Grant, now: nat)
    ensures var c, t := grant.capability, GrantStep(s, grant, now).0;
            || t == s
            || (c !in s.grants && t == s.(grants := s.grants[c := grant]))
            || (c in s.grants && t == s.(grants := s.grants[c := grant],
                                         leases := RevokeSelected(s.leases, OfCapability(c), GenerationChange, now)))
  {
    hide RevokeSelected;
  }

  lemma GrantKeepsInv(s: State, grant: Grant, now: nat)
    requires Inv(s)
    ensures Inv(GrantStep(s, grant, now).0)
  {
    hide Scope.Covers;
    SelectedAreRevoked(s.leases, OfCapability(grant.capability), GenerationChange, now);
    GrantOutcomes(s, grant, now);
    hide RevokeSelected;
    hide GrantStep;
    var t := GrantStep(s, grant, now).0;
    if t != s {
      forall k | k in t.leases && t.leases[k].revoked.None?
        ensures BackedByGrant(t.grants, t.leases[k])
      {
        assert t.leases[k] == s.leases[k] && BackedByGrant(s.grants, s.leases[k]);
        assert t.leases[k].capability != grant.capability;
      }
    }
  }

  lemma LeaseKeepsInv(s: State, lease: Lease, now: nat)
    requires Inv(s)
    ensures Inv(LeaseStep(s, lease, now).0)
  {
  }

  lemma {:induction false} GrantAllKeepsInv(s: State, caps: seq<CapabilityId>, agent: Text, g: nat, scope: Scope,
      now: nat)
    requires Inv(s)
    ensures Inv(GrantAll(s, caps, agent, g, scope, now).0)
    decreases |caps|
  {
    hide Inv;
    hide GrantStep;
    if caps != [] {
      var grant := BridgeGrant(caps[0], agent, g, scope, now);
      GrantKeepsInv(s, grant, now);
      GrantAllKeepsInv(GrantStep(s, grant, now).0, caps[1..], agent, g, scope, now);
    }
  }

  lemma {:induction false} LeaseAllKeepsInv(s: State, caps: seq<CapabilityId>, agent: Text, activation: Text, g: nat,
      scope: Scope, expiresAt: nat, now: nat)
    requires Inv(s)
    ensures Inv(LeaseAll(s, caps, agent, activation, g, scope, expiresAt, now).0)
    decreases |caps|
  {
    hide Inv;
    hide LeaseStep;
    if caps != [] {
      var lease := BridgeLease(caps[0], agent, activation, g, scope, expiresAt);
      LeaseKeepsInv(s, lease, now);
      LeaseAllKeepsInv(LeaseStep(s, lease, now).0, caps[1..], agent, activation, g, scope, expiresAt, now);
    }
  }

  /** The states a negotiation passes through: refused, or registered, granted and leased in turn. */
  lemma NegotiateStages(s: State, agent: Text, n: Negotiated, now: nat)
    returns (g: nat, s1: State, s2: State, s3: State)
    ensures s1.grants == s.grants && s1.leases == s.leases
    ensures var (t, r) := Negotiate(s, agent, n, now);
            && (r.Ok? ==> t == s3 && r.value.generation == g)
            && (t == s ||
                (&& Register(s, agent, n.activationId) == (s1, Ok(g)) && n.maxSeconds.Some?
                 && s2 == GrantAll(s1, n.granted, agent, g, n.scope, now).0
                 && s3 == LeaseAll(s2, n.granted, agent, n.activationId, g, n.scope,
                    ExpiryOf(now, n.maxSeconds.value), now).0
                 && (t == s2 || t == s3)))
  {
    hide GrantAll;
    hide LeaseAll;
    hide ExpiryOf;
    g, s1, s2, s3 := 0, s, s, s;
    if Refusal(n).None? {
      var (s1', registered) := Register(s, agent, n.activationId);
      if registered.Ok? {
        g, s1 := registered.value, s1';
        s2 := GrantAll(s1, n.granted, agent, g, n.scope, now).0;
        s3 := LeaseAll(s2, n.granted, agent, n.activationId, g, n.scope, ExpiryOf(now, n.maxSeconds.value), now).0;
      }
    }
  }

  lemma NegotiateKeepsInv(s: State, agent: Text, n: Negotiated, now: nat)
    requires Inv(s)
    ensures Inv(Negotiate(s, agent, n, now).0)
  {
    var g, s1, s2, s3 := NegotiateStages(s, agent, n, now);
    assert Inv(s1);
    hide Negotiate;
    hide Register;
    hide ExpiryOf;
    hide GrantAll;
    hide LeaseAll;
    hide Inv;
    if Negotiate(s, agent, n, now).0 != s {
      GrantAllKeepsInv(s1, n.granted, agent, g, n.scope, now);
      LeaseAllKeepsInv(s2, n.granted, agent, n.activationId, g, n.scope, ExpiryOf(now, n.maxSeconds.value), now);
    }
  }

  lemma StepKeepsInv(s: State, op: Op)
    requires Inv(s)
    ensures Inv(Step(s, op))
  {
    hide Negotiate;
    hide GrantStep;
    hide LeaseStep;
    match op
    case DoGrant(grant, now) => GrantKeepsInv(s, grant, now);
    case DoLease(lease, now) => LeaseKeepsInv(s, lease, now);
    case DoRevoke(_, _, _) =>
    case DoNegotiate(agent, n, now) => NegotiateKeepsInv(s, agent, n, now);
    case DoRevokeActivation(activation, reason, now) =>
      SelectedAreRevoked(s.leases, OfActivation(s.activations, activation, s.activations.Keys), reason, now);
      hide RevokeSelected;
  }

  /** In every reachable state each unrevoked lease has a current grant with its owner and
      generation whose scope covers it. */
  lemma {:induction false} ReachableStatesAreBacked(ops: seq<Op>)
    ensures Inv(Run(EMPTY, ops))
  {
    if ops != [] {
      ReachableStatesAreBacked(ops[..|ops| - 1]);
      StepKeepsInv(Run(EMPTY, ops[..|ops| - 1]), ops[|ops| - 1]);
    }
  }

  // ---------- A revoked lease stays revoked ----------

  /** No lease is dropped, a lease changes at most by being revoked, and a revocation record is final. */
  predicate LeasesKept(s: State, t: State) {
    forall k :: k in s.leases ==>
      && k in t.leases
      && t.leases[k].(revoked := s.leases[k].revoked) == s.leases[k]
      && (s.leases[k].revoked.Some? ==> t.leases[k] == s.leases[k])
  }

  lemma LeasesKeptChains(s: State, t: State, u: State)
    requires LeasesKept(s, t) && LeasesKept(t, u)
    ensures LeasesKept(s, u)
  {
  }

  lemma GrantKeepsLeases(s: State, grant: Grant, now: nat)
    ensures LeasesKept(s, GrantStep(s, grant, now).0)
  {
    SelectedAreRevoked(s.leases, OfCapability(grant.capability), GenerationChange, now);
    GrantOutcomes(s, grant, now);
    hide GrantStep;
    hide RevokeSelected;
  }

  lemma {:induction false} GrantAllKeepsLeases(s: State, caps: seq<CapabilityId>, agent: Text, g: nat, scope: Scope,
      now: nat)
    ensures LeasesKept(s, GrantAll(s, caps, agent, g, scope, now).0)
    decreases |caps|
  {
    if caps != [] {
      var grant := BridgeGrant(caps[0], agent, g, scope, now);
      var t := GrantStep(s, grant, now).0;
      GrantKeepsLeases(s, grant, now);
      hide LeasesKept;
      hide GrantStep;
      GrantAllKeepsLeases(t, caps[1..], agent, g, scope, now);
      LeasesKeptChains(s, t, GrantAll(t, caps[1..], agent, g, scope, now).0);
      KeptByItself(s);
    } else {
      KeptByItself(s);
    }
  }

  lemma KeptByItself(s: State)
    ensures LeasesKept(s, s)
  {
  }

  lemma {:induction false} LeaseAllKeepsLeases(s: State, caps: seq<CapabilityId>, agent: Text, activation: Text,
      g: nat, scope: Scope, expiresAt: nat, now: nat)
    ensures LeasesKept(s, LeaseAll(s, caps, agent, activation, g, scope, expiresAt, now).0)
    decreases |caps|
  {
    if caps != [] {
      hide LeasesKept;
      hide LeaseStep;
      var t := LeaseStep(s, BridgeLease(caps[0], agent, activation, g, scope, expiresAt), now).0;
      LeaseKeepsLeases(s, BridgeLease(caps[0], agent, activation, g, scope, expiresAt), now);
      LeaseAllKeepsLeases(t, caps[1..], agent, activation, g, scope, expiresAt, now);
      LeasesKeptChains(s, t, LeaseAll(t, caps[1..], agent, activation, g, scope, expiresAt, now).0);
      KeptByItself(s);
    } else {
      KeptByItself(s);
    }
  }

  lemma NegotiateKeepsLeases(s: State, agent: Text, n: Negotiated, now: nat)
    ensures LeasesKept(s, Negotiate(s, agent, n, now).0)
  {
    var g, s1, s2, s3 := NegotiateStages(s, agent, n, now);
    KeptByItself(s);
    assert LeasesKept(s, s1);
    hide Negotiate;
    hide Register;
    hide ExpiryOf;
    hide GrantAll;
    hide LeaseAll;
    hide LeasesKept;
    if Negotiate(s, agent, n, now).0 != s {
      GrantAllKeepsLeases(s1, n.granted, agent, g, n.scope, now);
      LeasesKeptChains(s, s1, s2);
      LeaseAllKeepsLeases(s2, n.granted, agent, n.activationId, g, n.scope, ExpiryOf(now, n.maxSeconds.value), now);
      LeasesKeptChains(s, s2, s3);
    }
  }

  lemma RevokingKeepsLeases(s: State, activation: Text, reason: Reason, now: nat)
    ensures LeasesKept(s, RevokeActivation(s, activation, reason, now))
  {
    hide RevokeSelected;
    SelectedAreRevoked(s.leases, OfActivation(s.activations, activation, s.activations.Keys), reason, now);
  }

  lemma LeaseKeepsLeases(s: State, lease: Lease, now: nat)
    ensures LeasesKept(s, LeaseStep(s, lease, now).0)
  {
    hide Scope.Covers;
  }

  lemma RevokeOneKeepsLeases(s: State, id: Text, reason: Reason, now: nat)
    ensures LeasesKept(s, RevokeStep(s, id, reason, now))
  {
    if id in s.leases {
      var was, revoked := s.leases[id], RevokedBy(s.leases[id], reason, now);
      assert revoked.(revoked := was.revoked) == was && (was.revoked.Some? ==> revoked == was);
      hide RevokedBy;
      assert RevokeStep(s, id, reason, now).leases == s.leases[id := revoked];
      hide RevokeStep;
    }
  }

  lemma StepKeepsLeases(s: State, op: Op)
    ensures LeasesKept(s, Step(s, op))
  {
    hide Negotiate;
    hide GrantStep;
    hide LeaseStep;
    hide RevokeStep;
    hide RevokeActivation;
    hide LeasesKept;
    match op
    case DoGrant(grant, now) => GrantKeepsLeases(s, grant, now);
    case DoLease(lease, now) => LeaseKeepsLeases(s, lease, now);
    case DoRevoke(id, reason, now) => RevokeOneKeepsLeases(s, id, reason, now);
    case DoNegotiate(agent, n, now) => NegotiateKeepsLeases(s, agent, n, now);
    case DoRevokeActivation(activation, reason, now) => RevokingKeepsLeases(s, activation, reason, now);
  }

  lemma {:induction false} RunKeepsLeases(s: State, ops: seq<Op>)
    ensures LeasesKept(s, Run(s, ops))
  {
    if ops != [] {
      var t := Run(s, ops[..|ops| - 1]);
      RunKeepsLeases(s, ops[..|ops| - 1]);
      StepKeepsLeases(t, ops[|ops| - 1]);
      LeasesKeptChains(s, t, Step(t, ops[|ops| - 1]));
    }
  }

  /** Whatever happens after a revocation, the lease keeps its first record and authorises nothing. */
  lemma RevokedForever(s: State, ops: seq<Op>, k: Text, q: Request, now: nat)
    requires k in s.leases && s.leases[k].revoked.Some?
    ensures k in Run(s, ops).leases && Run(s, ops).leases[k] == s.leases[k]
    ensures !Authorises(Run(s, ops).leases[k], q, now)
  {
    RunKeepsLeases(s, ops);
  }

  /** A grant of another generation revokes every lease of the capability. Whatever happens later,
      and even when the old generation number comes back, a request for the capability that passes
      is authorised by a lease that did not exist before. */
  lemma SupersededStaysDead(s: State, grant: Grant, now: nat, ops: seq<Op>, q: Request, later: nat)
    requires grant.capability in s.grants && s.grants[grant.capability].generation != grant.generation
    requires q.capability == grant.capability
    ensures var u := Run(GrantStep(s, grant, now).0, ops);
            Gate(u, q, later).Ok? ==> exists k :: k in u.leases && k !in s.leases && Authorises(u.leases[k], q, later)
    ensures var u := Run(GrantStep(s, grant, now).0, ops);
            forall k :: k in s.leases ==> k in u.leases && !Authorises(u.leases[k], q, later)
  {
    hide RevokeSelected;
    hide Run;
    hide Scope.Covers;
    SelectedAreRevoked(s.leases, OfCapability(grant.capability), GenerationChange, now);
    var t := GrantStep(s, grant, now).0;
    var u := Run(t, ops);
    RunKeepsLeases(t, ops);
    forall k | k in s.leases
      ensures k in u.leases && !Authorises(u.leases[k], q, later)
    {
      assert t.leases[k].capability == q.capability ==> t.leases[k].revoked.Some?;
    }
  }

  // ---------- The gate ----------

  /** The leases that match the request in one map are the ones that match it in the other. */
  predicate SameMatches(ls: map<Text, Lease>, ms: map<Text, Lease>, q: Request) {
    forall k :: k in ls && Matches(ls[k], q) ==> k in ms && ms[k] == ls[k]
  }

  /** The verdict depends on the leases that match the request and on no others. */
  lemma SameVerdict(ls: map<Text, Lease>, ms: map<Text, Lease>, q: Request, now: nat)
    requires SameMatches(ls, ms, q) && SameMatches(ms, ls, q)
    ensures LeaseVerdict(ls, q, now) == LeaseVerdict(ms, q, now)
  {
    hide Matches;
    hide Scope.Covers;
    assert forall k :: k in ls && Backs(ls[k], q) ==> k in ms && ms[k] == ls[k];
    assert forall k :: k in ms && Backs(ms[k], q) ==> k in ls && ls[k] == ms[k];
    assert forall k :: k in ls && Authorises(ls[k], q, now) ==> k in ms && ms[k] == ls[k];
    assert forall k :: k in ms && Authorises(ms[k], q, now) ==> k in ls && ls[k] == ms[k];
    hide Backs;
    hide Authorises;
  }

  /** In every reachable state the owner and generation checks of the gate are implied by an
      authorising lease; the grant's scope check is not. */
  lemma GateExactly(s: State, q: Request, now: nat)
    requires Inv(s)
    ensures Gate(s, q, now).Ok? <==>
            (exists k :: k in s.leases && Authorises(s.leases[k], q, now))
              && s.grants[q.capability].scope.Covers(q.scope)
  {
    if k :| k in s.leases && Authorises(s.leases[k], q, now) {
      assert BackedByGrant(s.grants, s.leases[k]);
    }
  }

  /** The gate's second scope check is needed: a lease that leaves out the grant's domain list
      is accepted, and covers a request the grant does not. */
  lemma GrantScopeCheckIsNeeded(c: CapabilityId, owner: Text, id: Text, now: nat)
    ensures var narrow := Scope(None, None, [[1]], []);
            var grant := Grant(c, [], narrow, owner, 1, now);
            var lease := Lease(id, c, owner, 1, DEFAULT_SCOPE, now + 1, None);
            var q := Request(c, owner, 1, Scope(None, None, [[2]], []));
            var s := Run(EMPTY, [DoGrant(grant, now), DoLease(lease, now)]);
            && LeaseStep(GrantStep(EMPTY, grant, now).0, lease, now).1.Ok?
            && id in s.leases && Authorises(s.leases[id], q, now)
            && Gate(s, q, now) == Err(ScopeMismatch)
  {
    var narrow := Scope(None, None, [[1]], []);
    var grant := Grant(c, [], narrow, owner, 1, now);
    var lease := Lease(id, c, owner, 1, DEFAULT_SCOPE, now + 1, None);
    var ops := [DoGrant(grant, now), DoLease(lease, now)];
    assert ops[..1] == [DoGrant(grant, now)] && ops[..1][..0] == [];
    assert Run(EMPTY, ops[..1]) == GrantStep(EMPTY, grant, now).0;
    assert [2] in [[2]] && [2] !in [[1]];
  }

  /** An accepted lease opens the gate at once for everything its scope covers and the grant covers. */
  lemma AcceptedLeaseOpensGate(s: State, lease: Lease, now: nat, scope: Scope)
    requires Inv(s) && lease.revoked.None? && LeaseStep(s, lease, now).1.Ok?
    requires lease.scope.Covers(scope) && s.grants[lease.capability].scope.Covers(scope)
    ensures Gate(LeaseStep(s, lease, now).0, Request(lease.capability, lease.owner, lease.generation, scope), now)
            == Ok(())
  {
    var t := LeaseStep(s, lease, now).0;
    var q := Request(lease.capability, lease.owner, lease.generation, scope);
    assert lease.id in t.leases && t.leases[lease.id] == lease && t.grants == s.grants;
    assert Authorises(t.leases[lease.id], q, now);
  }

  /** A revoked lease is out from then on, whatever happens later. */
  lemma RevocationTakesEffect(s: State, id: Text, reason: Reason, now: nat, ops: seq<Op>, q: Request, later: nat)
    requires id in s.leases
    ensures var t := Run(RevokeStep(s, id, reason, now), ops);
            && id in t.leases && !Authorises(t.leases[id], q, later)
            && (s.leases[id].revoked.None? ==> t.leases[id].revoked == Some(Revocation(reason, now)))
            && (s.leases[id].revoked.Some? ==> t.leases[id].revoked == s.leases[id].revoked)
  {
    hide Run;
    RevokedForever(RevokeStep(s, id, reason, now), ops, id, q, later);
  }
}
