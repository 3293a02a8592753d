/** When a negotiation succeeds, stated over the state before it, and whom its success displaces. */
module BridgeSuccess {
  import opened Core
  import opened Broker
  import opened BrokerRuns
  import opened BridgeRuns

  // ---------- Granting ----------

  /** Nobody holds the capability, or at another generation, or this very grant is in place. */
  predicate Grantable(grants: map<CapabilityId, Grant>, grant: Grant) {
    var c := grant.capability;
    c !in grants || grants[c].generation != grant.generation || grants[c] == grant
  }

  /** Granting it takes the capability away from another generation. */
  predicate Displaces(grants: map<CapabilityId, Grant>, c: CapabilityId, g: nat) {
    c in grants && grants[c].generation != g
  }

  lemma GrantWorksExactlyWhen(s: State, grant: Grant, now: nat)
    ensures GrantStep(s, grant, now).1.Ok? <==> Grantable(s.grants, grant)
    ensures GrantStep(s, grant, now).1.Ok? ==> GrantStep(s, grant, now).0.grants == s.grants[grant.capability := grant]
  {
    hide RevokeSelected;
  }

  lemma GrantRevokes(s: State, grant: Grant, now: nat, k: Text)
    requires k in s.leases
    ensures var t, lease := GrantStep(s, grant, now).0, s.leases[k];
            k in t.leases && t.leases[k].capability == lease.capability &&
            (t.leases[k].revoked.None? <==>
               lease.revoked.None?
                 && !(lease.capability == grant.capability && Displaces(s.grants, grant.capability, grant.generation)))
  {
    SelectedAreRevoked(s.leases, OfCapability(grant.capability), GenerationChange, now);
  }

  predicate AllGrantable(grants: map<CapabilityId, Grant>, caps: seq<CapabilityId>, agent: Text, g: nat,
      scope: Scope, now: nat) {
    forall c :: c in caps ==> Grantable(grants, BridgeGrant(c, agent, g, scope, now))
  }

  lemma {:induction false} GrantAllWorksExactlyWhen(s: State, caps: seq<CapabilityId>, agent: Text, g: nat,
      scope: Scope, now: nat)
    ensures GrantAll(s, caps, agent, g, scope, now).1.Ok? <==> AllGrantable(s.grants, caps, agent, g, scope, now)
    decreases |caps|
  {
    hide GrantStep;
    if caps != [] {
      var grant := BridgeGrant(caps[0], agent, g, scope, now);
      var s' := GrantStep(s, grant, now).0;
      GrantWorksExactlyWhen(s, grant, now);
      assert forall c :: c in caps <==> c == caps[0] || c in caps[1..];
      if Grantable(s.grants, grant) {
        GrantAllWorksExactlyWhen(s', caps[1..], agent, g, scope, now);
        forall c | c in caps
          ensures Grantable(s'.grants, BridgeGrant(c, agent, g, scope, now)) <==>
                  Grantable(s.grants, BridgeGrant(c, agent, g, scope, now))
        {
        }
      }
    }
  }

  /** A live lease survives the granting exactly when its capability is not taken from another generation. */
  lemma {:induction false} GrantAllRevokes(s: State, caps: seq<CapabilityId>, agent: Text, g: nat, scope: Scope,
      now: nat, k: Text)
    requires k in s.leases && GrantAll(s, caps, agent, g, scope, now).1.Ok?
    ensures var t, lease := GrantAll(s, caps, agent, g, scope, now).0, s.leases[k];
            k in t.leases &&
            (t.leases[k].revoked.None? <==>
               lease.revoked.None? && !(lease.capability in caps && Displaces(s.grants, lease.capability, g)))
    decreases |caps|
  {
    hide GrantStep;
    if caps != [] {
      var grant := BridgeGrant(caps[0], agent, g, scope, now);
      var s' := GrantStep(s, grant, now).0;
      GrantWorksExactlyWhen(s, grant, now);
      GrantRevokes(s, grant, now, k);
      GrantAllRevokes(s', caps[1..], agent, g, scope, now, k);
      assert forall c :: c in caps <==> c == caps[0] || c in caps[1..];
    }
  }

  // ---------- Leasing ----------

  predicate Storable(leases: map<Text, Lease>, lease: Lease) {
    lease.id !in leases || leases[lease.id] == lease
  }

  /** No two of the capabilities share a lease id under the activation. */
  predicate DistinctLeaseIds(caps: seq<CapabilityId>, agent: Text, activation: Text) {
    forall c, d :: c in caps && d in caps && LeaseId(agent, activation, c) == LeaseId(agent, activation, d) ==> c == d
  }

  predicate AllStorable(leases: map<Text, Lease>, caps: seq<CapabilityId>, agent: Text, activation: Text, g: nat,
      scope: Scope, expiresAt: nat)
  {
    forall c :: c in caps ==> Storable(leases, BridgeLease(c, agent, activation, g, scope, expiresAt))
  }

  predicate HoldsAll(s: State, caps: seq<CapabilityId>, agent: Text, g: nat, scope: Scope) {
    forall c :: c in caps ==>
      c in s.grants && s.grants[c].owner == agent && s.grants[c].generation == g && s.grants[c].scope == scope
  }

  lemma LeaseWorksExactlyWhen(s: State, lease: Lease, now: nat)
    requires lease.capability in s.grants && s.grants[lease.capability].owner == lease.owner
    requires s.grants[lease.capability].generation == lease.generation
             && s.grants[lease.capability].scope == lease.scope
    ensures var (t, r) := LeaseStep(s, lease, now);
            && (r.Ok? <==> now < lease.expiresAt && Storable(s.leases, lease))
            && (r.Ok? ==> t.grants == s.grants && t.leases == s.leases[lease.id := lease])
  {
    CoversIsReflexive(lease.scope);
    hide Scope.Covers;
  }

  lemma {:induction false} LeaseAllWorksExactlyWhen(s: State, caps: seq<CapabilityId>, agent: Text, activation: Text,
      g: nat, scope: Scope, expiresAt: nat, now: nat)
    requires HoldsAll(s, caps, agent, g, scope) && now < expiresAt
    ensures LeaseAll(s, caps, agent, activation, g, scope, expiresAt, now).1.Ok? <==>
            AllStorable(s.leases, caps, agent, activation, g, scope, expiresAt)
              && DistinctLeaseIds(caps, agent, activation)
    decreases |caps|
  {
    hide LeaseStep;
    hide LeaseId;
    if caps != [] {
      var first, rest := BridgeLease(caps[0], agent, activation, g, scope, expiresAt), caps[1..];
      var s' := LeaseStep(s, first, now).0;
      LeaseWorksExactlyWhen(s, first, now);
      assert forall c :: c in caps <==> c == caps[0] || c in rest;
      if Storable(s.leases, first) {
        LeaseAllWorksExactlyWhen(s', rest, agent, activation, g, scope, expiresAt, now);
        OneStored(s.leases, caps, agent, activation, g, scope, expiresAt);
      }
    }
  }

  /** Storing the first lease leaves exactly the clashes of ids to look for. */
  lemma OneStored(leases: map<Text, Lease>, caps: seq<CapabilityId>, agent: Text, activation: Text, g: nat,
      scope: Scope, expiresAt: nat)
    requires caps != [] && Storable(leases, BridgeLease(caps[0], agent, activation, g, scope, expiresAt))
    ensures var first, rest := BridgeLease(caps[0], agent, activation, g, scope, expiresAt), caps[1..];
            AllStorable(leases[first.id := first], rest, agent, activation, g, scope, expiresAt)
              && DistinctLeaseIds(rest, agent, activation)
            <==>
            AllStorable(leases, caps, agent, activation, g, scope, expiresAt)
              && DistinctLeaseIds(caps, agent, activation)
  {
    hide LeaseId;
    var first, rest := BridgeLease(caps[0], agent, activation, g, scope, expiresAt), caps[1..];
    var after := leases[first.id := first];
    assert forall c :: c in caps <==> c == caps[0] || c in rest;
    forall c | c in rest
      ensures Storable(after, BridgeLease(c, agent, activation, g, scope, expiresAt)) <==>
              Storable(leases, BridgeLease(c, agent, activation, g, scope, expiresAt))
              && (LeaseId(agent, activation, c) == first.id ==> c == caps[0])
    {
    }
  }

  // ---------- The whole negotiation ----------

  /** The activation is new to the agent, or is its current one and not revoked. */
  predicate Welcome(s: State, agent: Text, activation: Text) {
    Registered(s, agent, activation) ==>
      !RecordOf(s, agent, activation).revoked && agent in s.current && s.current[agent] == activation
  }

  /** The generation the activation has, or would get. */
  function GenerationFor(s: State, agent: Text, activation: Text): nat {
    if Registered(s, agent, activation) then RecordOf(s, agent, activation).generation else NextGeneration(s, agent) + 1
  }

  /** The lease id is unused, or this very lease is in place and the granting leaves it alone. */
  predicate Leasable(s: State, lease: Lease) {
    lease.id !in s.leases || (s.leases[lease.id] == lease && !Displaces(s.grants, lease.capability, lease.generation))
  }

  lemma RegisterWorksExactlyWhen(s: State, agent: Text, activation: Text)
    ensures var (t, r) := Register(s, agent, activation);
            && (r.Ok? <==> Welcome(s, agent, activation)) && (r.Ok? ==> r.value == GenerationFor(s, agent, activation))
            && t.grants == s.grants && t.leases == s.leases
  {
  }

  lemma ExpiryIsAhead(now: nat, maxSeconds: nat)
    requires maxSeconds > 0
    ensures now < ExpiryOf(now, maxSeconds) <==> now < U64_MAX
  {
  }

  /** After the granting a lease can be stored exactly when it could before and survived. */
  lemma StorableAfterGrants(s: State, caps: seq<CapabilityId>, agent: Text, g: nat, scope: Scope, now: nat,
      lease: Lease)
    requires GrantAll(s, caps, agent, g, scope, now).1.Ok?
    requires lease.capability in caps && lease.generation == g && lease.revoked.None?
    ensures Storable(GrantAll(s, caps, agent, g, scope, now).0.leases, lease) <==> Leasable(s, lease)
  {
    GrantAllFrame(s, caps, agent, g, scope, now);
    GrantAllKeepsLeases(s, caps, agent, g, scope, now);
    hide GrantAll;
    if lease.id in s.leases {
      GrantAllRevokes(s, caps, agent, g, scope, now, lease.id);
    }
  }

  lemma HoldsAllAfterGrants(s: State, caps: seq<CapabilityId>, agent: Text, g: nat, scope: Scope, now: nat)
    requires GrantAll(s, caps, agent, g, scope, now).1.Ok?
    ensures HoldsAll(GrantAll(s, caps, agent, g, scope, now).0, caps, agent, g, scope)
  {
    hide GrantAll;
    forall c | c in caps
      ensures var t := GrantAll(s, caps, agent, g, scope, now).0;
              c in t.grants && t.grants[c] == BridgeGrant(c, agent, g, scope, now)
    {
      AllGranted(s, caps, agent, g, scope, now, c);
    }
  }

  /** What the leasing needs, given that the granting succeeded. */
  lemma LeasingWorksExactlyWhen(s: State, caps: seq<CapabilityId>, agent: Text, activation: Text, g: nat,
      scope: Scope, now: nat, expiresAt: nat)
    requires GrantAll(s, caps, agent, g, scope, now).1.Ok? && caps != []
    ensures var t := GrantAll(s, caps, agent, g, scope, now).0;
            LeaseAll(t, caps, agent, activation, g, scope, expiresAt, now).1.Ok? <==>
            && now < expiresAt && DistinctLeaseIds(caps, agent, activation)
            && forall c :: c in caps ==> Leasable(s, BridgeLease(c, agent, activation, g, scope, expiresAt))
  {
    hide GrantAll;
    hide Leasable;
    hide Storable;
    hide DistinctLeaseIds;
    var t := GrantAll(s, caps, agent, g, scope, now).0;
    HoldsAllAfterGrants(s, caps, agent, g, scope, now);
    forall c | c in caps
      ensures var lease := BridgeLease(c, agent, activation, g, scope, expiresAt);
              Storable(t.leases, lease) <==> Leasable(s, lease)
    {
      StorableAfterGrants(s, caps, agent, g, scope, now, BridgeLease(c, agent, activation, g, scope, expiresAt));
    }
    if now < expiresAt {
      LeaseAllWorksExactlyWhen(t, caps, agent, activation, g, scope, expiresAt, now);
    } else {
      LeaseWorksExactlyWhen(t, BridgeLease(caps[0], agent, activation, g, scope, expiresAt), now);
    }
    hide LeaseStep;
  }

  /** A negotiation succeeds exactly when it is admissible, its activation is new or the agent's
      current one, no requested capability is held under the same generation number by another
      grant, no lease id is taken or shared, and the clock is not at its end. Generations count per
      agent, but two grants are compared by the number alone. */
  lemma NegotiationSucceedsExactlyWhen(s: State, agent: Text, n: Negotiated, now: nat)
    ensures var g := GenerationFor(s, agent, n.activationId);
            Negotiate(s, agent, n, now).1.Ok? <==>
            && Refusal(n).None? && Welcome(s, agent, n.activationId) && now < U64_MAX
            && AllGrantable(s.grants, n.granted, agent, g, n.scope, now)
            && DistinctLeaseIds(n.granted, agent, n.activationId)
            && forall c :: c in n.granted ==>
                 Leasable(s, BridgeLease(c, agent, n.activationId, g, n.scope, ExpiryOf(now, n.maxSeconds.value)))
  {
    hide GrantAll;
    hide LeaseAll;
    hide ExpiryOf;
    hide Leasable;
    hide AllGrantable;
    hide DistinctLeaseIds;
    if Refusal(n).None? {
      var g := GenerationFor(s, agent, n.activationId);
      RegisterWorksExactlyWhen(s, agent, n.activationId);
      var (s1, registered) := Register(s, agent, n.activationId);
      hide Register;
      hide Welcome;
      ExpiryIsAhead(now, n.maxSeconds.value);
      if registered.Ok? {
        GrantAllWorksExactlyWhen(s1, n.granted, agent, g, n.scope, now);
        if GrantAll(s1, n.granted, agent, g, n.scope, now).1.Ok? {
          var expiresAt := ExpiryOf(now, n.maxSeconds.value);
          LeasingWorksExactlyWhen(s1, n.granted, agent, n.activationId, g, n.scope, now, expiresAt);
          forall c | c in n.granted
            ensures var lease := BridgeLease(c, agent, n.activationId, g, n.scope, expiresAt);
                    Leasable(s1, lease) <==> Leasable(s, lease)
          {
            SameLeasable(s, s1, BridgeLease(c, agent, n.activationId, g, n.scope, expiresAt));
          }
        }
      }
    }
  }

  lemma SameLeasable(s: State, t: State, lease: Lease)
    requires t.grants == s.grants && t.leases == s.leases
    ensures Leasable(t, lease) <==> Leasable(s, lease)
  {
  }

  // ---------- Lease ids ----------

  /** Under one activation, capabilities whose kinds have no hyphen never share a lease id. */
  lemma HyphenFreeKindsHaveDistinctIds(caps: seq<CapabilityId>, agent: Text, activation: Text)
    requires forall c :: c in caps ==> HYPHEN !in c.kind
    ensures DistinctLeaseIds(caps, agent, activation)
  {
    forall c, d | c in caps && d in caps && LeaseId(agent, activation, c) == LeaseId(agent, activation, d)
      ensures c == d
    {
      var front: Text := [97, 103, 101, 110, 116, 45] + agent + [HYPHEN] + activation + [HYPHEN];
      LastHyphen(front + c.apiVersion, c.kind, front + d.apiVersion, d.kind);
      assert (front + c.apiVersion)[|front|..] == c.apiVersion && (front + d.apiVersion)[|front|..] == d.apiVersion;
    }
  }

  /** With hyphens in both parts a lease id can stand for two capabilities, which one negotiation
      then cannot have together. */
  lemma SharedLeaseId(agent: Text, activation: Text, a: Text, b: Text, k: Text)
    ensures var c, d := CapabilityId(a + [HYPHEN] + b, k), CapabilityId(a, b + [HYPHEN] + k);
            c != d && LeaseId(agent, activation, c) == LeaseId(agent, activation, d)
              && !DistinctLeaseIds([c, d], agent, activation)
  {
    var c, d := CapabilityId(a + [HYPHEN] + b, k), CapabilityId(a, b + [HYPHEN] + k);
    assert |c.apiVersion| != |d.apiVersion|;
    assert LeaseId(agent, activation, c) == LeaseId(agent, activation, d);
    assert c in [c, d] && d in [c, d];
  }

  // ---------- Whom a negotiation displaces ----------

  /** After a successful negotiation every other agent and generation is refused the granted
      capabilities, and gets the answers it got before for all others. */
  lemma NegotiationTakesOver(s: State, agent: Text, n: Negotiated, now: nat, q: Request, later: nat)
    requires Inv(s) && RegisterInv(s) && Negotiate(s, agent, n, now).1.Ok?
    requires !(q.owner == agent && q.generation == Negotiate(s, agent, n, now).1.value.generation)
    ensures var t := Negotiate(s, agent, n, now).0;
            if q.capability in n.granted then Gate(t, q, later).Err? else Gate(t, q, later) == Gate(s, q, later)
  {
    hide LeaseVerdict;
    hide GrantAll;
    hide LeaseAll;
    hide ExpiryOf;
    hide Scope.Covers;
    var (t, r) := Negotiate(s, agent, n, now);
    if q.capability in n.granted {
      NegotiatedState(s, agent, n, now, q.capability);
    } else {
      NegotiationSupersedes(s, agent, n, now);
      NewUnderTheActivation(s, agent, n, now);
      hide Negotiate;
      hide Inv;
      hide RegisterInv;
      SameVerdict(s.leases, t.leases, q, later);
    }
  }

  /** A negotiation adds leases under its own generation only, and grants of its own capabilities only. */
  lemma NewUnderTheActivation(s: State, agent: Text, n: Negotiated, now: nat)
    requires Negotiate(s, agent, n, now).1.Ok?
    ensures var (t, r) := Negotiate(s, agent, n, now);
            && (forall k :: k in t.leases && k !in s.leases ==>
               t.leases[k].owner == agent && t.leases[k].generation == r.value.generation)
            && (forall k :: k in s.leases ==> k in t.leases && t.leases[k].capability == s.leases[k].capability)
            && (forall c :: c in t.grants && c !in n.granted ==> c in s.grants)
  {
    hide GrantAll;
    hide LeaseAll;
    hide ExpiryOf;
    var (s1, registered) := Register(s, agent, n.activationId);
    var g, expiresAt := registered.value, ExpiryOf(now, n.maxSeconds.value);
    var s2 := GrantAll(s1, n.granted, agent, g, n.scope, now).0;
    NegotiateKeepsLeases(s, agent, n, now);
    RegisterWorksExactlyWhen(s, agent, n.activationId);
    GrantAllFrame(s1, n.granted, agent, g, n.scope, now);
    LeaseAllFrame(s2, n.granted, agent, n.activationId, g, n.scope, expiresAt, now);
    hide Register;
  }

  // ---------- A run that reopens the gate ----------

  function OneCapability(activation: Text, c: CapabilityId): Negotiated {
    Negotiated(activation, true, [c], Known, Some(1), DEFAULT_SCOPE)
  }

  lemma FirstNegotiation(agent: Text, activation: Text, c: CapabilityId)
    ensures var (t, r) := Negotiate(EMPTY, agent, OneCapability(activation, c), 0);
            var lease := BridgeLease(c, agent, activation, 1, DEFAULT_SCOPE, 1000);
            && r.Ok? && r.value.generation == 1
            && t.leases == map[lease.id := lease] && t.grants == map[c := BridgeGrant(c, agent, 1, DEFAULT_SCOPE, 0)]
            && Registered(t, agent, activation) && RecordOf(t, agent, activation).generation == 1
  {
    hide LeaseId;
    hide ContractVersion;
    var (s1, registered) := Register(EMPTY, agent, activation);
    assert registered == Ok(1);
    assert [c][1..] == [];
    assert ExpiryOf(0, 1) == 1000;
    var (s2, granted) := GrantStep(s1, BridgeGrant(c, agent, 1, DEFAULT_SCOPE, 0), 0);
    assert GrantAll(s1, [c], agent, 1, DEFAULT_SCOPE, 0) == (s2, Ok(()));
    var (s3, leased) := LeaseStep(s2, BridgeLease(c, agent, activation, 1, DEFAULT_SCOPE, 1000), 0);
    assert LeaseAll(s2, [c], agent, activation, 1, DEFAULT_SCOPE, 1000, 0) == (s3, Ok(()));
  }

  /** A run in which an activation is negotiated and revoked, and a lease issued directly under its
      agent and generation passes the gate. */
  lemma ReopeningRun(agent: Text, activation: Text, c: CapabilityId) returns (after: seq<Op>)
    ensures var s := Run(EMPTY, [DoNegotiate(agent, OneCapability(activation, c), 0)]);
            && Registered(s, agent, activation) && RecordOf(s, agent, activation).generation == 1
            && |after| == 1 && LeasesUnder(after[0], agent, 1)
            && var t := Run(RevokeActivation(s, activation, Disconnect, 0), after);
               Gate(t, Request(c, agent, 1, DEFAULT_SCOPE), 0) == Ok(())
  {
    hide Negotiate;
    hide Gate;
    hide RevokeActivation;
    hide LeaseStep;
    var id := LeaseId(agent, activation, c) + [0];
    var lease := Lease(id, c, agent, 1, DEFAULT_SCOPE, 1, None);
    after := [DoLease(lease, 0)];
    var before := [DoNegotiate(agent, OneCapability(activation, c), 0)];
    FirstNegotiation(agent, activation, c);
    RunOfOne(EMPTY, before[0]);
    var s := Run(EMPTY, before);
    assert |id| != |LeaseId(agent, activation, c)|;
    hide LeaseId;
    RunOfOne(RevokeActivation(s, activation, Disconnect, 0), after[0]);
    DirectLeaseReopens(s, activation, Disconnect, 0, lease, 0);
  }

  lemma RunOfOne(s: State, op: Op)
    ensures Run(s, [op]) == Step(s, op)
  {
    assert [op][..0] == [];
  }
}
