/**
  * What the broker answers, told from the fields of grants, leases and requests alone: when the gate
  * opens and which error it gives, when a lease is stored, what a revocation records, and how long a
  * negotiated lease lasts.
  */
module BrokerAnswers {
  import opened Core
  import opened Broker
  import opened BrokerRuns
  import opened BridgeRuns
  import opened BridgeSuccess

  // ---------- The gate ----------

  /** The request has every value the limit pins, and each entry of its lists is in the limit's list,
      where the limit has one. */
  predicate Permits(limit: Scope, asked: Scope) {
    && (limit.sessionId.None? || (asked.sessionId.Some? && asked.sessionId.value == limit.sessionId.value))
    && (limit.workspace.None? || (asked.workspace.Some? && asked.workspace.value == limit.workspace.value))
    && (|limit.domains| == 0 || forall i :: 0 <= i < |asked.domains| ==> asked.domains[i] in limit.domains)
    && (|limit.resources| == 0 || forall i :: 0 <= i < |asked.resources| ==> asked.resources[i] in limit.resources)
  }

  lemma CoversIsPermits(limit: Scope, asked: Scope)
    ensures limit.Covers(asked) <==> Permits(limit, asked)
  {
  }

  /** A grant to this owner, of this generation, that permits the request. */
  predicate Granted(s: State, q: Request) {
    && q.capability in s.grants && s.grants[q.capability].owner == q.owner
    && s.grants[q.capability].generation == q.generation && Permits(s.grants[q.capability].scope, q.scope)
  }

  /** A lease for this capability, owner and generation. */
  predicate Held(s: State, q: Request, k: Text) {
    && k in s.leases && s.leases[k].capability == q.capability && s.leases[k].owner == q.owner
    && s.leases[k].generation == q.generation
  }

  /** One that permits the request. */
  predicate Permitting(s: State, q: Request, k: Text) {
    Held(s, q, k) && Permits(s.leases[k].scope, q.scope)
  }

  predicate Opening(s: State, q: Request, k: Text, now: nat) {
    Permitting(s, q, k) && s.leases[k].revoked.None? && now < s.leases[k].expiresAt
  }

  lemma LeaseFields(s: State, q: Request, now: nat)
    ensures (exists k :: k in s.leases && Authorises(s.leases[k], q, now)) <==> exists k :: Opening(s, q, k, now)
    ensures (exists k :: k in s.leases && Backs(s.leases[k], q)) <==> exists k :: Permitting(s, q, k)
    ensures (exists k :: k in s.leases && Backs(s.leases[k], q) && s.leases[k].revoked.Some?) <==>
            exists k :: Permitting(s, q, k) && s.leases[k].revoked.Some?
    ensures (exists k :: k in s.leases && Matches(s.leases[k], q)) <==> exists k :: Held(s, q, k)
  {
    forall k | k in s.leases
      ensures Matches(s.leases[k], q) <==> Held(s, q, k)
      ensures Backs(s.leases[k], q) <==> Permitting(s, q, k)
      ensures Authorises(s.leases[k], q, now) <==> Opening(s, q, k, now)
    {
      CoversIsPermits(s.leases[k].scope, q.scope);
    }
    hide Permits;
    hide Scope.Covers;
    assert forall k :: Opening(s, q, k, now) || Permitting(s, q, k) || Held(s, q, k) ==> k in s.leases;
    hide Backs;
    hide Matches;
    hide Authorises;
    hide Opening;
    hide Permitting;
    hide Held;
  }

  /** What the gate says before it looks at leases. */
  lemma GrantDecides(s: State, q: Request, now: nat)
    ensures Gate(s, q, now) == Err(UnknownCapability) <==> q.capability !in s.grants
    ensures q.capability in s.grants ==>
            var grant := s.grants[q.capability];
            && (grant.owner != q.owner ==> Gate(s, q, now) == Err(NotGranted))
            && (Gate(s, q, now) == Err(GenerationMismatch) <==>
                grant.owner == q.owner && grant.generation != q.generation)
            && (grant.owner == q.owner && grant.generation == q.generation && !Permits(grant.scope, q.scope) ==>
                Gate(s, q, now) == Err(ScopeMismatch))
  {
    if q.capability in s.grants {
      CoversIsPermits(s.grants[q.capability].scope, q.scope);
    }
    hide Permits;
    hide Scope.Covers;
    hide Matches;
    hide Backs;
    hide Authorises;
  }

  lemma GrantedIsLeaseVerdict(s: State, q: Request, now: nat)
    requires Granted(s, q)
    ensures Gate(s, q, now) == LeaseVerdict(s.leases, q, now)
  {
    CoversIsPermits(s.grants[q.capability].scope, q.scope);
    hide Permits;
    hide Scope.Covers;
    hide LeaseVerdict;
  }

  /** What the gate says of a granted request, by the leases. */
  lemma LeasesDecide(s: State, q: Request, now: nat)
    requires Granted(s, q)
    ensures Gate(s, q, now) == Ok(()) <==> exists k :: Opening(s, q, k, now)
    ensures Gate(s, q, now) == Err(LeaseRevoked) <==>
            && (forall k :: !Opening(s, q, k, now))
            && exists k :: Permitting(s, q, k) && s.leases[k].revoked.Some?
    ensures Gate(s, q, now) == Err(LeaseExpired) <==>
            && (exists k :: Permitting(s, q, k))
            && forall k :: Permitting(s, q, k) ==> s.leases[k].revoked.None? && s.leases[k].expiresAt <= now
    ensures Gate(s, q, now) == Err(ScopeMismatch) <==>
            (exists k :: Held(s, q, k)) && forall k :: !Permitting(s, q, k)
    ensures Gate(s, q, now) == Err(NotGranted) <==> forall k :: !Held(s, q, k)
  {
    LeaseFields(s, q, now);
    GrantedIsLeaseVerdict(s, q, now);
    hide Gate;
    hide Granted;
    assert forall k :: Permitting(s, q, k) ==> Held(s, q, k);
    assert forall k :: Opening(s, q, k, now) <==>
                       Permitting(s, q, k) && s.leases[k].revoked.None? && now < s.leases[k].expiresAt;
    hide Matches;
    hide Backs;
    hide Authorises;
    hide Opening;
    hide Permitting;
    hide Held;
  }

  /** The gate opens exactly when the grant and some lease that is neither revoked nor expired have
      the request's capability, owner and generation, and both permit it. */
  lemma GateOpensExactlyWhen(s: State, q: Request, now: nat)
    ensures Gate(s, q, now) == Ok(()) <==> Granted(s, q) && exists k :: Opening(s, q, k, now)
  {
    GrantDecides(s, q, now);
    if Granted(s, q) {
      LeasesDecide(s, q, now);
    }
    hide Gate;
    hide Permits;
    hide Opening;
  }

  // ---------- Grants and leases ----------

  /** The current grant of the lease's capability is the owner's, of its generation, and permits it. */
  predicate Leaseable(s: State, lease: Lease) {
    Granted(s, Request(lease.capability, lease.owner, lease.generation, lease.scope))
  }

  /** A lease is accepted exactly when the current grant stands behind it, it is not over, and its id is
      free or already this lease's. Then it is in the book and nothing else has changed; a refused
      one changes nothing. */
  lemma LeaseIsStoredExactlyWhen(s: State, lease: Lease, now: nat)
    ensures var (t, r) := LeaseStep(s, lease, now);
            && (r.Ok? <==> && Leaseable(s, lease) && now < lease.expiresAt
                           && (lease.id in s.leases ==> s.leases[lease.id] == lease))
            && t == (if r.Ok? then s.(leases := s.leases[lease.id := lease]) else s)
            && (r == Err(UnknownCapability) <==> lease.capability !in s.grants)
            && (r == Err(NotGranted) <==>
                lease.capability in s.grants && s.grants[lease.capability].owner != lease.owner)
            && (r == Err(LeaseExpired) <==> Leaseable(s, lease) && lease.expiresAt <= now)
            && (r == Err(Conflict) <==> && Leaseable(s, lease) && now < lease.expiresAt && lease.id in s.leases
                                        && s.leases[lease.id] != lease)
            && (r == Err(ScopeMismatch) <==>
                && !Leaseable(s, lease) && lease.capability in s.grants
                && s.grants[lease.capability].owner == lease.owner
                && s.grants[lease.capability].generation == lease.generation)
  {
    if lease.capability in s.grants {
      CoversIsPermits(s.grants[lease.capability].scope, lease.scope);
    }
    hide Permits;
    hide Scope.Covers;
    assert lease.id in s.leases && s.leases[lease.id] == lease ==> s.leases[lease.id := lease] == s.leases;
  }

  /** The lease after a revocation that reaches it or does not; the first record stays. */
  predicate Recorded(before: map<Text, Lease>, after: map<Text, Lease>, k: Text, reached: bool, reason: Reason,
      now: nat)
    requires k in before && k in after
  {
    after[k] == if reached && before[k].revoked.None? then before[k].(revoked := Some(Revocation(reason, now)))
                else before[k]
  }

  /** Granting gives the capability to the new owner and generation, unless another grant holds it
      under the same number. A change of generation revokes the capability's leases, and says so. */
  lemma GrantTakesEffect(s: State, grant: Grant, now: nat)
    ensures var (t, r) := GrantStep(s, grant, now);
            var c := grant.capability;
            var changes := c in s.grants && s.grants[c].generation != grant.generation;
            if c in s.grants && s.grants[c] != grant && s.grants[c].generation == grant.generation
            then t == s && r == Err(Conflict)
            else && r == Ok(()) && t.grants == s.grants[c := grant] && t.leases.Keys == s.leases.Keys
                 && (t.activations, t.current, t.nextGeneration) == (s.activations, s.current, s.nextGeneration)
                 && forall k :: k in s.leases ==>
                      Recorded(s.leases, t.leases, k, changes && s.leases[k].capability == c, GenerationChange, now)
  {
    assert grant.capability in s.grants && s.grants[grant.capability] == grant ==>
           s.grants[grant.capability := grant] == s.grants;
  }

  /** Revoking a lease by its id reaches that lease and nothing else. */
  lemma RevocationReaches(s: State, id: Text, reason: Reason, now: nat, k: Text)
    requires k in s.leases
    ensures var t := RevokeStep(s, id, reason, now);
            && t == s.(leases := t.leases) && t.leases.Keys == s.leases.Keys
            && Recorded(s.leases, t.leases, k, k == id, reason, now)
  {
  }

  /** Revoking an activation reaches exactly the leases of its agents and generations. */
  lemma ActivationRevocationReaches(s: State, activation: Text, reason: Reason, now: nat, k: Text)
    requires k in s.leases
    ensures var t := RevokeActivation(s, activation, reason, now);
            && t.grants == s.grants && t.nextGeneration == s.nextGeneration && k in t.leases
            && Recorded(s.leases, t.leases, k,
                 Registered(s, s.leases[k].owner, activation)
                   && RecordOf(s, s.leases[k].owner, activation).generation == s.leases[k].generation, reason, now)
  {
  }

  /** It marks that activation of every agent that has it and ends it where it is the current one; all other
      activations stay as they were. */
  lemma ActivationRevocationMarks(s: State, activation: Text, reason: Reason, now: nat, agent: Text, other: Text)
    ensures var t := RevokeActivation(s, activation, reason, now);
            && (Registered(t, agent, other) <==> Registered(s, agent, other))
            && (Registered(s, agent, other) ==>
                  var was := RecordOf(s, agent, other);
                  RecordOf(t, agent, other) == if other == activation then was.(revoked := true) else was)
            && (agent in t.current <==>
                agent in s.current && !(s.current[agent] == activation && Registered(s, agent, activation)))
            && (agent in t.current ==> t.current[agent] == s.current[agent])
  {
  }

  // ---------- The bridge ----------

  /** A negotiated lease lasts the agreed seconds to the millisecond, or to the end of the clock. */
  lemma NegotiatedLeaseLasts(s: State, agent: Text, n: Negotiated, now: nat, c: CapabilityId, later: nat)
    requires RegisterInv(s) && Negotiate(s, agent, n, now).1.Ok? && c in n.granted
    ensures n.maxSeconds.Some?
    ensures var (t, r) := Negotiate(s, agent, n, now);
            var id := LeaseId(agent, n.activationId, c);
            && id in t.leases
            && (Authorises(t.leases[id], Request(c, agent, r.value.generation, n.scope), later) <==>
                later < now + 1000 * n.maxSeconds.value && later < U64_MAX)
            && (r.value.expiresAt == now + 1000 * n.maxSeconds.value || r.value.expiresAt == U64_MAX)
  {
    NegotiatedState(s, agent, n, now, c);
    hide Negotiate;
    hide Register;
    hide RegisterInv;
    CoversIsReflexive(n.scope);
    hide Scope.Covers;
  }

  lemma {:induction false} GrantLoopError(s: State, caps: seq<CapabilityId>, agent: Text, g: nat, scope: Scope,
      now: nat)
    ensures GrantAll(s, caps, agent, g, scope, now).1 in {Ok(()), Err(Conflict)}
    decreases |caps|
  {
    hide RevokeSelected;
    if caps != [] {
      var (s', r) := GrantStep(s, BridgeGrant(caps[0], agent, g, scope, now), now);
      if r.Ok? {
        GrantLoopError(s', caps[1..], agent, g, scope, now);
      }
    }
  }

  lemma {:induction false} LeaseLoopError(s: State, caps: seq<CapabilityId>, agent: Text, activation: Text, g: nat,
      scope: Scope, expiresAt: nat, now: nat)
    requires HoldsAll(s, caps, agent, g, scope)
    ensures var r := LeaseAll(s, caps, agent, activation, g, scope, expiresAt, now).1;
            r.Err? ==> r.error == if now < expiresAt then Conflict else LeaseExpired
    decreases |caps|
  {
    hide LeaseId;
    if caps != [] {
      var lease := BridgeLease(caps[0], agent, activation, g, scope, expiresAt);
      assert caps[0] in caps;
      CoversIsReflexive(scope);
      hide Scope.Covers;
      var (s', r) := LeaseStep(s, lease, now);
      if r.Ok? {
        LeaseLoopError(s', caps[1..], agent, activation, g, scope, expiresAt, now);
      }
    }
  }

  predicate Admissible(n: Negotiated) {
    n.agreed && n.conformance == Known && n.granted != [] && n.maxSeconds.Some? && n.maxSeconds.value > 0
  }

  lemma RefusalShape(n: Negotiated)
    ensures Refusal(n).None? <==> Admissible(n)
  {
  }

  /** Which error a negotiation that fails gives: fail-closed checks first, then the activation, then a
      capability held under the same number, then the end of the clock, then a lease id. */
  lemma NegotiationErrors(s: State, agent: Text, n: Negotiated, now: nat)
    ensures var r := Negotiate(s, agent, n, now).1;
            var known := Registered(s, agent, n.activationId);
            var grantable :=
              AllGrantable(s.grants, n.granted, agent, GenerationFor(s, agent, n.activationId), n.scope, now);
            && (r == Err(NotNegotiated) <==> !n.agreed)
            && (r == Err(ConformanceNotKnown) <==> n.agreed && n.conformance != Known)
            && (r == Err(NothingGranted) <==> n.agreed && n.conformance == Known && n.granted == [])
            && (r == Err(NoLeasePolicy) <==>
                n.agreed && n.conformance == Known && n.granted != [] && !Admissible(n))
            && (r == Err(ActivationRevoked) <==>
                Admissible(n) && known && RecordOf(s, agent, n.activationId).revoked)
            && (r == Err(StaleActivation) <==>
                && Admissible(n) && known && !RecordOf(s, agent, n.activationId).revoked
                && !(agent in s.current && s.current[agent] == n.activationId))
            && (r == Err(BrokerRefused(LeaseExpired)) <==>
                Admissible(n) && Welcome(s, agent, n.activationId) && grantable && now >= U64_MAX)
            && (r == Err(BrokerRefused(Conflict)) <==>
                Admissible(n) && Welcome(s, agent, n.activationId) && !r.Ok? && (!grantable || now < U64_MAX))
  {
    RefusalShape(n);
    if Admissible(n) {
      AdmissibleErrors(s, agent, n, now);
    }
    hide Negotiate;
    hide AllGrantable;
    hide GenerationFor;
  }

  lemma AdmissibleErrors(s: State, agent: Text, n: Negotiated, now: nat)
    requires Admissible(n)
    ensures var r := Negotiate(s, agent, n, now).1;
            var grantable :=
              AllGrantable(s.grants, n.granted, agent, GenerationFor(s, agent, n.activationId), n.scope, now);
            if Welcome(s, agent, n.activationId) then
              r.Err? ==> r.error == BrokerRefused(if grantable && now >= U64_MAX then LeaseExpired else Conflict)
            else
              r == Err(if RecordOf(s, agent, n.activationId).revoked then ActivationRevoked else StaleActivation)
  {
    hide AllGrantable;
    hide ExpiryOf;
    hide GrantAll;
    hide LeaseAll;
    hide HoldsAll;
    RefusalShape(n);
    RegisterWorksExactlyWhen(s, agent, n.activationId);
    var (s1, registered) := Register(s, agent, n.activationId);
    if registered.Ok? {
      hide Register;
      var g, expiresAt := registered.value, ExpiryOf(now, n.maxSeconds.value);
      ExpiryIsAhead(now, n.maxSeconds.value);
      GrantAllWorksExactlyWhen(s1, n.granted, agent, g, n.scope, now);
      GrantLoopError(s1, n.granted, agent, g, n.scope, now);
      var (s2, granted) := GrantAll(s1, n.granted, agent, g, n.scope, now);
      if granted.Ok? {
        HoldsAllAfterGrants(s1, n.granted, agent, g, n.scope, now);
        LeaseLoopError(s2, n.granted, agent, n.activationId, g, n.scope, expiresAt, now);
      }
    }
  }

  // ---------- A negotiation stopped half-way ----------

  /** The grants of the listed capabilities are the bridge's, and all others are as before. */
  ghost predicate GrantedSoFar(s: State, t: State, caps: seq<CapabilityId>, agent: Text, g: nat, scope: Scope,
      now: nat)
  {
    && (forall c :: c in caps ==> c in t.grants && t.grants[c] == BridgeGrant(c, agent, g, scope, now))
    && (forall c :: c !in caps ==> (c in t.grants <==> c in s.grants))
    && (forall c :: c in s.grants && c !in caps ==> t.grants[c] == s.grants[c])
  }

  lemma OneGrantSoFar(s: State, c: CapabilityId, agent: Text, g: nat, scope: Scope, now: nat)
    ensures var grant := BridgeGrant(c, agent, g, scope, now);
            var (t, r) := GrantStep(s, grant, now);
            && (r.Ok? <==> Grantable(s.grants, grant)) && SameRegister(s, t) && t.leases.Keys == s.leases.Keys
            && (r.Ok? ==> GrantedSoFar(s, t, [c], agent, g, scope, now)) && (r.Err? ==> t == s)
  {
    GrantWorksExactlyWhen(s, BridgeGrant(c, agent, g, scope, now), now);
    GrantTakesEffect(s, BridgeGrant(c, agent, g, scope, now), now);
    hide Recorded;
    hide GrantStep;
  }

  lemma GrantedChains(s: State, s': State, t: State, c: CapabilityId, caps: seq<CapabilityId>, agent: Text, g: nat,
      scope: Scope, now: nat)
    requires GrantedSoFar(s, s', [c], agent, g, scope, now) && GrantedSoFar(s', t, caps, agent, g, scope, now)
    ensures GrantedSoFar(s, t, [c] + caps, agent, g, scope, now)
  {
    hide BridgeGrant;
    assert forall d :: d in [c] + caps <==> d == c || d in caps;
    assert c in [c];
  }

  lemma GrantAllUnfolds(s: State, caps: seq<CapabilityId>, agent: Text, g: nat, scope: Scope, now: nat)
    ensures caps == [] ==> GrantAll(s, caps, agent, g, scope, now) == (s, Ok(()))
    ensures caps != [] ==>
            var (s', r) := GrantStep(s, BridgeGrant(caps[0], agent, g, scope, now), now);
            GrantAll(s, caps, agent, g, scope, now)
            == if r.Err? then (s', r) else GrantAll(s', caps[1..], agent, g, scope, now)
  {
    hide GrantStep;
    hide BridgeGrant;
  }

  /** The granting goes on up to the first capability held under the same number by another grant. */
  lemma {:induction false} GrantLoopStops(s: State, caps: seq<CapabilityId>, agent: Text, g: nat, scope: Scope,
      now: nat) returns (k: nat)
    ensures var (t, r) := GrantAll(s, caps, agent, g, scope, now);
            && k <= |caps| && (r.Ok? <==> k == |caps|) && GrantedSoFar(s, t, caps[..k], agent, g, scope, now)
            && (k < |caps| ==> !Grantable(t.grants, BridgeGrant(caps[k], agent, g, scope, now)))
            && SameRegister(s, t) && t.leases.Keys == s.leases.Keys
    decreases |caps|
  {
    hide GrantedSoFar;
    hide Grantable;
    hide GrantStep;
    hide BridgeGrant;
    hide GrantAll;
    k := 0;
    NothingSoFar(s, agent, [], g, scope, now, now);
    GrantAllUnfolds(s, caps, agent, g, scope, now);
    assert caps[..0] == [];
    if caps != [] {
      var (s', r) := GrantStep(s, BridgeGrant(caps[0], agent, g, scope, now), now);
      OneGrantSoFar(s, caps[0], agent, g, scope, now);
      if r.Ok? {
        var rest := caps[1..];
        var j := GrantLoopStops(s', rest, agent, g, scope, now);
        k := j + 1;
        assert caps[..k] == [caps[0]] + rest[..j];
        GrantedChains(s, s', GrantAll(s, caps, agent, g, scope, now).0, caps[0], rest[..j], agent, g, scope, now);
      }
    }
  }

  /** The leases of the listed capabilities are in the book, and everything that was there is as before. */
  predicate LeasedSoFar(s: State, t: State, caps: seq<CapabilityId>, agent: Text, activation: Text, g: nat,
      scope: Scope, expiresAt: nat)
  {
    && (forall c :: c in caps ==>
          var lease := BridgeLease(c, agent, activation, g, scope, expiresAt);
          lease.id in t.leases && t.leases[lease.id] == lease)
    && (forall k :: k in s.leases ==> k in t.leases && t.leases[k] == s.leases[k])
    && (forall k :: k in t.leases && k !in s.leases ==> exists c :: c in caps && k == LeaseId(agent, activation, c))
  }

  lemma NothingSoFar(s: State, agent: Text, activation: Text, g: nat, scope: Scope, now: nat, expiresAt: nat)
    ensures GrantedSoFar(s, s, [], agent, g, scope, now)
    ensures LeasedSoFar(s, s, [], agent, activation, g, scope, expiresAt)
  {
    hide BridgeGrant;
    hide BridgeLease;
  }

  lemma LeasedChains(s: State, s': State, t: State, c: CapabilityId, caps: seq<CapabilityId>, agent: Text,
      activation: Text, g: nat, scope: Scope, expiresAt: nat)
    requires LeasedSoFar(s, s', [c], agent, activation, g, scope, expiresAt)
    requires LeasedSoFar(s', t, caps, agent, activation, g, scope, expiresAt)
    ensures LeasedSoFar(s, t, [c] + caps, agent, activation, g, scope, expiresAt)
  {
    hide LeaseId;
    assert c in [c];
    forall x | x in t.leases && x !in s.leases
      ensures exists d :: d in [c] + caps && x == LeaseId(agent, activation, d)
    {
      if x in s'.leases {
        assert c in [c] + caps;
      } else {
        var d :| d in caps && x == LeaseId(agent, activation, d);
        assert d in [c] + caps;
      }
    }
  }

  lemma OneLeaseSoFar(s: State, c: CapabilityId, agent: Text, activation: Text, g: nat, scope: Scope, expiresAt: nat,
      now: nat)
    ensures var (t, r) := LeaseStep(s, BridgeLease(c, agent, activation, g, scope, expiresAt), now);
            && t == s.(leases := t.leases) && (r.Err? ==> t == s)
            && (r.Ok? ==> LeasedSoFar(s, t, [c], agent, activation, g, scope, expiresAt))
  {
    hide LeaseId;
    LeaseIsStoredExactlyWhen(s, BridgeLease(c, agent, activation, g, scope, expiresAt), now);
    hide LeaseStep;
    hide Leaseable;
    assert c in [c];
  }

  lemma LeaseAllUnfolds(s: State, caps: seq<CapabilityId>, agent: Text, activation: Text, g: nat, scope: Scope,
      expiresAt: nat, now: nat)
    ensures caps == [] ==> LeaseAll(s, caps, agent, activation, g, scope, expiresAt, now) == (s, Ok(()))
    ensures caps != [] ==>
            var (s', r) := LeaseStep(s, BridgeLease(caps[0], agent, activation, g, scope, expiresAt), now);
            LeaseAll(s, caps, agent, activation, g, scope, expiresAt, now)
            == if r.Err? then (s', r) else LeaseAll(s', caps[1..], agent, activation, g, scope, expiresAt, now)
  {
    hide LeaseStep;
    hide BridgeLease;
  }

  lemma {:induction false} LeaseLoopStops(s: State, caps: seq<CapabilityId>, agent: Text, activation: Text, g: nat,
      scope: Scope, expiresAt: nat, now: nat) returns (m: nat)
    ensures var (t, r) := LeaseAll(s, caps, agent, activation, g, scope, expiresAt, now);
            && m <= |caps| && (r.Ok? <==> m == |caps|) && t == s.(leases := t.leases)
            && LeasedSoFar(s, t, caps[..m], agent, activation, g, scope, expiresAt)
    decreases |caps|
  {
    hide LeasedSoFar;
    hide LeaseStep;
    hide BridgeLease;
    hide LeaseAll;
    m := 0;
    NothingSoFar(s, agent, activation, g, scope, now, expiresAt);
    LeaseAllUnfolds(s, caps, agent, activation, g, scope, expiresAt, now);
    assert caps[..0] == [];
    if caps != [] {
      var (s', r) := LeaseStep(s, BridgeLease(caps[0], agent, activation, g, scope, expiresAt), now);
      OneLeaseSoFar(s, caps[0], agent, activation, g, scope, expiresAt, now);
      if r.Ok? {
        var rest := caps[1..];
        var j := LeaseLoopStops(s', rest, agent, activation, g, scope, expiresAt, now);
        m := j + 1;
        assert caps[..m] == [caps[0]] + rest[..j];
        var t := LeaseAll(s, caps, agent, activation, g, scope, expiresAt, now).0;
        LeasedChains(s, s', t, caps[0], rest[..j], agent, activation, g, scope, expiresAt);
      }
    }
  }

  lemma NegotiateUnfolds(s: State, agent: Text, n: Negotiated, now: nat)
    requires Admissible(n) && Register(s, agent, n.activationId).1.Ok?
    ensures var (s1, registered) := Register(s, agent, n.activationId);
            var (s2, granted) := GrantAll(s1, n.granted, agent, registered.value, n.scope, now);
            var (s3, leased) := LeaseAll(s2, n.granted, agent, n.activationId, registered.value, n.scope,
                                         ExpiryOf(now, n.maxSeconds.value), now);
            var (t, r) := Negotiate(s, agent, n, now);
            && t == (if granted.Err? then s2 else s3) && (r.Ok? <==> granted.Ok? && leased.Ok?)
  {
    RefusalShape(n);
    hide Register;
    hide LeaseStep;
    hide GrantStep;
    hide ExpiryOf;
    var (s1, registered) := Register(s, agent, n.activationId);
    var (s2, granted) := GrantAll(s1, n.granted, agent, registered.value, n.scope, now);
    if granted.Ok? {
      var r := LeaseAll(s2, n.granted, agent, n.activationId, registered.value, n.scope,
                        ExpiryOf(now, n.maxSeconds.value), now);
      assert Negotiate(s, agent, n, now).0 == r.0;
      assert Negotiate(s, agent, n, now).1.Ok? <==> r.1.Ok?;
    }
  }

  lemma RegisteredIsCurrent(s: State, agent: Text, activation: Text)
    requires Welcome(s, agent, activation)
    ensures var (t, r) := Register(s, agent, activation);
            && r == Ok(GenerationFor(s, agent, activation)) && t.grants == s.grants && t.leases == s.leases
            && IsCurrent(t, agent, activation, GenerationFor(s, agent, activation))
  {
    var t := Register(s, agent, activation).0;
    assert agent in t.activations && activation in t.activations[agent];
  }

  predicate IsCurrent(s: State, agent: Text, activation: Text, g: nat) {
    && Registered(s, agent, activation) && RecordOf(s, agent, activation) == Activation(g, false)
    && agent in s.current && s.current[agent] == activation
  }

  /** A negotiation of a welcome activation makes it the agent's current one whatever comes of it. It grants
      capabilities in order up to the first that conflicts, and if none does it leases them in order up to the
      first that cannot be stored; it takes nothing back. `u` is the broker between the two. */
  lemma NegotiationGoesAsFar(s: State, agent: Text, n: Negotiated, now: nat) returns (k: nat, m: nat, u: State)
    requires Admissible(n) && Welcome(s, agent, n.activationId)
    ensures var (t, r) := Negotiate(s, agent, n, now);
            var g := GenerationFor(s, agent, n.activationId);
            && m <= k <= |n.granted| && (r.Ok? <==> m == |n.granted|) && (k < |n.granted| ==> m == 0)
            && IsCurrent(t, agent, n.activationId, g)
            && GrantedSoFar(s, t, n.granted[..k], agent, g, n.scope, now)
            && (k < |n.granted| ==> !Grantable(t.grants, BridgeGrant(n.granted[k], agent, g, n.scope, now)))
            && u.leases.Keys == s.leases.Keys
            && LeasedSoFar(u, t, n.granted[..m], agent, n.activationId, g, n.scope, ExpiryOf(now, n.maxSeconds.value))
  {
    hide Register;
    hide GenerationFor;
    hide Welcome;
    hide ExpiryOf;
    hide GrantAll;
    hide LeaseAll;
    hide GrantedSoFar;
    hide LeasedSoFar;
    hide Grantable;
    hide IsCurrent;
    hide BridgeGrant;
    hide Refusal;
    hide Negotiate;
    RegisteredIsCurrent(s, agent, n.activationId);
    NegotiateUnfolds(s, agent, n, now);
    var (s1, registered) := Register(s, agent, n.activationId);
    var g, expiresAt := registered.value, ExpiryOf(now, n.maxSeconds.value);
    k := GrantLoopStops(s1, n.granted, agent, g, n.scope, now);
    u := GrantAll(s1, n.granted, agent, g, n.scope, now).0;
    SameBeginnings(s, s1, u, n.granted[..k], agent, n.activationId, g, n.scope, now, expiresAt);
    m := 0;
    assert n.granted[..0] == [];
    if GrantAll(s1, n.granted, agent, g, n.scope, now).1.Ok? {
      m := LeaseLoopStops(u, n.granted, agent, n.activationId, g, n.scope, expiresAt, now);
      SameGrants(s, u, Negotiate(s, agent, n, now).0, n.granted[..k], agent, n.activationId, g, n.scope, now);
    }
  }

  lemma SameBeginnings(s: State, s1: State, u: State, caps: seq<CapabilityId>, agent: Text, activation: Text, g: nat,
      scope: Scope, now: nat, expiresAt: nat)
    requires s1.grants == s.grants && GrantedSoFar(s1, u, caps, agent, g, scope, now) && SameRegister(s1, u)
    requires IsCurrent(s1, agent, activation, g)
    ensures GrantedSoFar(s, u, caps, agent, g, scope, now) && IsCurrent(u, agent, activation, g)
    ensures LeasedSoFar(u, u, [], agent, activation, g, scope, expiresAt)
  {
    hide BridgeGrant;
    hide BridgeLease;
  }

  lemma SameGrants(s: State, u: State, t: State, caps: seq<CapabilityId>, agent: Text, activation: Text, g: nat,
      scope: Scope, now: nat)
    requires t == u.(leases := t.leases) && GrantedSoFar(s, u, caps, agent, g, scope, now)
    requires IsCurrent(u, agent, activation, g)
    ensures GrantedSoFar(s, t, caps, agent, g, scope, now) && IsCurrent(t, agent, activation, g)
  {
    hide BridgeGrant;
  }

  // ---------- Contract versions ----------

  lemma VersionWithOneMore(s: Text, b: Byte)
    ensures ContractVersion(s + [b]) == if b == SLASH then [] else ContractVersion(s) + [b]
  {
    assert (s + [b])[..|s|] == s;
  }

  /** The version of a bridge grant is what follows the last slash of the api version, or all of it. */
  lemma {:induction false} VersionIsTheLastPart(front: Text, last: Text)
    requires '/' as int !in last
    ensures ContractVersion(last) == last && ContractVersion(front + ['/' as int] + last) == last
  {
    assert SLASH == '/' as int;
    if last == [] {
      VersionWithOneMore(front, SLASH);
      assert front + [SLASH] + last == front + [SLASH];
    } else {
      var n := |last| - 1;
      var init, b := last[..n], last[n];
      assert last == init + [b] && b in last;
      VersionIsTheLastPart(front, init);
      hide ContractVersion;
      VersionWithOneMore(init, b);
      VersionWithOneMore(front + [SLASH] + init, b);
      assert front + [SLASH] + last == front + [SLASH] + init + [b];
    }
  }
}
