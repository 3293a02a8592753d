/** What holds of agent activations over every sequence of broker operations. */
module BridgeRuns {
  import opened Core
  import opened Broker
  import opened BrokerRuns

  // ---------- Frames of the two bridge loops ----------

  predicate SameRegister(s: State, t: State) {
    t.activations == s.activations && t.current == s.current && t.nextGeneration == s.nextGeneration
  }

  /** From `s` to `t` only the grants and leases of `caps` changed, and no lease appeared or went. */
  predicate OnlyRegranted(s: State, t: State, caps: seq<CapabilityId>) {
    && SameRegister(s, t)
    && t.leases.Keys == s.leases.Keys
    && (forall c :: c in s.grants && c !in caps ==> c in t.grants && t.grants[c] == s.grants[c])
    && (forall c :: c in t.grants && c !in caps ==> c in s.grants)
    && (forall k :: k in s.leases && s.leases[k].capability !in caps ==> t.leases[k] == s.leases[k])
  }

  predicate OnlyOneRegranted(s: State, t: State, c: CapabilityId) {
    && SameRegister(s, t)
    && t.leases.Keys == s.leases.Keys
    && t.grants - {c} == s.grants - {c}
    && (forall k :: k in s.leases && s.leases[k].capability != c ==> t.leases[k] == s.leases[k])
  }

  lemma OneRegrant(s: State, grant: Grant, now: nat)
    ensures OnlyOneRegranted(s, GrantStep(s, grant, now).0, grant.capability)
  {
    var c, t := grant.capability, GrantStep(s, grant, now).0;
    var revoked := RevokeSelected(s.leases, OfCapability(c), GenerationChange, now);
    SelectedAreRevoked(s.leases, OfCapability(c), GenerationChange, now);
    assert forall k :: k in s.leases && s.leases[k].capability != c ==> revoked[k] == s.leases[k];
    GrantOutcomes(s, grant, now);
    hide RevokeSelected;
    hide GrantStep;
    hide Selects;
  }

  lemma RegrantsChain(s: State, t: State, u: State, caps: seq<CapabilityId>)
    requires caps != [] && OnlyOneRegranted(s, t, caps[0]) && OnlyRegranted(t, u, caps[1..]) && LeasesKept(s, t)
    ensures OnlyRegranted(s, u, caps)
  {
    assert forall c :: c in caps <==> c == caps[0] || c in caps[1..];
    assert forall c :: c != caps[0] && c in s.grants ==> c in s.grants - {caps[0]};
    assert forall c :: c != caps[0] && c in t.grants ==> c in t.grants - {caps[0]};
  }

  lemma {:induction false} GrantAllFrame(s: State, caps: seq<CapabilityId>, agent: Text, g: nat, scope: Scope, now: nat)
    ensures OnlyRegranted(s, GrantAll(s, caps, agent, g, scope, now).0, caps)
    decreases |caps|
  {
    if caps != [] {
      hide GrantStep;
      hide OnlyRegranted;
      hide OnlyOneRegranted;
      hide LeasesKept;
      var grant := BridgeGrant(caps[0], agent, g, scope, now);
      var s' := GrantStep(s, grant, now).0;
      OneRegrant(s, grant, now);
      GrantKeepsLeases(s, grant, now);
      if GrantStep(s, grant, now).1.Ok? {
        GrantAllFrame(s', caps[1..], agent, g, scope, now);
        RegrantsChain(s, s', GrantAll(s', caps[1..], agent, g, scope, now).0, caps);
      } else {
        NothingRegranted(s', caps[1..]);
        RegrantsChain(s, s', s', caps);
      }
    }
  }

  lemma NothingRegranted(s: State, caps: seq<CapabilityId>)
    ensures OnlyRegranted(s, s, caps)
  {
  }

  /** From `s` to `t` only unrevoked leases of this owner and generation were added. */
  predicate OnlyLeased(s: State, t: State, owner: Text, g: nat) {
    && SameRegister(s, t) && t.grants == s.grants
    && (forall k :: k in s.leases ==> k in t.leases && t.leases[k] == s.leases[k])
    && (forall k :: k in t.leases && k !in s.leases ==>
          t.leases[k].owner == owner && t.leases[k].generation == g && t.leases[k].revoked.None?)
  }

  lemma {:induction false} LeaseAllFrame(s: State, caps: seq<CapabilityId>, agent: Text, activation: Text, g: nat,
      scope: Scope, expiresAt: nat, now: nat)
    ensures OnlyLeased(s, LeaseAll(s, caps, agent, activation, g, scope, expiresAt, now).0, agent, g)
    decreases |caps|
  {
    if caps != [] {
      var lease := BridgeLease(caps[0], agent, activation, g, scope, expiresAt);
      var s' := LeaseStep(s, lease, now).0;
      OneLease(s, lease, now);
      hide LeaseStep;
      hide OnlyLeased;
      if LeaseStep(s, lease, now).1.Ok? {
        LeaseAllFrame(s', caps[1..], agent, activation, g, scope, expiresAt, now);
        LeasesChain(s, s', LeaseAll(s', caps[1..], agent, activation, g, scope, expiresAt, now).0, agent, g);
      }
    }
  }

  lemma OneLease(s: State, lease: Lease, now: nat)
    requires lease.revoked.None?
    ensures OnlyLeased(s, LeaseStep(s, lease, now).0, lease.owner, lease.generation)
  {
    hide Scope.Covers;
  }

  lemma LeasesChain(s: State, t: State, u: State, owner: Text, g: nat)
    requires OnlyLeased(s, t, owner, g) && OnlyLeased(t, u, owner, g)
    ensures OnlyLeased(s, u, owner, g)
  {
  }

  // ---------- Generations ----------

  predicate Registered(s: State, agent: Text, activation: Text) {
    agent in s.activations && activation in s.activations[agent]
  }

  function RecordOf(s: State, agent: Text, activation: Text): Activation
    requires Registered(s, agent, activation)
  {
    s.activations[agent][activation]
  }

  /** Generations of an agent are distinct, none exceeds its counter, and the current
      activation is the newest one and not revoked. */
  ghost predicate RegisterInv(s: State) {
    && (forall a, x :: Registered(s, a, x) ==> 1 <= RecordOf(s, a, x).generation <= NextGeneration(s, a))
    && (forall a, x, y :: Registered(s, a, x) && Registered(s, a, y) && x != y ==>
          RecordOf(s, a, x).generation != RecordOf(s, a, y).generation)
    && (forall a :: a in s.current ==>
          && Registered(s, a, s.current[a])
          && RecordOf(s, a, s.current[a]) == Activation(NextGeneration(s, a), false))
  }

  /** Activations are never forgotten, keep their generation, and stay revoked once revoked. */
  ghost predicate ActivationsKept(s: State, t: State) {
    forall a, x :: Registered(s, a, x) ==>
      && Registered(t, a, x)
      && RecordOf(t, a, x).generation == RecordOf(s, a, x).generation
      && (RecordOf(s, a, x).revoked ==> RecordOf(t, a, x).revoked)
  }

  lemma RegisterOutcome(s: State, agent: Text, activation: Text)
    requires RegisterInv(s)
    ensures var (t, r) := Register(s, agent, activation);
            && t.grants == s.grants && t.leases == s.leases
            && (r.Ok? ==> r.value >= 1 && Registered(t, agent, activation)
                          && RecordOf(t, agent, activation) == Activation(r.value, false)
                          && Register(t, agent, activation) == (t, r))
  {
    if Registered(s, agent, activation) {
      assert RecordOf(s, agent, activation).generation >= 1;
    }
  }

  lemma NewActivation(s: State, agent: Text, activation: Text, a: Text, x: Text)
    requires !Registered(s, agent, activation)
    ensures var t := Register(s, agent, activation).0;
            && (Registered(t, a, x) <==> Registered(s, a, x) || (a == agent && x == activation))
            && (Registered(s, a, x) ==> RecordOf(t, a, x) == RecordOf(s, a, x))
            && RecordOf(t, agent, activation) == Activation(NextGeneration(s, agent) + 1, false)
            && NextGeneration(t, a) == if a == agent then NextGeneration(s, agent) + 1 else NextGeneration(s, a)
  {
  }

  lemma RegisterKeeps(s: State, agent: Text, activation: Text)
    requires RegisterInv(s)
    ensures RegisterInv(Register(s, agent, activation).0) && ActivationsKept(s, Register(s, agent, activation).0)
  {
    hide NextGeneration;
    hide Registered;
    hide RecordOf;
    var t := Register(s, agent, activation).0;
    RegisterChanges(s, agent, activation);
    hide Register;
    if t != s {
      forall a, x
        ensures Registered(t, a, x) <==> Registered(s, a, x) || (a == agent && x == activation)
        ensures Registered(s, a, x) ==> RecordOf(t, a, x) == RecordOf(s, a, x)
      {
        NewActivation(s, agent, activation, a, x);
      }
      forall a
        ensures NextGeneration(t, a) == if a == agent then NextGeneration(s, agent) + 1 else NextGeneration(s, a)
      {
        NewActivation(s, agent, activation, a, activation);
      }
    }
  }

  lemma RegisterChanges(s: State, agent: Text, activation: Text)
    ensures var t := Register(s, agent, activation).0;
            t == s || (&& !Registered(s, agent, activation) && Registered(t, agent, activation)
                       && t.current == s.current[agent := activation]
                       && RecordOf(t, agent, activation) == Activation(NextGeneration(s, agent) + 1, false))
  {
  }

  lemma NegotiateKeepsRegister(s: State, agent: Text, n: Negotiated, now: nat)
    requires RegisterInv(s)
    ensures RegisterInv(Negotiate(s, agent, n, now).0) && ActivationsKept(s, Negotiate(s, agent, n, now).0)
  {
    var g, s1, s2, s3 := NegotiateStages(s, agent, n, now);
    hide Negotiate;
    hide GrantAll;
    hide LeaseAll;
    hide ExpiryOf;
    if Negotiate(s, agent, n, now).0 != s {
      RegisterKeeps(s, agent, n.activationId);
      hide Register;
      GrantAllFrame(s1, n.granted, agent, g, n.scope, now);
      LeaseAllFrame(s2, n.granted, agent, n.activationId, g, n.scope, ExpiryOf(now, n.maxSeconds.value), now);
      SameRegisterSameInv(s1, s2);
      SameRegisterSameInv(s1, s3);
      SameRegisterSameKept(s, s1, s2);
      SameRegisterSameKept(s, s1, s3);
      hide RegisterInv;
      hide ActivationsKept;
    }
  }

  lemma SameRegisterSameInv(s: State, t: State)
    requires SameRegister(s, t) && RegisterInv(s)
    ensures RegisterInv(t)
  {
    assert forall a, x :: Registered(t, a, x) ==> Registered(s, a, x) && RecordOf(t, a, x) == RecordOf(s, a, x);
    assert forall a :: NextGeneration(t, a) == NextGeneration(s, a);
    forall a, x, y | Registered(t, a, x) && Registered(t, a, y) && x != y
      ensures RecordOf(t, a, x).generation != RecordOf(t, a, y).generation
    {
      assert Registered(s, a, x) && Registered(s, a, y);
    }
    forall a | a in t.current
      ensures Registered(t, a, t.current[a]) && RecordOf(t, a, t.current[a]) == Activation(NextGeneration(t, a), false)
    {
      assert a in s.current;
    }
  }

  lemma SameRegisterSameKept(s: State, t: State, u: State)
    requires SameRegister(t, u) && ActivationsKept(s, t)
    ensures ActivationsKept(s, u)
  {
    assert forall a, x :: Registered(t, a, x) ==> Registered(u, a, x) && RecordOf(u, a, x) == RecordOf(t, a, x);
  }

  lemma RevokedRecords(s: State, activation: Text, reason: Reason, now: nat, a: Text, x: Text)
    ensures var t := RevokeActivation(s, activation, reason, now);
            && (Registered(t, a, x) <==> Registered(s, a, x))
            && (Registered(s, a, x) ==>
                  RecordOf(t, a, x)
                    == Activation(RecordOf(s, a, x).generation, RecordOf(s, a, x).revoked || x == activation))
            && NextGeneration(t, a) == NextGeneration(s, a)
            && (a in t.current ==> a in s.current && t.current[a] == s.current[a]
                                   && !(s.current[a] == activation && Registered(s, a, activation)))
  {
    hide RevokeSelected;
  }

  lemma RevokingKeepsRegister(s: State, activation: Text, reason: Reason, now: nat)
    requires RegisterInv(s)
    ensures RegisterInv(RevokeActivation(s, activation, reason, now))
    ensures ActivationsKept(s, RevokeActivation(s, activation, reason, now))
  {
    var t := RevokeActivation(s, activation, reason, now);
    hide RevokeActivation;
    hide NextGeneration;
    hide Registered;
    hide RecordOf;
    forall a, x
      ensures Registered(t, a, x) <==> Registered(s, a, x)
      ensures Registered(s, a, x) ==>
                RecordOf(t, a, x)
                  == Activation(RecordOf(s, a, x).generation, RecordOf(s, a, x).revoked || x == activation)
    {
      RevokedRecords(s, activation, reason, now, a, x);
    }
    forall a
      ensures NextGeneration(t, a) == NextGeneration(s, a)
      ensures a in t.current ==> a in s.current && t.current[a] == s.current[a]
                                 && !(s.current[a] == activation && Registered(s, a, activation))
    {
      RevokedRecords(s, activation, reason, now, a, activation);
    }
  }

  lemma StepKeepsRegister(s: State, op: Op)
    requires RegisterInv(s)
    ensures RegisterInv(Step(s, op)) && ActivationsKept(s, Step(s, op))
  {
    hide RegisterInv;
    hide ActivationsKept;
    hide Negotiate;
    hide RevokeActivation;
    match op
    case DoNegotiate(agent, n, now) => NegotiateKeepsRegister(s, agent, n, now);
    case DoRevokeActivation(activation, reason, now) => RevokingKeepsRegister(s, activation, reason, now);
    case _ =>
      assert SameRegister(s, Step(s, op));
      SameRegisterSameInv(s, Step(s, op));
      ActivationsKeptByItself(s);
      SameRegisterSameKept(s, s, Step(s, op));
  }

  lemma ActivationsKeptByItself(s: State)
    ensures ActivationsKept(s, s)
  {
  }

  lemma ActivationsKeptChains(s: State, t: State, u: State)
    requires ActivationsKept(s, t) && ActivationsKept(t, u)
    ensures ActivationsKept(s, u)
  {
  }

  /** Over every run, direct leases included, the generations of an agent stay distinct, its current
      activation is the newest, and activations keep their generation and stay revoked. */
  lemma {:induction false} RunKeepsRegister(s: State, ops: seq<Op>)
    requires RegisterInv(s)
    ensures RegisterInv(Run(s, ops)) && ActivationsKept(s, Run(s, ops))
  {
    hide RegisterInv;
    hide ActivationsKept;
    hide Step;
    if ops == [] {
      ActivationsKeptByItself(s);
    } else {
      var t := Run(s, ops[..|ops| - 1]);
      RunKeepsRegister(s, ops[..|ops| - 1]);
      StepKeepsRegister(t, ops[|ops| - 1]);
      ActivationsKeptChains(s, t, Step(t, ops[|ops| - 1]));
    }
  }

  lemma EmptyRegister()
    ensures RegisterInv(EMPTY)
  {
  }

  // ---------- A revoked activation is out ----------

  /** Every lease under the agent and generation is revoked. */
  predicate OutUnder(s: State, agent: Text, g: nat) {
    forall k :: k in s.leases && s.leases[k].owner == agent && s.leases[k].generation == g ==> s.leases[k].revoked.Some?
  }

  predicate IsOut(s: State, agent: Text, activation: Text) {
    && Registered(s, agent, activation) && RecordOf(s, agent, activation).revoked
    && OutUnder(s, agent, RecordOf(s, agent, activation).generation)
  }

  /** A live lease issued directly, past the bridge, under the agent and generation. */
  predicate LeasesUnder(op: Op, agent: Text, g: nat) {
    op.DoLease? && op.lease.owner == agent && op.lease.generation == g && op.lease.revoked.None?
  }

  lemma KeptStaysOut(s: State, t: State, agent: Text, g: nat)
    requires OutUnder(s, agent, g) && LeasesKept(s, t) && t.leases.Keys == s.leases.Keys
    ensures OutUnder(t, agent, g)
  {
  }

  lemma OthersLeasedStaysOut(s: State, t: State, agent: Text, g: nat, owner: Text, h: nat)
    requires OutUnder(s, agent, g) && OnlyLeased(s, t, owner, h) && !(owner == agent && h == g)
    ensures OutUnder(t, agent, g)
  {
  }

  /** A negotiation leases under a generation that no revoked activation of the agent has. */
  lemma NegotiateStaysOut(s: State, owner: Text, n: Negotiated, now: nat, agent: Text, activation: Text)
    requires RegisterInv(s) && IsOut(s, agent, activation)
    ensures OutUnder(Negotiate(s, owner, n, now).0, agent, RecordOf(s, agent, activation).generation)
  {
    hide GrantAll;
    hide LeaseAll;
    hide ExpiryOf;
    hide OutUnder;
    var g, s1, s2, s3 := NegotiateStages(s, owner, n, now);
    hide Negotiate;
    if Negotiate(s, owner, n, now).0 != s {
      RegisterOutcome(s, owner, n.activationId);
      RegisterKeeps(s, owner, n.activationId);
      hide Register;
      var out := RecordOf(s, agent, activation).generation;
      assert RecordOf(s1, agent, activation).generation == out && RecordOf(s1, agent, activation).revoked;
      assert owner == agent ==> g != out;
      hide RegisterInv;
      hide ActivationsKept;
      SameLeasesStayOut(s, s1, agent, out);
      GrantAllFrame(s1, n.granted, owner, g, n.scope, now);
      GrantAllKeepsLeases(s1, n.granted, owner, g, n.scope, now);
      KeptStaysOut(s1, s2, agent, out);
      LeaseAllFrame(s2, n.granted, owner, n.activationId, g, n.scope, ExpiryOf(now, n.maxSeconds.value), now);
      OthersLeasedStaysOut(s2, s3, agent, out, owner, g);
    }
  }

  lemma SameLeasesStayOut(s: State, t: State, agent: Text, g: nat)
    requires OutUnder(s, agent, g) && t.leases == s.leases
    ensures OutUnder(t, agent, g)
  {
  }

  lemma LeaseStaysOut(s: State, lease: Lease, now: nat, agent: Text, g: nat)
    requires OutUnder(s, agent, g) && !(lease.owner == agent && lease.generation == g && lease.revoked.None?)
    ensures OutUnder(LeaseStep(s, lease, now).0, agent, g)
  {
    hide Scope.Covers;
  }

  lemma StepStaysOut(s: State, op: Op, agent: Text, activation: Text)
    requires RegisterInv(s) && IsOut(s, agent, activation)
    requires !LeasesUnder(op, agent, RecordOf(s, agent, activation).generation)
    ensures IsOut(Step(s, op), agent, activation)
    ensures RecordOf(Step(s, op), agent, activation).generation == RecordOf(s, agent, activation).generation
  {
    StepKeepsRegister(s, op);
    hide RegisterInv;
    hide Negotiate;
    hide OutUnder;
    hide LeaseStep;
    hide GrantStep;
    hide LeasesKept;
    var g, t := RecordOf(s, agent, activation).generation, Step(s, op);
    match op
    case DoNegotiate(owner, n, now) => NegotiateStaysOut(s, owner, n, now, agent, activation);
    case DoLease(lease, now) => LeaseStaysOut(s, lease, now, agent, g);
    case DoGrant(grant, now) =>
      OneRegrant(s, grant, now);
      StepKeepsLeases(s, op);
      KeptStaysOut(s, t, agent, g);
    case DoRevoke(id, reason, now) =>
      StepKeepsLeases(s, op);
      assert t.leases.Keys == s.leases.Keys;
      KeptStaysOut(s, t, agent, g);
    case DoRevokeActivation(other, reason, now) =>
      StepKeepsLeases(s, op);
      assert t.leases.Keys == s.leases.Keys;
      hide RevokeActivation;
      KeptStaysOut(s, t, agent, g);
  }

  lemma {:induction false} RunStaysOut(s: State, ops: seq<Op>, agent: Text, activation: Text)
    requires RegisterInv(s) && IsOut(s, agent, activation)
    requires forall i :: 0 <= i < |ops| ==> !LeasesUnder(ops[i], agent, RecordOf(s, agent, activation).generation)
    ensures IsOut(Run(s, ops), agent, activation)
    ensures RecordOf(Run(s, ops), agent, activation).generation == RecordOf(s, agent, activation).generation
  {
    hide IsOut;
    hide Step;
    hide RegisterInv;
    assert Registered(s, agent, activation) by {
      OutIsRegistered(s, agent, activation);
    }
    if ops != [] {
      var front, last := ops[..|ops| - 1], ops[|ops| - 1];
      RunStaysOut(s, front, agent, activation);
      OutIsRegistered(Run(s, front), agent, activation);
      RunKeepsRegister(s, front);
      StepStaysOut(Run(s, front), last, agent, activation);
    }
  }

  lemma OutIsRegistered(s: State, agent: Text, activation: Text)
    requires IsOut(s, agent, activation)
    ensures Registered(s, agent, activation)
  {
  }

  /** Revoking an activation puts it out, whoever issued the leases under it. */
  lemma RevokingPutsOut(s: State, activation: Text, reason: Reason, now: nat, agent: Text)
    requires Registered(s, agent, activation)
    ensures var t := RevokeActivation(s, activation, reason, now);
            IsOut(t, agent, activation)
              && RecordOf(t, agent, activation).generation == RecordOf(s, agent, activation).generation
  {
    var t := RevokeActivation(s, activation, reason, now);
    RevokedRecords(s, activation, reason, now, agent, activation);
    var p := OfActivation(s.activations, activation, s.activations.Keys);
    SelectedAreRevoked(s.leases, p, reason, now);
    assert t.leases == RevokeSelected(s.leases, p, reason, now);
    hide RevokeSelected;
    hide RevokeActivation;
    forall k | k in t.leases && t.leases[k].owner == agent
      && t.leases[k].generation == RecordOf(s, agent, activation).generation
      ensures t.leases[k].revoked.Some?
    {
      assert Selects(p, s.leases[k]);
    }
  }

  lemma OutIsRefused(s: State, agent: Text, activation: Text, q: Request, now: nat)
    requires IsOut(s, agent, activation)
    requires q.owner == agent && q.generation == RecordOf(s, agent, activation).generation
    ensures Gate(s, q, now).Err?
  {
    assert forall k :: k in s.leases ==> !Authorises(s.leases[k], q, now);
  }

  /** After any run, once an activation is revoked, a later request under its agent and generation
      passes the gate only if a live lease was issued under them directly, past the bridge, since. */
  lemma RevokedActivationStaysOut(before: seq<Op>, activation: Text, reason: Reason, at: nat, after: seq<Op>,
      agent: Text, q: Request, now: nat)
    requires var s := Run(EMPTY, before);
             Registered(s, agent, activation) && q.owner == agent
               && q.generation == RecordOf(s, agent, activation).generation
    ensures Gate(Run(RevokeActivation(Run(EMPTY, before), activation, reason, at), after), q, now).Ok? ==>
              exists i :: 0 <= i < |after| && LeasesUnder(after[i], agent, q.generation)
  {
    hide Run;
    hide Gate;
    hide RegisterInv;
    hide IsOut;
    hide RevokeActivation;
    var s := Run(EMPTY, before);
    var t := RevokeActivation(s, activation, reason, at);
    EmptyRegister();
    RunKeepsRegister(EMPTY, before);
    RevokingKeepsRegister(s, activation, reason, at);
    RevokingPutsOut(s, activation, reason, at, agent);
    if forall i :: 0 <= i < |after| ==> !LeasesUnder(after[i], agent, q.generation) {
      RunStaysOut(t, after, agent, activation);
      OutIsRefused(Run(t, after), agent, activation, q, now);
    }
  }

  /** The condition is needed: the grant outlives the revocation, so such a lease opens the gate
      again. */
  lemma DirectLeaseReopens(s: State, activation: Text, reason: Reason, at: nat, lease: Lease, now: nat)
    requires lease.capability in s.grants && lease.id !in s.leases && lease.revoked.None? && now < lease.expiresAt
    requires var grant := s.grants[lease.capability];
             grant.owner == lease.owner && grant.generation == lease.generation && grant.scope.Covers(lease.scope)
    ensures var t := LeaseStep(RevokeActivation(s, activation, reason, at), lease, now).0;
            Gate(t, Request(lease.capability, lease.owner, lease.generation, lease.scope), now) == Ok(())
  {
    var u := RevokeActivation(s, activation, reason, at);
    SelectedAreRevoked(s.leases, OfActivation(s.activations, activation, s.activations.Keys), reason, at);
    assert u.grants == s.grants && u.leases.Keys == s.leases.Keys;
    hide RevokeActivation;
    var t := LeaseStep(u, lease, now).0;
    assert t.leases[lease.id] == lease && t.grants == s.grants;
    CoversIsReflexive(lease.scope);
    assert Authorises(t.leases[lease.id], Request(lease.capability, lease.owner, lease.generation, lease.scope), now);
  }

  // ---------- What a successful negotiation gives ----------

  lemma {:induction false} GrantStays(s: State, caps: seq<CapabilityId>, agent: Text, g: nat, scope: Scope, now: nat,
      c: CapabilityId)
    requires c in s.grants && s.grants[c] == BridgeGrant(c, agent, g, scope, now)
    ensures var t := GrantAll(s, caps, agent, g, scope, now).0; c in t.grants && t.grants[c] == s.grants[c]
    decreases |caps|
  {
    if caps != [] {
      var s' := GrantStep(s, BridgeGrant(caps[0], agent, g, scope, now), now).0;
      assert c in s'.grants && s'.grants[c] == s.grants[c];
      hide GrantStep;
      GrantStays(s', caps[1..], agent, g, scope, now, c);
    }
  }

  lemma GrantedNow(s: State, grant: Grant, now: nat)
    requires GrantStep(s, grant, now).1.Ok?
    ensures var t := GrantStep(s, grant, now).0; grant.capability in t.grants && t.grants[grant.capability] == grant
  {
  }

  lemma {:induction false} AllGranted(s: State, caps: seq<CapabilityId>, agent: Text, g: nat, scope: Scope, now: nat,
      c: CapabilityId)
    requires c in caps && GrantAll(s, caps, agent, g, scope, now).1.Ok?
    ensures var t := GrantAll(s, caps, agent, g, scope, now).0;
            c in t.grants && t.grants[c] == BridgeGrant(c, agent, g, scope, now)
    decreases |caps|
  {
    hide GrantStep;
    var grant := BridgeGrant(caps[0], agent, g, scope, now);
    var s' := GrantStep(s, grant, now).0;
    if c == caps[0] {
      GrantedNow(s, grant, now);
      GrantStays(s', caps[1..], agent, g, scope, now, c);
    } else {
      AllGranted(s', caps[1..], agent, g, scope, now, c);
    }
  }

  lemma LeasedNow(s: State, lease: Lease, now: nat)
    requires LeaseStep(s, lease, now).1.Ok?
    ensures var t := LeaseStep(s, lease, now).0;
            lease.id in t.leases && t.leases[lease.id] == lease && now < lease.expiresAt
  {
  }

  lemma {:induction false} AllLeased(s: State, caps: seq<CapabilityId>, agent: Text, activation: Text, g: nat,
      scope: Scope, expiresAt: nat, now: nat, c: CapabilityId)
    requires c in caps && LeaseAll(s, caps, agent, activation, g, scope, expiresAt, now).1.Ok?
    ensures var t := LeaseAll(s, caps, agent, activation, g, scope, expiresAt, now).0;
            var lease := BridgeLease(c, agent, activation, g, scope, expiresAt);
            lease.id in t.leases && t.leases[lease.id] == lease && now < expiresAt
    decreases |caps|
  {
    hide LeaseStep;
    var lease := BridgeLease(caps[0], agent, activation, g, scope, expiresAt);
    var s' := LeaseStep(s, lease, now).0;
    LeasedNow(s, lease, now);
    if c == caps[0] {
      LeaseAllFrame(s', caps[1..], agent, activation, g, scope, expiresAt, now);
    } else {
      AllLeased(s', caps[1..], agent, activation, g, scope, expiresAt, now, c);
    }
  }

  /** The state a successful negotiation leaves, capability by capability. */
  lemma NegotiatedState(s: State, agent: Text, n: Negotiated, now: nat, c: CapabilityId)
    requires RegisterInv(s) && c in n.granted
    requires Negotiate(s, agent, n, now).1.Ok?
    ensures var (t, r) := Negotiate(s, agent, n, now);
            var lease := BridgeLease(c, agent, n.activationId, r.value.generation, n.scope, r.value.expiresAt);
            && Refusal(n).None? && r.value.expiresAt == ExpiryOf(now, n.maxSeconds.value)
            && r.value == AgentGrant(agent, n.activationId, r.value.generation, n.granted, n.scope,
               n.maxSeconds.value, r.value.expiresAt, now)
            && Register(t, agent, n.activationId) == (t, Ok(r.value.generation))
            && c in t.grants && t.grants[c] == BridgeGrant(c, agent, r.value.generation, n.scope, now)
            && lease.id in t.leases && t.leases[lease.id] == lease && now < r.value.expiresAt
  {
    var (t, r) := Negotiate(s, agent, n, now);
    var (s1, registered) := Register(s, agent, n.activationId);
    var g := registered.value;
    var expiresAt := ExpiryOf(now, n.maxSeconds.value);
    hide GrantAll;
    hide LeaseAll;
    hide ExpiryOf;
    var s2 := GrantAll(s1, n.granted, agent, g, n.scope, now).0;
    RegisterOutcome(s, agent, n.activationId);
    AllGranted(s1, n.granted, agent, g, n.scope, now, c);
    GrantAllFrame(s1, n.granted, agent, g, n.scope, now);
    AllLeased(s2, n.granted, agent, n.activationId, g, n.scope, expiresAt, now, c);
    LeaseAllFrame(s2, n.granted, agent, n.activationId, g, n.scope, expiresAt, now);
    assert SameRegister(s1, t);
    SameRegisterSameAnswer(s1, t, agent, n.activationId);
  }

  lemma SameRegisterSameAnswer(s: State, t: State, agent: Text, activation: Text)
    requires SameRegister(s, t) && Register(s, agent, activation).0 == s
    ensures Register(t, agent, activation).1 == Register(s, agent, activation).1
    ensures Register(s, agent, activation).1.Ok? ==> Register(t, agent, activation).0 == t
  {
  }

  /** After a successful negotiation every granted capability passes the gate until the lease expires. */
  lemma NegotiatedPassesGate(s: State, agent: Text, n: Negotiated, now: nat, c: CapabilityId, later: nat)
    requires RegisterInv(s) && c in n.granted
    requires Negotiate(s, agent, n, now).1.Ok? && later < Negotiate(s, agent, n, now).1.value.expiresAt
    ensures var (t, r) := Negotiate(s, agent, n, now);
            Gate(t, Request(c, agent, r.value.generation, n.scope), later) == Ok(())
  {
    var (t, r) := Negotiate(s, agent, n, now);
    NegotiatedState(s, agent, n, now, c);
    hide Negotiate;
    hide Register;
    var lease := BridgeLease(c, agent, n.activationId, r.value.generation, n.scope, r.value.expiresAt);
    assert t.leases[lease.id] == lease;
    assert Authorises(t.leases[lease.id], Request(c, agent, r.value.generation, n.scope), later);
  }

  lemma {:induction false} RegrantsAreNoOps(t: State, caps: seq<CapabilityId>, agent: Text, g: nat, scope: Scope,
      now: nat)
    requires forall c :: c in caps ==> c in t.grants && t.grants[c] == BridgeGrant(c, agent, g, scope, now)
    ensures GrantAll(t, caps, agent, g, scope, now) == (t, Ok(()))
    decreases |caps|
  {
    if caps != [] {
      assert caps[0] in caps && forall c :: c in caps[1..] ==> c in caps;
      assert GrantStep(t, BridgeGrant(caps[0], agent, g, scope, now), now) == (t, Ok(()));
      hide GrantStep;
      RegrantsAreNoOps(t, caps[1..], agent, g, scope, now);
    }
  }

  lemma {:induction false} ReissuedLeasesAreNoOps(t: State, caps: seq<CapabilityId>, agent: Text, activation: Text,
      g: nat, scope: Scope, expiresAt: nat, now: nat)
    requires now < expiresAt
    requires forall c :: c in caps ==>
             c in t.grants && t.grants[c].owner == agent && t.grants[c].generation == g && t.grants[c].scope == scope
    requires forall c :: c in caps ==>
               var lease := BridgeLease(c, agent, activation, g, scope, expiresAt);
                 lease.id in t.leases && t.leases[lease.id] == lease
    ensures LeaseAll(t, caps, agent, activation, g, scope, expiresAt, now) == (t, Ok(()))
    decreases |caps|
  {
    if caps != [] {
      assert caps[0] in caps && forall c :: c in caps[1..] ==> c in caps;
      CoversIsReflexive(scope);
      hide Scope.Covers;
      var lease := BridgeLease(caps[0], agent, activation, g, scope, expiresAt);
      assert t.leases[lease.id] == lease;
      assert LeaseStep(t, lease, now) == (t, Ok(()));
      hide LeaseStep;
      ReissuedLeasesAreNoOps(t, caps[1..], agent, activation, g, scope, expiresAt, now);
    }
  }

  /** Replaying the current activation repeats the grants and leases without changing anything,
      but only within the same clock reading: the grant records its creation time, so at any other
      time the replay is refused as a conflict. */
  lemma ReplayWithinTheSameInstant(s: State, agent: Text, n: Negotiated, now: nat, again: nat)
    requires RegisterInv(s) && Negotiate(s, agent, n, now).1.Ok?
    ensures var (t, r) := Negotiate(s, agent, n, now);
            Negotiate(t, agent, n, again) == if again == now then (t, r) else (t, Err(BrokerRefused(Conflict)))
  {
    var (t, r) := Negotiate(s, agent, n, now);
    var g := r.value.generation;
    forall c | c in n.granted
      ensures c in t.grants && t.grants[c] == BridgeGrant(c, agent, g, n.scope, now)
      ensures var lease := BridgeLease(c, agent, n.activationId, g, n.scope, r.value.expiresAt);
              lease.id in t.leases && t.leases[lease.id] == lease
    {
      NegotiatedState(s, agent, n, now, c);
    }
    assert Refusal(n).None?;
    NegotiatedState(s, agent, n, now, n.granted[0]);
    ReplayFromState(t, r.value, n, again);
  }

  lemma ReplayFromState(t: State, r: AgentGrant, n: Negotiated, again: nat)
    requires Refusal(n).None? && r.capabilities == n.granted && r.activationId == n.activationId && r.scope == n.scope
    requires r.maxSeconds == n.maxSeconds.value && r.expiresAt == ExpiryOf(r.grantedAt, r.maxSeconds)
             && r.grantedAt < r.expiresAt
    requires Register(t, r.agentId, n.activationId) == (t, Ok(r.generation))
    requires forall c :: c in n.granted ==>
             c in t.grants && t.grants[c] == BridgeGrant(c, r.agentId, r.generation, n.scope, r.grantedAt)
    requires forall c :: c in n.granted ==>
               var lease := BridgeLease(c, r.agentId, n.activationId, r.generation, n.scope, r.expiresAt);
               lease.id in t.leases && t.leases[lease.id] == lease
    ensures Negotiate(t, r.agentId, n, again)
         == if again == r.grantedAt then (t, Ok(r)) else (t, Err(BrokerRefused(Conflict)))
  {
    hide ExpiryOf;
    hide Register;
    if again == r.grantedAt {
      hide GrantAll;
      hide LeaseAll;
      RegrantsAreNoOps(t, n.granted, r.agentId, r.generation, n.scope, again);
      ReissuedLeasesAreNoOps(t, n.granted, r.agentId, n.activationId, r.generation, n.scope, r.expiresAt, again);
    } else {
      hide LeaseAll;
      var c := n.granted[0];
      assert c in n.granted;
      assert GrantStep(t, BridgeGrant(c, r.agentId, r.generation, n.scope, again), again) == (t, Err(Conflict));
      hide GrantStep;
      assert GrantAll(t, n.granted, r.agentId, r.generation, n.scope, again) == (t, Err(Conflict));
    }
  }

  /** After a successful negotiation the granted capabilities have no live lease of another owner
      or generation, and every other capability keeps its grant and leases. */
  lemma NegotiationSupersedes(s: State, agent: Text, n: Negotiated, now: nat)
    requires Inv(s) && RegisterInv(s) && Negotiate(s, agent, n, now).1.Ok?
    ensures var (t, r) := Negotiate(s, agent, n, now);
            && (forall k :: k in t.leases && t.leases[k].capability in n.granted && t.leases[k].revoked.None? ==>
                  t.leases[k].owner == agent && t.leases[k].generation == r.value.generation)
            && (forall k :: k in s.leases && s.leases[k].capability !in n.granted ==>
               k in t.leases && t.leases[k] == s.leases[k])
            && (forall c :: c in s.grants && c !in n.granted ==> c in t.grants && t.grants[c] == s.grants[c])
  {
    var (t, r) := Negotiate(s, agent, n, now);
    var g, s1, s2, s3 := NegotiateStages(s, agent, n, now);
    NegotiateKeepsInv(s, agent, n, now);
    GrantAllFrame(s1, n.granted, agent, g, n.scope, now);
    GrantAllKeepsLeases(s1, n.granted, agent, g, n.scope, now);
    if n.maxSeconds.Some? {
      LeaseAllFrame(s2, n.granted, agent, n.activationId, g, n.scope, ExpiryOf(now, n.maxSeconds.value), now);
    }
    forall k | k in t.leases && t.leases[k].capability in n.granted && t.leases[k].revoked.None?
      ensures t.leases[k].owner == agent && t.leases[k].generation == r.value.generation
    {
      NegotiatedState(s, agent, n, now, t.leases[k].capability);
      hide Negotiate;
      assert BackedByGrant(t.grants, t.leases[k]);
    }
    hide Negotiate;
    hide Inv;
    hide GrantAll;
    hide LeaseAll;
    hide Register;
    hide ExpiryOf;
  }
}
