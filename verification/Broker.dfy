/**
  * The capability broker: grants, leases, revocation and the dispatch gate
  * (crates/supervisor/src/broker.rs), and the agent authorization bridge that turns one
  * negotiated activation into grants and leases (crates/supervisor/src/broker/agent.rs).
  * The clock is an argument of every operation that reads it.
  */
module Broker {
  import opened Core

  // ---------- Values ----------

  datatype CapabilityId = CapabilityId(apiVersion: Text, kind: Text)

  /** An unset value or an empty list imposes no constraint. */
  datatype Scope = Scope(sessionId: Option<Text>, workspace: Option<Text>, domains: seq<Text>, resources: seq<Text>)
  {
    predicate Covers(requested: Scope) {
      && (sessionId.Some? ==> requested.sessionId == sessionId)
      && (workspace.Some? ==> requested.workspace == workspace)
      && (domains != [] ==> forall d :: d in requested.domains ==> d in domains)
      && (resources != [] ==> forall r :: r in requested.resources ==> r in resources)
    }
  }

  const DEFAULT_SCOPE := Scope(None, None, [], [])

  datatype Reason = Disconnect | Unload | Expiry | HumanTakeover | GenerationChange

  datatype Revocation = Revocation(reason: Reason, at: nat)

  datatype Grant = Grant(capability: CapabilityId, version: Text, scope: Scope, owner: Text, generation: nat,
                         createdAt: nat)

  datatype Lease = Lease(id: Text, capability: CapabilityId, owner: Text, generation: nat, scope: Scope,
                         expiresAt: nat, revoked: Option<Revocation>)

  datatype BrokerError =
    | UnknownCapability | UnknownProvider | NotGranted | LeaseExpired | LeaseRevoked
    | ScopeMismatch | GenerationMismatch | Conflict

  datatype Activation = Activation(generation: nat, revoked: bool)

  datatype State = State(
    grants: map<CapabilityId, Grant>,
    leases: map<Text, Lease>,
    activations: map<Text, map<Text, Activation>>,
    current: map<Text, Text>,
    nextGeneration: map<Text, nat>)

  const EMPTY := State(map[], map[], map[], map[], map[])

  // ---------- Grants and leases ----------

  function RevokedBy(lease: Lease, reason: Reason, now: nat): Lease {
    if lease.revoked.None? then lease.(revoked := Some(Revocation(reason, now))) else lease
  }

  /** Which leases a revocation loop picks. */
  datatype Selection =
    | OfCapability(capability: CapabilityId)
    | OfOwner(owner: Text, generation: nat)
    | OfActivation(activations: map<Text, map<Text, Activation>>, activation: Text, agents: set<Text>)

  predicate Selects(p: Selection, lease: Lease) {
    match p
    case OfCapability(c) => lease.capability == c
    case OfOwner(owner, generation) => lease.owner == owner && lease.generation == generation
    case OfActivation(activations, activation, agents) =>
      lease.owner in agents && BelongsTo(activations, lease, activation)
  }

  /** The lease belongs to the activation, of whichever agent. */
  predicate BelongsTo(activations: map<Text, map<Text, Activation>>, lease: Lease, activation: Text) {
    && lease.owner in activations && activation in activations[lease.owner]
    && activations[lease.owner][activation].generation == lease.generation
  }

  /** Revokes the selected leases; the first revocation record of a lease is kept. */
  function RevokeSelected(leases: map<Text, Lease>, p: Selection, reason: Reason, now: nat): map<Text, Lease> {
    map k | k in leases :: if Selects(p, leases[k]) then RevokedBy(leases[k], reason, now) else leases[k]
  }

  /** Granting: an identical grant is a no-op, another generation supersedes, anything else conflicts. */
  function GrantStep(s: State, grant: Grant, now: nat): (State, Result<(), BrokerError>) {
    var c := grant.capability;
    if c !in s.grants then (s.(grants := s.grants[c := grant]), Ok(()))
    else if s.grants[c] == grant then (s, Ok(()))
    else if s.grants[c].generation != grant.generation then
      var leases := RevokeSelected(s.leases, OfCapability(c), GenerationChange, now);
      (s.(grants := s.grants[c := grant], leases := leases), Ok(()))
    else (s, Err(Conflict))
  }

  function LeaseStep(s: State, lease: Lease, now: nat): (State, Result<(), BrokerError>) {
    if lease.capability !in s.grants then (s, Err(UnknownCapability))
    else
      var grant := s.grants[lease.capability];
      if grant.owner != lease.owner then (s, Err(NotGranted))
      else if grant.generation != lease.generation then (s, Err(GenerationMismatch))
      else if !grant.scope.Covers(lease.scope) then (s, Err(ScopeMismatch))
      else if lease.expiresAt <= now then (s, Err(LeaseExpired))
      else if lease.id in s.leases then (s, if s.leases[lease.id] == lease then Ok(()) else Err(Conflict))
      else (s.(leases := s.leases[lease.id := lease]), Ok(()))
  }

  function RevokeStep(s: State, id: Text, reason: Reason, now: nat): State {
    if id in s.leases then s.(leases := s.leases[id := RevokedBy(s.leases[id], reason, now)]) else s
  }

  // ---------- The dispatch gate, declared ----------

  datatype Request = Request(capability: CapabilityId, owner: Text, generation: nat, scope: Scope)

  predicate Matches(lease: Lease, q: Request) {
    lease.capability == q.capability && lease.owner == q.owner && lease.generation == q.generation
  }

  predicate Backs(lease: Lease, q: Request) {
    Matches(lease, q) && lease.scope.Covers(q.scope)
  }

  /** The lease authorises the request now. */
  predicate Authorises(lease: Lease, q: Request, now: nat) {
    Backs(lease, q) && lease.revoked.None? && now < lease.expiresAt
  }

  /** What the lease scan decides, whatever order it visits the leases in. */
  ghost function LeaseVerdict(leases: map<Text, Lease>, q: Request, now: nat): Result<(), BrokerError> {
    if exists k :: k in leases && Authorises(leases[k], q, now) then Ok(())
    else if exists k :: k in leases && Backs(leases[k], q) && leases[k].revoked.Some? then Err(LeaseRevoked)
    else if exists k :: k in leases && Backs(leases[k], q) then Err(LeaseExpired)
    else if exists k :: k in leases && Matches(leases[k], q) then Err(ScopeMismatch)
    else Err(NotGranted)
  }

  ghost function Gate(s: State, q: Request, now: nat): Result<(), BrokerError> {
    if q.capability !in s.grants then Err(UnknownCapability)
    else
      var grant := s.grants[q.capability];
      if grant.owner != q.owner then Err(NotGranted)
      else if grant.generation != q.generation then Err(GenerationMismatch)
      else if !grant.scope.Covers(q.scope) then Err(ScopeMismatch)
      else LeaseVerdict(s.leases, q, now)
  }

  // ---------- The agent bridge ----------

  datatype Conformance = Known | Absent | Unknown

  datatype Negotiated = Negotiated(activationId: Text, agreed: bool, granted: seq<CapabilityId>,
                                   conformance: Conformance, maxSeconds: Option<nat>, scope: Scope)

  datatype AgentGrant = AgentGrant(agentId: Text, activationId: Text, generation: nat, capabilities: seq<CapabilityId>,
                                   scope: Scope, maxSeconds: nat, expiresAt: nat, grantedAt: nat)

  datatype BridgeError =
    | NotNegotiated | NothingGranted | NoLeasePolicy | ConformanceNotKnown
    | ActivationRevoked | StaleActivation | BrokerRefused(error: BrokerError)

  const U64_MAX: nat := 0xFFFF_FFFF_FFFF_FFFF

  function Saturated(n: nat): nat {
    if n > U64_MAX then U64_MAX else n
  }

  function ExpiryOf(now: nat, maxSeconds: nat): nat {
    Saturated(now + Saturated(maxSeconds * 1000))
  }

  const SLASH: Byte := 47
  const HYPHEN: Byte := 45

  /** The part of an api version after its last slash. */
  function ContractVersion(apiVersion: Text): Text {
    if apiVersion == [] then []
    else if apiVersion[|apiVersion| - 1] == SLASH then []
    else ContractVersion(apiVersion[..|apiVersion| - 1]) + [apiVersion[|apiVersion| - 1]]
  }

  /** `agent-<agent>-<activation>-<apiVersion>-<kind>` */
  function LeaseId(agent: Text, activation: Text, c: CapabilityId): Text {
    [97, 103, 101, 110, 116, 45] + agent + [HYPHEN] + activation + [HYPHEN] + c.apiVersion + [HYPHEN] + c.kind
  }

  function BridgeGrant(c: CapabilityId, agent: Text, generation: nat, scope: Scope, now: nat): Grant {
    Grant(c, ContractVersion(c.apiVersion), scope, agent, generation, now)
  }

  function BridgeLease(c: CapabilityId, agent: Text, activation: Text, generation: nat, scope: Scope,
      expiresAt: nat): Lease {
    Lease(LeaseId(agent, activation, c), c, agent, generation, scope, expiresAt, None)
  }

  function ActivationsOf(s: State, agent: Text): map<Text, Activation> {
    if agent in s.activations then s.activations[agent] else map[]
  }

  function NextGeneration(s: State, agent: Text): nat {
    if agent in s.nextGeneration then s.nextGeneration[agent] else 0
  }

  /** Finds the generation of an activation, giving a new activation the agent's next one. */
  function Register(s: State, agent: Text, activation: Text): (State, Result<nat, BridgeError>) {
    var known := ActivationsOf(s, agent);
    if activation in known then
      if known[activation].revoked then (s, Err(ActivationRevoked))
      else if agent in s.current && s.current[agent] == activation then (s, Ok(known[activation].generation))
      else (s, Err(StaleActivation))
    else
      var g := NextGeneration(s, agent) + 1;
      (s.(activations := s.activations[agent := known[activation := Activation(g, false)]],
          current := s.current[agent := activation],
          nextGeneration := s.nextGeneration[agent := g]),
       Ok(g))
  }

  function GrantAll(s: State, caps: seq<CapabilityId>, agent: Text, g: nat, scope: Scope, now: nat)
      : (State, Result<(), BrokerError>)
    decreases |caps|
  {
    if caps == [] then (s, Ok(()))
    else
      var (s', r) := GrantStep(s, BridgeGrant(caps[0], agent, g, scope, now), now);
      if r.Err? then (s', r) else GrantAll(s', caps[1..], agent, g, scope, now)
  }

  function LeaseAll(s: State, caps: seq<CapabilityId>, agent: Text, activation: Text, g: nat, scope: Scope,
      expiresAt: nat, now: nat)
    : (State, Result<(), BrokerError>)
    decreases |caps|
  {
    if caps == [] then (s, Ok(()))
    else
      var (s', r) := LeaseStep(s, BridgeLease(caps[0], agent, activation, g, scope, expiresAt), now);
      if r.Err? then (s', r) else LeaseAll(s', caps[1..], agent, activation, g, scope, expiresAt, now)
  }

  function Refusal(n: Negotiated): Option<BridgeError> {
    if !n.agreed then Some(NotNegotiated)
    else if n.conformance != Known then Some(ConformanceNotKnown)
    else if n.granted == [] then Some(NothingGranted)
    else if n.maxSeconds.None? || n.maxSeconds.value == 0 then Some(NoLeasePolicy)
    else None
  }

  /** One negotiated activation: register it, grant every capability, then lease every capability.
      A conflict part-way leaves the grants made so far. */
  function Negotiate(s: State, agent: Text, n: Negotiated, now: nat): (State, Result<AgentGrant, BridgeError>) {
    if Refusal(n).Some? then (s, Err(Refusal(n).value))
    else
      var (s1, registered) := Register(s, agent, n.activationId);
      if registered.Err? then (s1, Err(registered.error))
      else
        var g := registered.value;
        var expiresAt := ExpiryOf(now, n.maxSeconds.value);
        var (s2, granted) := GrantAll(s1, n.granted, agent, g, n.scope, now);
        if granted.Err? then (s2, Err(BrokerRefused(granted.error)))
        else
          var (s3, leased) := LeaseAll(s2, n.granted, agent, n.activationId, g, n.scope, expiresAt, now);
          if leased.Err? then (s3, Err(BrokerRefused(leased.error)))
          else (s3, Ok(AgentGrant(agent, n.activationId, g, n.granted, n.scope, n.maxSeconds.value, expiresAt, now)))
  }

  function MarkRevoked(known: map<Text, Activation>, activation: Text): map<Text, Activation>
    requires activation in known
  {
    known[activation := known[activation].(revoked := true)]
  }

  function RevokeActivation(s: State, activation: Text, reason: Reason, now: nat): State {
    State(
      s.grants,
      RevokeSelected(s.leases, OfActivation(s.activations, activation, s.activations.Keys), reason, now),
      map a | a in s.activations ::
        if activation in s.activations[a] then MarkRevoked(s.activations[a], activation) else s.activations[a],
      map a | a in s.current
        && !(s.current[a] == activation && a in s.activations && activation in s.activations[a]) :: s.current[a],
      s.nextGeneration)
  }

  // ---------- The broker object ----------

  datatype Invocation = Invocation(capability: CapabilityId, method_: Text, owner: Text, generation: nat,
                                   scope: Scope, payload: Text)

  datatype Provider = Provider(id: Text, capability: CapabilityId, handler: Invocation -> Text)

  class CapabilityBroker {
    var grants: map<CapabilityId, Grant>
    var leases: map<Text, Lease>
    var providers: map<Text, Provider>
    var activations: map<Text, map<Text, Activation>>
    var current: map<Text, Text>
    var nextGeneration: map<Text, nat>

    ghost function View(): State
      reads this
    {
      State(grants, leases, activations, current, nextGeneration)
    }

    constructor ()
      ensures View() == EMPTY && providers == map[]
    {
      grants, leases, providers := map[], map[], map[];
      activations, current, nextGeneration := map[], map[], map[];
    }

    method RegisterProvider(provider: Provider) returns (r: Result<(), BrokerError>)
      modifies this
      ensures View() == old(View())
      ensures if provider.id in old(providers) then r == Err(Conflict) && providers == old(providers)
              else r == Ok(()) && providers == old(providers)[provider.id := provider]
    {
      if provider.id in providers {
        return Err(Conflict);
      }
      providers := providers[provider.id := provider];
      return Ok(());
    }

    /** Visits the leases in an arbitrary order and overwrites the live selected ones in place. */
    method RevokeLeases(p: Selection, reason: Reason, now: nat)
      modifies this`leases
      ensures leases == RevokeSelected(old(leases), p, reason, now)
    {
      hide Selects;
      hide RevokedBy;
      ghost var before := leases;
      var todo := leases.Keys;
      while todo != {}
        invariant todo <= leases.Keys == before.Keys
        invariant forall k :: k in before && k in todo ==> leases[k] == before[k]
        invariant forall k :: k in before && k !in todo ==>
                    leases[k] == if Selects(p, before[k]) then RevokedBy(before[k], reason, now) else before[k]
      {
        var k :| k in todo;
        var lease := leases[k];
        if Selects(p, lease) {
          leases := leases[k := RevokedBy(lease, reason, now)];
        }
        todo := todo - {k};
      }
    }

    method Grant(grant: Grant, now: nat) returns (r: Result<(), BrokerError>)
      modifies this`grants, this`leases
      ensures (View(), r) == GrantStep(old(View()), grant, now)
    {
      var c := grant.capability;
      if c in grants {
        if grants[c] == grant {
          return Ok(());
        }
        if grants[c].generation != grant.generation {
          RevokeLeases(OfCapability(c), GenerationChange, now);
          grants := grants[c := grant];
          return Ok(());
        }
        return Err(Conflict);
      }
      grants := grants[c := grant];
      return Ok(());
    }

    method Lease(lease: Lease, now: nat) returns (r: Result<(), BrokerError>)
      modifies this`leases
      ensures (View(), r) == LeaseStep(old(View()), lease, now)
    {
      if lease.capability !in grants {
        return Err(UnknownCapability);
      }
      var grant := grants[lease.capability];
      if grant.owner != lease.owner {
        return Err(NotGranted);
      }
      if grant.generation != lease.generation {
        return Err(GenerationMismatch);
      }
      if !grant.scope.Covers(lease.scope) {
        return Err(ScopeMismatch);
      }
      if lease.expiresAt <= now {
        return Err(LeaseExpired);
      }
      if lease.id in leases {
        return if leases[lease.id] == lease then Ok(()) else Err(Conflict);
      }
      leases := leases[lease.id := lease];
      return Ok(());
    }

    method Revoke(id: Text, reason: Reason, now: nat)
      modifies this`leases
      ensures View() == RevokeStep(old(View()), id, reason, now)
    {
      if id in leases {
        var lease := leases[id];
        if lease.revoked.None? {
          leases := leases[id := lease.(revoked := Some(Revocation(reason, now)))];
        } else {
          assert leases[id := lease] == leases;
        }
      }
    }

    /** The lease scan: four flags over the leases in an arbitrary order. */
    method EnforceValidLease(q: Request, now: nat) returns (r: Result<(), BrokerError>)
      ensures r == LeaseVerdict(leases, q, now)
    {
      var matched, covering, revoked, expired := false, false, false, false;
      var todo := leases.Keys;
      while todo != {}
        invariant todo <= leases.Keys
        invariant forall k :: k in leases && k !in todo ==> !Authorises(leases[k], q, now)
        invariant matched <==> exists k :: k in leases && k !in todo && Matches(leases[k], q)
        invariant covering <==> exists k :: k in leases && k !in todo && Backs(leases[k], q)
        invariant revoked <==> exists k :: k in leases && k !in todo && Backs(leases[k], q) && leases[k].revoked.Some?
        invariant expired <==> exists k :: k in leases && k !in todo && Backs(leases[k], q) && leases[k].revoked.None?
      {
        var k :| k in todo;
        todo := todo - {k};
        var lease := leases[k];
        if Matches(lease, q) {
          matched := true;
          if lease.scope.Covers(q.scope) {
            covering := true;
            if lease.revoked.Some? {
              revoked := true;
            } else if lease.expiresAt <= now {
              expired := true;
            } else {
              return Ok(());
            }
          }
        }
      }
      if revoked {
        return Err(LeaseRevoked);
      } else if expired {
        return Err(LeaseExpired);
      } else if covering {
        // The fallback arm: a covering lease is revoked, expired or accepted above.
        assert false;
      } else if matched {
        return Err(ScopeMismatch);
      } else {
        return Err(NotGranted);
      }
    }

    method EnforceDispatch(q: Request, now: nat) returns (r: Result<(), BrokerError>)
      ensures r == Gate(View(), q, now)
    {
      if q.capability !in grants {
        return Err(UnknownCapability);
      }
      var grant := grants[q.capability];
      if grant.owner != q.owner {
        return Err(NotGranted);
      }
      if grant.generation != q.generation {
        return Err(GenerationMismatch);
      }
      if !grant.scope.Covers(q.scope) {
        return Err(ScopeMismatch);
      }
      r := EnforceValidLease(q, now);
    }

    /** A provider's handler runs only behind the gate, and only for the provider's own capability. */
    method Dispatch(providerId: Text, inv: Invocation, now: nat) returns (r: Result<Text, BrokerError>)
      ensures var q := Request(inv.capability, inv.owner, inv.generation, inv.scope);
              r == if providerId !in providers then Err(UnknownProvider)
                   else if providers[providerId].capability != inv.capability then Err(UnknownCapability)
                   else if Gate(View(), q, now).Err? then Err(Gate(View(), q, now).error)
                   else Ok(providers[providerId].handler(inv))
    {
      if providerId !in providers {
        return Err(UnknownProvider);
      }
      var provider := providers[providerId];
      if provider.capability != inv.capability {
        return Err(UnknownCapability);
      }
      var gate := EnforceDispatch(Request(inv.capability, inv.owner, inv.generation, inv.scope), now);
      if gate.Err? {
        return Err(gate.error);
      }
      return Ok(provider.handler(inv));
    }

    method RegisterActivation(agent: Text, activation: Text) returns (r: Result<nat, BridgeError>)
      modifies this`activations, this`current, this`nextGeneration
      ensures (View(), r) == Register(old(View()), agent, activation)
    {
      var known := if agent in activations then activations[agent] else map[];
      if activation in known {
        if known[activation].revoked {
          return Err(ActivationRevoked);
        }
        if !(agent in current && current[agent] == activation) {
          return Err(StaleActivation);
        }
        return Ok(known[activation].generation);
      }
      var generation := (if agent in nextGeneration then nextGeneration[agent] else 0) + 1;
      nextGeneration := nextGeneration[agent := generation];
      activations := activations[agent := known[activation := Activation(generation, false)]];
      current := current[agent := activation];
      return Ok(generation);
    }

    method GrantFromNegotiation(agent: Text, n: Negotiated, now: nat) returns (r: Result<AgentGrant, BridgeError>)
      modifies this
      ensures (View(), r) == Negotiate(old(View()), agent, n, now)
      ensures providers == old(providers)
    {
      if !n.agreed {
        return Err(NotNegotiated);
      }
      if n.conformance != Known {
        return Err(ConformanceNotKnown);
      }
      if n.granted == [] {
        return Err(NothingGranted);
      }
      if n.maxSeconds.None? || n.maxSeconds.value == 0 {
        return Err(NoLeasePolicy);
      }
      hide GrantStep;
      hide LeaseStep;
      hide Register;
      var registered := RegisterActivation(agent, n.activationId);
      if registered.Err? {
        return Err(registered.error);
      }
      var generation := registered.value;
      ghost var s1 := View();
      for i := 0 to |n.granted|
        invariant providers == old(providers)
        invariant GrantAll(s1, n.granted, agent, generation, n.scope, now)
               == GrantAll(View(), n.granted[i..], agent, generation, n.scope, now)
      {
        var granted := Grant(BridgeGrant(n.granted[i], agent, generation, n.scope, now), now);
        if granted.Err? {
          return Err(BrokerRefused(granted.error));
        }
        assert n.granted[i..][1..] == n.granted[i + 1..];
      }
      ghost var s2 := View();
      var expiresAt := ExpiryOf(now, n.maxSeconds.value);
      for i := 0 to |n.granted|
        invariant providers == old(providers)
        invariant LeaseAll(s2, n.granted, agent, n.activationId, generation, n.scope, expiresAt, now)
               == LeaseAll(View(), n.granted[i..], agent, n.activationId, generation, n.scope, expiresAt, now)
      {
        var leased := Lease(BridgeLease(n.granted[i], agent, n.activationId, generation, n.scope, expiresAt), now);
        if leased.Err? {
          return Err(BrokerRefused(leased.error));
        }
        assert n.granted[i..][1..] == n.granted[i + 1..];
      }
      return Ok(AgentGrant(agent, n.activationId, generation, n.granted, n.scope, n.maxSeconds.value, expiresAt, now));
    }

    /** Revokes every lease of an activation and marks the activation revoked for good. The agents
        that registered the activation are visited in an arbitrary order. */
    method RevokeAgentGrants(activation: Text, reason: Reason, now: nat)
      modifies this
      ensures View() == RevokeActivation(old(View()), activation, reason, now)
      ensures providers == old(providers)
    {
      hide RevokeSelected;
      hide RevokedFor;
      hide RevokeActivation;
      ghost var s := View();
      var targets := set a | a in activations && activation in activations[a];
      var todo := targets;
      RevokedForNone(s, activation, reason, now);
      assert targets - todo == {};
      while todo != {}
        invariant todo <= targets && providers == old(providers)
        invariant View() == RevokedFor(s, targets - todo, activation, reason, now)
      {
        var agent :| agent in todo;
        RevokedForOneMore(s, targets - todo, agent, activation, reason, now);
        assert targets - (todo - {agent}) == targets - todo + {agent};
        var generation := activations[agent][activation].generation;
        RevokeLeases(OfOwner(agent, generation), reason, now);
        activations := activations[agent := MarkRevoked(activations[agent], activation)];
        if agent in current && current[agent] == activation {
          current := current - {agent};
        }
        todo := todo - {agent};
      }
      assert targets - todo == targets;
      RevokedForAll(s, targets, activation, reason, now);
    }
  }

  // ---------- Revoking an activation agent by agent ----------

  /** `RevokeActivation` restricted to the given agents. */
  ghost function RevokedFor(s: State, done: set<Text>, activation: Text, reason: Reason, now: nat): State {
    State(
      s.grants,
      RevokeSelected(s.leases, OfActivation(s.activations, activation, done), reason, now),
      map a | a in s.activations ::
        if a in done && activation in s.activations[a] then MarkRevoked(s.activations[a], activation)
        else s.activations[a],
      map a | a in s.current && !(a in done && s.current[a] == activation) :: s.current[a],
      s.nextGeneration)
  }

  lemma RevokedForNone(s: State, activation: Text, reason: Reason, now: nat)
    ensures RevokedFor(s, {}, activation, reason, now) == s
  {
    var r := RevokedFor(s, {}, activation, reason, now);
    assert r.leases == s.leases;
    assert r.activations == s.activations;
    assert r.current == s.current;
  }

  lemma RevokedForAll(s: State, targets: set<Text>, activation: Text, reason: Reason, now: nat)
    requires targets == set a | a in s.activations && activation in s.activations[a]
    ensures RevokedFor(s, targets, activation, reason, now) == RevokeActivation(s, activation, reason, now)
  {
    var r, t := RevokedFor(s, targets, activation, reason, now), RevokeActivation(s, activation, reason, now);
    assert r.leases == t.leases;
    assert r.activations == t.activations;
    assert r.current == t.current;
  }

  lemma RevokedLeasesOneMore(s: State, done: set<Text>, agent: Text, activation: Text, reason: Reason, now: nat)
    requires agent in s.activations && activation in s.activations[agent] && agent !in done
    ensures var r := RevokeSelected(s.leases, OfActivation(s.activations, activation, done), reason, now);
            RevokeSelected(s.leases, OfActivation(s.activations, activation, done + {agent}), reason, now)
            == RevokeSelected(r, OfOwner(agent, s.activations[agent][activation].generation), reason, now)
  {
    var r := RevokeSelected(s.leases, OfActivation(s.activations, activation, done), reason, now);
    var x := RevokeSelected(s.leases, OfActivation(s.activations, activation, done + {agent}), reason, now);
    var y := RevokeSelected(r, OfOwner(agent, s.activations[agent][activation].generation), reason, now);
    forall k | k in s.leases
      ensures x[k] == y[k]
    {
    }
  }

  lemma RevokedForOneMore(s: State, done: set<Text>, agent: Text, activation: Text, reason: Reason, now: nat)
    requires agent in s.activations && activation in s.activations[agent] && agent !in done
    ensures var r := RevokedFor(s, done, activation, reason, now);
            var t := RevokedFor(s, done + {agent}, activation, reason, now);
            var p := OfOwner(agent, s.activations[agent][activation].generation);
            && t.grants == r.grants && t.nextGeneration == r.nextGeneration
            && agent in r.activations && r.activations[agent] == s.activations[agent]
            && t.leases == RevokeSelected(r.leases, p, reason, now)
            && t.activations == r.activations[agent := MarkRevoked(s.activations[agent], activation)]
            && t.current ==
               (if agent in r.current && r.current[agent] == activation then r.current - {agent} else r.current)
  {
    RevokedLeasesOneMore(s, done, agent, activation, reason, now);
    hide RevokeSelected;
    var r, t := RevokedFor(s, done, activation, reason, now), RevokedFor(s, done + {agent}, activation, reason, now);
    assert t.activations == r.activations[agent := MarkRevoked(s.activations[agent], activation)];
    assert t.current ==
           (if agent in r.current && r.current[agent] == activation then r.current - {agent} else r.current);
  }
}
