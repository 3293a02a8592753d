/**
  * The daemon with any number of connections over one broker: connections open, receive and end in
  * any interleaving, and a connection that ends releases what it negotiated
  * (crates/daemon/src/server.rs, serve_connection).
  */
module Daemon {
  import opened Core
  import opened Envelope
  import opened Session
  import opened BrokerRuns
  import opened BridgeRuns
  import opened BridgeSuccess
  import opened SessionRuns
  import opened SessionReplies
  import Broker

  datatype System = System(broker: Broker.State, connections: map<nat, Session.State>)

  const STARTED := System(Broker.EMPTY, map[])

  /** The serve loop ends when the peer's frames end, or early when a reply cannot be sent. */
  datatype Ending = EndOfStream | SendFailed

  /** A release visits the activations in some order, each at its own clock reading. */
  datatype Event =
    | Open(key: nat, identity: Option<Identity>)
    | Receive(key: nat, incoming: Incoming, amb: Ambient, outcome: Outcome)
    | Close(key: nat, ending: Ending, order: seq<(Text, nat)>)

  function Revocations(order: seq<(Text, nat)>): (ops: seq<Op>)
    ensures |ops| == |order|
    ensures forall i :: 0 <= i < |ops| ==> ops[i] == DoRevokeActivation(order[i].0, Broker.Disconnect, order[i].1)
  {
    if order == [] then []
    else
      var last := order[|order| - 1];
      Revocations(order[..|order| - 1]) + [DoRevokeActivation(last.0, Broker.Disconnect, last.1)]
  }

  predicate Lists(order: seq<(Text, nat)>, ids: set<Text>) {
    && (forall i :: 0 <= i < |order| ==> order[i].0 in ids)
    && (forall id :: id in ids ==> exists i :: 0 <= i < |order| && order[i].0 == id)
  }

  ghost predicate Next(cfg: Config, s: System, e: Event, s': System) {
    match e
    case Open(key, identity) =>
      key !in s.connections && s' == s.(connections := s.connections[key := Fresh(identity)])
    case Receive(key, incoming, amb, outcome) =>
      key in s.connections &&
      var r := React(cfg, s.connections[key], Turn(incoming, amb, outcome, s.broker));
      s' == System(r.broker, s.connections[key := r.session])
    case Close(key, ending, order) =>
      && key in s.connections
      && Lists(order, s.connections[key].activations.Keys)
      && var broker := if ending.EndOfStream? then Run(s.broker, Revocations(order)) else s.broker;
         s' == System(broker, s.connections - {key})
  }

  ghost predicate IsRun(cfg: Config, systems: seq<System>, events: seq<Event>) {
    && |systems| == |events| + 1 && systems[0] == STARTED
    && forall i :: 0 <= i < |events| ==> Next(cfg, systems[i], events[i], systems[i + 1])
  }

  lemma OneMoreRevocation(s: Broker.State, order: seq<(Text, nat)>, id: Text, now: nat)
    ensures Run(s, Revocations(order + [(id, now)]))
         == Broker.RevokeActivation(Run(s, Revocations(order)), id, Broker.Disconnect, now)
  {
    hide Broker.RevokeActivation;
    var ops := Revocations(order + [(id, now)]);
    assert (order + [(id, now)])[..|order|] == order;
    assert ops[..|order|] == Revocations(order);
    assert ops[|order|] == DoRevokeActivation(id, Broker.Disconnect, now);
  }

  lemma OneMoreListed(order: seq<(Text, nat)>, ids: set<Text>, id: Text, now: nat)
    requires Lists(order, ids)
    ensures Lists(order + [(id, now)], ids + {id})
  {
    var order' := order + [(id, now)];
    assert order'[|order|].0 == id;
    forall x | x in ids
      ensures exists i :: 0 <= i < |order'| && order'[i].0 == x
    {
      var i :| 0 <= i < |order| && order[i].0 == x;
      assert order'[i].0 == x;
    }
  }

  /** The release loop over the activations in an arbitrary order. */
  method ReleaseConnection(conn: Session.Connection, broker: Broker.CapabilityBroker, clock: nat -> nat)
    returns (ghost order: seq<(Text, nat)>)
    modifies broker
    ensures Lists(order, conn.activations.Keys)
    ensures broker.View() == Run(old(broker.View()), Revocations(order))
  {
    hide Broker.RevokeActivation;
    hide Run;
    hide Revocations;
    order := [];
    NoRevocations(broker.View());
    var todo, i := conn.activations.Keys, 0;
    while todo != {}
      invariant todo <= conn.activations.Keys
      invariant Lists(order, conn.activations.Keys - todo)
      invariant broker.View() == Run(old(broker.View()), Revocations(order))
    {
      hide Lists;
      var id :| id in todo;
      OneMoreRevocation(old(broker.View()), order, id, clock(i));
      OneMoreListed(order, conn.activations.Keys - todo, id, clock(i));
      assert conn.activations.Keys - todo + {id} == conn.activations.Keys - (todo - {id});
      broker.RevokeAgentGrants(id, Broker.Disconnect, clock(i));
      order, todo, i := order + [(id, clock(i))], todo - {id}, i + 1;
    }
    assert conn.activations.Keys - todo == conn.activations.Keys;
  }

  // ---------- The broker side of an event ----------

  predicate NoOutsideLease(ops: seq<Op>) {
    forall i :: 0 <= i < |ops| ==> !ops[i].DoLease?
  }

  lemma BargainOps(broker: Broker.State, agent: Text, id: Text, supports: seq<Coordinate>, class_: Authority, now: nat)
    returns (ops: seq<Op>)
    ensures NoOutsideLease(ops) && Bargain(broker, agent, id, supports, class_, now).0 == Run(broker, ops)
  {
    hide CatalogSupports;
    hide Broker.Negotiate;
    hide Sorted;
    var granted := Catalogued(supports);
    ops := if granted == [] then [] else [DoNegotiate(agent, Offer(id, granted), now)];
    assert granted != [] ==> ops[..0] == [];
  }

  /** Handling a message touches the broker by at most one negotiation. */
  lemma ReceiveOps(cfg: Config, st: Session.State, turn: Turn) returns (ops: seq<Op>)
    ensures NoOutsideLease(ops) && React(cfg, st, turn).broker == Run(turn.broker, ops)
    ensures Agreed(cfg, st, turn).Some? ==>
              var a := Agreed(cfg, st, turn).value;
              React(cfg, st, turn).broker
              == Bargain(turn.broker, a.agentId, a.id, HelloOf(turn.incoming.env).supports, a.authority,
                turn.amb.brokerNow).0
  {
    hide Ascii;
    hide ErrorReply;
    hide AgreementReply;
    hide AnswerReply;
    hide Bargain;
    hide AuthorityOf;
    hide FrameValid;
    hide Objection;
    ops := [];
    var a := Agreed(cfg, st, turn);
    if a.Some? {
      ops := BargainOps(turn.broker, a.value.agentId, a.value.id, HelloOf(turn.incoming.env).supports,
        a.value.authority, turn.amb.brokerNow);
    }
    hide Run;
  }

  lemma EmptyRun(s: Broker.State)
    ensures Run(s, []) == s
  {
  }

  // ---------- Sessions agree with the broker ----------

  /** A broker-backed activation is registered with the broker under its agent and generation. */
  predicate Linked(broker: Broker.State, id: Text, a: Session.Activation) {
    a.id == id &&
    (a.generation != 0 ==>
       Registered(broker, a.agentId, id) && RecordOf(broker, a.agentId, id).generation == a.generation)
  }

  ghost predicate AllLinked(broker: Broker.State, st: Session.State) {
    forall id :: id in st.activations ==> Linked(broker, id, st.activations[id])
  }

  ghost predicate SystemInv(s: System) {
    RegisterInv(s.broker) && forall key :: key in s.connections ==> AllLinked(s.broker, s.connections[key])
  }

  lemma StillLinked(s: Broker.State, t: Broker.State, st: Session.State)
    requires AllLinked(s, st) && ActivationsKept(s, t)
    ensures AllLinked(t, st)
  {
    assert forall id :: id in st.activations ==> Linked(s, id, st.activations[id]);
  }

  lemma NewlyLinked(broker: Broker.State, agent: Text, id: Text, supports: seq<Coordinate>, class_: Authority, now: nat)
    requires RegisterInv(broker)
    ensures var (t, deal) := Bargain(broker, agent, id, supports, class_, now);
            deal.generation != 0 ==> Registered(t, agent, id) && RecordOf(t, agent, id).generation == deal.generation
  {
    hide CatalogSupports;
    hide Sorted;
    hide Broker.Negotiate;
    hide Broker.Register;
    hide RegisterInv;
    GrantsAreNegotiated(broker, agent, id, supports, class_, now);
    var n := Offer(id, Catalogued(supports));
    if Catalogued(supports) != [] && Broker.Negotiate(broker, agent, n, now).1.Ok? {
      var t := Broker.Negotiate(broker, agent, n, now).0;
      NegotiateKeepsRegister(broker, agent, n, now);
      NegotiatedState(broker, agent, n, now, n.granted[0]);
      RegisterOutcome(t, agent, id);
    }
  }

  lemma ReceiveKeepsInv(cfg: Config, s: System, key: nat, turn: Turn)
    requires SystemInv(s) && key in s.connections && turn.broker == s.broker
    ensures var r := React(cfg, s.connections[key], turn);
            SystemInv(System(r.broker, s.connections[key := r.session])) && ActivationsKept(s.broker, r.broker)
  {
    hide Ascii;
    hide Bargain;
    hide FrameValid;
    hide RegisterInv;
    hide ActivationsKept;
    hide React;
    hide Silent;
    hide Runs;
    var st := s.connections[key];
    var r := React(cfg, st, turn);
    var ops := ReceiveOps(cfg, st, turn);
    RunKeepsRegister(s.broker, ops);
    TurnShape(cfg, st, turn);
    if Agreed(cfg, st, turn).Some? {
      var a := Agreed(cfg, st, turn).value;
      NewlyLinked(s.broker, a.agentId, a.id, HelloOf(turn.incoming.env).supports, a.authority, turn.amb.brokerNow);
      AgreedIsBargained(cfg, st, turn);
    }
    hide Agreed;
    hide Run;
    var s' := System(r.broker, s.connections[key := r.session]);
    forall k | k in s'.connections
      ensures AllLinked(s'.broker, s'.connections[k])
    {
      StillLinked(s.broker, s'.broker, s.connections[k]);
    }
  }

  lemma AgreedIsBargained(cfg: Config, st: Session.State, turn: Turn)
    requires Agreed(cfg, st, turn).Some?
    ensures var a := Agreed(cfg, st, turn).value;
            var deal := Bargain(turn.broker, a.agentId, a.id, HelloOf(turn.incoming.env).supports, a.authority,
              turn.amb.brokerNow).1;
            a.generation == deal.generation && a.granted == deal.granted
  {
    hide Ascii;
    hide Bargain;
    hide FrameValid;
    hide AuthorityOf;
  }

  lemma CloseKeepsInv(s: System, key: nat, ops: seq<Op>)
    requires SystemInv(s) && NoOutsideLease(ops)
    ensures SystemInv(System(Run(s.broker, ops), s.connections - {key}))
            && ActivationsKept(s.broker, Run(s.broker, ops))
  {
    hide RegisterInv;
    hide ActivationsKept;
    RunKeepsRegister(s.broker, ops);
    hide Run;
    forall k | k in s.connections && k != key
      ensures AllLinked(Run(s.broker, ops), s.connections[k])
    {
      StillLinked(s.broker, Run(s.broker, ops), s.connections[k]);
    }
  }

  lemma NextKeepsInv(cfg: Config, s: System, e: Event, s': System)
    requires SystemInv(s) && Next(cfg, s, e, s')
    ensures SystemInv(s') && ActivationsKept(s.broker, s'.broker)
  {
    match e
    case Open(key, identity) =>
      hide RegisterInv;
      assert forall k :: k in s'.connections && k != key ==> s'.connections[k] == s.connections[k];
    case Receive(key, incoming, amb, outcome) =>
      ReceiveKeepsInv(cfg, s, key, Turn(incoming, amb, outcome, s.broker));
      hide React;
    case Close(key, ending, order) =>
      EmptyRun(s.broker);
      CloseKeepsInv(s, key, if ending.EndOfStream? then Revocations(order) else []);
  }

  lemma {:induction false} RunsKeepInv(cfg: Config, systems: seq<System>, events: seq<Event>, i: nat)
    requires IsRun(cfg, systems, events) && i < |systems|
    ensures SystemInv(systems[i])
  {
    hide SystemInv;
    hide Next;
    if i == 0 {
      StartedInv();
    } else {
      RunsKeepInv(cfg, systems, events, i - 1);
      NextKeepsInv(cfg, systems[i - 1], events[i - 1], systems[i]);
    }
  }

  lemma StartedInv()
    ensures SystemInv(STARTED)
  {
    EmptyRegister();
  }

  // ---------- What a disconnect does ----------

  predicate IsListed(order: seq<(Text, nat)>, id: Text) {
    exists i :: 0 <= i < |order| && order[i].0 == id
  }

  lemma ListedInFront(order: seq<(Text, nat)>, id: Text)
    requires order != []
    ensures IsListed(order, id) <==> IsListed(order[..|order| - 1], id) || order[|order| - 1].0 == id
  {
    var front := order[..|order| - 1];
    assert forall i :: 0 <= i < |front| ==> order[i] == front[i];
  }

  lemma NoRevocations(s: Broker.State)
    ensures Run(s, Revocations([])) == s
  {
  }

  lemma {:induction false} RevocationsRevoke(s: Broker.State, order: seq<(Text, nat)>, agent: Text, id: Text)
    ensures var t := Run(s, Revocations(order));
            && (Registered(t, agent, id) <==> Registered(s, agent, id))
            && (Registered(s, agent, id) ==>
                  RecordOf(t, agent, id) == Broker.Activation(RecordOf(s, agent, id).generation,
                                                              RecordOf(s, agent, id).revoked || IsListed(order, id)))
  {
    hide Broker.RevokeActivation;
    hide Run;
    hide Revocations;
    hide Registered;
    hide RecordOf;
    if order == [] {
      NoRevocations(s);
    } else {
      var front, last := order[..|order| - 1], order[|order| - 1];
      assert order == front + [(last.0, last.1)];
      RevocationsRevoke(s, front, agent, id);
      OneMoreRevocation(s, front, last.0, last.1);
      RevokedRecords(Run(s, Revocations(front)), last.0, Broker.Disconnect, last.1, agent, id);
      ListedInFront(order, id);
      hide IsListed;
    }
  }

  /** Ending a connection revokes a broker-backed activation of it exactly when the peer's frames
      ended; a connection given up because a reply could not be sent leaves its activations as
      they were. */
  lemma EndingRevokesExactlyAtEndOfStream(cfg: Config, systems: seq<System>, events: seq<Event>, i: nat, id: Text)
    requires IsRun(cfg, systems, events) && i < |events| && events[i].Close?
    requires events[i].key in systems[i].connections && id in systems[i].connections[events[i].key].activations
    requires systems[i].connections[events[i].key].activations[id].generation != 0
    ensures var a := systems[i].connections[events[i].key].activations[id];
            && Registered(systems[i].broker, a.agentId, id) && Registered(systems[i + 1].broker, a.agentId, id)
            && RecordOf(systems[i + 1].broker, a.agentId, id).generation == a.generation
            && (RecordOf(systems[i + 1].broker, a.agentId, id).revoked <==>
                events[i].ending.EndOfStream? || RecordOf(systems[i].broker, a.agentId, id).revoked)
  {
    RunsKeepInv(cfg, systems, events, i);
    var s, e := systems[i], events[i];
    var a := s.connections[e.key].activations[id];
    assert Next(cfg, s, e, systems[i + 1]);
    assert Linked(s.broker, id, a);
    RevocationsRevoke(s.broker, e.order, a.agentId, id);
    hide Run;
  }

  /** An event touches the broker by bridge operations only. */
  lemma EventOps(cfg: Config, s: System, e: Event, s': System) returns (ops: seq<Op>)
    requires Next(cfg, s, e, s')
    ensures NoOutsideLease(ops) && s'.broker == Run(s.broker, ops)
  {
    hide Run;
    ops := [];
    EmptyRun(s.broker);
    match e
    case Open(_, _) =>
    case Receive(key, incoming, amb, outcome) =>
      ops := ReceiveOps(cfg, s.connections[key], Turn(incoming, amb, outcome, s.broker));
      hide React;
    case Close(_, ending, order) =>
      ops := if ending.EndOfStream? then Revocations(order) else [];
  }

  lemma {:induction false} OutStaysOut(cfg: Config, systems: seq<System>, events: seq<Event>, i: nat, j: nat,
      agent: Text, id: Text)
    requires IsRun(cfg, systems, events) && i <= j < |systems| && IsOut(systems[i].broker, agent, id)
    ensures IsOut(systems[j].broker, agent, id)
    ensures RecordOf(systems[j].broker, agent, id).generation == RecordOf(systems[i].broker, agent, id).generation
    decreases j
  {
    hide Next;
    hide SystemInv;
    hide Run;
    hide OutUnder;
    if i < j {
      OutStaysOut(cfg, systems, events, i, j - 1, agent, id);
      RunsKeepInv(cfg, systems, events, j - 1);
      InvHasRegister(systems[j - 1]);
      hide RegisterInv;
      var ops := EventOps(cfg, systems[j - 1], events[j - 1], systems[j]);
      RunStaysOut(systems[j - 1].broker, ops, agent, id);
    }
  }

  lemma {:induction false} RevocationsPutOut(s: Broker.State, order: seq<(Text, nat)>, agent: Text, id: Text)
    requires RegisterInv(s) && Registered(s, agent, id) && IsListed(order, id)
    ensures IsOut(Run(s, Revocations(order)), agent, id)
    ensures RecordOf(Run(s, Revocations(order)), agent, id).generation == RecordOf(s, agent, id).generation
  {
    hide Broker.RevokeActivation;
    hide Run;
    hide Revocations;
    hide RegisterInv;
    hide OutUnder;
    var front, last := order[..|order| - 1], order[|order| - 1];
    assert order == front + [(last.0, last.1)];
    ListedInFront(order, id);
    RevocationsRevoke(s, front, agent, id);
    RunKeepsRegister(s, Revocations(front));
    OneMoreRevocation(s, front, last.0, last.1);
    var t := Run(s, Revocations(front));
    if last.0 == id {
      RevokingPutsOut(t, id, Broker.Disconnect, last.1, agent);
    } else {
      RevocationsPutOut(s, front, agent, id);
      StepStaysOut(t, DoRevokeActivation(last.0, Broker.Disconnect, last.1), agent, id);
    }
  }

  /** After a connection ends with its frames, no request under the agent and generation of any of
      its activations ever passes the gate again, whatever all other connections do. */
  lemma DisconnectedStaysOut(cfg: Config, systems: seq<System>, events: seq<Event>, i: nat, j: nat, id: Text,
                             q: Broker.Request, now: nat)
    requires IsRun(cfg, systems, events) && i < |events| && i < j < |systems|
    requires events[i].Close? && events[i].ending.EndOfStream?
    requires events[i].key in systems[i].connections && id in systems[i].connections[events[i].key].activations
    requires var a := systems[i].connections[events[i].key].activations[id];
             a.generation != 0 && q.owner == a.agentId && q.generation == a.generation
    ensures Broker.Gate(systems[j].broker, q, now).Err?
  {
    hide Run;
    hide OutUnder;
    hide Broker.Gate;
    RunsKeepInv(cfg, systems, events, i);
    var s, e := systems[i], events[i];
    var a := s.connections[e.key].activations[id];
    assert Next(cfg, s, e, systems[i + 1]);
    assert Linked(s.broker, id, a);
    InvHasRegister(s);
    hide SystemInv;
    hide RegisterInv;
    RevocationsPutOut(s.broker, e.order, a.agentId, id);
    hide Next;
    OutStaysOut(cfg, systems, events, i + 1, j, a.agentId, id);
    OutIsRefused(systems[j].broker, a.agentId, id, q, now);
  }

  lemma InvHasRegister(s: System)
    requires SystemInv(s)
    ensures RegisterInv(s.broker)
  {
  }

  /** Giving up on a connection because a reply could not be sent leaves its authority in place: what
      a Hello negotiated still passes the gate until the lease runs out. */
  lemma FailedSendLeavesAuthority(cfg: Config, systems: seq<System>, events: seq<Event>, i: nat, c: Coordinate,
      later: nat)
    requires IsRun(cfg, systems, events) && i + 1 < |events|
    requires events[i].Receive? && events[i].key in systems[i].connections
    requires events[i + 1].Close? && events[i + 1].ending.SendFailed? && events[i + 1].key == events[i].key
    requires var e := events[i];
             var a := Agreed(cfg, systems[i].connections[e.key], Turn(e.incoming, e.amb, e.outcome, systems[i].broker));
             a.Some? && a.value.generation != 0 && c in a.value.granted
    requires later < Broker.ExpiryOf(events[i].amb.brokerNow, LEASE_MAX_SECONDS)
    ensures var e := events[i];
            var a := Agreed(cfg, systems[i].connections[e.key],
              Turn(e.incoming, e.amb, e.outcome, systems[i].broker)).value;
            Broker.Gate(systems[i + 2].broker, GateRequest(a, c), later) == Ok(())
  {
    var e, s := events[i], systems[i];
    assert Next(cfg, s, e, systems[i + 1]) && Next(cfg, systems[i + 1], events[i + 1], systems[i + 2]);
    var st, turn := s.connections[e.key], Turn(e.incoming, e.amb, e.outcome, s.broker);
    assert systems[i + 2].broker == React(cfg, st, turn).broker;
    hide React;
    hide Next;
    RunsKeepInv(cfg, systems, events, i);
    InvHasRegister(s);
    hide SystemInv;
    var ops := ReceiveOps(cfg, st, turn);
    AgreedIsBargained(cfg, st, turn);
    var a := Agreed(cfg, st, turn).value;
    BargainPassesGate(s.broker, a.agentId, a.id, HelloOf(e.incoming.env).supports, a.authority, e.amb.brokerNow, c,
      later);
    hide Agreed;
    hide Bargain;
    hide Broker.Gate;
  }

  lemma {:induction false} CapabilityOffered(cs: seq<Coordinate>, c: Coordinate)
    requires c in cs
    ensures ToCapability(c) in ToCapabilities(cs)
  {
    var front, last := cs[..|cs| - 1], cs[|cs| - 1];
    assert cs == front + [last];
    if c != last {
      CapabilityOffered(front, c);
    }
  }

  lemma BargainPassesGate(broker: Broker.State, agent: Text, id: Text, supports: seq<Coordinate>, class_: Authority,
      now: nat, c: Coordinate, later: nat)
    requires RegisterInv(broker) && later < Broker.ExpiryOf(now, LEASE_MAX_SECONDS)
    requires var deal := Bargain(broker, agent, id, supports, class_, now).1; deal.generation != 0 && c in deal.granted
    ensures var (t, deal) := Bargain(broker, agent, id, supports, class_, now);
            Broker.Gate(t, Broker.Request(ToCapability(c), agent, deal.generation, Broker.DEFAULT_SCOPE), later)
              == Ok(())
  {
    hide Broker.Negotiate;
    hide Broker.Gate;
    hide Broker.ExpiryOf;
    hide Sorted;
    GrantsAreNegotiated(broker, agent, id, supports, class_, now);
    CapabilityOffered(Catalogued(supports), c);
    NegotiatedState(broker, agent, Offer(id, Catalogued(supports)), now, ToCapability(c));
    NegotiatedPassesGate(broker, agent, Offer(id, Catalogued(supports)), now, ToCapability(c), later);
    hide RegisterInv;
  }

  // ---------- Other connections ----------

  /** Revoking one activation changes no answer for another. */
  lemma RevokingLeavesOthers(s: Broker.State, id: Text, at: nat, other: Text, q: Broker.Request, now: nat)
    requires RegisterInv(s) && other != id && Registered(s, q.owner, other)
             && RecordOf(s, q.owner, other).generation == q.generation
    ensures Broker.Gate(Broker.RevokeActivation(s, id, Broker.Disconnect, at), q, now) == Broker.Gate(s, q, now)
  {
    var t := Broker.RevokeActivation(s, id, Broker.Disconnect, at);
    var p := Broker.OfActivation(s.activations, id, s.activations.Keys);
    SelectedAreRevoked(s.leases, p, Broker.Disconnect, at);
    assert t.grants == s.grants && t.leases == Broker.RevokeSelected(s.leases, p, Broker.Disconnect, at);
    hide Broker.RevokeSelected;
    hide Broker.RevokeActivation;
    assert Registered(s, q.owner, id) ==> RecordOf(s, q.owner, id).generation != q.generation;
    forall k | k in s.leases && (Broker.Matches(s.leases[k], q) || Broker.Matches(t.leases[k], q))
      ensures s.leases[k] == t.leases[k]
    {
      assert !Broker.Selects(p, s.leases[k]);
    }
    hide RegisterInv;
    SameVerdict(s.leases, t.leases, q, now);
    hide Broker.LeaseVerdict;
  }

  lemma {:induction false} ReleaseLeavesOthers(s: Broker.State, order: seq<(Text, nat)>, other: Text,
      q: Broker.Request, now: nat)
    requires RegisterInv(s) && (forall i :: 0 <= i < |order| ==> order[i].0 != other)
    requires Registered(s, q.owner, other) && RecordOf(s, q.owner, other).generation == q.generation
    ensures Broker.Gate(Run(s, Revocations(order)), q, now) == Broker.Gate(s, q, now)
  {
    hide Broker.Gate;
    hide RegisterInv;
    hide Broker.RevokeActivation;
    if order != [] {
      var front, last := order[..|order| - 1], order[|order| - 1];
      assert order == front + [(last.0, last.1)];
      ReleaseLeavesOthers(s, front, other, q, now);
      OneMoreRevocation(s, front, last.0, last.1);
      RevocationsRevoke(s, front, q.owner, other);
      RunKeepsRegister(s, Revocations(front));
      hide Run;
      hide Revocations;
      RevokingLeavesOthers(Run(s, Revocations(front)), last.0, last.1, other, q, now);
    }
  }

  /** The activation id comes from an earlier message of the connection. */
  ghost predicate Minted(events: seq<Event>, i: nat, key: nat, id: Text) {
    exists e :: 0 <= e < i && e < |events| && MintedAt(events[e], key, id)
  }

  predicate MintedAt(e: Event, key: nat, id: Text) {
    e.Receive? && e.key == key && id == ActivationId(e.amb.activation.nanos, e.amb.activation.counter)
  }

  lemma {:induction false} IdsAreMinted(cfg: Config, systems: seq<System>, events: seq<Event>, i: nat, key: nat,
      id: Text)
    requires IsRun(cfg, systems, events) && i < |systems|
    requires key in systems[i].connections && id in systems[i].connections[key].activations
    ensures Minted(events, i, key, id)
  {
    hide ActivationId;
    hide React;
    hide Agreed;
    hide Runs;
    hide Silent;
    var e := events[i - 1];
    assert Next(cfg, systems[i - 1], e, systems[i]);
    if e.Receive? && e.key == key {
      var st, turn := systems[i - 1].connections[key], Turn(e.incoming, e.amb, e.outcome, systems[i - 1].broker);
      TurnShape(cfg, st, turn);
      AgreedId(cfg, st, turn);
      if id in st.activations {
        IdsAreMinted(cfg, systems, events, i - 1, key, id);
      } else {
        assert MintedAt(e, key, id);
      }
    } else {
      IdsAreMinted(cfg, systems, events, i - 1, key, id);
    }
  }

  lemma AgreedId(cfg: Config, st: Session.State, turn: Turn)
    ensures Agreed(cfg, st, turn).Some? ==>
              Agreed(cfg, st, turn).value.id == ActivationId(turn.amb.activation.nanos, turn.amb.activation.counter)
  {
    hide FrameValid;
    hide Bargain;
    hide AuthorityOf;
    hide ActivationId;
  }

  /** The process-wide counter gives every message its own reading. */
  predicate FreshReadings(events: seq<Event>) {
    forall i, j :: 0 <= i < j < |events| && events[i].Receive? && events[j].Receive? ==>
      events[i].amb.activation.counter != events[j].amb.activation.counter
  }

  lemma IdsOfConnectionsDiffer(cfg: Config, systems: seq<System>, events: seq<Event>, i: nat, k: nat, l: nat, id: Text)
    requires IsRun(cfg, systems, events) && i < |systems| && FreshReadings(events)
    requires k in systems[i].connections && l in systems[i].connections && k != l
    requires id in systems[i].connections[k].activations
    ensures id !in systems[i].connections[l].activations
  {
    hide Next;
    hide ActivationId;
    IdsAreMinted(cfg, systems, events, i, k, id);
    var e :| 0 <= e < i && e < |events| && MintedAt(events[e], k, id);
    if id in systems[i].connections[l].activations {
      IdsAreMinted(cfg, systems, events, i, l, id);
      var f :| 0 <= f < i && f < |events| && MintedAt(events[f], l, id);
      SameIdSameCounter(events[e].amb.activation, events[f].amb.activation);
    }
  }

  lemma SameIdSameCounter(a: Reading, b: Reading)
    requires ActivationId(a.nanos, a.counter) == ActivationId(b.nanos, b.counter)
    ensures a.counter == b.counter
  {
    TokensAreFresh([97, 99, 116], [97, 99, 116], a.nanos, a.counter, b.nanos, b.counter);
  }

  /** However a connection ends, every other connection's requests get the answers they got before. */
  lemma EndingLeavesOthersAlone(cfg: Config, systems: seq<System>, events: seq<Event>, i: nat, key: nat, id: Text,
                                q: Broker.Request, now: nat)
    requires IsRun(cfg, systems, events) && i < |events| && events[i].Close? && FreshReadings(events)
    requires key in systems[i].connections && key != events[i].key && id in systems[i].connections[key].activations
    requires var a := systems[i].connections[key].activations[id];
             a.generation != 0 && q.owner == a.agentId && q.generation == a.generation
    ensures Broker.Gate(systems[i + 1].broker, q, now) == Broker.Gate(systems[i].broker, q, now)
  {
    hide Broker.Gate;
    var s, e := systems[i], events[i];
    RunsKeepInv(cfg, systems, events, i);
    InvHasRegister(s);
    assert AllLinked(s.broker, s.connections[key]);
    assert Linked(s.broker, id, s.connections[key].activations[id]);
    assert Next(cfg, s, e, systems[i + 1]);
    hide SystemInv;
    hide RegisterInv;
    IdsOfConnectionsDiffer(cfg, systems, events, i, key, e.key, id);
    if e.ending.EndOfStream? {
      ReleaseLeavesOthers(s.broker, e.order, id, q, now);
    }
    hide Run;
  }

  // ---------- What a Hello does to others ----------

  /** The broker of a running daemon has come about by bridge operations only, so all that holds of
      the broker over every run holds of it. */
  lemma {:induction false} BrokerIsARun(cfg: Config, systems: seq<System>, events: seq<Event>, i: nat)
    returns (ops: seq<Op>)
    requires IsRun(cfg, systems, events) && i < |systems|
    ensures NoOutsideLease(ops) && systems[i].broker == Run(Broker.EMPTY, ops)
  {
    hide Next;
    hide Run;
    ops := [];
    if i == 0 {
      EmptyRun(Broker.EMPTY);
    } else {
      var before := BrokerIsARun(cfg, systems, events, i - 1);
      var more := EventOps(cfg, systems[i - 1], events[i - 1], systems[i]);
      RunOfBoth(Broker.EMPTY, before, more);
      ops := before + more;
    }
  }

  lemma BargainTakesOver(s: Broker.State, agent: Text, id: Text, supports: seq<Coordinate>, class_: Authority, now: nat,
                         q: Broker.Request, later: nat)
    requires Inv(s) && RegisterInv(s)
    requires var deal := Bargain(s, agent, id, supports, class_, now).1;
             deal.generation != 0 && !(q.owner == agent && q.generation == deal.generation)
    ensures var (t, deal) := Bargain(s, agent, id, supports, class_, now);
            if q.capability in ToCapabilities(deal.granted) then Broker.Gate(t, q, later).Err?
            else Broker.Gate(t, q, later) == Broker.Gate(s, q, later)
  {
    hide Sorted;
    hide Broker.Gate;
    hide Broker.Negotiate;
    hide Inv;
    GrantsAreNegotiated(s, agent, id, supports, class_, now);
    NegotiationTakesOver(s, agent, Offer(id, Catalogued(supports)), now, q, later);
    hide RegisterInv;
  }

  /** A Hello that the broker backs takes the granted capabilities from every other agent and
      generation, on whatever connection and under whatever owner, and leaves all other answers of
      the gate as they were. */
  lemma HelloTakesOver(cfg: Config, systems: seq<System>, events: seq<Event>, i: nat, q: Broker.Request, now: nat)
    requires IsRun(cfg, systems, events) && i < |events| && events[i].Receive?
             && events[i].key in systems[i].connections
    requires var e := events[i];
             var a := Agreed(cfg, systems[i].connections[e.key], Turn(e.incoming, e.amb, e.outcome, systems[i].broker));
             a.Some? && a.value.generation != 0 && !(q.owner == a.value.agentId && q.generation == a.value.generation)
    ensures var e := events[i];
            var a := Agreed(cfg, systems[i].connections[e.key],
              Turn(e.incoming, e.amb, e.outcome, systems[i].broker)).value;
            if Coordinate(q.capability.apiVersion, q.capability.kind) in a.granted
            then Broker.Gate(systems[i + 1].broker, q, now).Err?
            else Broker.Gate(systems[i + 1].broker, q, now) == Broker.Gate(systems[i].broker, q, now)
  {
    hide Broker.Gate;
    var e, s := events[i], systems[i];
    assert Next(cfg, s, e, systems[i + 1]);
    var st, turn := s.connections[e.key], Turn(e.incoming, e.amb, e.outcome, s.broker);
    assert systems[i + 1].broker == React(cfg, st, turn).broker;
    hide React;
    hide Next;
    RunsKeepInv(cfg, systems, events, i);
    InvHasRegister(s);
    hide SystemInv;
    hide RegisterInv;
    var before := BrokerIsARun(cfg, systems, events, i);
    ReachableStatesAreBacked(before);
    hide Inv;
    var ops := ReceiveOps(cfg, st, turn);
    AgreedIsBargained(cfg, st, turn);
    var a := Agreed(cfg, st, turn).value;
    BargainTakesOver(s.broker, a.agentId, a.id, HelloOf(e.incoming.env).supports, a.authority, e.amb.brokerNow, q, now);
    CapabilityIn(a.granted, q.capability);
    hide Agreed;
    hide Bargain;
  }
}
