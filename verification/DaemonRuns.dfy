/** A run of the daemon that leaves authority behind a connection whose reply could not be sent. */
module DaemonRuns {
  import opened Core
  import opened Envelope
  import opened Session
  import opened SessionRuns
  import opened SessionReplies
  import opened Catalog
  import opened Daemon
  import opened BridgeSuccess
  import BridgeRuns
  import Broker
  import Rfc3339

  const EIGHT: Text := [49, 50, 51, 52, 53, 54, 55, 56]

  function FirstHello(c: Coordinate): Envelope {
    Envelope(PROTOCOL, EIGHT, Hello, None, Participant([112], [113], None), Rfc3339.NowTimestampLike(0), 0, None, None,
             Some(HelloShape(HelloPayload(EIGHT, [c], []))), None)
  }

  lemma FirstHelloRules(c: Coordinate)
    requires ValidCoordinate(c)
    ensures forall p :: !FieldBreaks(FirstHello(c), p)
    ensures IsHello(FirstHello(c)) && forall p :: !HelloBreaks(HelloOf(FirstHello(c)), p)
  {
    hide ValidCoordinate;
    hide Ascii;
    hide Rfc3339.NowTimestampLike;
    var env := FirstHello(c);
    assert AllValid([c]) && Unique([c]);
    assert Unique(HelloOf(env).requires_);
    hide AllValid;
    hide Unique;
  }

  lemma FirstHelloHeader(c: Coordinate)
    ensures forall p :: !HeaderBreaks(FirstHello(c), p)
  {
    hide Ascii;
    hide Rfc3339.NowTimestampLike;
    hide Rfc3339.Recognised;
    hide Rfc3339.Parse;
    Rfc3339.ParseAfterPrint(0);
  }

  lemma FirstHelloIsValid(c: Coordinate)
    requires ValidCoordinate(c)
    ensures FrameValid(FirstHello(c)) && IsHello(FirstHello(c))
  {
    hide ValidCoordinate;
    hide FrameValid;
    hide HeaderBreaks;
    hide FieldBreaks;
    hide HelloBreaks;
    FirstHelloRules(c);
    FirstHelloHeader(c);
    ValidByGroups(FirstHello(c));
    hide FirstHello;
  }

  /** The first negotiation of a daemon succeeds. */
  lemma FirstBargain(agent: Text, id: Text, c: Coordinate, class_: Authority)
    requires CatalogSupports(c)
    ensures var deal := Bargain(Broker.EMPTY, agent, id, [c], class_, 0).1; deal.generation != 0 && deal.granted == [c]
  {
    hide CatalogSupports;
    hide Broker.Negotiate;
    SortedLast([c]);
    assert [c][..|[c]| - 1] == [] && Sorted([], true) == [];
    hide Sorted;
    var n := Offer(id, [c]);
    OneToOne(c);
    BridgeRuns.EmptyRegister();
    NegotiationSucceedsExactlyWhen(Broker.EMPTY, agent, n, 0);
    GrantsAreNegotiated(Broker.EMPTY, agent, id, [c], class_, 0);
  }

  lemma OneToOne(c: Coordinate)
    ensures ToCapabilities([c]) == [ToCapability(c)]
  {
    assert [c][..|[c]| - 1] == [];
    assert ToCapabilities([]) == [];
  }

  const AMBIENT := Ambient(Reading(0, 0), Reading(0, 1), 0, 0)

  function FirstTurn(c: Coordinate): Turn {
    Turn(Frame(FirstHello(c)), AMBIENT, Done([]), Broker.EMPTY)
  }

  lemma FirstTurnAgrees(cfg: Config, c: Coordinate)
    requires ValidCoordinate(c) && CatalogSupports(c)
    ensures var a := Agreed(cfg, Fresh(None), FirstTurn(c));
            && a.Some? && a.value.generation != 0 && c in a.value.granted
            && React(cfg, Fresh(None), FirstTurn(c)).session.activations == map[a.value.id := a.value]
  {
    hide ValidCoordinate;
    hide CatalogSupports;
    hide FrameValid;
    hide Bargain;
    hide Ascii;
    hide AuthorityOf;
    hide Rfc3339.NowTimestampLike;
    hide React;
    hide Runs;
    hide Silent;
    FirstHelloIsValid(c);
    var st, turn := Fresh(None), FirstTurn(c);
    var a := Agreed(cfg, st, turn);
    assert a.Some? && HelloOf(turn.incoming.env).supports == [c];
    AgreedIsBargained(cfg, st, turn);
    FirstBargain(a.value.agentId, a.value.id, c, a.value.authority);
    TurnShape(cfg, st, turn);
    hide Agreed;
    assert c in [c];
  }

  /** Opening, one Hello, and an end because the reply could not be sent. */
  lemma ThreeEvents(cfg: Config, c: Coordinate) returns (systems: seq<System>, events: seq<Event>)
    requires ValidCoordinate(c) && CatalogSupports(c)
    ensures IsRun(cfg, systems, events) && |events| == 3 && systems[3].connections == map[]
    ensures events[1] == Receive(0, FirstTurn(c).incoming, AMBIENT, Done([]))
    ensures systems[1] == System(Broker.EMPTY, map[0 := Fresh(None)])
    ensures events[2].Close? && events[2].ending.SendFailed? && events[2].key == 0
  {
    hide ValidCoordinate;
    hide CatalogSupports;
    hide React;
    hide Agreed;
    hide FirstHello;
    hide Next;
    FirstTurnAgrees(cfg, c);
    var st, turn := Fresh(None), FirstTurn(c);
    var id, r := Agreed(cfg, st, turn).value.id, React(cfg, st, turn);
    var s1, s2, s3 :=
      System(Broker.EMPTY, map[0 := st]), System(r.broker, map[0 := r.session]), System(r.broker, map[]);
    Opens(cfg);
    Hears(cfg, st, turn);
    Leaves(cfg, r.broker, r.session, id);
    systems := [STARTED, s1, s2, s3];
    events := [Open(0, None), Receive(0, turn.incoming, AMBIENT, Done([])), Close(0, SendFailed, [(id, 0)])];
  }

  lemma Opens(cfg: Config)
    ensures Next(cfg, STARTED, Open(0, None), System(Broker.EMPTY, map[0 := Fresh(None)]))
  {
    assert STARTED.connections[0 := Fresh(None)] == map[0 := Fresh(None)];
  }

  lemma Hears(cfg: Config, st: Session.State, turn: Turn)
    ensures var r := React(cfg, st, turn);
            Next(cfg, System(turn.broker, map[0 := st]), Receive(0, turn.incoming, turn.amb, turn.outcome),
                 System(r.broker, map[0 := r.session]))
  {
    hide React;
    var r := React(cfg, st, turn);
    assert turn == Turn(turn.incoming, turn.amb, turn.outcome, turn.broker);
    assert map[0 := st][0 := r.session] == map[0 := r.session];
  }

  lemma Leaves(cfg: Config, broker: Broker.State, st: Session.State, id: Text)
    requires st.activations.Keys == {id}
    ensures Next(cfg, System(broker, map[0 := st]), Close(0, SendFailed, [(id, 0)]), System(broker, map[]))
  {
    assert map[0 := st] - {0} == map[];
    assert [(id, 0)][0].0 == id;
    assert Lists([(id, 0)], st.activations.Keys);
  }

  /** A connection opens, says Hello, and ends because the reply cannot be sent; what it negotiated
      still passes the gate. */
  lemma AuthorityOutlivesItsConnection(cfg: Config)
    returns (systems: seq<System>, events: seq<Event>, q: Broker.Request)
    ensures IsRun(cfg, systems, events) && |events| == 3 && systems[3].connections == map[]
    ensures events[2].Close? && events[2].ending.SendFailed?
    ensures Broker.Gate(systems[3].broker, q, 0) == Ok(())
  {
    hide Next;
    hide ValidCoordinate;
    hide CatalogSupports;
    hide FirstHello;
    hide Agreed;
    hide Broker.Gate;
    var c := CATALOG[0];
    assert ValidCoordinate(c) && CatalogSupports(c) by {
      CatalogIsValid();
      FirstIsListed();
    }
    systems, events := ThreeEvents(cfg, c);
    FirstTurnAgrees(cfg, c);
    hide React;
    q := GateRequest(Agreed(cfg, Fresh(None), FirstTurn(c)).value, c);
    assert Broker.ExpiryOf(0, LEASE_MAX_SECONDS) > 0;
    FailedSendLeavesAuthority(cfg, systems, events, 1, c, 0);
  }

  lemma FirstIsListed()
    ensures CatalogSupports(CATALOG[0])
  {
  }
}
