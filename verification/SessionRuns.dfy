/**
  * What holds of one connection over every sequence of messages. Between two messages of the
  * connection the broker may have been changed in any way by others, so every turn brings its own.
  */
module SessionRuns {
  import opened Core
  import opened Envelope
  import opened Session
  import opened SessionReplies
  import Broker
  import Rfc3339

  datatype Turn = Turn(incoming: Incoming, amb: Ambient, outcome: Outcome, broker: Broker.State)

  /** The session before turn `i`. */
  ghost function Before(cfg: Config, start: State, turns: seq<Turn>, i: nat): State
    requires i <= |turns|
    decreases i, 0
  {
    if i == 0 then start else At(cfg, start, turns, i - 1).session
  }

  ghost function At(cfg: Config, start: State, turns: seq<Turn>, i: nat): Reaction
    requires i < |turns|
    decreases i, 1
  {
    React(cfg, Before(cfg, start, turns, i), turns[i])
  }

  ghost function React(cfg: Config, st: State, turn: Turn): Reaction {
    Step(cfg, st, turn.broker, turn.incoming, turn.amb, turn.outcome)
  }

  // ---------- What one turn does ----------

  /** The activation a turn establishes, if it answers a Hello with an Agreement. */
  ghost function Agreed(cfg: Config, st: State, turn: Turn): Option<Activation> {
    if !turn.incoming.Frame? then None
    else
      var env := turn.incoming.env;
      if env.id !in st.seen && FrameValid(env) && IsHello(env) && !SwitchesClass(cfg, st, env) then
        Some(Established(cfg, st, turn.broker, env, turn.amb))
      else None
  }

  function IdOf(incoming: Incoming): Option<Text> {
    match incoming
    case Frame(env) => Some(env.id)
    case Unreadable(id) => id
  }

  /** The activation may use the capability now. */
  ghost predicate Authorised(a: Activation, c: Coordinate, broker: Broker.State, now: nat) {
    c in a.granted
    && if a.generation == 0 then a.authority == ShellControl else Broker.Gate(broker, GateRequest(a, c), now).Ok?
  }

  /** A valid Invocation with a new id, naming an activation that may use the capability. */
  ghost predicate Runs(st: State, turn: Turn) {
    turn.incoming.Frame? &&
    var env := turn.incoming.env;
    && env.id !in st.seen && FrameValid(env) && IsInvocation(env)
    && env.participant.activationId.Some? && env.participant.activationId.value in st.activations
    && Authorised(st.activations[env.participant.activationId.value], env.capability.value, turn.broker,
       turn.amb.brokerNow)
  }

  /** No reply: an unreadable or invalid frame without a usable id, or a valid message that is not a request. */
  ghost predicate Silent(st: State, turn: Turn) {
    match turn.incoming
    case Frame(env) =>
      env.id !in st.seen && if FrameValid(env) then env.kind != Hello && env.kind != Invocation else !IdLength(env.id)
    case Unreadable(id) => id.None? || !IdLength(id.value)
  }

  lemma InvocationShape(cfg: Config, st: State, broker: Broker.State, env: Envelope, amb: Ambient, outcome: Outcome)
    requires IsInvocation(env)
    ensures var r := InvocationStep(cfg, st, broker, env, amb, outcome);
            && r.session == st.(nextGeneration := st.nextGeneration + 1) && r.broker == broker
            && |r.replies| == 1 && r.replies[0].generation == st.nextGeneration && r.replies[0].replyTo == Some(env.id)
            && (r.call.Some? <==>
                && env.participant.activationId.Some? && env.participant.activationId.value in st.activations
                && Authorised(st.activations[env.participant.activationId.value], env.capability.value, broker,
                   amb.brokerNow))
            && (r.call.Some? ==>
                r.call.value == Call(env.capability.value, env.method_.value,
                  st.activations[env.participant.activationId.value]))
  {
    hide Ascii;
    hide Broker.Gate;
    hide Rfc3339.NowTimestampLike;
    hide MessageId;
  }

  lemma HelloShape(cfg: Config, st: State, broker: Broker.State, env: Envelope, amb: Ambient)
    requires IsHello(env)
    ensures var r := HelloStep(cfg, st, broker, env, amb);
            && |r.replies| == 1 && r.replies[0].generation == st.nextGeneration && r.replies[0].replyTo == Some(env.id)
            && r.call.None?
            && r.session == if SwitchesClass(cfg, st, env) then st.(nextGeneration := st.nextGeneration + 1)
                            else
                              var a := Established(cfg, st, broker, env, amb);
                              st.(activations := st.activations[a.id := a], authority := Some(a.authority),
                                  nextGeneration := st.nextGeneration + 1)
  {
    hide Ascii;
    hide Bargain;
    hide AuthorityOf;
    hide Rfc3339.NowTimestampLike;
    hide MessageId;
    hide ActivationId;
  }

  /** Only the replay set differs when the Hello is handled. */
  lemma EstablishedIgnoresSeen(cfg: Config, st: State, seen: set<Text>, broker: Broker.State, env: Envelope,
      amb: Ambient)
    requires IsHello(env)
    ensures Established(cfg, st.(seen := seen), broker, env, amb) == Established(cfg, st, broker, env, amb)
    ensures SwitchesClass(cfg, st.(seen := seen), env) <==> SwitchesClass(cfg, st, env)
  {
    hide Ascii;
    hide Bargain;
    hide AuthorityOf;
  }

  lemma TurnShape(cfg: Config, st: State, turn: Turn)
    ensures var r := React(cfg, st, turn);
            var a := Agreed(cfg, st, turn);
            && r.session.identity == st.identity
            && r.session.seen == (if turn.incoming.Frame? then st.seen + {turn.incoming.env.id} else st.seen)
            && r.session.activations == (if a.Some? then st.activations[a.value.id := a.value] else st.activations)
            && r.session.authority == (if a.Some? then Some(a.value.authority) else st.authority)
            && r.session.nextGeneration == st.nextGeneration + |r.replies|
            && (r.replies == [] <==> Silent(st, turn))
            && |r.replies| <= 1
            && (r.replies != [] ==>
               r.replies[0].generation == st.nextGeneration && r.replies[0].replyTo == IdOf(turn.incoming))
            && (r.call.Some? <==> Runs(st, turn))
            && (r.call.Some? ==>
                var env := turn.incoming.env;
                r.call.value == Call(env.capability.value, env.method_.value,
                  st.activations[env.participant.activationId.value]))
  {
    hide Ascii;
    hide Rfc3339.NowTimestampLike;
    hide MessageId;
    if turn.incoming.Frame? {
      var env := turn.incoming.env;
      var st' := st.(seen := st.seen + {env.id});
      if env.id !in st.seen && FrameValid(env) {
        ValidShapes(env);
        if IsHello(env) {
          HelloShape(cfg, st', turn.broker, env, turn.amb);
          EstablishedIgnoresSeen(cfg, st, st'.seen, turn.broker, env, turn.amb);
        } else if IsInvocation(env) {
          InvocationShape(cfg, st', turn.broker, env, turn.amb, turn.outcome);
        }
      }
      assert env.id in st.seen ==> st.seen + {env.id} == st.seen;
    }
    hide FrameValid;
    hide HelloStep;
    hide InvocationStep;
    hide Established;
    hide SwitchesClass;
    hide Authorised;
  }

  // ---------- History ----------

  ghost function AgreedAt(cfg: Config, start: State, turns: seq<Turn>, i: nat): Option<Activation>
    requires i < |turns|
  {
    Agreed(cfg, Before(cfg, start, turns, i), turns[i])
  }

  predicate Uses(turns: seq<Turn>, j: nat, id: Text)
    requires j < |turns|
  {
    turns[j].incoming.Frame? && turns[j].incoming.env.id == id
  }

  /** The last turn before `i` that agreed on the activation id. */
  ghost function Latest(cfg: Config, start: State, turns: seq<Turn>, i: nat, id: Text): (r: Option<nat>)
    requires i <= |turns|
    ensures r.Some? ==>
            r.value < i && AgreedAt(cfg, start, turns, r.value).Some?
              && AgreedAt(cfg, start, turns, r.value).value.id == id
  {
    if i == 0 then None
    else
      var a := AgreedAt(cfg, start, turns, i - 1);
      if a.Some? && a.value.id == id then Some(i - 1) else Latest(cfg, start, turns, i - 1, id)
  }

  lemma {:induction false} SeenIdsWereUsed(cfg: Config, identity: Option<Identity>, turns: seq<Turn>, i: nat, id: Text)
    requires i <= |turns|
    ensures id in Before(cfg, Fresh(identity), turns, i).seen <==> exists j :: 0 <= j < i && Uses(turns, j, id)
  {
    hide Agreed;
    hide React;
    hide Runs;
    hide Silent;
    if i > 0 {
      SeenIdsWereUsed(cfg, identity, turns, i - 1, id);
      TurnShape(cfg, Before(cfg, Fresh(identity), turns, i - 1), turns[i - 1]);
      assert Uses(turns, i - 1, id) ==> exists j :: 0 <= j < i && Uses(turns, j, id);
    }
  }

  lemma {:induction false} ActivationsWereAgreed(cfg: Config, identity: Option<Identity>, turns: seq<Turn>, i: nat,
      id: Text)
    requires i <= |turns|
    ensures var st, j := Before(cfg, Fresh(identity), turns, i), Latest(cfg, Fresh(identity), turns, i, id);
            && (id in st.activations <==> j.Some?)
            && (j.Some? ==> AgreedAt(cfg, Fresh(identity), turns, j.value) == Some(st.activations[id]))
  {
    hide Agreed;
    hide React;
    hide Runs;
    hide Silent;
    if i > 0 {
      ActivationsWereAgreed(cfg, identity, turns, i - 1, id);
      TurnShape(cfg, Before(cfg, Fresh(identity), turns, i - 1), turns[i - 1]);
    }
  }

  lemma {:induction false} ClassIsFixed(cfg: Config, identity: Option<Identity>, turns: seq<Turn>, i: nat, j: nat)
    requires j < i <= |turns| && AgreedAt(cfg, Fresh(identity), turns, j).Some?
    ensures Before(cfg, Fresh(identity), turns, i).authority
            == Some(AgreedAt(cfg, Fresh(identity), turns, j).value.authority)
  {
    hide Agreed;
    hide React;
    hide Runs;
    hide Silent;
    var st := Before(cfg, Fresh(identity), turns, i - 1);
    TurnShape(cfg, st, turns[i - 1]);
    if j < i - 1 {
      ClassIsFixed(cfg, identity, turns, i - 1, j);
      if Agreed(cfg, st, turns[i - 1]).Some? {
        AgreeingKeepsClass(cfg, st, turns[i - 1]);
      }
    }
  }

  lemma AgreeingKeepsClass(cfg: Config, st: State, turn: Turn)
    requires Agreed(cfg, st, turn).Some? && st.authority.Some?
    ensures Agreed(cfg, st, turn).value.authority == st.authority.value
  {
    hide Ascii;
    hide FrameValid;
    hide Bargain;
    hide AuthorityOf;
  }

  // ---------- Main results ----------

  /** A handler runs exactly for a valid Invocation under a new id that names the latest Agreement
      of an activation on this connection, for a capability that Agreement granted, and either the
      broker gate passes with that activation's agent and generation or the activation is the Shell's. */
  lemma HandlerRunsExactlyWhen(cfg: Config, identity: Option<Identity>, turns: seq<Turn>, i: nat)
    requires i < |turns|
    ensures var start := Fresh(identity);
            At(cfg, start, turns, i).call.Some? <==>
            && turns[i].incoming.Frame?
            && (forall j :: 0 <= j < i ==> !Uses(turns, j, turns[i].incoming.env.id))
            && FrameValid(turns[i].incoming.env) && IsInvocation(turns[i].incoming.env)
            && turns[i].incoming.env.participant.activationId.Some?
            && var j := Latest(cfg, start, turns, i, turns[i].incoming.env.participant.activationId.value);
               j.Some? && Authorised(AgreedAt(cfg, start, turns, j.value).value, turns[i].incoming.env.capability.value,
                                     turns[i].broker, turns[i].amb.brokerNow)
  {
    hide Agreed;
    hide Authorised;
    hide FrameValid;
    hide React;
    hide Silent;
    var st := Before(cfg, Fresh(identity), turns, i);
    TurnShape(cfg, st, turns[i]);
    if turns[i].incoming.Frame? {
      var env := turns[i].incoming.env;
      SeenIdsWereUsed(cfg, identity, turns, i, env.id);
      if env.participant.activationId.Some? {
        ActivationsWereAgreed(cfg, identity, turns, i, env.participant.activationId.value);
      }
    }
  }

  /** All activations of a connection share one authority class. */
  lemma OneClassPerConnection(cfg: Config, identity: Option<Identity>, turns: seq<Turn>, j: nat, k: nat)
    requires j <= k < |turns|
    requires AgreedAt(cfg, Fresh(identity), turns, j).Some? && AgreedAt(cfg, Fresh(identity), turns, k).Some?
    ensures AgreedAt(cfg, Fresh(identity), turns, j).value.authority
            == AgreedAt(cfg, Fresh(identity), turns, k).value.authority
  {
    if j < k {
      ClassIsFixed(cfg, identity, turns, k, j);
      AgreeingKeepsClass(cfg, Before(cfg, Fresh(identity), turns, k), turns[k]);
    }
  }

  ghost function Replies(cfg: Config, start: State, turns: seq<Turn>, i: nat): seq<Envelope>
    requires i <= |turns|
  {
    if i == 0 then [] else Replies(cfg, start, turns, i - 1) + At(cfg, start, turns, i - 1).replies
  }

  /** The replies of a connection are numbered 0, 1, 2, … in the order they are sent. */
  lemma {:induction false} RepliesAreNumbered(cfg: Config, identity: Option<Identity>, turns: seq<Turn>, i: nat)
    requires i <= |turns|
    ensures var start := Fresh(identity);
            && |Replies(cfg, start, turns, i)| == Before(cfg, start, turns, i).nextGeneration
            && forall k :: 0 <= k < |Replies(cfg, start, turns, i)| ==> Replies(cfg, start, turns, i)[k].generation == k
  {
    hide Agreed;
    hide React;
    hide Runs;
    hide Silent;
    if i > 0 {
      RepliesAreNumbered(cfg, identity, turns, i - 1);
      TurnShape(cfg, Before(cfg, Fresh(identity), turns, i - 1), turns[i - 1]);
    }
  }

  /** Each message gets at most one reply, tied to its id, and which messages get none. */
  lemma AtMostOneReply(cfg: Config, identity: Option<Identity>, turns: seq<Turn>, i: nat)
    requires i < |turns|
    ensures var r := At(cfg, Fresh(identity), turns, i);
            && |r.replies| <= 1
            && (r.replies == [] <==> Silent(Before(cfg, Fresh(identity), turns, i), turns[i]))
            && (r.replies != [] ==> IdOf(turns[i].incoming).Some? && r.replies[0].replyTo == IdOf(turns[i].incoming))
  {
    hide Agreed;
    hide FrameValid;
    hide Runs;
    TurnShape(cfg, Before(cfg, Fresh(identity), turns, i), turns[i]);
  }

  lemma {:induction false} IdentityIsFixed(cfg: Config, identity: Option<Identity>, turns: seq<Turn>, i: nat)
    requires i <= |turns|
    ensures Before(cfg, Fresh(identity), turns, i).identity == identity
  {
    hide React;
    hide Agreed;
    hide Runs;
    hide Silent;
    if i > 0 {
      IdentityIsFixed(cfg, identity, turns, i - 1);
      TurnShape(cfg, Before(cfg, Fresh(identity), turns, i - 1), turns[i - 1]);
    }
  }

  /** What an agreed activation owes to its Hello. */
  ghost predicate ComesFrom(cfg: Config, identity: Option<Identity>, a: Activation, env: Envelope) {
    && IsHello(env) && FrameValid(env) && a.helloId == env.id && a.agentId == AgentId(env.participant)
    && a.authority == AuthorityOf(cfg, identity, env.participant)
    && forall c :: c in a.granted ==> c in HelloOf(env).supports && CatalogSupports(c)
  }

  lemma AgreedComesFromHello(cfg: Config, st: State, turn: Turn)
    requires Agreed(cfg, st, turn).Some?
    ensures ComesFrom(cfg, st.identity, Agreed(cfg, st, turn).value, turn.incoming.env)
  {
    hide Ascii;
    hide FrameValid;
    hide AuthorityOf;
    hide CatalogSupports;
    var env, a := turn.incoming.env, Agreed(cfg, st, turn).value;
    AgreementSplitsSupports(turn.broker, a.agentId, a.id, HelloOf(env).supports, a.authority, turn.amb.brokerNow);
    hide Bargain;
  }

  /** Every handler run stays within a Hello that this connection agreed on earlier: the capability
      is one it supports and the catalog lists, and the agent is its participant. */
  lemma HandlerStaysWithinHello(cfg: Config, identity: Option<Identity>, turns: seq<Turn>, i: nat) returns (j: nat)
    requires i < |turns| && At(cfg, Fresh(identity), turns, i).call.Some?
    ensures var call := At(cfg, Fresh(identity), turns, i).call.value;
            && j < i && turns[j].incoming.Frame?
            && ComesFrom(cfg, identity, call.activation, turns[j].incoming.env)
            && call.capability in HelloOf(turns[j].incoming.env).supports && CatalogSupports(call.capability)
  {
    hide React;
    hide Agreed;
    hide Silent;
    hide FrameValid;
    hide CatalogSupports;
    var start := Fresh(identity);
    var st := Before(cfg, start, turns, i);
    TurnShape(cfg, st, turns[i]);
    var id := turns[i].incoming.env.participant.activationId.value;
    ActivationsWereAgreed(cfg, identity, turns, i, id);
    j := Latest(cfg, start, turns, i, id).value;
    IdentityIsFixed(cfg, identity, turns, j);
    AgreedIsAFrame(cfg, Before(cfg, start, turns, j), turns[j]);
    AgreedComesFromHello(cfg, Before(cfg, start, turns, j), turns[j]);
  }

  lemma AgreedIsAFrame(cfg: Config, st: State, turn: Turn)
    requires Agreed(cfg, st, turn).Some?
    ensures turn.incoming.Frame?
  {
  }

  /** Where the policy does not recognise the peer, every handler run went through the broker gate. */
  lemma UnrecognisedPeerIsAlwaysGated(cfg: Config, identity: Option<Identity>, turns: seq<Turn>, i: nat)
    requires i < |turns| && At(cfg, Fresh(identity), turns, i).call.Some?
    requires !Allows(cfg.policy, identity, cfg.foldsCase)
    ensures var call := At(cfg, Fresh(identity), turns, i).call.value;
            && call.activation.generation != 0
            && Broker.Gate(turns[i].broker, GateRequest(call.activation, call.capability), turns[i].amb.brokerNow).Ok?
  {
    hide Ascii;
    hide React;
    hide Agreed;
    hide Silent;
    hide FrameValid;
    hide CatalogSupports;
    hide Broker.Gate;
    var j := HandlerStaysWithinHello(cfg, identity, turns, i);
    TurnShape(cfg, Before(cfg, Fresh(identity), turns, i), turns[i]);
  }
}
