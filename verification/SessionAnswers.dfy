/** What the replies of a connection carry, over every sequence of messages. */
module SessionAnswers {
  import opened Core
  import opened Envelope
  import opened Session
  import opened SessionReplies
  import opened SessionRuns
  import Broker
  import Rfc3339

  // ---------- What a reply says ----------

  /** The daemon's one Result for a request. */
  predicate IsResultFor(r: Reaction, id: Text, capability: Option<Coordinate>, method_: Option<Text>) {
    && |r.replies| == 1 && r.replies[0].kind == Result && r.replies[0].replyTo == Some(id)
    && r.replies[0].capability == capability && r.replies[0].method_ == method_
    && r.replies[0].participant.component == SERVER_COMPONENT && r.replies[0].participant.facet == SERVER_FACET
  }

  /** It carries what the handler returned, under the activation. */
  predicate Carries(reply: Envelope, activationId: Text, body: Text) {
    && reply.payload == Some(OtherObject(body)) && reply.error.None?
    && reply.participant.activationId == Some(activationId)
  }

  /** It carries an error and no payload; a message too long is cut. */
  predicate Complains(reply: Envelope, code: ErrorCode, message: string, retryable: bool) {
    && reply.payload.None? && reply.participant.activationId.None? && reply.error.Some?
    && reply.error.value.code == code && reply.error.value.retryable == retryable
    && reply.error.value.message <= message && |reply.error.value.message| <= ERROR_MESSAGE_MAX_LEN
    && (|message| <= ERROR_MESSAGE_MAX_LEN ==> reply.error.value.message == message)
    && (|message| > ERROR_MESSAGE_MAX_LEN ==> |reply.error.value.message| == ERROR_MESSAGE_MAX_LEN)
    && reply.replyTo == Some(reply.error.value.correlationId)
  }

  predicate Refused(r: Reaction, id: Text, capability: Option<Coordinate>, method_: Option<Text>, code: ErrorCode,
                    message: string, retryable: bool)
  {
    r.call.None? && IsResultFor(r, id, capability, method_) && Complains(r.replies[0], code, message, retryable)
  }

  lemma RefuseShape(cfg: Config, st: State, broker: Broker.State, amb: Ambient, id: Text, c: Option<Coordinate>,
                    m: Option<Text>, code: ErrorCode, problem: Problem, retryable: bool)
    ensures Refused(Refuse(cfg, st, broker, amb, id, c, m, code, problem, retryable), id, c, m, code,
                    cfg.wording(problem), retryable)
  {
    hide Ascii;
    hide Rfc3339.NowTimestampLike;
    hide MessageId;
  }

  // ---------- When a handler runs ----------

  /** The reply tells what came of the call. */
  predicate TellsOutcome(cfg: Config, reply: Envelope, outcome: Outcome, c: Coordinate, m: Text, activationId: Text) {
    match outcome
    case Done(body) => Carries(reply, activationId, body)
    case MethodNotFound => Complains(reply, Unavailable, cfg.wording(NoSuchMethod(c, m)), false)
    case InvalidPayload(message) => Complains(reply, MalformedMessage, message, false)
    case MethodConflict(message) => Complains(reply, ErrorCode.Conflict, message, false)
    case MethodFailed(code, message, retryable) => Complains(reply, code, message, retryable)
  }

  lemma AnsweredShape(cfg: Config, st: State, broker: Broker.State, amb: Ambient, id: Text, activationId: Text,
      a: Activation, c: Coordinate, m: Text, outcome: Outcome)
    ensures var r := Answered(cfg, st, broker, amb, id, activationId, a, c, m, outcome);
            IsResultFor(r, id, Some(c), Some(m)) && TellsOutcome(cfg, r.replies[0], outcome, c, m, activationId)
  {
    hide Ascii;
    hide Rfc3339.NowTimestampLike;
    hide MessageId;
  }

  /** Whenever a handler runs, the one reply is a Result for the request's capability and method. It carries
      what the handler returned, under the activation the request named, or the error the handler gave. */
  lemma HandlerOutcomeIsSent(cfg: Config, identity: Option<Identity>, turns: seq<Turn>, i: nat)
    requires i < |turns| && At(cfg, Fresh(identity), turns, i).call.Some?
    ensures turns[i].incoming.Frame? && IsInvocation(turns[i].incoming.env)
    ensures turns[i].incoming.env.participant.activationId.Some?
    ensures var r, env := At(cfg, Fresh(identity), turns, i), turns[i].incoming.env;
            && IsResultFor(r, env.id, env.capability, env.method_)
            && TellsOutcome(cfg, r.replies[0], turns[i].outcome, env.capability.value, env.method_.value,
                            env.participant.activationId.value)
  {
    hide Agreed;
    hide Silent;
    var st := Before(cfg, Fresh(identity), turns, i);
    TurnShape(cfg, st, turns[i]);
    CallShape(cfg, st, turns[i]);
    hide Runs;
    hide React;
    hide TellsOutcome;
    hide IsResultFor;
  }

  lemma CallShape(cfg: Config, st: State, turn: Turn)
    requires React(cfg, st, turn).call.Some? && Runs(st, turn)
    ensures var r, env := React(cfg, st, turn), turn.incoming.env;
            && IsResultFor(r, env.id, env.capability, env.method_)
            && TellsOutcome(cfg, r.replies[0], turn.outcome, env.capability.value, env.method_.value,
                            env.participant.activationId.value)
  {
    hide Ascii;
    hide FrameValid;
    hide IsResultFor;
    hide TellsOutcome;
    hide AnswerReply;
    hide Broker.Gate;
    var env := turn.incoming.env;
    var st' := st.(seen := st.seen + {env.id});
    var id := env.participant.activationId.value;
    AnsweredShape(cfg, st', turn.broker, turn.amb, env.id, id, st'.activations[id], env.capability.value,
      env.method_.value, turn.outcome);
  }

  // ---------- When none runs ----------

  /** The id was used before on this connection. */
  predicate Reused(turns: seq<Turn>, i: nat, id: Text)
    requires i <= |turns|
  {
    exists j :: 0 <= j < i && Uses(turns, j, id)
  }

  predicate Malformed(r: Reaction, env: Envelope, message: string) {
    Refused(r, env.id, env.capability, env.method_, MalformedMessage, message, false)
  }

  /** A message that cannot be read, that repeats an id or that breaks the frame rules is refused as
      malformed, whatever it asks for. */
  lemma MalformedIsRefused(cfg: Config, identity: Option<Identity>, turns: seq<Turn>, i: nat)
    requires i < |turns|
    ensures var r, incoming := At(cfg, Fresh(identity), turns, i), turns[i].incoming;
            if incoming.Unreadable? then
              incoming.id.Some? && IdLength(incoming.id.value) ==>
              var id := incoming.id.value;
              Refused(r, id, None, None, MalformedMessage, cfg.wording(Garbled(id)), false)
            else
              var env := incoming.env;
              && (Reused(turns, i, env.id) ==> Malformed(r, env, cfg.wording(Replayed(env.id))))
              && (!Reused(turns, i, env.id) && !FrameValid(env) && IdLength(env.id) ==>
                  Malformed(r, env, cfg.wording(Invalid(env))))
  {
    hide Refused;
    hide FrameValid;
    var st, turn := Before(cfg, Fresh(identity), turns, i), turns[i];
    match turn.incoming
    case Unreadable(id) =>
      if id.Some? {
        RefuseShape(cfg, st, turn.broker, turn.amb, id.value, None, None, MalformedMessage, Garbled(id.value), false);
      }
    case Frame(env) =>
      SeenIdsWereUsed(cfg, identity, turns, i, env.id);
      RefuseShape(cfg, st, turn.broker, turn.amb, env.id, env.capability, env.method_, MalformedMessage,
        Replayed(env.id), false);
      RefuseShape(cfg, st.(seen := st.seen + {env.id}), turn.broker, turn.amb, env.id, env.capability, env.method_,
        MalformedMessage, Invalid(env), false);
      hide Refuse;
      hide Before;
  }

  /** A message that is neither malformed nor a repetition. */
  ghost predicate IsSound(turns: seq<Turn>, i: nat)
    requires i < |turns|
  {
    turns[i].incoming.Frame? && !Reused(turns, i, turns[i].incoming.env.id) && FrameValid(turns[i].incoming.env)
  }

  /** What is wrong with an Invocation that reaches the gate and is stopped there. */
  predicate GateComplains(r: Reaction, env: Envelope, e: Broker.BrokerError, message: string) {
    match e
    case UnknownCapability => Refused(r, env.id, env.capability, env.method_, Unavailable, message, true)
    case GenerationMismatch => Refused(r, env.id, env.capability, env.method_, StaleGeneration, message, false)
    case _ => Refused(r, env.id, env.capability, env.method_, Unauthorized, message, false)
  }

  predicate Unauthorised(cfg: Config, r: Reaction, env: Envelope, problem: Problem) {
    Refused(r, env.id, env.capability, env.method_, Unauthorized, cfg.wording(problem), false)
  }

  lemma GateNeverConflicts(broker: Broker.State, q: Broker.Request, now: nat)
    ensures Broker.Gate(broker, q, now) != Err(Broker.Conflict)
    ensures Broker.Gate(broker, q, now) != Err(Broker.UnknownProvider)
  {
  }

  lemma ObjectionIsSent(cfg: Config, st: State, broker: Broker.State, env: Envelope, amb: Ambient, outcome: Outcome)
    requires IsInvocation(env)
    ensures var r, o := InvocationStep(cfg, st, broker, env, amb, outcome), Objection(st, broker, env, amb.brokerNow);
            o.Some? ==> Refused(r, env.id, env.capability, env.method_, o.value.code, cfg.wording(o.value.problem),
                                o.value.retryable)
  {
    hide Refused;
    hide Objection;
    hide Answered;
    var o := Objection(st, broker, env, amb.brokerNow);
    if o.Some? {
      RefuseShape(cfg, st, broker, amb, env.id, env.capability, env.method_, o.value.code, o.value.problem,
        o.value.retryable);
    }
    hide Refuse;
  }

  lemma GateErrorIsSent(r: Reaction, env: Envelope, e: Broker.BrokerError, message: string)
    requires e != Broker.Conflict && e != Broker.UnknownProvider
    requires Refused(r, env.id, env.capability, env.method_, GateErrorCode(e).0, message, GateErrorCode(e).1)
    ensures GateComplains(r, env, e, message)
  {
    hide Refused;
  }

  lemma ObjectionShape(cfg: Config, st: State, broker: Broker.State, env: Envelope, amb: Ambient, outcome: Outcome)
    requires IsInvocation(env)
    ensures var r, id := InvocationStep(cfg, st, broker, env, amb, outcome), env.participant.activationId;
            if id.None? then Unauthorised(cfg, r, env, NoActivation)
            else if id.value !in st.activations then Unauthorised(cfg, r, env, UnknownActivation(id.value))
            else
              var a, c := st.activations[id.value], env.capability.value;
              && (c !in a.granted ==> Unauthorised(cfg, r, env, NotInAgreement(c, id.value)))
              && (c in a.granted && a.generation == 0 && a.authority == Ordinary ==>
                  Unauthorised(cfg, r, env, RelaxedIsShellOnly))
              && (c in a.granted && a.generation != 0 ==>
                  var gate := Broker.Gate(broker, GateRequest(a, c), amb.brokerNow);
                  gate.Err? ==> GateComplains(r, env, gate.error, cfg.wording(GateClosed(gate.error))))
  {
    hide Refused;
    hide InvocationStep;
    hide Broker.Gate;
    hide GateRequest;
    hide GateErrorCode;
    hide GateComplains;
    ObjectionIsSent(cfg, st, broker, env, amb, outcome);
    var id, c := env.participant.activationId, env.capability.value;
    if id.Some? && id.value in st.activations {
      var a := st.activations[id.value];
      var gate := Broker.Gate(broker, GateRequest(a, c), amb.brokerNow);
      if c in a.granted && a.generation != 0 && gate.Err? {
        GateNeverConflicts(broker, GateRequest(a, c), amb.brokerNow);
        GateErrorIsSent(InvocationStep(cfg, st, broker, env, amb, outcome), env, gate.error,
          cfg.wording(GateClosed(gate.error)));
      }
    }
  }

  /** An Invocation that is in order as a message and still not dispatched: without an activation, under one
      this connection never agreed on, or for a capability the latest Agreement did not grant, it is
      unauthorised; at the gate the broker's error decides. */
  lemma InvocationIsRefused(cfg: Config, identity: Option<Identity>, turns: seq<Turn>, i: nat)
    requires i < |turns| && IsSound(turns, i) && IsInvocation(turns[i].incoming.env)
    ensures var start, env := Fresh(identity), turns[i].incoming.env;
            var r, id := At(cfg, start, turns, i), env.participant.activationId;
            if id.None? then Unauthorised(cfg, r, env, NoActivation)
            else
              var j := Latest(cfg, start, turns, i, id.value);
              if j.None? then Unauthorised(cfg, r, env, UnknownActivation(id.value))
              else
                var a, c := AgreedAt(cfg, start, turns, j.value).value, env.capability.value;
                && (c !in a.granted ==> Unauthorised(cfg, r, env, NotInAgreement(c, id.value)))
                && (c in a.granted && a.generation == 0 && a.authority == Ordinary ==>
                    Unauthorised(cfg, r, env, RelaxedIsShellOnly))
                && (c in a.granted && a.generation != 0 ==>
                    var gate := Broker.Gate(turns[i].broker, GateRequest(a, c), turns[i].amb.brokerNow);
                    gate.Err? ==> GateComplains(r, env, gate.error, cfg.wording(GateClosed(gate.error))))
  {
    hide AgreedAt;
    hide FrameValid;
    hide Unauthorised;
    hide GateComplains;
    hide Broker.Gate;
    hide GateRequest;
    hide InvocationStep;
    var st, turn, env := Before(cfg, Fresh(identity), turns, i), turns[i], turns[i].incoming.env;
    SeenIdsWereUsed(cfg, identity, turns, i, env.id);
    if env.participant.activationId.Some? {
      ActivationsWereAgreed(cfg, identity, turns, i, env.participant.activationId.value);
    }
    var st' := st.(seen := st.seen + {env.id});
    ObjectionShape(cfg, st', turn.broker, env, turn.amb, turn.outcome);
    hide Before;
    hide Latest;
  }

  // ---------- Hello ----------

  lemma {:induction false} ClassWasAgreed(cfg: Config, identity: Option<Identity>, turns: seq<Turn>, i: nat)
      returns (j: nat)
    requires i <= |turns| && Before(cfg, Fresh(identity), turns, i).authority.Some?
    ensures j < i && AgreedAt(cfg, Fresh(identity), turns, j).Some?
  {
    hide Agreed;
    hide React;
    hide Runs;
    hide Silent;
    j := 0;
    if i > 0 {
      TurnShape(cfg, Before(cfg, Fresh(identity), turns, i - 1), turns[i - 1]);
      if AgreedAt(cfg, Fresh(identity), turns, i - 1).Some? {
        j := i - 1;
      } else {
        j := ClassWasAgreed(cfg, identity, turns, i - 1);
      }
    }
  }

  /** An earlier Agreement of the connection has another class than this participant. */
  ghost predicate OtherClassAgreed(cfg: Config, identity: Option<Identity>, turns: seq<Turn>, i: nat, p: Participant)
    requires i <= |turns|
  {
    exists j :: 0 <= j < i && AgreedAt(cfg, Fresh(identity), turns, j).Some?
                && AgreedAt(cfg, Fresh(identity), turns, j).value.authority != AuthorityOf(cfg, identity, p)
  }

  lemma SwitchIsOtherClass(cfg: Config, identity: Option<Identity>, turns: seq<Turn>, i: nat, env: Envelope)
    requires i <= |turns|
    ensures SwitchesClass(cfg, Before(cfg, Fresh(identity), turns, i), env) <==>
            OtherClassAgreed(cfg, identity, turns, i, env.participant)
  {
    hide AgreedAt;
    hide AuthorityOf;
    var st := Before(cfg, Fresh(identity), turns, i);
    IdentityIsFixed(cfg, identity, turns, i);
    if st.authority.Some? {
      var j := ClassWasAgreed(cfg, identity, turns, i);
      ClassIsFixed(cfg, identity, turns, i, j);
    }
    forall j | 0 <= j < i && AgreedAt(cfg, Fresh(identity), turns, j).Some?
      ensures st.authority == Some(AgreedAt(cfg, Fresh(identity), turns, j).value.authority)
    {
      ClassIsFixed(cfg, identity, turns, i, j);
    }
    hide Before;
  }

  /** The Agreement tells the activation, what it grants and what not, and how long leases last. */
  predicate TellsAgreement(reply: Envelope, a: Activation, supports: seq<Coordinate>) {
    && IsAgreement(reply) && reply.replyTo == Some(a.helloId) && reply.error.None?
    && reply.participant == Participant(SERVER_COMPONENT, SERVER_FACET, Some(a.id))
    && var p := AgreementOf(reply);
    && p.activationId == a.id && p.granted == a.granted
    && (forall u :: u in p.unavailable ==> u.reason == PolicyDenied)
    && multiset(supports) == multiset(p.granted) + multiset(Coordinates(p.unavailable))
    && p.leaseConstraints == (if p.granted == [] then None else Some(LeaseConstraints(Some(3600), None)))
  }

  lemma DenialsAreByPolicy(broker: Broker.State, agent: Text, id: Text, supports: seq<Coordinate>, class_: Authority,
      now: nat)
    ensures var deal := Bargain(broker, agent, id, supports, class_, now).1;
            forall u :: u in deal.unavailable ==> u.reason == PolicyDenied
  {
    hide Broker.Negotiate;
    hide Sorted;
    hide Offer;
    hide DenyAll;
  }

  lemma AgreementReplyTells(generation: nat, amb: Ambient, a: Activation, supports: seq<Coordinate>, deal: Deal)
    requires a.id == ActivationId(amb.activation.nanos, amb.activation.counter) && a.granted == deal.granted
    requires forall u :: u in deal.unavailable ==> u.reason == PolicyDenied
    requires multiset(supports) == multiset(deal.granted) + multiset(Coordinates(deal.unavailable))
    ensures TellsAgreement(AgreementReply(generation, amb, a.helloId, deal), a, supports)
  {
    hide Ascii;
    hide Rfc3339.NowTimestampLike;
    hide MessageId;
    hide ActivationId;
    hide Coordinates;
  }

  lemma HelloReplyShape(cfg: Config, st: State, broker: Broker.State, env: Envelope, amb: Ambient)
    requires IsHello(env)
    ensures var r := HelloStep(cfg, st, broker, env, amb);
            if SwitchesClass(cfg, st, env) then
              Refused(r, env.id, None, None, Unauthorized, cfg.wording(ClassSwitch), false)
            else |r.replies| == 1
                 && TellsAgreement(r.replies[0], Established(cfg, st, broker, env, amb), HelloOf(env).supports)
  {
    hide Ascii;
    hide AuthorityOf;
    hide Rfc3339.NowTimestampLike;
    hide MessageId;
    hide ActivationId;
    hide Refused;
    if SwitchesClass(cfg, st, env) {
      RefuseShape(cfg, st, broker, amb, env.id, None, None, Unauthorized, ClassSwitch, false);
      hide Refuse;
    } else {
      var a := Established(cfg, st, broker, env, amb);
      var supports := HelloOf(env).supports;
      AgreementSplitsSupports(broker, a.agentId, a.id, supports, a.authority, amb.brokerNow);
      DenialsAreByPolicy(broker, a.agentId, a.id, supports, a.authority, amb.brokerNow);
      var deal := Bargain(broker, a.agentId, a.id, supports, a.authority, amb.brokerNow).1;
      hide Bargain;
      AgreementReplyTells(st.nextGeneration, amb, a, supports, deal);
      hide AgreementReply;
      hide TellsAgreement;
      hide Coordinates;
    }
  }

  /** A Hello that is in order as a message is refused exactly when an earlier Agreement of the connection has
      another class; otherwise the reply is the Agreement, told from the activation it establishes. */
  lemma HelloIsAnswered(cfg: Config, identity: Option<Identity>, turns: seq<Turn>, i: nat)
    requires i < |turns| && IsSound(turns, i) && IsHello(turns[i].incoming.env)
    ensures var start, env := Fresh(identity), turns[i].incoming.env;
            var r, a := At(cfg, start, turns, i), AgreedAt(cfg, start, turns, i);
            && (a.None? <==> OtherClassAgreed(cfg, identity, turns, i, env.participant))
            && (a.None? ==> Refused(r, env.id, None, None, Unauthorized, cfg.wording(ClassSwitch), false))
            && (a.Some? ==> r.call.None? && |r.replies| == 1
                            && TellsAgreement(r.replies[0], a.value, HelloOf(env).supports))
  {
    hide FrameValid;
    hide Refused;
    hide TellsAgreement;
    hide OtherClassAgreed;
    var st, turn, env := Before(cfg, Fresh(identity), turns, i), turns[i], turns[i].incoming.env;
    SeenIdsWereUsed(cfg, identity, turns, i, env.id);
    SwitchIsOtherClass(cfg, identity, turns, i, env);
    var st' := st.(seen := st.seen + {env.id});
    SessionRuns.HelloShape(cfg, st', turn.broker, env, turn.amb);
    HelloReplyShape(cfg, st', turn.broker, env, turn.amb);
    EstablishedIgnoresSeen(cfg, st, st'.seen, turn.broker, env, turn.amb);
    hide Before;
    hide HelloStep;
    hide Established;
    hide SwitchesClass;
  }

  /** A reply that carries neither what a handler returned nor an Agreement carries an error and no payload. */
  lemma OtherRepliesComplain(cfg: Config, identity: Option<Identity>, turns: seq<Turn>, i: nat)
    requires i < |turns| && At(cfg, Fresh(identity), turns, i).call.None?
    requires At(cfg, Fresh(identity), turns, i).replies != [] && AgreedAt(cfg, Fresh(identity), turns, i).None?
    ensures var reply := At(cfg, Fresh(identity), turns, i).replies[0];
            reply.kind == Result && reply.payload.None? && reply.error.Some?
  {
    hide At;
    hide AgreedAt;
    hide Authorised;
    hide Latest;
    var incoming := turns[i].incoming;
    AtMostOneReply(cfg, identity, turns, i);
    hide Before;
    if incoming.Unreadable? || !IsSound(turns, i) {
      MalformedIsRefused(cfg, identity, turns, i);
      if incoming.Frame? {
        SeenIdsWereUsed(cfg, identity, turns, i, incoming.env.id);
      }
    } else {
      SeenIdsWereUsed(cfg, identity, turns, i, incoming.env.id);
      ValidShapes(incoming.env);
      hide FrameValid;
      if IsHello(incoming.env) {
        HelloIsAnswered(cfg, identity, turns, i);
      } else if IsInvocation(incoming.env) {
        StoppedInvocationComplains(cfg, identity, turns, i);
      }
    }
  }

  lemma StoppedInvocationComplains(cfg: Config, identity: Option<Identity>, turns: seq<Turn>, i: nat)
    requires i < |turns| && IsSound(turns, i) && IsInvocation(turns[i].incoming.env)
    requires At(cfg, Fresh(identity), turns, i).call.None?
    ensures var r := At(cfg, Fresh(identity), turns, i);
            |r.replies| == 1 && r.replies[0].kind == Result && r.replies[0].payload.None? && r.replies[0].error.Some?
  {
    hide At;
    hide AgreedAt;
    hide Latest;
    hide FrameValid;
    hide Broker.Gate;
    hide GateRequest;
    InvocationIsRefused(cfg, identity, turns, i);
    HandlerRunsExactlyWhen(cfg, identity, turns, i);
    assert forall j :: 0 <= j < i ==> !Uses(turns, j, turns[i].incoming.env.id);
  }

  // ---------- Who is the Shell ----------

  function Lowered(s: Text): Text {
    seq(|s|, i requires 0 <= i < |s| => Folded(s[i]))
  }

  /** A participant gets the Shell's class exactly under the Shell's two names, and only where the policy is
      off or the peer's image is the expected one, up to case where file names ignore it. */
  lemma ShellExactlyWhen(cfg: Config, identity: Option<Identity>, p: Participant)
    ensures AuthorityOf(cfg, identity, p) == ShellControl <==>
            && p.component == Ascii("dsh-desktop-shell") && p.facet == Ascii("shell")
            && (cfg.policy.Off? ||
                (&& cfg.policy.expectedShell.Some? && identity.Some? && identity.value.imagePath.Some?
                 && var image, expected := identity.value.imagePath.value, cfg.policy.expectedShell.value;
                    if cfg.foldsCase then Lowered(image) == Lowered(expected) else image == expected))
  {
    hide Ascii;
    hide Folded;
    if cfg.policy.Strict? && cfg.policy.expectedShell.Some? && identity.Some? && identity.value.imagePath.Some? {
      var image, expected := identity.value.imagePath.value, cfg.policy.expectedShell.value;
      if Lowered(image) == Lowered(expected) {
        assert |image| == |expected|;
        assert forall i :: 0 <= i < |image| ==> Folded(image[i]) == Lowered(image)[i] == Folded(expected[i]);
      }
    }
  }

  /** Folding case takes the upper-case ASCII letters to their lower-case ones and leaves every other byte. */
  lemma FoldedExactly(a: Byte, b: Byte)
    ensures Folded(a) == Folded(b) <==> a == b || (IsUpper(a) && b == a + 32) || (IsUpper(b) && a == b + 32)
  {
  }
}
