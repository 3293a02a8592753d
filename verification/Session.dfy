/**
  * The envelope session of one connection (crates/daemon/src/server.rs): replay rejection, Hello to
  * Agreement, authority classes, the invocation gate and reply numbering. The wording of error
  * messages, the clock readings, the token readings and what a capability handler returns are inputs.
  */
module Session {
  import opened Core
  import opened Envelope
  import Broker
  import Rfc3339

  const SERVER_COMPONENT: Text := Ascii("dsh-desktop-shell")
  const SERVER_FACET: Text := Ascii("daemon")
  const SHELL_COMPONENT: Text := Ascii("dsh-desktop-shell")
  const SHELL_FACET: Text := Ascii("shell")
  const LEASE_MAX_SECONDS: nat := 3600

  /** `<name>.dsh-desktop.local/v1alpha1` */
  function Listed(name: string, kind: string): Coordinate {
    Coordinate(Ascii(name + ".dsh-desktop.local/v1alpha1"), Ascii(kind))
  }

  const CATALOG: seq<Coordinate> := [
    Listed("system", "System"), Listed("daemon", "Daemon"), Listed("browser", "Browser"),
    Listed("terminal", "Terminal"), Listed("runtime", "Runtime"), Listed("scheduler", "Scheduler")]

  predicate CatalogSupports(c: Coordinate) {
    c in CATALOG
  }

  // ---------- Who is on the other end ----------

  datatype Identity = Identity(pid: nat, imagePath: Option<Text>)

  datatype Policy = Off | Strict(expectedShell: Option<Text>)

  function Folded(b: Byte): Byte {
    if IsUpper(b) then b + 32 else b
  }

  /** `foldsCase` says whether the platform's file names ignore case. */
  predicate ImageMatches(identity: Identity, expected: Text, foldsCase: bool) {
    identity.imagePath.Some? &&
    var image := identity.imagePath.value;
    if foldsCase then |image| == |expected| && forall i :: 0 <= i < |image| ==> Folded(image[i]) == Folded(expected[i])
    else image == expected
  }

  predicate Allows(policy: Policy, identity: Option<Identity>, foldsCase: bool) {
    match policy
    case Off => true
    case Strict(expected) => identity.Some? && expected.Some? && ImageMatches(identity.value, expected.value, foldsCase)
  }

  datatype Authority = ShellControl | Ordinary

  // ---------- State and inputs ----------

  datatype Activation = Activation(id: Text, authority: Authority, agentId: Text, generation: nat,
                                   granted: seq<Coordinate>, helloId: Text)

  datatype State = State(activations: map<Text, Activation>, authority: Option<Authority>, identity: Option<Identity>,
                         seen: set<Text>, nextGeneration: nat)

  function Fresh(identity: Option<Identity>): State {
    State(map[], None, identity, {}, 0)
  }

  /** Why a message is refused; the daemon's wording of each is a parameter. */
  datatype Problem =
    | Replayed(id: Text) | Garbled(id: Text) | Invalid(env: Envelope) | ClassSwitch
    | NoActivation | UnknownActivation(id: Text) | NotInAgreement(capability: Coordinate, id: Text)
    | RelaxedIsShellOnly | GateClosed(error: Broker.BrokerError)
    | NoSuchMethod(capability: Coordinate, method_: Text)

  datatype Config = Config(policy: Policy, foldsCase: bool, wording: Problem -> string)

  /** A reading of the clock and of the process-wide token counter. */
  datatype Reading = Reading(nanos: nat, counter: nat)

  datatype Ambient = Ambient(activation: Reading, message: Reading, wallMs: nat, brokerNow: nat)

  datatype Outcome =
    | Done(body: Text) | MethodNotFound | InvalidPayload(message: string) | MethodConflict(message: string)
    | MethodFailed(code: ErrorCode, message: string, retryable: bool)

  datatype Call = Call(capability: Coordinate, method_: Text, activation: Activation)

  /** What handling one message does: the new states, the replies and the handler run, if any. */
  datatype Reaction = Reaction(session: State, broker: Broker.State, replies: seq<Envelope>, call: Option<Call>)

  // ---------- Replies ----------

  function FromDaemon(activationId: Option<Text>): Participant {
    Participant(SERVER_COMPONENT, SERVER_FACET, activationId)
  }

  function Truncated(message: string): string {
    if |message| > ERROR_MESSAGE_MAX_LEN then message[..ERROR_MESSAGE_MAX_LEN] else message
  }

  function ErrorReply(generation: nat, amb: Ambient, id: Text, capability: Option<Coordinate>, method_: Option<Text>,
                      code: ErrorCode, message: string, retryable: bool): Envelope
  {
    Envelope(PROTOCOL, MessageId(amb.message.nanos, amb.message.counter), Result, Some(id), FromDaemon(None),
             Rfc3339.NowTimestampLike(amb.wallMs), generation, capability, method_, None,
             Some(ProtocolError(code, Truncated(message), retryable, id)))
  }

  function AgreementReply(generation: nat, amb: Ambient, id: Text, deal: Deal): Envelope {
    var activation := ActivationId(amb.activation.nanos, amb.activation.counter);
    Envelope(PROTOCOL, MessageId(amb.message.nanos, amb.message.counter), Agreement, Some(id),
             FromDaemon(Some(activation)), Rfc3339.NowTimestampLike(amb.wallMs), generation, None, None,
             Some(AgreementShape(AgreementPayload(activation, deal.granted, deal.unavailable,
                                                  if deal.granted == [] then None
                                                  else Some(LeaseConstraints(Some(LEASE_MAX_SECONDS), None))))),
             None)
  }

  function ResultReply(generation: nat, amb: Ambient, id: Text, activationId: Text, capability: Coordinate,
      method_: Text, body: Text): Envelope
  {
    Envelope(PROTOCOL, MessageId(amb.message.nanos, amb.message.counter), Result, Some(id),
             FromDaemon(Some(activationId)), Rfc3339.NowTimestampLike(amb.wallMs), generation, Some(capability),
             Some(method_), Some(OtherObject(body)), None)
  }

  function Refuse(cfg: Config, st: State, broker: Broker.State, amb: Ambient, id: Text, capability: Option<Coordinate>,
                  method_: Option<Text>, code: ErrorCode, problem: Problem, retryable: bool): Reaction
  {
    Reaction(st.(nextGeneration := st.nextGeneration + 1), broker,
             [ErrorReply(st.nextGeneration, amb, id, capability, method_, code, cfg.wording(problem), retryable)], None)
  }

  // ---------- Hello ----------

  function AgentId(p: Participant): Text {
    p.component + [45] + p.facet
  }

  function AuthorityOf(cfg: Config, identity: Option<Identity>, p: Participant): Authority {
    if p.component == SHELL_COMPONENT && p.facet == SHELL_FACET && Allows(cfg.policy, identity, cfg.foldsCase) then
      ShellControl
    else Ordinary
  }

  /** The supports that are in the catalog, or those that are not. */
  function Sorted(supports: seq<Coordinate>, catalogued: bool): seq<Coordinate> {
    if supports == [] then []
    else
      var last := supports[|supports| - 1];
      Sorted(supports[..|supports| - 1], catalogued) + if CatalogSupports(last) == catalogued then [last] else []
  }

  function Catalogued(supports: seq<Coordinate>): seq<Coordinate> {
    Sorted(supports, true)
  }

  function Denial(c: Coordinate): UnavailableCapability {
    UnavailableCapability(c, PolicyDenied)
  }

  function DenyAll(cs: seq<Coordinate>): (r: seq<UnavailableCapability>)
    ensures |r| == |cs| && forall i :: 0 <= i < |cs| ==> r[i] == Denial(cs[i])
  {
    if cs == [] then [] else DenyAll(cs[..|cs| - 1]) + [Denial(cs[|cs| - 1])]
  }

  function Denied(supports: seq<Coordinate>): seq<UnavailableCapability> {
    DenyAll(Sorted(supports, false))
  }

  function ToCapability(c: Coordinate): Broker.CapabilityId {
    Broker.CapabilityId(c.apiVersion, c.kind)
  }

  function ToCapabilities(cs: seq<Coordinate>): (r: seq<Broker.CapabilityId>)
    ensures |r| == |cs|
  {
    if cs == [] then [] else ToCapabilities(cs[..|cs| - 1]) + [ToCapability(cs[|cs| - 1])]
  }

  function Offer(activationId: Text, granted: seq<Coordinate>): Broker.Negotiated {
    Broker.Negotiated(activationId, true, ToCapabilities(granted), Broker.Known, Some(LEASE_MAX_SECONDS),
      Broker.DEFAULT_SCOPE)
  }

  datatype Deal = Deal(generation: nat, granted: seq<Coordinate>, unavailable: seq<UnavailableCapability>)

  /** The broker's answer decides what the Agreement grants. */
  function Settle(granted: seq<Coordinate>, unavailable: seq<UnavailableCapability>, authority: Authority,
                  answer: Result<Broker.AgentGrant, Broker.BridgeError>): Deal
  {
    match answer
    case Ok(grant) => Deal(grant.generation, granted, unavailable)
    case Err(e) =>
      if e == Broker.BrokerRefused(Broker.Conflict) && authority == ShellControl then Deal(0, granted, unavailable)
      else Deal(0, [], unavailable + DenyAll(granted))
  }

  function Bargain(broker: Broker.State, agent: Text, activationId: Text, supports: seq<Coordinate>,
      authority: Authority, now: nat)
    : (Broker.State, Deal)
  {
    var granted := Catalogued(supports);
    if granted == [] then (broker, Deal(0, [], Denied(supports)))
    else
      var (broker', answer) := Broker.Negotiate(broker, agent, Offer(activationId, granted), now);
      (broker', Settle(granted, Denied(supports), authority, answer))
  }

  predicate SwitchesClass(cfg: Config, st: State, env: Envelope) {
    st.authority.Some? && st.authority.value != AuthorityOf(cfg, st.identity, env.participant)
  }

  /** The activation a Hello establishes. */
  function Established(cfg: Config, st: State, broker: Broker.State, env: Envelope, amb: Ambient): Activation
    requires IsHello(env)
  {
    var id := ActivationId(amb.activation.nanos, amb.activation.counter);
    var agent, authority := AgentId(env.participant), AuthorityOf(cfg, st.identity, env.participant);
    var deal := Bargain(broker, agent, id, HelloOf(env).supports, authority, amb.brokerNow).1;
    Activation(id, authority, agent, deal.generation, deal.granted, env.id)
  }

  function HelloStep(cfg: Config, st: State, broker: Broker.State, env: Envelope, amb: Ambient): Reaction
    requires IsHello(env)
  {
    if SwitchesClass(cfg, st, env) then
      Refuse(cfg, st, broker, amb, env.id, None, None, Unauthorized, ClassSwitch, false)
    else
      var a := Established(cfg, st, broker, env, amb);
      var (broker', deal) := Bargain(broker, a.agentId, a.id, HelloOf(env).supports, a.authority, amb.brokerNow);
      Reaction(st.(activations := st.activations[a.id := a], authority := Some(a.authority),
                   nextGeneration := st.nextGeneration + 1),
               broker', [AgreementReply(st.nextGeneration, amb, env.id, deal)], None)
  }

  // ---------- Invocation ----------

  function GateErrorCode(e: Broker.BrokerError): (ErrorCode, bool) {
    match e
    case UnknownCapability | UnknownProvider => (Unavailable, true)
    case GenerationMismatch => (StaleGeneration, false)
    case Conflict => (ErrorCode.Conflict, false)
    case NotGranted | LeaseExpired | LeaseRevoked | ScopeMismatch => (Unauthorized, false)
  }

  function GateRequest(a: Activation, c: Coordinate): Broker.Request {
    Broker.Request(ToCapability(c), a.agentId, a.generation, Broker.DEFAULT_SCOPE)
  }

  function HandlerRefusal(cfg: Config, outcome: Outcome, c: Coordinate, m: Text): (ErrorCode, string, bool)
    requires !outcome.Done?
  {
    match outcome
    case MethodNotFound => (Unavailable, cfg.wording(NoSuchMethod(c, m)), false)
    case InvalidPayload(message) => (MalformedMessage, message, false)
    case MethodConflict(message) => (ErrorCode.Conflict, message, false)
    case MethodFailed(code, message, retryable) => (code, message, retryable)
  }

  function AnswerReply(cfg: Config, generation: nat, amb: Ambient, id: Text, activationId: Text, c: Coordinate, m: Text,
                       outcome: Outcome): Envelope
  {
    if outcome.Done? then ResultReply(generation, amb, id, activationId, c, m, outcome.body)
    else
      var (code, message, retryable) := HandlerRefusal(cfg, outcome, c, m);
      ErrorReply(generation, amb, id, Some(c), Some(m), code, message, retryable)
  }

  /** What running the handler answers. */
  function Answered(cfg: Config, st: State, broker: Broker.State, amb: Ambient, id: Text, activationId: Text,
      a: Activation, c: Coordinate, m: Text, outcome: Outcome): Reaction
  {
    Reaction(st.(nextGeneration := st.nextGeneration + 1), broker,
             [AnswerReply(cfg, st.nextGeneration, amb, id, activationId, c, m, outcome)], Some(Call(c, m, a)))
  }

  predicate IsInvocation(env: Envelope) {
    env.kind == Invocation && env.capability.Some? && env.method_.Some?
  }

  datatype Refusal = Refusal(code: ErrorCode, problem: Problem, retryable: bool)

  /** Why an Invocation is not dispatched, if it is not. */
  ghost function Objection(st: State, broker: Broker.State, env: Envelope, now: nat): Option<Refusal>
    requires IsInvocation(env)
  {
    var c, id := env.capability.value, env.participant.activationId;
    if id.None? then Some(Refusal(Unauthorized, NoActivation, false))
    else if id.value !in st.activations then Some(Refusal(Unauthorized, UnknownActivation(id.value), false))
    else
      var a := st.activations[id.value];
      if c !in a.granted then Some(Refusal(Unauthorized, NotInAgreement(c, id.value), false))
      else if a.generation == 0 then
        if a.authority != ShellControl then Some(Refusal(Unauthorized, RelaxedIsShellOnly, false)) else None
      else
        var gate := Broker.Gate(broker, GateRequest(a, c), now);
        if gate.Ok? then None
        else Some(Refusal(GateErrorCode(gate.error).0, GateClosed(gate.error), GateErrorCode(gate.error).1))
  }

  ghost function InvocationStep(cfg: Config, st: State, broker: Broker.State, env: Envelope, amb: Ambient,
      outcome: Outcome): Reaction
    requires IsInvocation(env)
  {
    var c, m, id := env.capability.value, env.method_.value, env.participant.activationId;
    match Objection(st, broker, env, amb.brokerNow)
    case Some(o) => Refuse(cfg, st, broker, amb, env.id, Some(c), Some(m), o.code, o.problem, o.retryable)
    case None => Answered(cfg, st, broker, amb, env.id, id.value, st.activations[id.value], c, m, outcome)
  }

  // ---------- One message ----------

  /** A frame decodes to an envelope, or it does not and at most its id can be recovered. */
  datatype Incoming = Frame(env: Envelope) | Unreadable(id: Option<Text>)

  ghost function FrameStep(cfg: Config, st: State, broker: Broker.State, env: Envelope, amb: Ambient,
      outcome: Outcome): Reaction {
    if env.id in st.seen then
      Refuse(cfg, st, broker, amb, env.id, env.capability, env.method_, MalformedMessage, Replayed(env.id), false)
    else
      var st' := st.(seen := st.seen + {env.id});
      if !FrameValid(env) then
        if IdLength(env.id) then
          Refuse(cfg, st', broker, amb, env.id, env.capability, env.method_, MalformedMessage, Invalid(env), false)
        else Reaction(st', broker, [], None)
      else if IsHello(env) then HelloStep(cfg, st', broker, env, amb)
      else if IsInvocation(env) then InvocationStep(cfg, st', broker, env, amb, outcome)
      else Reaction(st', broker, [], None)
  }

  ghost function Step(cfg: Config, st: State, broker: Broker.State, incoming: Incoming, amb: Ambient,
      outcome: Outcome): Reaction {
    match incoming
    case Frame(env) => FrameStep(cfg, st, broker, env, amb, outcome)
    case Unreadable(id) =>
      if id.Some? && IdLength(id.value) then
        Refuse(cfg, st, broker, amb, id.value, None, None, MalformedMessage, Garbled(id.value), false)
      else Reaction(st, broker, [], None)
  }

  /** A valid envelope has the fields its kind needs. */
  lemma ValidShapes(env: Envelope)
    requires FrameValid(env)
    ensures env.kind == Hello <==> IsHello(env)
    ensures env.kind == Invocation <==> IsInvocation(env)
    ensures IsInvocation(env) ==> ValidCoordinate(env.capability.value) && MethodPattern(env.method_.value)
    ensures IdLength(env.id)
    ensures env.participant.activationId.Some? ==> 1 <= |env.participant.activationId.value| <= 128
    ensures IsHello(env) ==> AllValid(HelloOf(env).supports) && Unique(HelloOf(env).supports)
  {
    hide Ascii;
    hide Rfc3339.Recognised;
    hide ValidCoordinate;
    assert !Violated(env, AtId) && !Violated(env, AtActivationId);
    assert !Violated(env, AtPayload) && !Violated(env, AtCapability) && !Violated(env, AtMethod);
    assert !Violated(env, AtSupports);
  }

  // ---------- The connection object ----------

  class Connection {
    var activations: map<Text, Activation>
    var authority: Option<Authority>
    const identity: Option<Identity>
    var seen: set<Text>
    var nextGeneration: nat

    ghost function View(): State
      reads this
    {
      State(activations, authority, identity, seen, nextGeneration)
    }

    constructor (identity: Option<Identity>)
      ensures View() == Fresh(identity)
    {
      this.identity := identity;
      activations, authority, seen, nextGeneration := map[], None, {}, 0;
    }

    method ErrorResult(amb: Ambient, id: Text, capability: Option<Coordinate>, method_: Option<Text>,
                       code: ErrorCode, message: string, retryable: bool) returns (replies: seq<Envelope>)
      modifies this`nextGeneration
      ensures replies == [ErrorReply(old(nextGeneration), amb, id, capability, method_, code, message, retryable)]
      ensures nextGeneration == old(nextGeneration) + 1
    {
      hide Ascii;
      replies := [ErrorReply(nextGeneration, amb, id, capability, method_, code, message, retryable)];
      nextGeneration := nextGeneration + 1;
    }

    method HandleHello(cfg: Config, broker: Broker.CapabilityBroker, env: Envelope, amb: Ambient)
      returns (replies: seq<Envelope>)
      requires IsHello(env)
      modifies this, broker
      ensures Reaction(View(), broker.View(), replies, None)
              == HelloStep(cfg, old(View()), old(broker.View()), env, amb)
    {
      hide Ascii;
      hide Bargain;
      hide ErrorReply;
      hide AgreementReply;
      var id := ActivationId(amb.activation.nanos, amb.activation.counter);
      var agent := AgentId(env.participant);
      var class_ := AuthorityOf(cfg, identity, env.participant);
      hide AuthorityOf;
      if authority.Some? && authority.value != class_ {
        replies := ErrorResult(amb, env.id, None, None, Unauthorized, cfg.wording(ClassSwitch), false);
        return;
      }
      var deal := Negotiate(broker, agent, id, HelloOf(env).supports, class_, amb.brokerNow);
      activations := activations[id := Activation(id, class_, agent, deal.generation, deal.granted, env.id)];
      authority := Some(class_);
      replies := [AgreementReply(nextGeneration, amb, env.id, deal)];
      nextGeneration := nextGeneration + 1;
    }

    /** Splits the supports by the catalog and asks the broker for the rest. */
    static method Negotiate(broker: Broker.CapabilityBroker, agent: Text, id: Text, supports: seq<Coordinate>,
        class_: Authority, now: nat) returns (deal: Deal)
      modifies broker
      ensures (broker.View(), deal) == Bargain(old(broker.View()), agent, id, supports, class_, now)
    {
      hide CatalogSupports;
      hide Broker.Negotiate;
      hide Offer;
      var granted: seq<Coordinate>, unavailable: seq<UnavailableCapability> := [], [];
      for i := 0 to |supports|
        invariant granted == Sorted(supports[..i], true) && unavailable == DenyAll(Sorted(supports[..i], false))
        invariant broker.View() == old(broker.View())
      {
        assert supports[..i + 1][..i] == supports[..i];
        if CatalogSupports(supports[i]) {
          granted := granted + [supports[i]];
        } else {
          ghost var denied := Sorted(supports[..i], false);
          assert (denied + [supports[i]])[..|denied|] == denied;
          unavailable := unavailable + [Denial(supports[i])];
        }
      }
      assert supports[..|supports|] == supports;
      var generation := 0;
      if granted != [] {
        var answer := broker.GrantFromNegotiation(agent, Offer(id, granted), now);
        if answer.Ok? {
          generation := answer.value.generation;
        } else if answer.error == Broker.BrokerRefused(Broker.Conflict) {
          if class_ != ShellControl {
            unavailable, granted := unavailable + DenyAll(granted), [];
          }
        } else {
          unavailable, granted := unavailable + DenyAll(granted), [];
        }
      }
      deal := Deal(generation, granted, unavailable);
    }

    method HandleInvocation(cfg: Config, broker: Broker.CapabilityBroker, env: Envelope, amb: Ambient, outcome: Outcome)
      returns (replies: seq<Envelope>, call: Option<Call>)
      requires IsInvocation(env)
      modifies this`nextGeneration
      ensures Reaction(View(), broker.View(), replies, call)
           == InvocationStep(cfg, old(View()), broker.View(), env, amb, outcome)
    {
      hide Ascii;
      hide Broker.Gate;
      hide ErrorReply;
      hide AnswerReply;
      var c, m, id := env.capability.value, env.method_.value, env.participant.activationId;
      call := None;
      if id.None? {
        replies := ErrorResult(amb, env.id, Some(c), Some(m), Unauthorized, cfg.wording(NoActivation), false);
        return;
      }
      if id.value !in activations {
        replies := ErrorResult(amb, env.id, Some(c), Some(m), Unauthorized, cfg.wording(UnknownActivation(id.value)),
          false);
        return;
      }
      var a := activations[id.value];
      if c !in a.granted {
        replies := ErrorResult(amb, env.id, Some(c), Some(m), Unauthorized, cfg.wording(NotInAgreement(c, id.value)),
          false);
        return;
      }
      if a.generation == 0 && a.authority != ShellControl {
        replies := ErrorResult(amb, env.id, Some(c), Some(m), Unauthorized, cfg.wording(RelaxedIsShellOnly), false);
        return;
      }
      if a.generation != 0 {
        var gate := broker.EnforceDispatch(GateRequest(a, c), amb.brokerNow);
        if gate.Err? {
          var (code, retryable) := GateErrorCode(gate.error);
          replies := ErrorResult(amb, env.id, Some(c), Some(m), code, cfg.wording(GateClosed(gate.error)), retryable);
          return;
        }
      }
      call := Some(Call(c, m, a));
      replies := Answer(cfg, amb, env.id, id.value, c, m, outcome);
    }

    method Answer(cfg: Config, amb: Ambient, id: Text, activationId: Text, c: Coordinate, m: Text, outcome: Outcome)
      returns (replies: seq<Envelope>)
      modifies this`nextGeneration
      ensures replies == [AnswerReply(cfg, old(nextGeneration), amb, id, activationId, c, m, outcome)]
      ensures nextGeneration == old(nextGeneration) + 1
    {
      hide ErrorReply;
      hide ResultReply;
      match outcome {
        case Done(body) =>
          replies := [ResultReply(nextGeneration, amb, id, activationId, c, m, body)];
          nextGeneration := nextGeneration + 1;
        case MethodNotFound =>
          replies := ErrorResult(amb, id, Some(c), Some(m), Unavailable, cfg.wording(NoSuchMethod(c, m)), false);
        case InvalidPayload(message) =>
          replies := ErrorResult(amb, id, Some(c), Some(m), MalformedMessage, message, false);
        case MethodConflict(message) =>
          replies := ErrorResult(amb, id, Some(c), Some(m), ErrorCode.Conflict, message, false);
        case MethodFailed(code, message, retryable) =>
          replies := ErrorResult(amb, id, Some(c), Some(m), code, message, retryable);
      }
    }

    method HandleEnvelope(cfg: Config, broker: Broker.CapabilityBroker, env: Envelope, amb: Ambient, outcome: Outcome)
      returns (replies: seq<Envelope>, call: Option<Call>)
      modifies this, broker
      ensures Reaction(View(), broker.View(), replies, call)
           == FrameStep(cfg, old(View()), old(broker.View()), env, amb, outcome)
    {
      hide Ascii;
      hide FrameValid;
      hide HelloStep;
      hide InvocationStep;
      hide ErrorReply;
      call := None;
      if env.id in seen {
        replies := ErrorResult(amb, env.id, env.capability, env.method_, MalformedMessage,
          cfg.wording(Replayed(env.id)), false);
        return;
      }
      seen := seen + {env.id};
      var issues := ValidateEnvelope(env);
      if issues != {} {
        if IdLength(env.id) {
          replies := ErrorResult(amb, env.id, env.capability, env.method_, MalformedMessage,
            cfg.wording(Invalid(env)), false);
        } else {
          replies := [];
        }
        return;
      }
      ValidShapes(env);
      match env.kind {
        case Hello => replies := HandleHello(cfg, broker, env, amb);
        case Invocation => replies, call := HandleInvocation(cfg, broker, env, amb, outcome);
        case _ => replies := [];
      }
    }

    method HandleIncoming(cfg: Config, broker: Broker.CapabilityBroker, incoming: Incoming, amb: Ambient,
        outcome: Outcome)
      returns (replies: seq<Envelope>, call: Option<Call>)
      modifies this, broker
      ensures Reaction(View(), broker.View(), replies, call)
           == Step(cfg, old(View()), old(broker.View()), incoming, amb, outcome)
    {
      hide FrameStep;
      hide ErrorReply;
      match incoming {
        case Frame(env) => replies, call := HandleEnvelope(cfg, broker, env, amb, outcome);
        case Unreadable(id) =>
          call := None;
          if id.Some? && IdLength(id.value) {
            replies := ErrorResult(amb, id.value, None, None, MalformedMessage, cfg.wording(Garbled(id.value)), false);
          } else {
            replies := [];
          }
      }
    }
  }
}
