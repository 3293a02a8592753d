/**
  * The negotiation session of one capability activation (crates/adapter-dsh-std/src/negotiate.rs):
  * Hello, Agreement, activation, with reject and degrade paths. Clock readings and the message id
  * that is made when the decision brings none are inputs; the texts of errors are left out.
  */
module Negotiation {
  import opened Core
  import opened Envelope

  datatype Phase = Proposed | Agreed | Active | Rejected

  datatype ErrorCode = Conflicting | InvalidState | Malformed

  datatype RejectionReason = Unavailable | UnsupportedVersion | PolicyRefused | ProviderFailed | PeerRejected

  datatype HelloMessage = HelloMessage(id: Text, generation: nat, participant: Participant, payload: HelloPayload)

  datatype AgreementMessage = AgreementMessage(id: Text, replyTo: Text, generation: nat, participant: Participant,
                                               payload: AgreementPayload)

  datatype Activation = Activation(terms: AgreementPayload, createdAt: Text, degraded: bool)

  datatype Rejection = Rejection(reason: RejectionReason, message: Option<string>, at: Text)

  datatype Event =
    | HelloSeen(at: Text, id: Text)
    | Degraded(at: Text, count: nat)
    | AgreementIssued(at: Text, id: Text)
    | Activated(at: Text, id: Text)
    | RejectedWith(at: Text, reason: RejectionReason, message: Option<string>)

  datatype Decision = Decision(terms: AgreementPayload, id: Option<Text>, generation: Option<nat>,
                               participant: Option<Participant>)

  datatype State = State(phase: Phase, hello: Option<HelloMessage>, agreement: Option<AgreementMessage>,
                         activation: Option<Activation>, rejection: Option<Rejection>, degraded: bool,
                         history: seq<Event>)

  const BEGUN := State(Proposed, None, None, None, None, false, [])

  // ---------- The four calls ----------

  predicate HelloWellFormed(hello: HelloMessage) {
    && IdLength(hello.id) && 8 <= |hello.payload.instanceId| <= 128
    && Unique(hello.payload.supports)
    && (hello.payload.requires_ != [] || hello.payload.supports != [])
  }

  function HelloStep(s: State, hello: HelloMessage, at: Text): (State, Result<HelloMessage, ErrorCode>) {
    if s.phase == Rejected then (s, Err(InvalidState))
    else if s.phase != Proposed then (s, Err(Conflicting))
    else if s.hello.Some? then (s, if s.hello.value.id == hello.id then Ok(s.hello.value) else Err(Conflicting))
    else if !HelloWellFormed(hello) then (s, Err(Malformed))
    else (s.(hello := Some(hello), history := s.history + [HelloSeen(at, hello.id)]), Ok(hello))
  }

  predicate GrantsOnlySupports(terms: AgreementPayload, supports: seq<Coordinate>) {
    forall i :: 0 <= i < |terms.granted| ==> terms.granted[i] in supports
  }

  predicate GrantsNothingUnavailable(terms: AgreementPayload) {
    forall i :: 0 <= i < |terms.unavailable| ==> terms.unavailable[i].coordinate !in terms.granted
  }

  predicate UniqueUnavailable(us: seq<UnavailableCapability>) {
    forall i, j :: 0 <= i < j < |us| ==> us[i].coordinate != us[j].coordinate
  }

  function Drafted(hello: HelloMessage, d: Decision, freshId: Text): AgreementMessage {
    AgreementMessage(if d.id.Some? then d.id.value else freshId, hello.id,
                     if d.generation.Some? then d.generation.value else hello.generation,
                     if d.participant.Some? then d.participant.value else hello.participant, d.terms)
  }

  function AgreementStep(s: State, d: Decision, freshId: Text, degradeAt: Text, at: Text)
    : (State, Result<AgreementMessage, ErrorCode>)
  {
    if s.phase == Rejected then (s, Err(InvalidState))
    else if s.phase != Proposed then (s, Err(Conflicting))
    else if s.hello.None? then (s, Err(InvalidState))
    else if !GrantsOnlySupports(d.terms, s.hello.value.payload.supports) then (s, Err(Conflicting))
    else if !GrantsNothingUnavailable(d.terms) then (s, Err(Conflicting))
    else if !(1 <= |d.terms.activationId| <= 128) then (s, Err(Malformed))
    else if !Unique(d.terms.granted) || !UniqueUnavailable(d.terms.unavailable) then (s, Err(Malformed))
    else
      var agreement := Drafted(s.hello.value, d, freshId);
      if !IdLength(agreement.id) then (s, Err(Malformed))
      else
        var n := |d.terms.unavailable|;
        (s.(agreement := Some(agreement), phase := Agreed, degraded := s.degraded || n > 0,
            history := s.history + (if n > 0 then [Degraded(degradeAt, n)] else [])
              + [AgreementIssued(at, agreement.id)]),
         Ok(agreement))
  }

  function ActivateStep(s: State, at: Text): (State, Result<Activation, ErrorCode>) {
    if s.phase == Rejected then (s, Err(InvalidState))
    else if s.phase == Active then (s, if s.activation.Some? then Ok(s.activation.value) else Err(InvalidState))
    else if s.phase != Agreed then (s, Err(InvalidState))
    else if s.agreement.None? then (s, Err(InvalidState))
    else
      var a := Activation(s.agreement.value.payload, at, s.degraded);
      (s.(activation := Some(a), phase := Active, history := s.history + [Activated(at, a.terms.activationId)]), Ok(a))
  }

  function RejectStep(s: State, reason: RejectionReason, message: Option<string>, at: Text)
      : (State, Result<Rejection, ErrorCode>) {
    if s.phase == Rejected then (s, if s.rejection.Some? then Ok(s.rejection.value) else Err(InvalidState))
    else if s.phase == Active then (s, Err(Conflicting))
    else
      var r := Rejection(reason, message, at);
      (s.(rejection := Some(r), phase := Rejected, history := s.history + [RejectedWith(at, reason, message)]), Ok(r))
  }

  // ---------- The session object ----------

  method AllUniqueUnavailable(us: seq<UnavailableCapability>) returns (ok: bool)
    ensures ok <==> UniqueUnavailable(us)
  {
    var seen := {};
    for i := 0 to |us|
      invariant forall c :: c in seen <==> exists j :: 0 <= j < i && us[j].coordinate == c
      invariant forall j, k :: 0 <= j < k < i ==> us[j].coordinate != us[k].coordinate
    {
      if us[i].coordinate in seen {
        return false;
      }
      seen := seen + {us[i].coordinate};
    }
    return true;
  }

  class NegotiationSession {
    var phase: Phase
    var hello: Option<HelloMessage>
    var agreement: Option<AgreementMessage>
    var activation: Option<Activation>
    var rejection: Option<Rejection>
    var degraded: bool
    var history: seq<Event>

    ghost function View(): State
      reads this
    {
      State(phase, hello, agreement, activation, rejection, degraded, history)
    }

    constructor Begin()
      ensures View() == BEGUN
    {
      phase, hello, agreement, activation, rejection, degraded, history := Proposed, None, None, None, None, false, [];
    }

    method ReceiveHello(message: HelloMessage, at: Text) returns (r: Result<HelloMessage, ErrorCode>)
      modifies this
      ensures (View(), r) == HelloStep(old(View()), message, at)
    {
      if phase == Rejected {
        return Err(InvalidState);
      }
      if phase != Proposed {
        return Err(Conflicting);
      }
      if hello.Some? {
        return if hello.value.id == message.id then Ok(hello.value) else Err(Conflicting);
      }
      if !IdLength(message.id) || !(8 <= |message.payload.instanceId| <= 128) {
        return Err(Malformed);
      }
      var unique := IsUnique(message.payload.supports);
      if !unique || (message.payload.requires_ == [] && message.payload.supports == []) {
        return Err(Malformed);
      }
      hello := Some(message);
      history := history + [HelloSeen(at, message.id)];
      return Ok(message);
    }

    method IssueAgreement(d: Decision, freshId: Text, degradeAt: Text, at: Text)
      returns (r: Result<AgreementMessage, ErrorCode>)
      modifies this
      ensures (View(), r) == AgreementStep(old(View()), d, freshId, degradeAt, at)
    {
      if phase == Rejected {
        return Err(InvalidState);
      }
      if phase != Proposed {
        return Err(Conflicting);
      }
      if hello.None? {
        return Err(InvalidState);
      }
      for i := 0 to |d.terms.granted|
        invariant View() == old(View())
        invariant forall j :: 0 <= j < i ==> d.terms.granted[j] in hello.value.payload.supports
      {
        if d.terms.granted[i] !in hello.value.payload.supports {
          return Err(Conflicting);
        }
      }
      for i := 0 to |d.terms.unavailable|
        invariant View() == old(View())
        invariant forall j :: 0 <= j < i ==> d.terms.unavailable[j].coordinate !in d.terms.granted
      {
        if d.terms.unavailable[i].coordinate in d.terms.granted {
          return Err(Conflicting);
        }
      }
      if d.terms.activationId == [] || |d.terms.activationId| > 128 {
        return Err(Malformed);
      }
      var uniqueGranted := IsUnique(d.terms.granted);
      var uniqueUnavailable := AllUniqueUnavailable(d.terms.unavailable);
      if !uniqueGranted || !uniqueUnavailable {
        return Err(Malformed);
      }
      var drafted := Drafted(hello.value, d, freshId);
      if !IdLength(drafted.id) {
        return Err(Malformed);
      }
      agreement, phase := Some(drafted), Agreed;
      assert history + [] == history;
      if d.terms.unavailable != [] {
        degraded := true;
        history := history + [Degraded(degradeAt, |d.terms.unavailable|)];
      }
      history := history + [AgreementIssued(at, drafted.id)];
      return Ok(drafted);
    }

    method Activate(at: Text) returns (r: Result<Activation, ErrorCode>)
      modifies this
      ensures (View(), r) == ActivateStep(old(View()), at)
    {
      if phase == Rejected {
        return Err(InvalidState);
      }
      if phase == Active {
        return if activation.Some? then Ok(activation.value) else Err(InvalidState);
      }
      if phase != Agreed || agreement.None? {
        return Err(InvalidState);
      }
      var record := Activation(agreement.value.payload, at, degraded);
      activation, phase := Some(record), Active;
      history := history + [Activated(at, record.terms.activationId)];
      return Ok(record);
    }

    method Reject(reason: RejectionReason, message: Option<string>, at: Text) returns (r: Result<Rejection, ErrorCode>)
      modifies this
      ensures (View(), r) == RejectStep(old(View()), reason, message, at)
    {
      if phase == Rejected {
        return if rejection.Some? then Ok(rejection.value) else Err(InvalidState);
      }
      if phase == Active {
        return Err(Conflicting);
      }
      var record := Rejection(reason, message, at);
      rejection, phase := Some(record), Rejected;
      history := history + [RejectedWith(at, reason, message)];
      return Ok(record);
    }

    /** The required coordinates that are not granted, in the order the Hello lists them. */
    method UnsatisfiedRequirements(granted: seq<Coordinate>) returns (missing: seq<Coordinate>)
      ensures missing == if hello.None? then [] else Missing(hello.value.payload.requires_, granted)
    {
      missing := [];
      if hello.None? {
        return;
      }
      var wanted := hello.value.payload.requires_;
      for i := 0 to |wanted|
        invariant missing == Missing(wanted[..i], granted)
      {
        assert wanted[..i + 1][..i] == wanted[..i];
        if wanted[i].required && wanted[i].coordinate !in granted {
          missing := missing + [wanted[i].coordinate];
        }
      }
      assert wanted[..|wanted|] == wanted;
    }
  }

  function Missing(wanted: seq<Requirement>, granted: seq<Coordinate>): seq<Coordinate> {
    if wanted == [] then []
    else
      var last := wanted[|wanted| - 1];
      Missing(wanted[..|wanted| - 1], granted)
        + if last.required && last.coordinate !in granted then [last.coordinate] else []
  }

  // ---------- Runs ----------

  datatype Op =
    | DoHello(hello: HelloMessage, at: Text)
    | DoAgreement(decision: Decision, freshId: Text, degradeAt: Text, at: Text)
    | DoActivate(at: Text)
    | DoReject(reason: RejectionReason, message: Option<string>, at: Text)

  function Step(s: State, op: Op): State {
    match op
    case DoHello(hello, at) => HelloStep(s, hello, at).0
    case DoAgreement(d, freshId, degradeAt, at) => AgreementStep(s, d, freshId, degradeAt, at).0
    case DoActivate(at) => ActivateStep(s, at).0
    case DoReject(reason, message, at) => RejectStep(s, reason, message, at).0
  }

  predicate Fails(s: State, op: Op) {
    match op
    case DoHello(hello, at) => HelloStep(s, hello, at).1.Err?
    case DoAgreement(d, freshId, degradeAt, at) => AgreementStep(s, d, freshId, degradeAt, at).1.Err?
    case DoActivate(at) => ActivateStep(s, at).1.Err?
    case DoReject(reason, message, at) => RejectStep(s, reason, message, at).1.Err?
  }

  function Run(s: State, ops: seq<Op>): State {
    if ops == [] then s else Step(Run(s, ops[..|ops| - 1]), ops[|ops| - 1])
  }

  /** A Hello, then an Agreement behind a degrade notice exactly when something is unavailable,
      then an activation or a rejection: each at most once, with the ids the session holds. */
  predicate IsTimeline(s: State) {
    var h := if s.hello.Some? then 1 else 0;
    var d := if s.agreement.Some? && s.agreement.value.payload.unavailable != [] then 1 else 0;
    var a := if s.agreement.Some? then 1 else 0;
    var e := if s.phase == Active || s.phase == Rejected then 1 else 0;
    && |s.history| == h + d + a + e
    && (s.hello.Some? ==> s.history[0].HelloSeen? && s.history[0].id == s.hello.value.id)
    && (d == 1 ==> s.history[h].Degraded? && s.history[h].count == |s.agreement.value.payload.unavailable|)
    && (a == 1 ==> s.history[h + d].AgreementIssued? && s.history[h + d].id == s.agreement.value.id)
    && (s.phase == Active ==>
          && s.activation.Some? && s.history[h + d + a].Activated?
          && s.history[h + d + a].id == s.activation.value.terms.activationId)
    && (s.phase == Rejected ==>
          && s.rejection.Some?
          && s.history[h + d + a]
             == RejectedWith(s.rejection.value.at, s.rejection.value.reason, s.rejection.value.message))
  }

  /** What an Agreement owes to the Hello it answers. */
  predicate AgreementAnswers(agreement: AgreementMessage, hello: HelloMessage) {
    && agreement.replyTo == hello.id && IdLength(agreement.id)
    && 1 <= |agreement.payload.activationId| <= 128
    && GrantsOnlySupports(agreement.payload, hello.payload.supports)
    && GrantsNothingUnavailable(agreement.payload)
    && Unique(agreement.payload.granted) && UniqueUnavailable(agreement.payload.unavailable)
  }

  predicate Inv(s: State) {
    && (s.phase == Agreed || s.phase == Active ==> s.agreement.Some?)
    && (s.phase == Proposed ==> s.agreement.None?)
    && (s.activation.Some? <==> s.phase == Active)
    && (s.rejection.Some? <==> s.phase == Rejected)
    && (s.hello.Some? ==> HelloWellFormed(s.hello.value))
    && (s.agreement.Some? ==> s.hello.Some? && AgreementAnswers(s.agreement.value, s.hello.value))
    && (s.degraded <==> s.agreement.Some? && s.agreement.value.payload.unavailable != [])
    && (s.activation.Some? ==>
       s.activation.value.terms == s.agreement.value.payload && s.activation.value.degraded == s.degraded)
    && IsTimeline(s)
  }

  lemma StepKeepsInv(s: State, op: Op)
    requires Inv(s)
    ensures Inv(Step(s, op))
  {
    hide HelloWellFormed;
    hide GrantsOnlySupports;
    hide GrantsNothingUnavailable;
    hide Unique;
    hide UniqueUnavailable;
    hide IdLength;
  }

  lemma {:induction false} RunKeepsInv(ops: seq<Op>)
    ensures Inv(Run(BEGUN, ops))
  {
    if ops != [] {
      RunKeepsInv(ops[..|ops| - 1]);
      hide Inv;
      StepKeepsInv(Run(BEGUN, ops[..|ops| - 1]), ops[|ops| - 1]);
    }
  }

  /** Over every sequence of calls: what is granted stays within the Hello's supports and apart from
      what is unavailable, and the activation is the agreement. */
  lemma GrantedStaysWithinSupports(ops: seq<Op>, c: Coordinate)
    ensures var s := Run(BEGUN, ops);
            && (s.agreement.Some? ==>
                  && s.hello.Some? && s.agreement.value.replyTo == s.hello.value.id
                  && (c in s.agreement.value.payload.granted ==> c in s.hello.value.payload.supports)
                  && (c in s.agreement.value.payload.granted ==>
                        forall i :: 0 <= i < |s.agreement.value.payload.unavailable| ==>
                          s.agreement.value.payload.unavailable[i].coordinate != c))
            && (s.activation.Some? ==> s.agreement.Some? && s.activation.value.terms == s.agreement.value.payload
                                       && (s.activation.value.degraded <==>
                                          s.agreement.value.payload.unavailable != []))
  {
    RunKeepsInv(ops);
  }

  /** Over every sequence of calls the history is a timeline. */
  lemma HistoryIsATimeline(ops: seq<Op>)
    ensures IsTimeline(Run(BEGUN, ops)) && Inv(Run(BEGUN, ops))
  {
    RunKeepsInv(ops);
  }

  /** A failed call changes nothing, and a call never rewrites the history. */
  lemma FailedCallsChangeNothing(s: State, op: Op)
    ensures Fails(s, op) ==> Step(s, op) == s
    ensures s.history <= Step(s, op).history
    ensures Step(s, op).history == s.history ==> Step(s, op) == s
  {
    hide HelloWellFormed;
    hide GrantsOnlySupports;
    hide GrantsNothingUnavailable;
    hide Unique;
    hide UniqueUnavailable;
    hide IdLength;
  }

  lemma {:induction false} RunSplits(s: State, first: seq<Op>, second: seq<Op>)
    ensures Run(s, first + second) == Run(Run(s, first), second)
  {
    if second == [] {
      assert first + second == first;
    } else {
      var n := |second| - 1;
      RunSplits(s, first, second[..n]);
      assert (first + second)[..|first| + n] == first + second[..n];
    }
  }

  lemma {:induction false} FinalFrom(s: State, ops: seq<Op>)
    requires s.phase == Active || s.phase == Rejected
    ensures Run(s, ops) == s
  {
    if ops != [] {
      FinalFrom(s, ops[..|ops| - 1]);
      hide AgreementStep;
      FinalStep(s, ops[|ops| - 1]);
    }
  }

  lemma FinalStep(s: State, op: Op)
    requires s.phase == Active || s.phase == Rejected
    ensures Step(s, op) == s
  {
  }

  /** Active and rejected sessions are final: no later call changes anything. */
  lemma EndedSessionsAreFinal(first: seq<Op>, second: seq<Op>)
    requires Run(BEGUN, first).phase == Active || Run(BEGUN, first).phase == Rejected
    ensures Run(BEGUN, first + second) == Run(BEGUN, first)
  {
    RunSplits(BEGUN, first, second);
    FinalFrom(Run(BEGUN, first), second);
  }

  lemma {:induction false} MissingMembers(wanted: seq<Requirement>, granted: seq<Coordinate>, c: Coordinate)
    ensures c in Missing(wanted, granted) <==>
            c !in granted && exists i :: 0 <= i < |wanted| && wanted[i].required && wanted[i].coordinate == c
  {
    if wanted != [] {
      var front, last := wanted[..|wanted| - 1], wanted[|wanted| - 1];
      assert c in Missing(wanted, granted) <==>
             c in Missing(front, granted) || (last.required && last.coordinate !in granted && c == last.coordinate);
      MissingMembers(front, granted, c);
      hide Missing;
      assert forall i :: 0 <= i < |front| ==> front[i] == wanted[i];
      assert (exists i :: 0 <= i < |wanted| && wanted[i].required && wanted[i].coordinate == c)
             <==>
             (exists i :: 0 <= i < |front| && front[i].required && front[i].coordinate == c)
               || (last.required && last.coordinate == c);
    }
  }

  /** Nothing is missing exactly when every required coordinate is granted. */
  lemma NothingMissingExactlyWhen(wanted: seq<Requirement>, granted: seq<Coordinate>)
    ensures Missing(wanted, granted) == [] <==>
            forall i :: 0 <= i < |wanted| && wanted[i].required ==> wanted[i].coordinate in granted
  {
    forall c
      ensures c in Missing(wanted, granted) <==>
              c !in granted && exists i :: 0 <= i < |wanted| && wanted[i].required && wanted[i].coordinate == c
    {
      MissingMembers(wanted, granted, c);
    }
    if Missing(wanted, granted) != [] {
      assert Missing(wanted, granted)[0] in Missing(wanted, granted);
    }
  }
}
