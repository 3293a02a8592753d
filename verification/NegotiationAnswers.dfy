/** When the calls of a negotiation session succeed, told from what has happened on it so far. */
module NegotiationAnswers {
  import opened Core
  import opened Envelope
  import opened Negotiation

  predicate AgreementHappened(history: seq<Event>) {
    exists k :: 0 <= k < |history| && history[k].AgreementIssued?
  }

  predicate ActivationHappened(history: seq<Event>) {
    exists k :: 0 <= k < |history| && history[k].Activated?
  }

  predicate RejectionHappened(history: seq<Event>) {
    exists k :: 0 <= k < |history| && history[k].RejectedWith?
  }

  /** The phase is what the history says. */
  lemma HistoryTellsPhase(ops: seq<Op>)
    ensures var s := Run(BEGUN, ops);
            && (s.phase == Rejected <==> RejectionHappened(s.history))
            && (s.phase == Active <==> ActivationHappened(s.history))
            && (s.agreement.Some? <==> AgreementHappened(s.history))
            && (s.hello.Some? <==> s.history != [] && s.history[0].HelloSeen?)
            && (s.phase == Proposed <==> s.history == [] || (|s.history| == 1 && s.history[0].HelloSeen?))
            && Inv(s)
  {
    RunKeepsInv(ops);
    hide Run;
    hide HelloWellFormed;
    hide AgreementAnswers;
    var s := Run(BEGUN, ops);
    var h := if s.hello.Some? then 1 else 0;
    var d := if s.agreement.Some? && s.agreement.value.payload.unavailable != [] then 1 else 0;
    var a := if s.agreement.Some? then 1 else 0;
    assert s.phase == Active ==> s.history[h + d + a].Activated?;
    assert s.phase == Rejected ==> s.history[h + d + a].RejectedWith?;
    assert a == 1 ==> s.history[h + d].AgreementIssued?;
    assert forall k :: 0 <= k < |s.history| && s.history[k].AgreementIssued? ==> k == h + d;
    assert forall k :: 0 <= k < |s.history| && (s.history[k].Activated? || s.history[k].RejectedWith?) ==>
             k == h + d + a;
  }

  // ---------- Hello ----------

  /** The message and the instance have ids of legal lengths, no support is listed twice, and something is
      supported or required. */
  predicate Speaks(hello: HelloMessage) {
    && 8 <= |hello.id| <= 128 && 8 <= |hello.payload.instanceId| <= 128
    && (forall i, j :: 0 <= i < j < |hello.payload.supports| ==>
          hello.payload.supports[i] != hello.payload.supports[j])
    && |hello.payload.supports| + |hello.payload.requires_| > 0
  }

  /** The first well-formed Hello is taken, and its repetition answered with it, until an Agreement is issued
      or the session is rejected. */
  lemma HelloIsTakenExactlyWhen(ops: seq<Op>, hello: HelloMessage, at: Text)
    ensures var s := Run(BEGUN, ops);
            var (t, r) := HelloStep(s, hello, at);
            && (r.Ok? <==> if s.history == [] then Speaks(hello)
                           else |s.history| == 1 && s.history[0] == HelloSeen(s.history[0].at, hello.id))
            && (r.Ok? ==> t.hello == Some(r.value) && (if s.history == [] then r.value == hello else t == s))
            && (r == Err(InvalidState) <==> RejectionHappened(s.history))
            && (r == Err(Malformed) <==> s.history == [] && !Speaks(hello))
  {
    HistoryTellsPhase(ops);
    hide Run;
    hide AgreementAnswers;
    assert HelloWellFormed(hello) <==> Speaks(hello);
    hide HelloWellFormed;
    hide Speaks;
  }

  // ---------- Agreement ----------

  /** The terms answer the Hello: only what it supports is granted, nothing both granted and unavailable,
      nothing twice, and the activation has a legal id. */
  predicate Answers(terms: AgreementPayload, supports: seq<Coordinate>) {
    && (forall c :: c in terms.granted ==> c in supports)
    && (forall u :: u in terms.unavailable ==> u.coordinate !in terms.granted)
    && (forall i, j :: 0 <= i < j < |terms.granted| ==> terms.granted[i] != terms.granted[j])
    && (forall i, j :: 0 <= i < j < |terms.unavailable| ==>
          terms.unavailable[i].coordinate != terms.unavailable[j].coordinate)
    && 1 <= |terms.activationId| <= 128
  }

  lemma AnswersInParts(terms: AgreementPayload, supports: seq<Coordinate>)
    ensures Answers(terms, supports) <==>
            && GrantsOnlySupports(terms, supports) && GrantsNothingUnavailable(terms)
            && 1 <= |terms.activationId| <= 128 && Unique(terms.granted) && UniqueUnavailable(terms.unavailable)
  {
    assert GrantsOnlySupports(terms, supports) <==> forall c :: c in terms.granted ==> c in supports;
    assert GrantsNothingUnavailable(terms) <==> forall u :: u in terms.unavailable ==> u.coordinate !in terms.granted;
  }

  /** An Agreement is issued exactly when the Hello is all that has happened, the terms answer it and the
      message id is legal. It carries the terms, and what the decision leaves open comes from the Hello. */
  lemma AgreementIsIssuedExactlyWhen(ops: seq<Op>, d: Decision, freshId: Text, degradeAt: Text, at: Text)
    ensures var s := Run(BEGUN, ops);
            var (t, r) := AgreementStep(s, d, freshId, degradeAt, at);
            var id := if d.id.Some? then d.id.value else freshId;
            && (s.history != [] && s.history[0].HelloSeen? <==> s.hello.Some?)
            && (r.Ok? <==> |s.history| == 1 && s.hello.Some? && Answers(d.terms, s.hello.value.payload.supports)
                           && 8 <= |id| <= 128)
            && (r.Ok? ==>
                  && t.agreement == Some(r.value) && r.value.id == id && r.value.payload == d.terms
                  && r.value.replyTo == s.hello.value.id
                  && r.value.generation == (if d.generation.Some? then d.generation.value else s.hello.value.generation)
                  && r.value.participant
                     == (if d.participant.Some? then d.participant.value else s.hello.value.participant))
            && (r == Err(InvalidState) <==> s.history == [] || RejectionHappened(s.history))
  {
    HistoryTellsPhase(ops);
    hide Run;
    hide HelloWellFormed;
    hide AgreementAnswers;
    hide IsTimeline;
    hide RejectionHappened;
    hide ActivationHappened;
    hide AgreementHappened;
    var s := Run(BEGUN, ops);
    if s.hello.Some? {
      AnswersInParts(d.terms, s.hello.value.payload.supports);
    }
    hide Answers;
    hide GrantsOnlySupports;
    hide GrantsNothingUnavailable;
    hide Unique;
    hide UniqueUnavailable;
  }

  // ---------- Activation and rejection ----------

  /** Activation succeeds exactly when an Agreement was issued and the session not rejected, and gives the
      agreed terms; asking again gives the same record. */
  lemma ActivatesExactlyWhen(ops: seq<Op>, at: Text)
    ensures var s := Run(BEGUN, ops);
            var (t, r) := ActivateStep(s, at);
            && (r.Ok? <==> AgreementHappened(s.history) && !RejectionHappened(s.history))
            && (r.Err? ==> r.error == InvalidState)
            && (r.Ok? ==>
                  && t.activation == Some(r.value) && s.agreement.Some? && r.value.terms == s.agreement.value.payload
                  && (r.value.degraded <==> s.agreement.value.payload.unavailable != [])
                  && (!ActivationHappened(s.history) ==> r.value.createdAt == at && ActivationHappened(t.history))
                  && (ActivationHappened(s.history) ==> t == s))
  {
    HistoryTellsPhase(ops);
    hide Run;
    hide HelloWellFormed;
    hide AgreementAnswers;
    hide IsTimeline;
    hide RejectionHappened;
    hide AgreementHappened;
    var s := Run(BEGUN, ops);
    var t := ActivateStep(s, at).0;
    if s.phase == Agreed {
      assert t.history[|s.history|].Activated?;
    }
  }

  /** Rejection succeeds exactly when the session was not activated; the first rejection is the one that
      counts. */
  lemma RejectsExactlyWhen(ops: seq<Op>, reason: RejectionReason, message: Option<string>, at: Text)
    ensures var s := Run(BEGUN, ops);
            var (t, r) := RejectStep(s, reason, message, at);
            && (r.Ok? <==> !ActivationHappened(s.history))
            && (r.Err? ==> r.error == Conflicting)
            && (r.Ok? ==> t.rejection == Some(r.value) && RejectionHappened(t.history))
            && (r.Ok? && !RejectionHappened(s.history) ==> r.value == Rejection(reason, message, at))
            && (RejectionHappened(s.history) ==> t == s)
  {
    HistoryTellsPhase(ops);
    hide Run;
    hide HelloWellFormed;
    hide AgreementAnswers;
    hide IsTimeline;
    hide ActivationHappened;
    hide AgreementHappened;
    var s := Run(BEGUN, ops);
    var t := RejectStep(s, reason, message, at).0;
    if s.phase != Rejected && s.phase != Active {
      assert t.history[|s.history|].RejectedWith?;
    }
  }
}
