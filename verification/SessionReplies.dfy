/** What an Agreement grants, and which replies are themselves valid frames. */
module SessionReplies {
  import opened Core
  import opened Envelope
  import opened Session
  import Broker
  import Rfc3339
  import opened BridgeRuns
  import opened BridgeSuccess

  // ---------- An Agreement splits the supports ----------

  function Coordinates(us: seq<UnavailableCapability>): (r: seq<Coordinate>)
    ensures |r| == |us|
    ensures forall i :: 0 <= i < |us| ==> r[i] == us[i].coordinate
  {
    if us == [] then [] else Coordinates(us[..|us| - 1]) + [us[|us| - 1].coordinate]
  }

  lemma CoordinatesOfBoth(a: seq<UnavailableCapability>, b: seq<UnavailableCapability>)
    ensures Coordinates(a + b) == Coordinates(a) + Coordinates(b)
  {
  }

  /** One more item on either side of a split. */
  lemma SplitGrows(whole: seq<Coordinate>, yes: seq<Coordinate>, no: seq<Coordinate>, c: Coordinate)
    requires multiset(whole) == multiset(yes) + multiset(no)
    ensures multiset(whole + [c]) == multiset(yes + [c]) + multiset(no)
    ensures multiset(whole + [c]) == multiset(yes) + multiset(no + [c])
  {
  }

  lemma SortedLast(supports: seq<Coordinate>)
    requires supports != []
    ensures var front, last := supports[..|supports| - 1], supports[|supports| - 1];
            && Sorted(supports, CatalogSupports(last)) == Sorted(front, CatalogSupports(last)) + [last]
            && Sorted(supports, !CatalogSupports(last)) == Sorted(front, !CatalogSupports(last))
  {
    hide CatalogSupports;
    var other := Sorted(supports[..|supports| - 1], !CatalogSupports(supports[|supports| - 1]));
    assert other + [] == other;
  }

  lemma {:induction false} CatalogSplits(supports: seq<Coordinate>)
    ensures multiset(supports) == multiset(Sorted(supports, true)) + multiset(Sorted(supports, false))
  {
    if supports != [] {
      hide Sorted;
      hide CatalogSupports;
      var front, last := supports[..|supports| - 1], supports[|supports| - 1];
      CatalogSplits(front);
      SortedLast(supports);
      SplitGrows(front, Sorted(front, true), Sorted(front, false), last);
      assert supports == front + [last];
    }
  }

  lemma {:induction false} CataloguedAreInCatalog(supports: seq<Coordinate>)
    ensures forall c :: c in Sorted(supports, true) ==> CatalogSupports(c)
  {
    hide CatalogSupports;
    if supports != [] {
      CataloguedAreInCatalog(supports[..|supports| - 1]);
    }
  }

  lemma DenyAllKeeps(cs: seq<Coordinate>)
    ensures Coordinates(DenyAll(cs)) == cs
  {
  }

  /** Settling moves coordinates from granted to unavailable and loses none. */
  lemma SettlingLosesNothing(granted: seq<Coordinate>, unavailable: seq<UnavailableCapability>, class_: Authority,
                             answer: Result<Broker.AgentGrant, Broker.BridgeError>)
    ensures var deal := Settle(granted, unavailable, class_, answer);
            && multiset(granted) + multiset(Coordinates(unavailable))
               == multiset(deal.granted) + multiset(Coordinates(deal.unavailable))
            && (deal.granted == granted || deal.granted == [])
  {
    DenyAllKeeps(granted);
    CoordinatesOfBoth(unavailable, DenyAll(granted));
    hide Coordinates;
    hide DenyAll;
  }

  /** Whatever the broker answers, granted and unavailable together are exactly the supports, and
      only catalogued capabilities are granted. */
  lemma AgreementSplitsSupports(broker: Broker.State, agent: Text, id: Text, supports: seq<Coordinate>,
      class_: Authority, now: nat)
    ensures var deal := Bargain(broker, agent, id, supports, class_, now).1;
            && multiset(supports) == multiset(deal.granted) + multiset(Coordinates(deal.unavailable))
            && (forall c :: c in deal.granted ==> c in supports && CatalogSupports(c))
  {
    hide CatalogSupports;
    hide Broker.Negotiate;
    hide Settle;
    hide Offer;
    CatalogSplits(supports);
    CataloguedAreInCatalog(supports);
    DenyAllKeeps(Sorted(supports, false));
    var granted, denied := Catalogued(supports), Denied(supports);
    hide Sorted;
    hide DenyAll;
    hide Coordinates;
    SettlingLosesNothing(granted, denied, class_, Broker.Negotiate(broker, agent, Offer(id, granted), now).1);
    assert granted == [] ==> multiset(supports) == multiset(Coordinates(denied));
    forall c | c in granted
      ensures c in supports
    {
      assert c in multiset(supports);
    }
  }

  /** Why an Agreement grants what it grants: a broker generation stands for a successful negotiation
      of every granted capability, and a grant without one is the Shell's after a broker conflict. */
  lemma GrantsAreNegotiated(broker: Broker.State, agent: Text, id: Text, supports: seq<Coordinate>,
      class_: Authority, now: nat)
    requires RegisterInv(broker)
    ensures var deal := Bargain(broker, agent, id, supports, class_, now).1;
            var answer := Broker.Negotiate(broker, agent, Offer(id, Catalogued(supports)), now).1;
            && (deal.generation != 0 <==> Catalogued(supports) != [] && answer.Ok?)
            && (deal.generation != 0 ==>
               deal.granted == Catalogued(supports) && deal.generation == answer.value.generation)
            && (deal.generation == 0 && deal.granted != [] <==>
                Catalogued(supports) != [] && class_ == ShellControl
                  && answer == Err(Broker.BrokerRefused(Broker.Conflict)))
  {
    hide CatalogSupports;
    hide Broker.Negotiate;
    hide Broker.Register;
    var n := Offer(id, Catalogued(supports));
    if Catalogued(supports) != [] && Broker.Negotiate(broker, agent, n, now).1.Ok? {
      NegotiatedState(broker, agent, n, now, n.granted[0]);
      NegotiateKeepsRegister(broker, agent, n, now);
      RegisterOutcome(Broker.Negotiate(broker, agent, n, now).0, agent, id);
    }
    hide RegisterInv;
  }

  lemma {:induction false} CapabilityIn(cs: seq<Coordinate>, c: Broker.CapabilityId)
    ensures c in ToCapabilities(cs) <==> Coordinate(c.apiVersion, c.kind) in cs
  {
    if cs != [] {
      var front, last := cs[..|cs| - 1], cs[|cs| - 1];
      CapabilityIn(front, c);
      assert cs == front + [last];
    }
  }

  /** The capabilities of a valid Hello never share a lease id. */
  lemma ValidSupportsHaveDistinctIds(cs: seq<Coordinate>, agent: Text, id: Text)
    requires forall c :: c in cs ==> KindPattern(c.kind)
    ensures DistinctLeaseIds(ToCapabilities(cs), agent, id)
  {
    forall c | c in ToCapabilities(cs)
      ensures Broker.HYPHEN !in c.kind
    {
      CapabilityIn(cs, c);
      var k := Coordinate(c.apiVersion, c.kind);
      assert KindPattern(k.kind);
    }
    HyphenFreeKindsHaveDistinctIds(ToCapabilities(cs), agent, id);
  }

  lemma CataloguedAreSupports(supports: seq<Coordinate>)
    requires AllValid(supports)
    ensures forall c :: c in Catalogued(supports) ==> KindPattern(c.kind)
  {
    hide ApiVersionPattern;
    hide KindPattern;
    CatalogSplits(supports);
    hide Sorted;
    forall c | c in Catalogued(supports)
      ensures KindPattern(c.kind)
    {
      assert c in multiset(supports);
      assert c in supports;
    }
  }

  /** The broker backs a Hello exactly when it asks for something the catalog lists, its activation is
      not superseded or revoked, nobody else holds any of it under the very generation number the
      agent would get, no lease id is taken, and the clock is not at its end. */
  lemma HelloIsBackedExactlyWhen(broker: Broker.State, agent: Text, id: Text, supports: seq<Coordinate>,
      class_: Authority, now: nat)
    requires RegisterInv(broker) && AllValid(supports)
    ensures var g, caps := GenerationFor(broker, agent, id), ToCapabilities(Catalogued(supports));
            var expiresAt := Broker.ExpiryOf(now, LEASE_MAX_SECONDS);
            Bargain(broker, agent, id, supports, class_, now).1.generation != 0 <==>
            && caps != [] && Welcome(broker, agent, id) && now < Broker.U64_MAX
            && AllGrantable(broker.grants, caps, agent, g, Broker.DEFAULT_SCOPE, now)
            && forall c :: c in caps ==>
                 Leasable(broker, Broker.BridgeLease(c, agent, id, g, Broker.DEFAULT_SCOPE, expiresAt))
  {
    hide Bargain;
    hide Catalogued;
    hide Broker.Negotiate;
    hide Broker.ExpiryOf;
    hide Broker.BridgeLease;
    hide AllGrantable;
    hide Leasable;
    hide Welcome;
    hide GenerationFor;
    hide DistinctLeaseIds;
    var granted := Catalogued(supports);
    CataloguedAreSupports(supports);
    ValidSupportsHaveDistinctIds(granted, agent, id);
    GrantsAreNegotiated(broker, agent, id, supports, class_, now);
    NegotiationSucceedsExactlyWhen(broker, agent, Offer(id, granted), now);
    hide RegisterInv;
  }

  // ---------- Which replies are valid frames ----------

  /** The token readings fit their machine integers. */
  predicate Ranged(amb: Ambient) {
    && amb.activation.nanos < U64 * U64 && amb.activation.counter < U64
    && amb.message.nanos < U64 * U64 && amb.message.counter < U64
  }

  /** The header of every envelope the daemon sends. */
  predicate SentByDaemon(env: Envelope, amb: Ambient) {
    && env.protocol == PROTOCOL && env.id == MessageId(amb.message.nanos, amb.message.counter)
    && env.participant == FromDaemon(env.participant.activationId)
    && (env.participant.activationId.Some? ==> 1 <= |env.participant.activationId.value| <= 128)
    && env.timestamp == Rfc3339.NowTimestampLike(amb.wallMs)
  }

  lemma HeaderOfReply(env: Envelope, amb: Ambient)
    requires Ranged(amb) && SentByDaemon(env, amb)
    ensures (forall p :: !HeaderBreaks(env, p)) <==> amb.wallMs < Rfc3339.YEAR_10000
  {
    Rfc3339.ParseAfterPrint(amb.wallMs);
    TokensAreIds([109, 115, 103], amb.message.nanos, amb.message.counter);
    hide Rfc3339.NowTimestampLike;
    hide Rfc3339.Recognised;
    hide Rfc3339.Parse;
    hide UniqueToken;
    assert SERVER_COMPONENT != [] && SERVER_FACET != [] by {
      assert |SERVER_COMPONENT| > 0 && |SERVER_FACET| > 0;
    }
    hide Ascii;
    assert HeaderBreaks(env, AtTimestamp) <==> amb.wallMs >= Rfc3339.YEAR_10000;
  }

  /** The error reply names a capability and a method, both well formed. */
  ghost predicate NamesTarget(capability: Option<Coordinate>, method_: Option<Text>) {
    capability.Some? && ValidCoordinate(capability.value) && method_.Some? && MethodPattern(method_.value)
  }

  lemma ErrorReplyRules(generation: nat, amb: Ambient, id: Text, capability: Option<Coordinate>, method_: Option<Text>,
                        code: ErrorCode, message: string, retryable: bool)
    ensures var env := ErrorReply(generation, amb, id, capability, method_, code, message, retryable);
            && ((forall p :: !FieldBreaks(env, p)) <==> IdLength(id) && NamesTarget(capability, method_))
            && (IdLength(id) ==> forall p :: !ResultBreaks(env, p))
  {
    hide Ascii;
    hide Rfc3339.NowTimestampLike;
    hide MessageId;
    hide ValidCoordinate;
    hide MethodPattern;
    hide IdLength;
    var env := ErrorReply(generation, amb, id, capability, method_, code, message, retryable);
    assert FieldBreaks(env, AtReplyTo) <==> !IdLength(id);
    assert FieldBreaks(env, AtCapability) <==> !(capability.Some? && ValidCoordinate(capability.value));
    assert FieldBreaks(env, AtMethod) <==> !(method_.Some? && MethodPattern(method_.value));
  }

  /** An error reply is a valid frame exactly when the request's id, capability and method were
      usable and the year still has four digits; its message is cut to the length allowed. */
  lemma ErrorReplyIsValidExactlyWhen(generation: nat, amb: Ambient, id: Text, capability: Option<Coordinate>,
      method_: Option<Text>, code: ErrorCode, message: string, retryable: bool)
    requires Ranged(amb)
    ensures FrameValid(ErrorReply(generation, amb, id, capability, method_, code, message, retryable)) <==>
            IdLength(id) && NamesTarget(capability, method_) && amb.wallMs < Rfc3339.YEAR_10000
  {
    hide Ascii;
    hide Rfc3339.NowTimestampLike;
    hide MessageId;
    hide FrameValid;
    hide FieldBreaks;
    hide ResultBreaks;
    hide HeaderBreaks;
    hide NamesTarget;
    var env := ErrorReply(generation, amb, id, capability, method_, code, message, retryable);
    assert env.kind == Result && SentByDaemon(env, amb);
    ErrorReplyRules(generation, amb, id, capability, method_, code, message, retryable);
    HeaderOfReply(env, amb);
    ValidByGroups(env);
    hide ErrorReply;
    hide SentByDaemon;
  }

  lemma ResultReplyIsValidExactlyWhen(generation: nat, amb: Ambient, id: Text, activationId: Text, c: Coordinate,
      m: Text, body: Text)
    requires Ranged(amb) && IdLength(id) && 1 <= |activationId| <= 128 && ValidCoordinate(c) && MethodPattern(m)
    ensures FrameValid(ResultReply(generation, amb, id, activationId, c, m, body)) <==> amb.wallMs < Rfc3339.YEAR_10000
  {
    hide ValidCoordinate;
    hide MethodPattern;
    hide IdLength;
    hide Ascii;
    hide Rfc3339.NowTimestampLike;
    hide MessageId;
    hide FrameValid;
    hide HeaderBreaks;
    var env := ResultReply(generation, amb, id, activationId, c, m, body);
    assert env.kind == Result && SentByDaemon(env, amb);
    assert forall p :: !FieldBreaks(env, p);
    assert forall p :: !ResultBreaks(env, p);
    HeaderOfReply(env, amb);
    ValidByGroups(env);
    hide ResultReply;
    hide FieldBreaks;
    hide ResultBreaks;
    hide SentByDaemon;
  }

  /** Every reply to a valid Invocation is a valid frame until the year 10000. */
  lemma InvocationRepliesAreValid(cfg: Config, st: State, broker: Broker.State, env: Envelope, amb: Ambient,
      outcome: Outcome)
    requires FrameValid(env) && IsInvocation(env) && Ranged(amb)
    ensures var r := InvocationStep(cfg, st, broker, env, amb, outcome);
            |r.replies| == 1 && (FrameValid(r.replies[0]) <==> amb.wallMs < Rfc3339.YEAR_10000)
  {
    ValidShapes(env);
    hide Ascii;
    hide ValidCoordinate;
    hide MethodPattern;
    hide FrameValid;
    hide ErrorReply;
    hide ResultReply;
    var c, m, id, g := env.capability.value, env.method_.value, env.participant.activationId, st.nextGeneration;
    match Objection(st, broker, env, amb.brokerNow)
    case Some(o) =>
      ErrorReplyIsValidExactlyWhen(g, amb, env.id, Some(c), Some(m), o.code, cfg.wording(o.problem), o.retryable);
    case None =>
      if outcome.Done? {
        ResultReplyIsValidExactlyWhen(g, amb, env.id, id.value, c, m, outcome.body);
      } else {
        var (code, message, retryable) := HandlerRefusal(cfg, outcome, c, m);
        ErrorReplyIsValidExactlyWhen(g, amb, env.id, Some(c), Some(m), code, message, retryable);
      }
  }

  lemma UniqueByCount<T>(s: seq<T>)
    ensures Unique(s) <==> forall x :: multiset(s)[x] <= 1
  {
    if Unique(s) {
      CountAtMostOne(s);
    } else {
      var i, j :| 0 <= i < j < |s| && s[i] == s[j];
      assert s == s[..j] + [s[j]] + s[j + 1..];
      assert s[i] in s[..j];
      assert multiset(s) == multiset(s[..j]) + multiset{s[j]} + multiset(s[j + 1..]);
      assert multiset(s)[s[j]] >= 2;
    }
  }

  lemma {:induction false} CountAtMostOne<T>(s: seq<T>)
    requires Unique(s)
    ensures forall x :: multiset(s)[x] <= 1
  {
    if s != [] {
      var front, last := s[..|s| - 1], s[|s| - 1];
      assert s == front + [last];
      CountAtMostOne(front);
      assert multiset(s) == multiset(front) + multiset{last};
      assert last !in front;
    }
  }

  /** The parts of a split of distinct valid coordinates are distinct and valid. */
  lemma PartsAreValid(supports: seq<Coordinate>, a: seq<Coordinate>, b: seq<Coordinate>)
    requires AllValid(supports) && Unique(supports) && multiset(supports) == multiset(a) + multiset(b)
    ensures AllValid(a) && Unique(a)
  {
    hide ValidCoordinate;
    UniqueByCount(supports);
    assert forall x :: multiset(a)[x] <= multiset(supports)[x];
    UniqueByCount(a);
    hide Unique;
    forall i | 0 <= i < |a|
      ensures ValidCoordinate(a[i])
    {
      assert a[i] in multiset(supports);
      assert a[i] in supports;
    }
  }

  lemma {:induction false} UniqueCoordinates(us: seq<UnavailableCapability>)
    requires AllValid(Coordinates(us)) && Unique(Coordinates(us))
    ensures Unique(us) && forall i :: 0 <= i < |us| ==> ValidCoordinate(us[i].coordinate)
  {
    hide ValidCoordinate;
    var cs := Coordinates(us);
    assert forall i :: 0 <= i < |us| ==> ValidCoordinate(cs[i]) && cs[i] == us[i].coordinate;
  }

  lemma AgreementReplyIsValid(generation: nat, amb: Ambient, id: Text, supports: seq<Coordinate>, deal: Deal)
    requires Ranged(amb) && IdLength(id) && AllValid(supports) && Unique(supports)
    requires multiset(supports) == multiset(deal.granted) + multiset(Coordinates(deal.unavailable))
    ensures FrameValid(AgreementReply(generation, amb, id, deal)) <==> amb.wallMs < Rfc3339.YEAR_10000
  {
    hide ValidCoordinate;
    hide FrameValid;
    hide HeaderBreaks;
    hide Ascii;
    hide Rfc3339.NowTimestampLike;
    hide MessageId;
    TokensAreIds([97, 99, 116], amb.activation.nanos, amb.activation.counter);
    hide UniqueToken;
    var env := AgreementReply(generation, amb, id, deal);
    assert IsAgreement(env) && SentByDaemon(env, amb);
    AgreementRules(env, supports, deal);
    assert forall p :: !FieldBreaks(env, p);
    HeaderOfReply(env, amb);
    ValidByGroups(env);
    hide AgreementReply;
    hide FieldBreaks;
    hide AgreementBreaks;
    hide SentByDaemon;
  }

  lemma AgreementRules(env: Envelope, supports: seq<Coordinate>, deal: Deal)
    requires IsAgreement(env) && AllValid(supports) && Unique(supports)
    requires multiset(supports) == multiset(deal.granted) + multiset(Coordinates(deal.unavailable))
    requires AgreementOf(env).granted == deal.granted && AgreementOf(env).unavailable == deal.unavailable
    requires 1 <= |AgreementOf(env).activationId| <= 128
    requires AgreementOf(env).leaseConstraints.Some? ==>
             AgreementOf(env).leaseConstraints.value.maxSeconds == Some(LEASE_MAX_SECONDS)
    ensures forall p :: !AgreementBreaks(AgreementOf(env), p)
  {
    hide ValidCoordinate;
    hide Coordinates;
    hide Unique;
    hide AllValid;
    PartsAreValid(supports, deal.granted, Coordinates(deal.unavailable));
    PartsAreValid(supports, Coordinates(deal.unavailable), deal.granted);
    UniqueCoordinates(deal.unavailable);
  }

  /** Every Agreement is a valid frame until the year 10000, and answers the Hello it names. */
  lemma AgreementsAreValid(cfg: Config, st: State, broker: Broker.State, env: Envelope, amb: Ambient)
    requires FrameValid(env) && IsHello(env) && Ranged(amb) && !SwitchesClass(cfg, st, env)
    ensures var r := HelloStep(cfg, st, broker, env, amb);
            && |r.replies| == 1 && IsAgreement(r.replies[0])
            && (FrameValid(r.replies[0]) <==> amb.wallMs < Rfc3339.YEAR_10000)
            && var agreement := AgreementOf(r.replies[0]);
               && multiset(HelloOf(env).supports)
                  == multiset(agreement.granted) + multiset(Coordinates(agreement.unavailable))
               && agreement.activationId in r.session.activations
               && r.session.activations[agreement.activationId].granted == agreement.granted
  {
    ValidShapes(env);
    hide Ascii;
    hide FrameValid;
    hide Rfc3339.NowTimestampLike;
    hide MessageId;
    hide ActivationId;
    hide ValidCoordinate;
    hide AuthorityOf;
    var a := Established(cfg, st, broker, env, amb);
    var supports := HelloOf(env).supports;
    AgreementSplitsSupports(broker, a.agentId, a.id, supports, a.authority, amb.brokerNow);
    var deal := Bargain(broker, a.agentId, a.id, supports, a.authority, amb.brokerNow).1;
    hide Bargain;
    AgreementReplyIsValid(st.nextGeneration, amb, env.id, supports, deal);
    hide Unique;
    hide AllValid;
    hide Coordinates;
  }
}
