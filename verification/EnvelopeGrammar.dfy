/** The valid frames, kind by kind, written out as a grammar. */
module EnvelopeGrammar {
  import opened Core
  import opened Envelope
  import Rfc3339

  // ---------- Letters ----------

  predicate Between(b: Byte, first: char, last: char) {
    first as int <= b <= last as int
  }

  predicate OneOf(b: Byte, c: char, d: char) {
    b == c as int || b == d as int
  }

  /** A method starts with a small letter and goes on, for at least one more byte, with small letters,
      digits, dots, underscores and hyphens. */
  lemma MethodsAreSpelt(s: Text)
    ensures MethodPattern(s) <==>
            && |s| > 1 && Between(s[0], 'a', 'z')
            && forall i :: 1 <= i < |s| ==>
                 Between(s[i], 'a', 'z') || Between(s[i], '0', '9') || OneOf(s[i], '.', '_') || s[i] == '-' as int
  {
  }

  /** A kind starts with a capital and goes on, for at least one more byte, with letters and digits. */
  lemma KindsAreSpelt(s: Text)
    ensures KindPattern(s) <==>
            && |s| > 1 && Between(s[0], 'A', 'Z')
            && forall i :: 1 <= i < |s| ==>
                 Between(s[i], 'a', 'z') || Between(s[i], 'A', 'Z') || Between(s[i], '0', '9')
  {
  }

  /** `v`, a number, and optionally `alpha` or `beta` with another number. */
  predicate VersionText(s: Text, major: Text, stage: string, minor: Text) {
    && s == Ascii("v") + major + Ascii(stage) + minor
    && major != [] && (forall i :: 0 <= i < |major| ==> Between(major[i], '0', '9'))
    && (forall i :: 0 <= i < |minor| ==> Between(minor[i], '0', '9'))
    && (if stage == "" then minor == [] else (stage == "alpha" || stage == "beta") && minor != [])
  }

  predicate ApiVersionText(s: Text, space: Text, version: Text) {
    && s == space + Ascii("/") + version && space != []
    && forall i :: 0 <= i < |space| ==>
         Between(space[i], 'a', 'z') || Between(space[i], '0', '9') || OneOf(space[i], '.', '-')
  }

  lemma Spelt()
    ensures Ascii("v") == [118] && Ascii("/") == [47] && Ascii("") == [] && Ascii("alpha") == ALPHA
    ensures Ascii("beta") == BETA
  {
  }

  /** An api version is a name space, a slash and a version. */
  lemma ApiVersionsAreSpelt(s: Text, space: Text, version: Text, major: Text, stage: string, minor: Text)
    requires ApiVersionText(s, space, version) && VersionText(version, major, stage, minor)
    ensures ApiVersionPattern(s)
  {
    Spelt();
    var tail := Ascii(stage) + minor;
    hide Ascii;
    assert stage == "alpha" ==> tail[|ALPHA|..] == minor;
    assert stage == "beta" ==> tail[|BETA|..] == minor;
    assert space + [47] + ([118] + major + Ascii(stage) + minor) == space + SLASH_V + major + tail;
    assert ApiVersionGroups(s, space, major, tail);
  }

  lemma ApiVersionsAreSpeltSo(s: Text) returns (space: Text, version: Text, major: Text, stage: string, minor: Text)
    requires ApiVersionPattern(s)
    ensures ApiVersionText(s, space, version) && VersionText(version, major, stage, minor)
  {
    Spelt();
    hide Ascii;
    var tail: Text;
    space, major, tail :| ApiVersionGroups(s, space, major, tail);
    stage, minor := "", [];
    if ALPHA < tail && Digits(tail[|ALPHA|..]) {
      stage, minor := "alpha", tail[|ALPHA|..];
    } else if BETA < tail && Digits(tail[|BETA|..]) {
      stage, minor := "beta", tail[|BETA|..];
    }
    assert tail == Ascii(stage) + minor;
    version := Ascii("v") + major + Ascii(stage) + minor;
    assert space + [47] + ([118] + major + Ascii(stage) + minor) == space + SLASH_V + major + tail;
  }

  // ---------- Frames ----------

  /** What every frame has. */
  predicate HeadIsLegal(env: Envelope) {
    && env.protocol == Ascii("interop.dsh-desktop.local/v1alpha1") && IsId(env.id)
    && |env.participant.component| > 0 && |env.participant.facet| > 0
    && (env.participant.activationId.Some? ==> IsActivation(env.participant.activationId.value))
    && Rfc3339.Recognised(env.timestamp)
  }

  predicate IsId(id: Text) {
    8 <= |id| <= 128
  }

  predicate IsActivation(id: Text) {
    1 <= |id| <= 128
  }

  /** It names a capability and a method of it. */
  ghost predicate HasTarget(env: Envelope) {
    && env.capability.Some? && env.method_.Some?
    && ApiVersionPattern(env.capability.value.apiVersion) && KindPattern(env.capability.value.kind)
    && MethodPattern(env.method_.value)
  }

  predicate HasNoTarget(env: Envelope) {
    env.capability.None? && env.method_.None?
  }

  predicate IsReply(env: Envelope) {
    env.replyTo.Some? && IsId(env.replyTo.value)
  }

  ghost predicate AreCoordinates(cs: seq<Coordinate>) {
    forall c :: c in cs ==> ApiVersionPattern(c.apiVersion) && KindPattern(c.kind)
  }

  predicate NoneTwice<T(==)>(items: seq<T>) {
    forall i, j :: 0 <= i < |items| && 0 <= j < |items| && items[i] == items[j] ==> i == j
  }

  ghost predicate HelloIsLegal(p: HelloPayload) {
    && IsId(p.instanceId) && AreCoordinates(p.supports) && NoneTwice(p.supports) && NoneTwice(p.requires_)
    && forall i :: 0 <= i < |p.requires_| ==> AreCoordinates([p.requires_[i].coordinate])
  }

  ghost predicate AgreementIsLegal(p: AgreementPayload) {
    && IsActivation(p.activationId) && AreCoordinates(p.granted) && NoneTwice(p.granted) && NoneTwice(p.unavailable)
    && (forall i :: 0 <= i < |p.unavailable| ==> AreCoordinates([p.unavailable[i].coordinate]))
    && (p.leaseConstraints.Some? && p.leaseConstraints.value.maxSeconds.Some? ==>
          p.leaseConstraints.value.maxSeconds.value > 0)
  }

  /** An object, or an error with a short message that tells what it belongs to; never both. */
  predicate ResultIsLegal(env: Envelope) {
    if env.error.None? then env.payload.Some? && !env.payload.value.NotAnObject?
    else env.payload.None? && |env.error.value.message| <= 512 && IsId(env.error.value.correlationId)
  }

  /** The grammar of frames. */
  ghost predicate IsLegal(env: Envelope) {
    HeadIsLegal(env) &&
    match env.kind
    case Hello =>
      && env.replyTo.None? && HasNoTarget(env) && env.error.None?
      && env.payload.Some? && env.payload.value.HelloShape? && HelloIsLegal(env.payload.value.hello)
    case Agreement =>
      && IsReply(env) && HasNoTarget(env) && env.error.None?
      && env.payload.Some? && env.payload.value.AgreementShape? && AgreementIsLegal(env.payload.value.agreement)
    case Invocation =>
      && env.replyTo.None? && HasTarget(env) && env.error.None?
      && env.payload.Some? && !env.payload.value.NotAnObject?
    case Event => HasTarget(env) && env.error.None? && env.payload.Some? && !env.payload.value.NotAnObject?
    case Result => IsReply(env) && HasTarget(env) && ResultIsLegal(env)
  }

  lemma HeaderRules(env: Envelope)
    ensures (forall p :: !HeaderBreaks(env, p)) <==> HeadIsLegal(env)
  {
    hide Ascii;
    hide Rfc3339.Recognised;
    var broken := HeaderBreaks(env, AtProtocol) || HeaderBreaks(env, AtId) || HeaderBreaks(env, AtComponent)
                  || HeaderBreaks(env, AtFacet) || HeaderBreaks(env, AtActivationId)
                  || HeaderBreaks(env, AtTimestamp);
    assert broken <==> !HeadIsLegal(env);
  }

  lemma ValidCoordinates(cs: seq<Coordinate>)
    ensures AllValid(cs) <==> AreCoordinates(cs)
  {
    hide ApiVersionPattern;
    hide KindPattern;
  }

  lemma ValidOne(c: Coordinate)
    ensures ValidCoordinate(c) <==> AreCoordinates([c])
  {
    hide ApiVersionPattern;
    hide KindPattern;
    assert c in [c];
  }

  lemma UniqueIsNoneTwice<T>(items: seq<T>)
    ensures Unique(items) <==> NoneTwice(items)
  {
    if Unique(items) {
      forall i, j | 0 <= i < |items| && 0 <= j < |items| && items[i] == items[j]
        ensures i == j
      {
      }
    }
  }

  lemma HelloRules(p: HelloPayload)
    ensures (forall at :: !HelloBreaks(p, at)) <==> HelloIsLegal(p)
  {
    hide AllValid;
    hide AreCoordinates;
    hide ValidCoordinate;
    hide Unique;
    hide NoneTwice;
    UniqueIsNoneTwice(p.supports);
    UniqueIsNoneTwice(p.requires_);
    ValidCoordinates(p.supports);
    if HelloIsLegal(p) {
      forall at
        ensures !HelloBreaks(p, at)
      {
        if at.AtRequirement? && at.i < |p.requires_| {
          ValidOne(p.requires_[at.i].coordinate);
        }
      }
    } else {
      assert HelloBreaks(p, AtInstanceId) <==> !IsId(p.instanceId);
      assert HelloBreaks(p, AtSupports) <==> !(AreCoordinates(p.supports) && NoneTwice(p.supports));
      assert HelloBreaks(p, AtRequires) <==> !NoneTwice(p.requires_);
      if i :| 0 <= i < |p.requires_| && !AreCoordinates([p.requires_[i].coordinate]) {
        ValidOne(p.requires_[i].coordinate);
        assert HelloBreaks(p, AtRequirement(i));
      }
    }
  }

  lemma AgreementRules(p: AgreementPayload)
    ensures (forall at :: !AgreementBreaks(p, at)) <==> AgreementIsLegal(p)
  {
    hide AllValid;
    hide AreCoordinates;
    hide ValidCoordinate;
    hide Unique;
    hide NoneTwice;
    UniqueIsNoneTwice(p.granted);
    UniqueIsNoneTwice(p.unavailable);
    ValidCoordinates(p.granted);
    if AgreementIsLegal(p) {
      forall at
        ensures !AgreementBreaks(p, at)
      {
        if at.AtUnavailable? && at.i < |p.unavailable| {
          ValidOne(p.unavailable[at.i].coordinate);
        }
      }
    } else {
      assert AgreementBreaks(p, AtAgreedActivation) <==> !IsActivation(p.activationId);
      assert AgreementBreaks(p, AtGranted) <==> !(AreCoordinates(p.granted) && NoneTwice(p.granted));
      assert AgreementBreaks(p, AtUnavailableList) <==> !NoneTwice(p.unavailable);
      assert AgreementBreaks(p, AtMaxSeconds) <==>
             p.leaseConstraints.Some? && p.leaseConstraints.value.maxSeconds == Some(0);
      if i :| 0 <= i < |p.unavailable| && !AreCoordinates([p.unavailable[i].coordinate]) {
        ValidOne(p.unavailable[i].coordinate);
        assert AgreementBreaks(p, AtUnavailable(i));
      }
    }
  }

  /** What the field rules ask of each kind. */
  ghost predicate FieldsAreLegal(env: Envelope) {
    match env.kind
    case Hello =>
      && env.replyTo.None? && HasNoTarget(env) && env.error.None?
      && env.payload.Some? && env.payload.value.HelloShape?
    case Agreement =>
      && IsReply(env) && HasNoTarget(env) && env.error.None?
      && env.payload.Some? && env.payload.value.AgreementShape?
    case Invocation =>
      env.replyTo.None? && HasTarget(env) && env.error.None? && env.payload.Some? && !env.payload.value.NotAnObject?
    case Event => HasTarget(env) && env.error.None? && env.payload.Some? && !env.payload.value.NotAnObject?
    case Result =>
      IsReply(env) && HasTarget(env) && (env.payload.Some? && env.error.None? ==> !env.payload.value.NotAnObject?)
  }

  lemma FieldRules(env: Envelope)
    ensures (forall p :: !FieldBreaks(env, p)) <==> FieldsAreLegal(env)
  {
    hide ApiVersionPattern;
    hide KindPattern;
    hide MethodPattern;
    var broken := FieldBreaks(env, AtReplyTo) || FieldBreaks(env, AtCapability) || FieldBreaks(env, AtMethod)
                  || FieldBreaks(env, AtError) || FieldBreaks(env, AtPayload);
    assert broken <==> !FieldsAreLegal(env);
  }

  lemma ResultRules(env: Envelope)
    requires env.payload.Some? && env.error.None? ==> !env.payload.value.NotAnObject?
    ensures (forall p :: !ResultBreaks(env, p)) <==> ResultIsLegal(env)
  {
    var broken := ResultBreaks(env, AtResultBranches) || ResultBreaks(env, AtErrorMessage)
                  || ResultBreaks(env, AtCorrelationId);
    assert broken <==> !ResultIsLegal(env);
  }

  /** The validation accepts exactly the frames of the grammar. */
  lemma ValidExactlyWhenLegal(env: Envelope)
    ensures FrameValid(env) <==> IsLegal(env)
  {
    ValidByGroups(env);
    HeaderRules(env);
    FieldRules(env);
    if IsHello(env) {
      HelloRules(HelloOf(env));
    }
    if IsAgreement(env) {
      AgreementRules(AgreementOf(env));
    }
    if env.kind == Result && FieldsAreLegal(env) {
      ResultRules(env);
    }
    hide FrameValid;
    hide HeadIsLegal;
    hide HelloIsLegal;
    hide AgreementIsLegal;
    hide ResultIsLegal;
    hide HasTarget;
    hide HasNoTarget;
    hide IsReply;
    hide HeaderBreaks;
    hide FieldBreaks;
    hide HelloBreaks;
    hide AgreementBreaks;
    hide ResultBreaks;
  }

  // ---------- Tokens ----------

  /** The number a text of small hexadecimal digits writes. */
  function Reads(s: Text): (r: Option<nat>) {
    if s == [] then Some(0)
    else
      var n := |s| - 1;
      var b: int := s[n];
      if Reads(s[..n]).None? then None
      else if Between(b, '0', '9') then Some(Reads(s[..n]).value * 16 + (b - '0' as int))
      else if Between(b, 'a', 'f') then Some(Reads(s[..n]).value * 16 + 10 + (b - 'a' as int))
      else None
  }

  /** Hexadecimal text reads back, has at least the wanted digits, and no more unless the number needs them. */
  lemma {:induction false} HexReadsBack(n: nat, width: nat)
    ensures Reads(Hex(n, width)) == Some(n) && |Hex(n, width)| >= width
    ensures |Hex(n, width)| > width ==> Hex(n, width)[0] != '0' as int
    decreases n, width
  {
    if !(n == 0 && width == 0) {
      var w: nat := if width == 0 then 0 else width - 1;
      HexReadsBack(n / 16, w);
      var front := Hex(n / 16, w);
      assert Hex(n, width) == front + [HexDigit(n % 16)];
      assert (front + [HexDigit(n % 16)])[..|front|] == front;
    }
  }

  /** `msg` or `act`, the clock and the counter, with hyphens between them. */
  lemma TokensAreSpelt(nanos: nat, counter: nat) returns (clock: Text, count: Text)
    ensures Reads(clock) == Some(nanos) && |clock| >= 16 && Reads(count) == Some(counter) && |count| >= 4
    ensures MessageId(nanos, counter) == Ascii("msg") + Ascii("-") + clock + Ascii("-") + count
    ensures ActivationId(nanos, counter) == Ascii("act") + Ascii("-") + clock + Ascii("-") + count
  {
    HexReadsBack(nanos, 16);
    HexReadsBack(counter, 4);
    clock, count := Hex(nanos, 16), Hex(counter, 4);
    assert Ascii("msg") == [109, 115, 103] && Ascii("act") == [97, 99, 116] && Ascii("-") == [45];
  }
}
