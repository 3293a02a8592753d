/**
  * The interop envelope and its frame-level validation (crates/daemon/src/envelope.rs). Decoded
  * payloads are values: what matters of a JSON payload is whether it has the Hello shape, the
  * Agreement shape, is some other object, or is no object at all.
  */
module Envelope {
  import opened Core
  import Rfc3339

  function Code(c: char): Byte {
    if c < 128 as char then c as int else 63
  }

  /** The bytes of an ASCII literal. */
  function Ascii(s: string): Text {
    seq(|s|, i requires 0 <= i < |s| => Code(s[i]))
  }

  const PROTOCOL: Text := Ascii("interop.dsh-desktop.local/v1alpha1")
  const ID_MIN_LEN := 8
  const ID_MAX_LEN := 128
  const ERROR_MESSAGE_MAX_LEN := 512

  datatype Kind = Hello | Agreement | Invocation | Result | Event

  datatype ErrorCode =
    | Unavailable | Unauthorized | UnsupportedVersion | NotProcessOwner | UserGestureRequired | UserDenied
    | StaleGeneration | MalformedMessage | Conflict | Timeout | SafeStop

  datatype UnavailableReason = NotAvailable | VersionUnsupported | PolicyDenied | ProviderFailed

  datatype Coordinate = Coordinate(apiVersion: Text, kind: Text)

  datatype Participant = Participant(component: Text, facet: Text, activationId: Option<Text>)

  datatype ProtocolError = ProtocolError(code: ErrorCode, message: string, retryable: bool, correlationId: Text)

  datatype Requirement = Requirement(coordinate: Coordinate, required: bool)

  datatype HelloPayload = HelloPayload(instanceId: Text, supports: seq<Coordinate>, requires_: seq<Requirement>)

  datatype UnavailableCapability = UnavailableCapability(coordinate: Coordinate, reason: UnavailableReason)

  datatype LeaseConstraints = LeaseConstraints(maxSeconds: Option<nat>, approvalRequired: Option<bool>)

  datatype AgreementPayload = AgreementPayload(activationId: Text, granted: seq<Coordinate>,
                                               unavailable: seq<UnavailableCapability>,
                                               leaseConstraints: Option<LeaseConstraints>)

  datatype Json = HelloShape(hello: HelloPayload) | AgreementShape(agreement: AgreementPayload)
                | OtherObject(body: Text) | NotAnObject(literal: Text)
  {
    predicate IsObject() {
      !NotAnObject?
    }
  }

  datatype Envelope = Envelope(protocol: Text, id: Text, kind: Kind, replyTo: Option<Text>, participant: Participant,
                               timestamp: Text, generation: nat, capability: Option<Coordinate>, method_: Option<Text>,
                               payload: Option<Json>, error: Option<ProtocolError>)

  // ---------- What the schema asks for ----------

  predicate IdLength(id: Text) {
    ID_MIN_LEN <= |id| <= ID_MAX_LEN
  }

  predicate IsLower(b: Byte) {
    97 <= b <= 122
  }

  predicate IsUpper(b: Byte) {
    65 <= b <= 90
  }

  predicate IsMethodByte(b: Byte) {
    IsLower(b) || IsDigit(b) || b == 46 || b == 95 || b == 45
  }

  predicate IsNamespaceByte(b: Byte) {
    IsLower(b) || IsDigit(b) || b == 46 || b == 45
  }

  predicate Digits(s: Text) {
    forall i :: 0 <= i < |s| ==> IsDigit(s[i])
  }

  /** `^[a-z][a-z0-9._-]+$` */
  predicate MethodPattern(s: Text) {
    |s| >= 2 && IsLower(s[0]) && forall i :: 1 <= i < |s| ==> IsMethodByte(s[i])
  }

  /** `^[A-Z][A-Za-z0-9]+$` */
  predicate KindPattern(s: Text) {
    |s| >= 2 && IsUpper(s[0]) && forall i :: 1 <= i < |s| ==> IsUpper(s[i]) || IsLower(s[i]) || IsDigit(s[i])
  }

  const SLASH_V: Text := [47, 118]
  const ALPHA: Text := [97, 108, 112, 104, 97]
  const BETA: Text := [98, 101, 116, 97]

  /** `(alpha[0-9]+|beta[0-9]+)?` */
  predicate StagePattern(s: Text) {
    s == [] || (ALPHA < s && Digits(s[|ALPHA|..])) || (BETA < s && Digits(s[|BETA|..]))
  }

  /** The three groups of an api version. */
  predicate ApiVersionGroups(s: Text, namespace_: Text, major: Text, stage: Text) {
    && s == namespace_ + SLASH_V + major + stage
    && namespace_ != [] && (forall i :: 0 <= i < |namespace_| ==> IsNamespaceByte(namespace_[i]))
    && major != [] && Digits(major) && StagePattern(stage)
  }

  /** `^[a-z0-9.-]+/v[0-9]+(alpha[0-9]+|beta[0-9]+)?$` */
  ghost predicate ApiVersionPattern(s: Text) {
    exists namespace_: Text, major: Text, stage: Text :: ApiVersionGroups(s, namespace_, major, stage)
  }

  ghost predicate ValidCoordinate(c: Coordinate) {
    ApiVersionPattern(c.apiVersion) && KindPattern(c.kind)
  }

  predicate Unique<T(==)>(items: seq<T>) {
    forall i, j :: 0 <= i < j < |items| ==> items[i] != items[j]
  }

  ghost predicate AllValid(cs: seq<Coordinate>) {
    forall i :: 0 <= i < |cs| ==> ValidCoordinate(cs[i])
  }

  /** Where a validation finding points. */
  datatype Path =
    | AtProtocol | AtId | AtComponent | AtFacet | AtActivationId | AtTimestamp
    | AtReplyTo | AtCapability | AtMethod | AtError | AtPayload
    | AtInstanceId | AtSupports | AtRequirement(i: nat) | AtRequires
    | AtAgreedActivation | AtGranted | AtUnavailable(i: nat) | AtUnavailableList | AtMaxSeconds
    | AtResultBranches | AtErrorMessage | AtCorrelationId

  // Which rules an envelope breaks, group by group.

  predicate HeaderBreaks(env: Envelope, p: Path) {
    match p
    case AtProtocol => env.protocol != PROTOCOL
    case AtId => !IdLength(env.id)
    case AtComponent => env.participant.component == []
    case AtFacet => env.participant.facet == []
    case AtActivationId => env.participant.activationId.Some? && !(1 <= |env.participant.activationId.value| <= 128)
    case AtTimestamp => !Rfc3339.Recognised(env.timestamp)
    case _ => false
  }

  /** Required and forbidden fields by kind. */
  ghost predicate FieldBreaks(env: Envelope, p: Path) {
    match p
    case AtReplyTo =>
      (match env.kind
       case Hello | Invocation => env.replyTo.Some?
       case Agreement | Result => env.replyTo.None? || !IdLength(env.replyTo.value)
       case Event => false)
    case AtCapability =>
      (match env.kind
       case Hello | Agreement => env.capability.Some?
       case _ => env.capability.None? || !ValidCoordinate(env.capability.value))
    case AtMethod =>
      (match env.kind
       case Hello | Agreement => env.method_.Some?
       case _ => env.method_.None? || !MethodPattern(env.method_.value))
    case AtError => env.kind != Result && env.error.Some?
    case AtPayload =>
      (match env.kind
       case Hello => !(env.payload.Some? && env.payload.value.HelloShape?)
       case Agreement => !(env.payload.Some? && env.payload.value.AgreementShape?)
       case Invocation | Event => !(env.payload.Some? && env.payload.value.IsObject())
       case Result => env.payload.Some? && env.error.None? && !env.payload.value.IsObject())
    case _ => false
  }

  ghost predicate HelloBreaks(hello: HelloPayload, p: Path) {
    match p
    case AtInstanceId => !(8 <= |hello.instanceId| <= 128)
    case AtSupports => !(AllValid(hello.supports) && Unique(hello.supports))
    case AtRequirement(i) => i < |hello.requires_| && !ValidCoordinate(hello.requires_[i].coordinate)
    case AtRequires => !Unique(hello.requires_)
    case _ => false
  }

  ghost predicate AgreementBreaks(agreement: AgreementPayload, p: Path) {
    match p
    case AtAgreedActivation => !(1 <= |agreement.activationId| <= 128)
    case AtGranted => !(AllValid(agreement.granted) && Unique(agreement.granted))
    case AtUnavailable(i) => i < |agreement.unavailable| && !ValidCoordinate(agreement.unavailable[i].coordinate)
    case AtUnavailableList => !Unique(agreement.unavailable)
    case AtMaxSeconds => agreement.leaseConstraints.Some? && agreement.leaseConstraints.value.maxSeconds == Some(0)
    case _ => false
  }

  /** A Result carries a payload or an error, and not both. */
  predicate ResultBreaks(env: Envelope, p: Path) {
    match p
    case AtResultBranches => env.payload.Some? <==> env.error.Some?
    case AtErrorMessage => env.payload.None? && env.error.Some? && |env.error.value.message| > ERROR_MESSAGE_MAX_LEN
    case AtCorrelationId => env.payload.None? && env.error.Some? && !IdLength(env.error.value.correlationId)
    case _ => false
  }

  /** The rule at `p` does not hold of the envelope. */
  ghost predicate Violated(env: Envelope, p: Path) {
    || HeaderBreaks(env, p)
    || FieldBreaks(env, p)
    || (IsHello(env) && HelloBreaks(HelloOf(env), p))
    || (IsAgreement(env) && AgreementBreaks(AgreementOf(env), p))
    || (env.kind == Result && ResultBreaks(env, p))
  }

  ghost predicate FrameValid(env: Envelope) {
    forall p :: !Violated(env, p)
  }

  predicate IsHello(env: Envelope) {
    env.kind == Hello && env.payload.Some? && env.payload.value.HelloShape?
  }

  function HelloOf(env: Envelope): HelloPayload
    requires IsHello(env)
  {
    env.payload.value.hello
  }

  predicate IsAgreement(env: Envelope) {
    env.kind == Agreement && env.payload.Some? && env.payload.value.AgreementShape?
  }

  function AgreementOf(env: Envelope): AgreementPayload
    requires IsAgreement(env)
  {
    env.payload.value.agreement
  }

  /** A frame is valid when it breaks no rule of any group. */
  lemma ValidByGroups(env: Envelope)
    ensures FrameValid(env) <==>
            && (forall p :: !HeaderBreaks(env, p)) && (forall p :: !FieldBreaks(env, p))
            && (IsHello(env) ==> forall p :: !HelloBreaks(HelloOf(env), p))
            && (IsAgreement(env) ==> forall p :: !AgreementBreaks(AgreementOf(env), p))
            && (env.kind == Result ==> forall p :: !ResultBreaks(env, p))
  {
    hide HeaderBreaks;
    hide FieldBreaks;
    hide HelloBreaks;
    hide AgreementBreaks;
    hide ResultBreaks;
    assert forall p :: HeaderBreaks(env, p) ==> Violated(env, p);
    assert forall p :: FieldBreaks(env, p) ==> Violated(env, p);
    assert IsHello(env) ==> forall p :: HelloBreaks(HelloOf(env), p) ==> Violated(env, p);
    assert IsAgreement(env) ==> forall p :: AgreementBreaks(AgreementOf(env), p) ==> Violated(env, p);
    assert env.kind == Result ==> forall p :: ResultBreaks(env, p) ==> Violated(env, p);
  }

  // ---------- The scanners ----------

  method ValidMethod(s: Text) returns (ok: bool)
    ensures ok <==> MethodPattern(s)
  {
    if s == [] || !IsLower(s[0]) || |s| < 2 {
      return false;
    }
    for i := 1 to |s|
      invariant forall j :: 1 <= j < i ==> IsMethodByte(s[j])
    {
      if !IsMethodByte(s[i]) {
        return false;
      }
    }
    return true;
  }

  method ValidCoordinateKind(s: Text) returns (ok: bool)
    ensures ok <==> KindPattern(s)
  {
    if s == [] || !IsUpper(s[0]) || |s| < 2 {
      return false;
    }
    for i := 1 to |s|
      invariant forall j :: 1 <= j < i ==> IsUpper(s[j]) || IsLower(s[j]) || IsDigit(s[j])
    {
      if !(IsUpper(s[i]) || IsLower(s[i]) || IsDigit(s[i])) {
        return false;
      }
    }
    return true;
  }

  /** The position of the last slash, if there is one. */
  method LastSlash(s: Text) returns (r: Option<nat>)
    ensures r.Some? ==> r.value < |s| && s[r.value] == 47 && 47 !in s[r.value + 1..]
    ensures r.None? ==> 47 !in s
  {
    var i := |s|;
    while i > 0
      invariant 0 <= i <= |s| && 47 !in s[i..]
    {
      i := i - 1;
      assert s[i..] == [s[i]] + s[i + 1..];
      if s[i] == 47 {
        return Some(i);
      }
    }
    return None;
  }

  method AllDigits(s: Text) returns (ok: bool)
    ensures ok <==> Digits(s)
  {
    for i := 0 to |s|
      invariant Digits(s[..i])
    {
      if !IsDigit(s[i]) {
        return false;
      }
    }
    return true;
  }

  method ValidStage(suffix: Text) returns (ok: bool)
    requires suffix != []
    ensures ok <==> StagePattern(suffix)
  {
    assert ALPHA <= suffix ==> suffix[0] == 97;
    assert BETA <= suffix ==> suffix[0] == 98;
    if ALPHA <= suffix {
      var digits := AllDigits(suffix[|ALPHA|..]);
      return ALPHA != suffix && digits;
    }
    if BETA <= suffix {
      var digits := AllDigits(suffix[|BETA|..]);
      return BETA != suffix && digits;
    }
    return false;
  }

  /** The longest digit run from `from`. */
  method SkipDigits(s: Text, from: nat) returns (i: nat)
    requires from <= |s|
    ensures from <= i <= |s| && Digits(s[from..i]) && (i < |s| ==> !IsDigit(s[i]))
  {
    i := from;
    while i < |s| && IsDigit(s[i])
      invariant from <= i <= |s| && Digits(s[from..i])
    {
      assert s[from..i + 1] == s[from..i] + [s[i]];
      i := i + 1;
    }
  }

  lemma StageHasNoSlash(s: Text)
    requires StagePattern(s)
    ensures 47 !in s && (s != [] ==> !IsDigit(s[0]))
  {
    if s != [] {
      var n := if ALPHA < s then |ALPHA| else |BETA|;
      assert s[..n] == ALPHA || s[..n] == BETA;
      assert s == s[..n] + s[n..];
    }
  }

  /** The slash in front of the version is the last one. */
  lemma GroupsAfterSlash(s: Text, slash: nat, namespace_: Text, major: Text, stage: Text)
    requires slash < |s| && s[slash] == 47 && 47 !in s[slash + 1..]
    requires ApiVersionGroups(s, namespace_, major, stage)
    ensures namespace_ == s[..slash] && major + stage == s[slash + 2..] && slash + 2 < |s| && s[slash + 1] == 118
  {
    StageHasNoSlash(stage);
    var n := |namespace_|;
    var rest := major + stage;
    assert s == namespace_ + SLASH_V + rest;
    assert s[n] == 47 && s[n + 1] == 118 && forall i :: n + 2 <= i < |s| ==> s[i] == rest[i - n - 2];
    assert forall i :: 0 <= i < |rest| ==> rest[i] != 47;
    assert forall i :: slash < i < |s| ==> s[i] == s[slash + 1..][i - slash - 1];
    assert n == slash;
    assert s[n + 2..] == rest;
  }

  /** A digit run ends where the first other byte is. */
  lemma DigitsEnd(rest: Text, end: nat, major: Text, stage: Text)
    requires rest == major + stage && Digits(major) && (stage != [] ==> !IsDigit(stage[0]))
    requires end <= |rest| && Digits(rest[..end]) && (end < |rest| ==> !IsDigit(rest[end]))
    ensures major == rest[..end] && stage == rest[end..]
  {
    assert forall i :: 0 <= i < |major| ==> rest[i] == major[i];
    assert |major| < |rest| ==> rest[|major|] == stage[0];
    assert forall i :: 0 <= i < end ==> rest[i] == rest[..end][i];
    assert end == |major|;
  }

  lemma NeedsSlash(s: Text)
    requires 47 !in s
    ensures !ApiVersionPattern(s)
  {
    forall n: Text, m: Text, g: Text
      ensures !ApiVersionGroups(s, n, m, g)
    {
      assert 47 in n + SLASH_V + m + g by {
        assert (n + SLASH_V + m + g)[|n|] == 47;
      }
    }
  }

  lemma NeedsVersion(s: Text, slash: nat)
    requires slash < |s| && s[slash] == 47 && 47 !in s[slash + 1..]
    ensures ApiVersionPattern(s) ==> slash + 2 < |s| && s[slash + 1] == 118
  {
    if ApiVersionPattern(s) {
      var namespace_: Text, major: Text, stage: Text :| ApiVersionGroups(s, namespace_, major, stage);
      GroupsAfterSlash(s, slash, namespace_, major, stage);
    }
  }

  /** The groups are where the scanner looks for them. */
  lemma GroupsAreUnique(s: Text, slash: nat, end: nat)
    requires slash + 1 < |s| && s[slash] == 47 && 47 !in s[slash + 1..] && s[slash + 1] == 118
    requires slash + 2 <= end <= |s| && Digits(s[slash + 2..end]) && (end < |s| ==> !IsDigit(s[end]))
    ensures ApiVersionPattern(s) <==> ApiVersionGroups(s, s[..slash], s[slash + 2..end], s[end..])
  {
    assert s == s[..slash] + SLASH_V + s[slash + 2..end] + s[end..];
    if ApiVersionPattern(s) {
      var n: Text, m: Text, g: Text :| ApiVersionGroups(s, n, m, g);
      GroupsAfterSlash(s, slash, n, m, g);
      StageHasNoSlash(g);
      var rest := s[slash + 2..];
      assert rest[..end - slash - 2] == s[slash + 2..end] && rest[end - slash - 2..] == s[end..];
      DigitsEnd(rest, end - slash - 2, m, g);
    }
  }

  method ValidApiVersion(s: Text) returns (ok: bool)
    ensures ok <==> ApiVersionPattern(s)
  {
    var slash := LastSlash(s);
    if slash.None? {
      NeedsSlash(s);
      return false;
    }
    var k := slash.value;
    NeedsVersion(s, k);
    if k + 1 >= |s| || s[k + 1] != 118 {
      return false;
    }
    var end := SkipDigits(s, k + 2);
    ghost var namespace_, major, stage := s[..k], s[k + 2..end], s[end..];
    GroupsAreUnique(s, k, end);
    hide ApiVersionPattern;
    if k == 0 || end == k + 2 {
      return false;
    }
    for i := 0 to k
      invariant forall j :: 0 <= j < i ==> IsNamespaceByte(s[j])
    {
      if !IsNamespaceByte(s[i]) {
        assert !IsNamespaceByte(namespace_[i]);
        return false;
      }
    }
    if end == |s| {
      return true;
    }
    ok := ValidStage(s[end..]);
  }

  // ---------- The validator ----------

  method IsValidCoordinate(c: Coordinate) returns (ok: bool)
    ensures ok <==> ValidCoordinate(c)
  {
    var v := ValidApiVersion(c.apiVersion);
    var k := ValidCoordinateKind(c.kind);
    return v && k;
  }

  /** Uniqueness by the set of items seen so far. */
  method IsUnique<T(==)>(items: seq<T>) returns (ok: bool)
    ensures ok <==> Unique(items)
  {
    var seen := {};
    for i := 0 to |items|
      invariant forall x :: x in seen <==> x in items[..i]
      invariant Unique(items[..i])
    {
      if items[i] in seen {
        var j :| 0 <= j < i && items[..i][j] == items[i];
        assert items[j] == items[i];
        return false;
      }
      assert items[..i + 1] == items[..i] + [items[i]];
      seen := seen + {items[i]};
    }
    assert items[..|items|] == items;
    return true;
  }

  method CoordinatesValid(cs: seq<Coordinate>) returns (ok: bool)
    ensures ok <==> AllValid(cs)
  {
    ok := true;
    for i := 0 to |cs|
      invariant ok <==> AllValid(cs[..i])
    {
      var valid := IsValidCoordinate(cs[i]);
      ok := ok && valid;
      assert cs[..i + 1] == cs[..i] + [cs[i]];
    }
    assert cs[..|cs|] == cs;
  }

  function When(condition: bool, p: Path): set<Path> {
    if condition then {p} else {}
  }

  method ValidateHeader(env: Envelope) returns (issues: set<Path>)
    ensures forall p :: p in issues <==> HeaderBreaks(env, p)
  {
    hide Ascii;
    hide Rfc3339.Recognised;
    var stamped := Rfc3339.IsRfc3339Timestamp(env.timestamp);
    var activation := env.participant.activationId;
    issues := When(env.protocol != PROTOCOL, AtProtocol)
      + When(!IdLength(env.id), AtId)
      + When(env.participant.component == [], AtComponent)
      + When(env.participant.facet == [], AtFacet)
      + When(activation.Some? && (activation.value == [] || |activation.value| > 128), AtActivationId)
      + When(!stamped, AtTimestamp);
  }

  method ValidateHelloPayload(hello: HelloPayload) returns (issues: set<Path>)
    ensures forall p :: p in issues <==> HelloBreaks(hello, p)
  {
    hide ValidCoordinate;
    var supports := CoordinatesValid(hello.supports);
    var unique := IsUnique(hello.supports);
    issues := When(!(8 <= |hello.instanceId| <= 128), AtInstanceId) + When(!(supports && unique), AtSupports);
    for i := 0 to |hello.requires_|
      invariant forall p :: p in issues <==> HelloBreaks(hello, p) && p != AtRequires && (p.AtRequirement? ==> p.i < i)
    {
      var valid := IsValidCoordinate(hello.requires_[i].coordinate);
      issues := issues + When(!valid, AtRequirement(i));
    }
    unique := IsUnique(hello.requires_);
    issues := issues + When(!unique, AtRequires);
  }

  method ValidateAgreementPayload(agreement: AgreementPayload) returns (issues: set<Path>)
    ensures forall p :: p in issues <==> AgreementBreaks(agreement, p)
  {
    hide ValidCoordinate;
    var granted := CoordinatesValid(agreement.granted);
    var unique := IsUnique(agreement.granted);
    issues := When(!(1 <= |agreement.activationId| <= 128), AtAgreedActivation) + When(!(granted && unique), AtGranted);
    for i := 0 to |agreement.unavailable|
      invariant forall p :: p in issues <==>
                  (p.AtAgreedActivation? || p.AtGranted? || (p.AtUnavailable? && p.i < i))
                    && AgreementBreaks(agreement, p)
    {
      var valid := IsValidCoordinate(agreement.unavailable[i].coordinate);
      issues := issues + When(!valid, AtUnavailable(i));
    }
    unique := IsUnique(agreement.unavailable);
    issues := issues + When(!unique, AtUnavailableList);
    var constraints := agreement.leaseConstraints;
    issues := issues + When(constraints.Some? && constraints.value.maxSeconds == Some(0), AtMaxSeconds);
  }

  method ValidateResultBranches(env: Envelope) returns (issues: set<Path>)
    ensures forall p :: p in issues <==> ResultBreaks(env, p)
  {
    issues := When(env.payload.Some? == env.error.Some?, AtResultBranches);
    if env.payload.None? && env.error.Some? {
      issues := issues + When(|env.error.value.message| > ERROR_MESSAGE_MAX_LEN, AtErrorMessage)
                       + When(!IdLength(env.error.value.correlationId), AtCorrelationId);
    }
  }

  /** Required and forbidden fields by kind. */
  method ValidateFields(env: Envelope) returns (issues: set<Path>)
    ensures forall p :: p in issues <==> FieldBreaks(env, p)
  {
    hide ValidCoordinate;
    hide MethodPattern;
    hide IdLength;
    var capabilityOk, methodOk := false, false;
    if env.capability.Some? {
      capabilityOk := IsValidCoordinate(env.capability.value);
    }
    if env.method_.Some? {
      methodOk := ValidMethod(env.method_.value);
    }
    var replyTo, capability, method_, error, payload := false, !capabilityOk, !methodOk, env.error.Some?, false;
    match env.kind {
      case Hello =>
        replyTo, capability, method_ := env.replyTo.Some?, env.capability.Some?, env.method_.Some?;
        payload := !(env.payload.Some? && env.payload.value.HelloShape?);
      case Agreement =>
        replyTo, capability, method_ :=
          !(env.replyTo.Some? && IdLength(env.replyTo.value)), env.capability.Some?, env.method_.Some?;
        payload := !(env.payload.Some? && env.payload.value.AgreementShape?);
      case Invocation =>
        replyTo := env.replyTo.Some?;
        payload := !(env.payload.Some? && env.payload.value.IsObject());
      case Event =>
        payload := !(env.payload.Some? && env.payload.value.IsObject());
      case Result =>
        replyTo, error := !(env.replyTo.Some? && IdLength(env.replyTo.value)), false;
        payload := env.payload.Some? && env.error.None? && !env.payload.value.IsObject();
    }
    issues := When(replyTo, AtReplyTo) + When(capability, AtCapability) + When(method_, AtMethod)
      + When(error, AtError) + When(payload, AtPayload);
  }

  /** The findings point at exactly the fields that break their rule. */
  method ValidateEnvelope(env: Envelope) returns (issues: set<Path>)
    ensures forall p :: p in issues <==> Violated(env, p)
    ensures issues == {} <==> FrameValid(env)
  {
    hide HeaderBreaks;
    hide FieldBreaks;
    hide HelloBreaks;
    hide AgreementBreaks;
    hide ResultBreaks;
    issues := ValidateHeader(env);
    var more := ValidateFields(env);
    issues := issues + more;
    if IsHello(env) {
      more := ValidateHelloPayload(HelloOf(env));
      issues := issues + more;
    } else if IsAgreement(env) {
      more := ValidateAgreementPayload(AgreementOf(env));
      issues := issues + more;
    } else if env.kind == Result {
      more := ValidateResultBranches(env);
      issues := issues + more;
    }
  }

  // ---------- Tokens ----------

  function HexDigit(d: int): Byte
    requires 0 <= d < 16
  {
    if d < 10 then 48 + d else 87 + d
  }

  /** Lower-case hexadecimal, at least `width` digits. */
  function Hex(n: nat, width: nat): Text
    decreases n, width
  {
    if n == 0 && width == 0 then []
    else Hex(n / 16, if width == 0 then 0 else width - 1) + [HexDigit(n % 16)]
  }

  /** `<prefix>-<nanos>-<counter>` */
  function UniqueToken(prefix: Text, nanos: nat, counter: nat): Text {
    prefix + [45] + Hex(nanos, 16) + [45] + Hex(counter, 4)
  }

  function MessageId(nanos: nat, counter: nat): Text {
    UniqueToken([109, 115, 103], nanos, counter)
  }

  function ActivationId(nanos: nat, counter: nat): Text {
    UniqueToken([97, 99, 116], nanos, counter)
  }

  function Power16(k: nat): nat {
    if k == 0 then 1 else 16 * Power16(k - 1)
  }

  lemma {:induction false} HexShape(n: nat, width: nat, k: nat)
    requires width <= k && n < Power16(k)
    ensures width <= |Hex(n, width)| <= k && 45 !in Hex(n, width)
    decreases k
  {
    if k > 0 && !(n == 0 && width == 0) {
      HexShape(n / 16, if width == 0 then 0 else width - 1, k - 1);
    }
  }

  lemma {:induction false} HexIsInjective(m: nat, n: nat, width: nat)
    requires Hex(m, width) == Hex(n, width)
    ensures m == n
    decreases m, n, width
  {
    if !(m == 0 && width == 0) && !(n == 0 && width == 0) {
      var w: nat := if width == 0 then 0 else width - 1;
      var x, y := Hex(m / 16, w), Hex(n / 16, w);
      var a, b := HexDigit(m % 16), HexDigit(n % 16);
      assert (x + [a])[..|x|] == x && (y + [b])[..|y|] == y;
      assert (x + [a])[|x|] == a && (y + [b])[|y|] == b;
      HexIsInjective(m / 16, n / 16, w);
    }
  }

  lemma {:induction false} HexHasNoHyphen(n: nat, width: nat)
    ensures 45 !in Hex(n, width)
    decreases n, width
  {
    if !(n == 0 && width == 0) {
      HexHasNoHyphen(n / 16, if width == 0 then 0 else width - 1);
    }
  }

  /** Tokens of different counter readings differ, whatever the clock said. */
  lemma TokensAreFresh(p: Text, q: Text, nanos: nat, counter: nat, nanos': nat, counter': nat)
    requires UniqueToken(p, nanos, counter) == UniqueToken(q, nanos', counter')
    ensures counter == counter'
  {
    HexHasNoHyphen(counter, 4);
    HexHasNoHyphen(counter', 4);
    LastHyphen(p + [45] + Hex(nanos, 16), Hex(counter, 4), q + [45] + Hex(nanos', 16), Hex(counter', 4));
    HexIsInjective(counter, counter', 4);
  }

  const U64: nat := 0x1_0000_0000_0000_0000

  lemma PowersOf16()
    ensures Power16(16) == U64 && Power16(32) == U64 * U64
  {
    assert Power16(4) == 65536;
    assert Power16(8) == 65536 * 65536;
    assert Power16(12) == 65536 * 65536 * 65536;
    assert Power16(16) == U64;
    assert Power16(20) == U64 * 65536;
    assert Power16(24) == U64 * 65536 * 65536;
    assert Power16(28) == U64 * 65536 * 65536 * 65536;
  }

  /** Every token the daemon makes is a legal envelope id. */
  lemma TokensAreIds(prefix: Text, nanos: nat, counter: nat)
    requires |prefix| == 3 && nanos < U64 * U64 && counter < U64
    ensures IdLength(UniqueToken(prefix, nanos, counter))
  {
    PowersOf16();
    HexShape(nanos, 16, 32);
    HexShape(counter, 4, 16);
  }
}
