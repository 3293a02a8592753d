/**
  * The local transport server (crates/local-transport/src/server.rs and credential.rs): one-time
  * credentials, the connection limiter shared by the accept loops and the workers, and the counting
  * of how connections end. Each step is what one thread does between two points where another
  * thread can run; clock readings and what sockets do are inputs of the steps. Consuming a token
  * and counting it happen under the registry's lock and are one step.
  */
module Transport {
  import opened Core

  // ---------- Credentials ----------

  datatype Issued = Issued(expiresAt: nat, used: bool)

  datatype AuthError = Invalid | Replay | Stale | Malformed

  type Registry = map<Text, Issued>

  const TOKEN_PREFIX: Text := [108, 116, 95]
  const TOKEN_HEX_CHARS := 32

  predicate IsHexDigit(b: Byte) {
    IsDigit(b) || 97 <= b <= 102 || 65 <= b <= 70
  }

  /** `lt_` and 32 hexadecimal digits. */
  predicate TokenFormat(token: Text) {
    && |token| == |TOKEN_PREFIX| + TOKEN_HEX_CHARS && TOKEN_PREFIX <= token
    && forall i :: |TOKEN_PREFIX| <= i < |token| ==> IsHexDigit(token[i])
  }

  method IsValidFormat(token: Text) returns (ok: bool)
    ensures ok <==> TokenFormat(token)
  {
    if !(TOKEN_PREFIX <= token) || |token| != |TOKEN_PREFIX| + TOKEN_HEX_CHARS {
      return false;
    }
    for i := |TOKEN_PREFIX| to |token|
      invariant forall j :: |TOKEN_PREFIX| <= j < i ==> IsHexDigit(token[j])
    {
      if !IsHexDigit(token[i]) {
        return false;
      }
    }
    return true;
  }

  function LowerHex(d: int): Byte
    requires 0 <= d < 16
  {
    if d < 10 then 48 + d else 87 + d
  }

  function HexBytes(bytes: Text): (r: Text)
    ensures |r| == 2 * |bytes|
  {
    if bytes == [] then []
    else
      var last: int := bytes[|bytes| - 1];
      HexBytes(bytes[..|bytes| - 1]) + [LowerHex(last / 16), LowerHex(last % 16)]
  }

  method HexEncode(bytes: Text) returns (out: Text)
    ensures out == HexBytes(bytes)
  {
    out := [];
    for i := 0 to |bytes|
      invariant out == HexBytes(bytes[..i])
    {
      var b: int := bytes[i];
      out := out + [LowerHex(b / 16), LowerHex(b % 16)];
      assert bytes[..i + 1][..i] == bytes[..i];
    }
    assert bytes[..|bytes|] == bytes;
  }

  function TokenOf(random: Text): Text {
    TOKEN_PREFIX + HexBytes(random)
  }

  lemma {:induction false} HexBytesAreHex(bytes: Text)
    ensures forall i :: 0 <= i < |HexBytes(bytes)| ==> IsHexDigit(HexBytes(bytes)[i])
  {
    if bytes != [] {
      HexBytesAreHex(bytes[..|bytes| - 1]);
    }
  }

  lemma SameDigitsSameByte(x: Byte, y: Byte)
    requires LowerHex(x / 16) == LowerHex(y / 16) && LowerHex(x % 16) == LowerHex(y % 16)
    ensures x == y
  {
    assert x / 16 == y / 16 && x % 16 == y % 16;
  }

  lemma TwoBehind(front: Text, x: Byte, y: Byte)
    ensures var h := front + [x, y]; h[..|front|] == front && h[|front|] == x && h[|front| + 1] == y
  {
  }

  /** Where the digits of the last byte are. */
  lemma {:induction false} HexOfLast(bytes: Text)
    requires bytes != []
    ensures var n, h := |bytes| - 1, HexBytes(bytes);
            && h[..2 * n] == HexBytes(bytes[..n])
            && h[2 * n] == LowerHex(bytes[n] / 16) && h[2 * n + 1] == LowerHex(bytes[n] % 16)
  {
    hide LowerHex;
    var n := |bytes| - 1;
    var last: int := bytes[n];
    TwoBehind(HexBytes(bytes[..n]), LowerHex(last / 16), LowerHex(last % 16));
  }

  lemma {:induction false} HexBytesAreInjective(a: Text, b: Text)
    requires HexBytes(a) == HexBytes(b)
    ensures a == b
  {
    hide HexBytes;
    hide LowerHex;
    if a != [] {
      var n := |a| - 1;
      HexOfLast(a);
      HexOfLast(b);
      HexBytesAreInjective(a[..n], b[..n]);
      SameDigitsSameByte(a[n], b[n]);
      assert a == a[..n] + [a[n]] && b == b[..n] + [b[n]];
    }
  }

  /** Sixteen random bytes give a well-formed token, and different bytes a different one. */
  lemma TokensAreWellFormed(random: Text, random': Text)
    requires |random| == 16
    ensures TokenFormat(TokenOf(random))
    ensures TokenOf(random) == TokenOf(random') ==> random == random'
  {
    HexBytesAreHex(random);
    if TokenOf(random) == TokenOf(random') {
      assert TokenOf(random)[3..] == HexBytes(random) && TokenOf(random')[3..] == HexBytes(random');
      HexBytesAreInjective(random, random');
    }
  }

  /** Not used and not expired. */
  predicate Live(entry: Issued, now: nat) {
    !entry.used && entry.expiresAt > now
  }

  /** Issuing drops dead records before it adds the new one. */
  function IssueStep(registry: Registry, token: Text, expiresAt: nat, now: nat): Registry {
    (map t | t in registry && Live(registry[t], now) :: registry[t])[token := Issued(expiresAt, false)]
  }

  function AuthStep(registry: Registry, token: Text, now: nat): (Registry, Result<(), AuthError>) {
    if !TokenFormat(token) then (registry, Err(Malformed))
    else if token !in registry then (registry, Err(Invalid))
    else if registry[token].expiresAt <= now then (registry - {token}, Err(Stale))
    else if registry[token].used then (registry, Err(Replay))
    else (registry[token := registry[token].(used := true)], Ok(()))
  }

  class CredentialDesk {
    var registry: Registry
    var issued: nat
    var consumed: nat

    constructor ()
      ensures registry == map[] && issued == 0 && consumed == 0
    {
      registry, issued, consumed := map[], 0, 0;
    }

    /** The sweep visits the records in an arbitrary order. */
    method Issue(token: Text, expiresAt: nat, now: nat)
      modifies this
      ensures registry == IssueStep(old(registry), token, expiresAt, now)
      ensures issued == old(issued) + 1 && consumed == old(consumed)
    {
      ghost var before := registry;
      var todo := registry.Keys;
      while todo != {}
        invariant issued == old(issued) && consumed == old(consumed)
        invariant todo <= registry.Keys <= before.Keys
        invariant forall t :: t in registry ==> registry[t] == before[t] && (t in todo || Live(before[t], now))
        invariant forall t :: t in before && (t in todo || Live(before[t], now)) ==> t in registry
      {
        var t :| t in todo;
        if registry[t].used || registry[t].expiresAt <= now {
          registry := registry - {t};
        }
        todo := todo - {t};
      }
      registry := registry[token := Issued(expiresAt, false)];
      issued := issued + 1;
    }

    method Authenticate(token: Text, now: nat) returns (r: Result<(), AuthError>)
      modifies this
      ensures (registry, r) == AuthStep(old(registry), token, now)
      ensures issued == old(issued) && consumed == old(consumed) + if r.Ok? then 1 else 0
    {
      var formatted := IsValidFormat(token);
      if !formatted {
        return Err(Malformed);
      }
      if token !in registry {
        return Err(Invalid);
      }
      if registry[token].expiresAt <= now {
        registry := registry - {token};
        return Err(Stale);
      }
      if registry[token].used {
        return Err(Replay);
      }
      registry := registry[token := registry[token].(used := true)];
      consumed := consumed + 1;
      return Ok(());
    }
  }

  // ---------- Connections ----------

  datatype Reason = Busy | BadCredential | PeerClosed | Protocol | TimedOut | IoFailed

  /** Where the thread that handles a connection is. */
  datatype Phase =
    | Waiting                       // accepted and counted
    | Trying(observed: nat)         // in the compare-and-swap loop
    | Refused                       // the limiter said no
    | Holding                       // has a slot, handshake not decided
    | Admitted                      // credential consumed, not yet counted as authenticated
    | Established                   // counted as authenticated
    | Leaving(reason: Reason)       // decided to end, not yet counted
    | Counted(reason: Reason)       // counted, slot not yet released
    | Unslotted                     // the success reply failed: slot released before counting
    | Gone(reason: Reason)

  datatype Stats = Stats(accepted: nat, authenticated: nat, rejectedAuth: nat, rejectedBusy: nat, closedPeer: nat,
                         closedProtocol: nat, closedTimeout: nat, closedIo: nat,
                         credentialsIssued: nat, credentialsConsumed: nat)

  function Tally(stats: Stats, r: Reason): nat {
    match r
    case Busy => stats.rejectedBusy
    case BadCredential => stats.rejectedAuth
    case PeerClosed => stats.closedPeer
    case Protocol => stats.closedProtocol
    case TimedOut => stats.closedTimeout
    case IoFailed => stats.closedIo
  }

  function Tallied(stats: Stats, r: Reason): Stats {
    match r
    case Busy => stats.(rejectedBusy := stats.rejectedBusy + 1)
    case BadCredential => stats.(rejectedAuth := stats.rejectedAuth + 1)
    case PeerClosed => stats.(closedPeer := stats.closedPeer + 1)
    case Protocol => stats.(closedProtocol := stats.closedProtocol + 1)
    case TimedOut => stats.(closedTimeout := stats.closedTimeout + 1)
    case IoFailed => stats.(closedIo := stats.closedIo + 1)
  }

  /** `minted` and `accepted` are histories of tokens: what was issued until when, and what was
      accepted at which clock reading. `uncountedIssues` are issue calls between their two locks. */
  datatype State = State(limiter: nat, conns: seq<Phase>, stats: Stats, registry: Registry, uncountedIssues: nat,
                         minted: seq<(Text, nat)>, accepted: seq<(Text, nat)>)

  const START := State(0, [], Stats(0, 0, 0, 0, 0, 0, 0, 0, 0, 0), map[], 0, [], [])

  const USIZE_MAX: nat := 0xFFFF_FFFF_FFFF_FFFF

  /** Atomic subtraction wraps. */
  function Released(limiter: nat): nat {
    if limiter == 0 then USIZE_MAX else limiter - 1
  }

  /** A relaxed load, and the value a failed compare-and-swap reports, may be any value; only a
      successful compare-and-swap has seen the limiter as it is. */
  datatype Step =
    | Arrive
    | Load(c: nat, seen: nat)
    | Swap(c: nat, spurious: bool, seen: nat)
    | CountBusy(c: nat)
    | HandshakeFails(c: nat, reason: Reason)
    | Present(c: nat, token: Text, now: nat)
    | CountAuthenticated(c: nat)
    | ReplyFails(c: nat)
    | CountReplyFailure(c: nat)
    | LoopEnds(c: nat, reason: Reason)
    | CountExit(c: nat)
    | Release(c: nat)
    | Insert(token: Text, expiresAt: nat, now: nat)
    | CountIssue

  predicate At(s: State, c: nat, p: Phase) {
    c < |s.conns| && s.conns[c] == p
  }

  predicate Enabled(max: nat, s: State, step: Step) {
    match step
    case Arrive => true
    case Load(c, _) => At(s, c, Waiting)
    case Swap(c, _, _) => c < |s.conns| && s.conns[c].Trying?
    case CountBusy(c) => At(s, c, Refused)
    case HandshakeFails(c, reason) => At(s, c, Holding) && reason != Busy
    case Present(c, _, _) => At(s, c, Holding)
    case CountAuthenticated(c) => At(s, c, Admitted)
    case ReplyFails(c) => At(s, c, Established)
    case CountReplyFailure(c) => At(s, c, Unslotted)
    case LoopEnds(c, reason) => At(s, c, Established) && reason != Busy && reason != BadCredential
    case CountExit(c) => c < |s.conns| && s.conns[c].Leaving?
    case Release(c) => c < |s.conns| && s.conns[c].Counted?
    case Insert(_, _, _) => true
    case CountIssue => s.uncountedIssues > 0
  }

  function Move(s: State, c: nat, p: Phase): State
    requires c < |s.conns|
  {
    s.(conns := s.conns[c := p])
  }

  function Apply(max: nat, s: State, step: Step): State
    requires Enabled(max, s, step)
  {
    match step
    case Arrive => s.(conns := s.conns + [Waiting], stats := s.stats.(accepted := s.stats.accepted + 1))
    case Load(c, seen) => Move(s, c, Trying(seen))
    case Swap(c, spurious, seen) =>
      var observed := s.conns[c].observed;
      if observed >= max then Move(s, c, Refused)
      else if s.limiter == observed && !spurious then Move(s, c, Holding).(limiter := observed + 1)
      else Move(s, c, Trying(seen))
    case CountBusy(c) => Move(s, c, Gone(Busy)).(stats := Tallied(s.stats, Busy))
    case HandshakeFails(c, reason) => Move(s, c, Leaving(reason))
    case Present(c, token, now) =>
      var (registry, r) := AuthStep(s.registry, token, now);
      if r.Err? then Move(s, c, Leaving(BadCredential)).(registry := registry)
      else Move(s, c, Admitted).(registry := registry, accepted := s.accepted + [(token, now)],
                                 stats := s.stats.(credentialsConsumed := s.stats.credentialsConsumed + 1))
    case CountAuthenticated(c) =>
      Move(s, c, Established).(stats := s.stats.(authenticated := s.stats.authenticated + 1))
    case ReplyFails(c) => Move(s, c, Unslotted).(limiter := Released(s.limiter))
    case CountReplyFailure(c) => Move(s, c, Gone(IoFailed)).(stats := Tallied(s.stats, IoFailed))
    case LoopEnds(c, reason) => Move(s, c, Leaving(reason))
    case CountExit(c) => Move(s, c, Counted(s.conns[c].reason)).(stats := Tallied(s.stats, s.conns[c].reason))
    case Release(c) => Move(s, c, Gone(s.conns[c].reason)).(limiter := Released(s.limiter))
    case Insert(token, expiresAt, now) =>
      s.(registry := IssueStep(s.registry, token, expiresAt, now), minted := s.minted + [(token, expiresAt)],
         uncountedIssues := s.uncountedIssues + 1)
    case CountIssue =>
      s.(uncountedIssues := s.uncountedIssues - 1,
         stats := s.stats.(credentialsIssued := s.stats.credentialsIssued + 1))
  }

  /** Tokens come from the random source and are never issued twice. */
  predicate FreshToken(s: State, step: Step) {
    step.Insert? ==> forall k :: 0 <= k < |s.minted| ==> s.minted[k].0 != step.token
  }

  predicate IsRun(max: nat, states: seq<State>, steps: seq<Step>) {
    && |states| == |steps| + 1 && states[0] == START
    && forall i :: 0 <= i < |steps| ==> Next(max, states[i], steps[i], states[i + 1])
  }

  predicate Next(max: nat, s: State, step: Step, s': State) {
    Enabled(max, s, step) && FreshToken(s, step) && s' == Apply(max, s, step)
  }
}
