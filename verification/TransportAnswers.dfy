/** Which credentials are accepted and which connections get a slot, told from the history of a run. */
module TransportAnswers {
  import opened Core
  import opened Transport
  import opened TransportRuns

  // ---------- The record of a token ----------

  /** A sweep takes the record of a used or expired token, and presenting an expired one does too. */
  predicate Drops(s: State, step: Step, token: Text, expiresAt: nat) {
    match step
    case Insert(_, _, now) => expiresAt <= now || WasAccepted(s.accepted, token)
    case Present(_, presented, now) => presented == token && expiresAt <= now
    case _ => false
  }

  predicate IssuedAt(steps: seq<Step>, m: nat, token: Text) {
    m < |steps| && steps[m].Insert? && steps[m].token == token
  }

  lemma RecordAfterStep(max: nat, s: State, step: Step, s': State, token: Text)
    requires Next(max, s, step, s') && TokenInv(s) && TokenFormat(token)
    requires step.Insert? ==> step.token != token
    ensures token in s'.registry ==> token in s.registry && s'.registry[token].expiresAt == s.registry[token].expiresAt
    ensures token in s.registry ==>
            (token in s'.registry <==> !Drops(s, step, token, s.registry[token].expiresAt))
  {
    hide TokenFormat;
  }

  lemma IssuedIsMinted(max: nat, s: State, step: Step, s': State)
    requires Next(max, s, step, s') && step.Insert?
    ensures MintedUntil(s'.minted, step.token, step.expiresAt)
    ensures step.token in s'.registry && s'.registry[step.token] == Issued(step.expiresAt, false)
  {
    assert s'.minted[|s.minted|] == (step.token, step.expiresAt);
  }

  lemma {:induction false} MintedStays(max: nat, states: seq<State>, steps: seq<Step>, i: nat, j: nat, token: Text,
      e: nat)
    requires IsRun(max, states, steps) && i <= j < |states| && MintedUntil(states[i].minted, token, e)
    ensures MintedUntil(states[j].minted, token, e)
    decreases j
  {
    hide Next;
    if i < j {
      MintedStays(max, states, steps, i, j - 1, token, e);
      MintedGrows(max, states[j - 1], steps[j - 1], states[j]);
      var k :| 0 <= k < |states[j - 1].minted| && states[j - 1].minted[k] == (token, e);
      assert states[j].minted[k] == (token, e);
    }
  }

  lemma MintedGrows(max: nat, s: State, step: Step, s': State)
    requires Next(max, s, step, s')
    ensures s.minted <= s'.minted
  {
    hide AuthStep;
    hide IssueStep;
  }

  /** The record of an issued token is there as long as no step has dropped it. */
  lemma {:induction false} RecordIsKeptExactlyWhen(max: nat, states: seq<State>, steps: seq<Step>, i: nat, m: nat,
      token: Text)
    requires IsRun(max, states, steps) && m < i < |states| && IssuedAt(steps, m, token)
    requires TokenFormat(token)
    ensures token in states[i].registry <==>
            forall k :: m < k < i ==> !Drops(states[k], steps[k], token, steps[m].expiresAt)
    ensures token in states[i].registry ==>
            && states[i].registry[token].expiresAt == steps[m].expiresAt
            && (states[i].registry[token].used <==> WasAccepted(states[i].accepted, token))
    decreases i
  {
    hide Next;
    hide TokenFormat;
    hide Drops;
    RunsKeepTokens(max, states, steps, i);
    var s, step := states[i - 1], steps[i - 1];
    IssuedAgain(max, states, steps, i - 1, m, token);
    if i == m + 1 {
      IssuedIsMinted(max, s, step, states[i]);
    } else {
      RecordIsKeptExactlyWhen(max, states, steps, i - 1, m, token);
      RunsKeepTokens(max, states, steps, i - 1);
      RecordAfterStep(max, s, step, states[i], token);
    }
    hide TokenInv;
  }

  /** A token is issued once. */
  lemma IssuedAgain(max: nat, states: seq<State>, steps: seq<Step>, i: nat, m: nat, token: Text)
    requires IsRun(max, states, steps) && m <= i < |steps| && IssuedAt(steps, m, token)
    ensures i != m && steps[i].Insert? ==> steps[i].token != token
  {
    if m < i {
      assert Next(max, states[m], steps[m], states[m + 1]);
      assert Next(max, states[i], steps[i], states[i + 1]);
      hide Next;
      IssuedIsMinted(max, states[m], steps[m], states[m + 1]);
      MintedStays(max, states, steps, m + 1, i, token, steps[m].expiresAt);
      FreshIsNotMinted(max, states[i], steps[i], states[i + 1], token, steps[m].expiresAt);
    }
  }

  lemma FreshIsNotMinted(max: nat, s: State, step: Step, s': State, token: Text, expiresAt: nat)
    requires Next(max, s, step, s') && MintedUntil(s.minted, token, expiresAt)
    ensures step.Insert? ==> step.token != token
  {
  }

  // ---------- What a token looks like ----------

  /** The digit in small letters. */
  function Small(b: Byte): Byte {
    if 'A' as int <= b <= 'Z' as int then b + ('a' as int - 'A' as int) else b
  }

  /** The same text, but for the case of letters behind the first `from` bytes. */
  predicate SameButForCase(s: Text, t: Text, from: nat) {
    && |s| == |t| && from <= |s| && s[..from] == t[..from]
    && forall i :: from <= i < |s| ==> Small(s[i]) == t[i]
  }

  lemma {:induction false} DigitsOfBytes(s: Text, n: nat) returns (bytes: Text)
    requires |s| == 2 * n && forall i :: 0 <= i < |s| ==> IsHexDigit(s[i])
    ensures |bytes| == n && SameButForCase(s, HexBytes(bytes), 0)
    decreases n
  {
    hide HexBytes;
    hide LowerHex;
    hide Small;
    hide IsHexDigit;
    bytes := [];
    if n == 0 {
      assert HexBytes(bytes) == [];
    } else {
      var start := s[..2 * n - 2];
      var front := DigitsOfBytes(start, n - 1);
      var high := DigitOf(s[2 * n - 2]);
      var low := DigitOf(s[2 * n - 1]);
      bytes := front + [16 * high + low];
      HexOfLast(bytes);
      assert bytes[..n - 1] == front;
      OneByteMore(s, start, HexBytes(front), HexBytes(bytes));
    }
  }

  lemma OneByteMore(s: Text, start: Text, h: Text, h': Text)
    requires SameButForCase(start, h, 0) && |s| == |h'| == |start| + 2
    requires s[..|start|] == start && h'[..|start|] == h
    requires Small(s[|start|]) == h'[|start|] && Small(s[|start| + 1]) == h'[|start| + 1]
    ensures SameButForCase(s, h', 0)
  {
    hide Small;
    forall i | 0 <= i < |s|
      ensures Small(s[i]) == h'[i]
    {
      if i < |start| {
        assert s[i] == s[..|start|][i] == start[i] && h'[i] == h'[..|start|][i] == h[i];
      }
    }
  }

  lemma DigitOf(b: Byte) returns (d: nat)
    requires IsHexDigit(b)
    ensures d < 16 && LowerHex(d) == Small(b)
  {
    d := if IsDigit(b) then b - 48 else if b >= 97 then b - 87 else b - 55;
  }

  lemma {:induction false} BytesAreDigits(s: Text, bytes: Text)
    requires SameButForCase(s, HexBytes(bytes), 0)
    ensures forall i :: 0 <= i < |s| ==> IsHexDigit(s[i])
  {
    HexBytesAreSmall(bytes);
    hide HexBytes;
  }

  lemma {:induction false} HexBytesAreSmall(bytes: Text)
    ensures forall i :: 0 <= i < |HexBytes(bytes)| ==>
              IsDigit(HexBytes(bytes)[i]) || 97 <= HexBytes(bytes)[i] <= 102
  {
    if bytes != [] {
      HexBytesAreSmall(bytes[..|bytes| - 1]);
    }
  }

  /** A text has the format of a token exactly when it is, but for the case of its digits, the token of some
      sixteen bytes. */
  lemma FormatIsOfTokens(token: Text)
    ensures TokenFormat(token) <==> exists random: Text :: |random| == 16 && SameButForCase(token, TokenOf(random), 3)
  {
    hide HexBytes;
    hide Small;
    if TokenFormat(token) {
      assert forall i :: 0 <= i < 32 ==> token[3..][i] == token[i + 3];
      var random := DigitsOfBytes(token[3..], 16);
      var h := HexBytes(random);
      assert TokenOf(random)[..3] == TOKEN_PREFIX == token[..3];
      assert forall i :: 3 <= i < 35 ==> TokenOf(random)[i] == h[i - 3] && token[i] == token[3..][i - 3];
      assert SameButForCase(token, TokenOf(random), 3);
    }
    forall random: Text | |random| == 16 && SameButForCase(token, TokenOf(random), 3)
      ensures TokenFormat(token)
    {
      var h := HexBytes(random);
      assert TokenOf(random)[..3] == TOKEN_PREFIX;
      assert forall i :: 0 <= i < 32 ==> token[3..][i] == token[i + 3] && h[i] == TokenOf(random)[i + 3];
      BytesAreDigits(token[3..], random);
      assert forall i :: 3 <= i < 35 ==> token[i] == token[3..][i - 3];
    }
  }

  // ---------- Which tokens are accepted ----------

  /** Issued at step `m`, and neither an issue since nor a presentation of it has read the clock at or past
      its expiry. */
  predicate Good(steps: seq<Step>, i: nat, m: nat, token: Text, now: nat) {
    && m < i <= |steps| && steps[m].Insert? && steps[m].token == token && now < steps[m].expiresAt
    && forall k :: m < k < i ==> Before(steps[k], token, steps[m].expiresAt)
  }

  predicate Before(step: Step, token: Text, expiresAt: nat) {
    && (step.Insert? ==> step.now < expiresAt)
    && (step.Present? && step.token == token ==> step.now < expiresAt)
  }

  lemma AcceptedStays(max: nat, states: seq<State>, steps: seq<Step>, i: nat, j: nat, token: Text)
    requires IsRun(max, states, steps) && i <= j < |states|
    ensures WasAccepted(states[i].accepted, token) ==> WasAccepted(states[j].accepted, token)
  {
    LogsGrow(max, states, steps, i, j);
    assert forall a :: 0 <= a < |states[i].accepted| ==> states[j].accepted[a] == states[i].accepted[a];
  }

  lemma GoodIsKept(max: nat, states: seq<State>, steps: seq<Step>, i: nat, m: nat, token: Text, now: nat)
    requires IsRun(max, states, steps) && m < i < |states| && TokenFormat(token)
    requires IssuedAt(steps, m, token) && !WasAccepted(states[i].accepted, token)
    ensures AuthStep(states[i].registry, token, now).1.Ok? <==> Good(steps, i, m, token, now)
  {
    var e := steps[m].expiresAt;
    RecordIsKeptExactlyWhen(max, states, steps, i, m, token);
    hide TokenFormat;
    forall k | m < k < i
      ensures Drops(states[k], steps[k], token, e) <==> !Before(steps[k], token, e)
    {
      AcceptedStays(max, states, steps, k, i, token);
    }
    hide IsRun;
    hide Drops;
    hide Before;
    hide WasAccepted;
  }

  lemma RegisteredWasIssued(max: nat, states: seq<State>, steps: seq<Step>, i: nat, token: Text) returns (m: nat)
    requires IsRun(max, states, steps) && i < |states| && token in states[i].registry
    ensures m < i && m < |steps| && IssuedAt(steps, m, token)
    decreases i
  {
    assert Next(max, states[i - 1], steps[i - 1], states[i]);
    if steps[i - 1].Insert? && steps[i - 1].token == token {
      m := i - 1;
    } else {
      assert token in states[i - 1].registry;
      m := RegisteredWasIssued(max, states, steps, i - 1, token);
    }
  }

  /** Over every run, on the histories alone: a token is accepted exactly when it is well formed, was issued
      and not accepted yet, has not expired, and no issue since and no presentation of it has read the
      clock at or past its expiry. */
  lemma TokenIsAcceptedExactlyWhen(max: nat, states: seq<State>, steps: seq<Step>, i: nat, token: Text, now: nat)
    requires IsRun(max, states, steps) && i < |states|
    ensures AuthStep(states[i].registry, token, now).1.Ok? <==>
            TokenFormat(token) && !WasAccepted(states[i].accepted, token) && exists m :: Good(steps, i, m, token, now)
  {
    hide TokenFormat;
    var ok := AuthStep(states[i].registry, token, now).1.Ok?;
    if ok {
      assert TokenFormat(token) && token in states[i].registry;
      var m := RegisteredWasIssued(max, states, steps, i, token);
      if WasAccepted(states[i].accepted, token) {
        AcceptedTokenIsSpent(max, states, steps, i, i, token, now);
      }
      GoodIsKept(max, states, steps, i, m, token, now);
    }
    if TokenFormat(token) && !WasAccepted(states[i].accepted, token) {
      forall m | Good(steps, i, m, token, now)
        ensures ok
      {
        GoodIsKept(max, states, steps, i, m, token, now);
      }
    }
  }

  /** And why a token is refused: malformed; not on record, because it was never issued or a step dropped it;
      expired; or accepted before. */
  lemma TokenAnswers(max: nat, states: seq<State>, steps: seq<Step>, i: nat, m: nat, token: Text, now: nat)
    requires IsRun(max, states, steps) && m < i < |states| && IssuedAt(steps, m, token)
    ensures var r := AuthStep(states[i].registry, token, now).1;
            var kept := forall k :: m < k < i ==> !Drops(states[k], steps[k], token, steps[m].expiresAt);
            && (r == Err(Malformed) <==> !TokenFormat(token))
            && (TokenFormat(token) ==>
                  && (r == Err(Invalid) <==> !kept)
                  && (r == Err(Stale) <==> kept && steps[m].expiresAt <= now)
                  && (r == Err(Replay) <==>
                      kept && now < steps[m].expiresAt && WasAccepted(states[i].accepted, token)))
  {
    hide Drops;
    hide WasAccepted;
    hide TokenFormat;
    hide IsRun;
    if TokenFormat(token) {
      RecordIsKeptExactlyWhen(max, states, steps, i, m, token);
    }
  }

  /** A token that was never issued is refused. */
  lemma UnissuedIsRefused(max: nat, states: seq<State>, steps: seq<Step>, i: nat, token: Text, now: nat)
    requires IsRun(max, states, steps) && i < |states|
    requires forall m :: 0 <= m < i ==> !(steps[m].Insert? && steps[m].token == token)
    ensures AuthStep(states[i].registry, token, now).1 == Err(if TokenFormat(token) then Invalid else Malformed)
  {
    hide TokenFormat;
    if token in states[i].registry {
      var m := RegisteredWasIssued(max, states, steps, i, token);
    }
  }

  // ---------- Which connections get in ----------

  /** What a presentation does to its connection, and what is recorded of it. */
  lemma PresentingDecides(max: nat, states: seq<State>, steps: seq<Step>, i: nat)
    requires IsRun(max, states, steps) && i < |steps| && steps[i].Present?
    ensures var s, s', step := states[i], states[i + 1], steps[i];
            var good := TokenFormat(step.token) && !WasAccepted(s.accepted, step.token)
                        && exists m :: Good(steps, i, m, step.token, step.now);
            && step.c < |s.conns| && s.conns[step.c] == Holding
            && s'.conns == s.conns[step.c := if good then Admitted else Leaving(BadCredential)]
            && s'.accepted == (if good then s.accepted + [(step.token, step.now)] else s.accepted)
  {
    assert Next(max, states[i], steps[i], states[i + 1]);
    TokenIsAcceptedExactlyWhen(max, states, steps, i, steps[i].token, steps[i].now);
    hide IsRun;
    hide AuthStep;
    hide Good;
    hide TokenFormat;
    hide WasAccepted;
  }

  /** A swap takes a slot exactly when it has seen how many are held and that is below the maximum; it gives up
      exactly when what it has seen is not below. */
  lemma SlotIsTakenExactlyWhen(max: nat, states: seq<State>, steps: seq<Step>, i: nat)
    requires IsRun(max, states, steps) && i < |steps| && steps[i].Swap?
    ensures var s, s', step := states[i], states[i + 1], steps[i];
            && step.c < |s.conns| && s.conns[step.c].Trying? && |s'.conns| == |s.conns|
            && var observed := s.conns[step.c].observed;
               && (s'.conns[step.c] == Holding <==> observed == Count(s.conns, Slots) < max && !step.spurious)
               && (s'.conns[step.c] == Refused <==> observed >= max)
               && (s'.conns[step.c] == Trying(step.seen) <==>
                   observed < max && (observed != Count(s.conns, Slots) || step.spurious))
  {
    RunsKeepSlots(max, states, steps, i);
    assert Next(max, states[i], steps[i], states[i + 1]);
    hide IsRun;
    hide Count;
  }

  // ---------- How connections end ----------

  /** Past the limiter: whatever ends the connection, it is not the lack of a slot. */
  predicate PastLimiter(p: Phase) {
    match p
    case Holding | Admitted | Established | Unslotted => true
    case Leaving(r) => r != Busy
    case Counted(r) => r != Busy
    case Gone(r) => r != Busy
    case _ => false
  }

  /** Past the handshake: it is not the credential either. */
  predicate PastHandshake(p: Phase) {
    match p
    case Admitted | Established | Unslotted => true
    case Leaving(r) => r != Busy && r != BadCredential
    case Counted(r) => r != Busy && r != BadCredential
    case Gone(r) => r != Busy && r != BadCredential
    case _ => false
  }

  lemma StepKeepsPast(max: nat, s: State, step: Step, s': State, c: nat)
    requires Next(max, s, step, s') && c < |s.conns|
    ensures c < |s'.conns|
    ensures PastLimiter(s.conns[c]) ==> PastLimiter(s'.conns[c])
    ensures PastHandshake(s.conns[c]) ==> PastHandshake(s'.conns[c])
    ensures s.conns[c].Refused? ==> s'.conns[c].Refused? || s'.conns[c] == Gone(Busy)
    ensures s.conns[c].Gone? ==> s'.conns[c] == s.conns[c]
  {
    hide AuthStep;
    hide IssueStep;
  }

  /** In every interleaving: a connection that has had a slot is never counted as refused for lack of one; one
      that has been admitted is never counted under a bad credential either; one that was refused a slot ends
      as refused; and how a connection has ended does not change. */
  lemma {:induction false} EndingsTell(max: nat, states: seq<State>, steps: seq<Step>, i: nat, j: nat, c: nat)
    requires IsRun(max, states, steps) && i <= j < |states| && c < |states[i].conns|
    ensures c < |states[j].conns|
    ensures PastLimiter(states[i].conns[c]) ==> PastLimiter(states[j].conns[c])
    ensures PastHandshake(states[i].conns[c]) ==> PastHandshake(states[j].conns[c])
    ensures states[i].conns[c].Refused? ==> states[j].conns[c].Refused? || states[j].conns[c] == Gone(Busy)
    ensures states[i].conns[c].Gone? ==> states[j].conns[c] == states[i].conns[c]
    decreases j
  {
    hide Next;
    hide PastLimiter;
    hide PastHandshake;
    if i < j {
      EndingsTell(max, states, steps, i, j - 1, c);
      StepKeepsPast(max, states[j - 1], steps[j - 1], states[j], c);
    }
  }
}
