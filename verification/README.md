# Daemon control plane, wire codecs and calendar, in Dafny

A model of the control plane of the DSH desktop shell daemon and of the codecs under it, with proofs
of what holds of it on every input, over every run and in every interleaving.

- `Broker`, `BrokerRuns`, `BrokerAnswers`, `BridgeRuns`, `BridgeSuccess`: grants, leases, revocation, the
  dispatch gate, and the bridge that turns a negotiated activation into grants and leases.
- `Envelope`, `EnvelopeGrammar`, `Session`, `SessionRuns`, `SessionReplies`, `SessionAnswers`, `Catalog`,
  `Owners`: the interop envelope, its frame validation, and the session of one connection from Hello to
  Agreement to Invocation.
- `Daemon`, `DaemonRuns`: any number of sessions over one broker, and what a Hello and the end of a connection
  do to the others.
- `Scheduler`, `SchedulerRuns`, `SchedulerAnswers`: the timer host.
- `Transport`, `TransportRuns`, `TransportAnswers`, `Framing`, `FramingTimeouts`: one-time credentials, the
  connection limiter as a step machine of its threads, exit accounting, and framing over arbitrary short reads
  and timeouts.
- `WebSocket`, `WebSocketAnswers`, `Chunked`, `SizeLines`: the frame codec of RFC 6455 and the chunked decoding
  of RFC 9112.
- `Calendar`, `Rfc3339`, `Fractions`, `Timestamps`: the civil-date conversions, the printers, the parser and the
  recogniser.
- `Negotiation`, `NegotiationAnswers`, `Usage`: the adapter's negotiation session and its token-usage aggregator.

Objects that the program updates are classes whose methods are proved to do what a function on values
says; the properties are lemmas about those functions. The modules named for answers tell again what an
operation answers, from the fields or the history alone and with every condition exact. Clock readings, tokens,
the wording of messages, what a handler returns and what a socket does are inputs, so every result holds for
all of them.

`dafny verify dfyconfig.toml` checks the project.

## Where the code and its comments disagree

The model follows the code.

- `crates/supervisor/src/broker/agent.rs:250` promises that replaying the current activation re-issues it.
  The grant records the clock reading, so a replay at any other reading conflicts
  (`BridgeRuns.ReplayWithinTheSameInstant`).
- `crates/daemon/src/server.rs:573` says a grant dies with its connection. The serve loop returns before the
  release when a reply cannot be sent (`Daemon.EndingRevokesExactlyAtEndOfStream`).
- `crates/local-transport/src/server.rs:506` says connections are counted before their slot is released. A
  success reply that cannot be written releases first (`TransportRuns.FreeSlotsBalanceExactlyWhen`). The
  snapshot at line 241 also reads the counters before the limiter, so a connection can end in between
  (`TransportRuns.FreeSlotsReaderBalancesExactlyWhen`).
- `crates/supervisor/src/broker/agent.rs:355` leaves the grants of a revoked activation in place and counts on a
  fresh negotiation. A lease issued directly under its agent and generation passes the gate again; the daemon
  issues none (`BridgeRuns.RevokedActivationStaysOut`, `BridgeRuns.DirectLeaseReopens`, `Daemon.BrokerIsARun`).
- The timestamp parser accepts day 31 in every month and second 60, so printing undoes parsing exactly on real
  dates without a leap second (`Rfc3339.PrintAfterParse`).
- A chunk extension must be well-formed UTF-8, which section 7.1 of RFC 9112 does not ask for
  (`Chunked.SizeLineReadsExactlyWhen`), and the two bytes behind a chunk are not looked at
  (`Chunked.EncodingDecodes`).

## Model

| member | source | states |
|---|---|---|
| Calendar.CopiesAgree | crates/daemon/src/envelope.rs:758-769 | the truncating and the Euclidean copies of the conversion give the same date for every day number; their unsigned subtractions are on naturals, so none goes below zero |
| Calendar.CivilFromDaysIsStepped | crates/daemon/src/envelope.rs:758-769 | for every day number, before or after 1970, the conversion is the proleptic Gregorian calendar stepped one day at a time from 1970-01-01 |
| Calendar.OneDayLater | crates/adapter-dsh-std/src/time.rs:31-43 | the date of day n+1 is the calendar day after the date of day n |
| Calendar.DaysAfterCivil | crates/daemon/src/scheduler.rs:532-540 | the day number of the date of day n is n, and that date is a real one |
| Calendar.CivilAfterDays | crates/daemon/src/scheduler.rs:532-540 | on real dates the conversion undoes the day number |
| Calendar.RoundTripExactlyOnRealDates | crates/daemon/src/scheduler.rs:532-540 | date to day number to date is the identity exactly on real dates |
| Calendar.DayNumberOfNextDay | crates/daemon/src/scheduler.rs:532-540 | the next calendar day has the next day number |
| Rfc3339.PrintersAgree | crates/adapter-dsh/src/usage.rs:234-243 | the three printers give equal text for every instant from 1970 on |
| Rfc3339.ParseAfterPrint | crates/daemon/src/scheduler.rs:414-489 | parsing a printed timestamp gives the instant back, and the recogniser accepts it, exactly up to the end of the year 9999 |
| Rfc3339.ParseAfterLocalPrint | crates/daemon/src/scheduler.rs:414-489 | the same when the instant is written as local wall time with any numeric offset up to 23:59 and a four-digit year |
| Rfc3339.PrintAfterParse | crates/daemon/src/scheduler.rs:472-479 | printing a parsed timestamp in printed form gives the text back exactly when it names a real date and no leap second: the parser accepts day 31 in every month and second 60 |
| Rfc3339.February31DoesNotComeBack | crates/daemon/src/scheduler.rs:472-479 | no printed text of a 31 February from 1970 on comes back, although it parses |
| Rfc3339.February31Exists | crates/daemon/src/scheduler.rs:472-479 | 1970-02-31T00:00:00.000Z is such a text |
| Rfc3339.ParserMeetsRecogniser | crates/daemon/src/envelope.rs:645-709 | parser and recogniser accept the same texts except for a lower-case t, second 60, an empty fraction and instants before 1970 |
| Rfc3339.ParseRfc3339 | crates/daemon/src/scheduler.rs:414-489 | the cursor parser computes the declared parse of every text |
| Rfc3339.ParseDateTime | crates/daemon/src/scheduler.rs:419-429 | the six fields and their separators, or failure |
| Rfc3339.ParseFraction | crates/daemon/src/scheduler.rs:431-451 | the fraction loop keeps three digits of any number of them, as milliseconds |
| Rfc3339.ParseZone | crates/daemon/src/scheduler.rs:453-468 | the zone branch reads Z or a signed offset within range and nothing else |
| Rfc3339.Cursor.Digits | crates/daemon/src/scheduler.rs:511-523 | reads exactly the wanted number of digits and their value, or fails |
| Rfc3339.Cursor.Eat | crates/daemon/src/scheduler.rs:502-509 | moves past the expected byte or fails |
| Rfc3339.IsRfc3339Timestamp | crates/daemon/src/envelope.rs:645-709 | the index scanner accepts exactly the declared texts |
| Rfc3339.RecogniseDateTime | crates/daemon/src/envelope.rs:646-680 | accepts exactly the date-time shape with fields in range |
| Rfc3339.RecogniseZone | crates/daemon/src/envelope.rs:692-709 | the zone scanner accepts exactly Z and offsets within range at the end of the text |
| Rfc3339.InstantFits | crates/daemon/src/scheduler.rs:472-488 | no intermediate value of the parser leaves 64 bits |
| Timestamps.WrittenIsRead | crates/daemon/src/scheduler.rs:414-489 | every text of date, T, time, an optional fraction and a zone, with each field in its bounds, is read as the instant its fields denote, and refused exactly when that is before 1970 |
| Timestamps.ReadWasWritten | crates/daemon/src/scheduler.rs:414-489 | and every text that is read is of that form |
| Timestamps.WrittenIsRecognised | crates/daemon/src/envelope.rs:645-709 | the recogniser accepts such a text, with any byte in place of its T, exactly when that is T or t, the second is below 60 and a fraction has digits |
| Timestamps.RecognisedWasWritten | crates/daemon/src/envelope.rs:645-709 | and accepts nothing else |
| Fractions.FractionReadsAsThreeDigits | crates/daemon/src/scheduler.rs:431-451 | behind every date and time and before every zone, a fraction of any number of digits reads as its first three, and one of no, one or two digits as the same filled up with zeros |
| Fractions.NoFractionReadsAsZero | crates/daemon/src/scheduler.rs:431-451 | a text without a fraction reads as the same text with .000 |
| Fractions.PrintedWithMoreDigits | crates/daemon/src/scheduler.rs:414-489 | a printed timestamp with any digits written behind its milliseconds parses to its instant, with Z and with every numeric offset |
| Fractions.ReadingDependsOn | crates/daemon/src/scheduler.rs:414-489 | what a text parses to is settled by its first nineteen bytes, its milliseconds and what follows the fraction |
| Fractions.SmallZoneLetter | crates/daemon/src/scheduler.rs:453-468 | z reads as Z behind every text |
| Fractions.BeforeTheEpoch | crates/daemon/src/envelope.rs:743-757 | a clock before 1970 prints as the epoch |
| Fractions.OffsetOutOfRange | crates/daemon/src/scheduler.rs:453-468 | an offset of 24 hours or 60 minutes and more is refused behind every printed date and time |
| BrokerRuns.CoversChains | crates/supervisor/src/broker.rs:94-122 | coverage chains through a covered scope exactly when the middle scope keeps every list the outer one restricts |
| BrokerRuns.CoversIsReflexive | crates/supervisor/src/broker.rs:94-122 | every scope covers itself |
| Broker.CapabilityBroker.RegisterProvider | crates/supervisor/src/broker.rs:347-360 | a provider id is taken once; nothing else changes |
| Broker.CapabilityBroker.Grant | crates/supervisor/src/broker.rs:366-389 | an identical grant is a no-op, another generation supersedes and revokes the leases of the capability, anything else conflicts |
| Broker.CapabilityBroker.RevokeLeases | crates/supervisor/src/broker.rs:582-593 | whatever order the leases are visited in, exactly the selected live ones are revoked |
| Broker.CapabilityBroker.Lease | crates/supervisor/src/broker.rs:391-418 | a lease is stored only under a grant with its owner and generation whose scope covers it; re-issue is a no-op |
| Broker.CapabilityBroker.Revoke | crates/supervisor/src/broker.rs:422-434 | the first revocation record is kept |
| Broker.CapabilityBroker.EnforceValidLease | crates/supervisor/src/broker.rs:533-580 | the four-flag scan gives the declared verdict for every iteration order, and its fallback arm cannot be reached |
| Broker.CapabilityBroker.EnforceDispatch | crates/supervisor/src/broker.rs:446-467 | the gate is the declared gate |
| Broker.CapabilityBroker.Dispatch | crates/supervisor/src/broker.rs:472-494 | a handler runs only behind the gate and only for its own capability |
| BrokerRuns.GateExactly | crates/supervisor/src/broker.rs:446-467 | in every reachable state the gate opens exactly when some covering lease is neither revoked nor expired and the grant covers the request |
| BrokerAnswers.GateOpensExactlyWhen | crates/supervisor/src/broker.rs:446-467 | in every state the gate opens exactly when the grant and some unrevoked, unexpired lease have the capability, owner and generation of the request, every session id and workspace either pins is that of the request, and every non-empty list of either has all entries of the request |
| BrokerAnswers.GrantDecides | crates/supervisor/src/broker.rs:446-467 | which request is stopped by the grant, and with which error |
| BrokerAnswers.LeasesDecide | crates/supervisor/src/broker.rs:533-580 | which granted request is stopped by the leases: revoked, expired, out of scope or without a lease, each exactly when |
| BrokerAnswers.CoversIsPermits | crates/supervisor/src/broker.rs:94-122 | coverage, field by field |
| BrokerAnswers.LeaseIsStoredExactlyWhen | crates/supervisor/src/broker.rs:391-418 | a lease is accepted exactly when a permitting grant of its owner and generation stands, it is not over and its id is free or its own; each refusal exactly when, and what is stored |
| BrokerAnswers.GrantTakesEffect | crates/supervisor/src/broker.rs:366-389 | a grant conflicts exactly with another of the same generation number; otherwise it replaces, and a change of number leaves the record of a generation change on exactly the live leases of the capability |
| BrokerRuns.GrantScopeCheckIsNeeded | crates/supervisor/src/broker.rs:105-120 | a reachable state in which a lease authorises a request that the grant does not cover, so the double check is needed |
| BrokerRuns.ReachableStatesAreBacked | crates/supervisor/src/broker.rs:366-434 | in every reachable state each unrevoked lease has a current grant with its owner and generation whose scope covers it |
| BrokerRuns.RevokedForever | crates/supervisor/src/broker.rs:422-434 | a revoked lease keeps its first record through every later run and never authorises again |
| BrokerRuns.RunKeepsLeases | crates/supervisor/src/broker.rs:366-434 | over every run no lease is dropped and a lease changes only by being revoked |
| BrokerRuns.AcceptedLeaseOpensGate | crates/supervisor/src/broker.rs:391-418 | an accepted lease opens the gate at once for every request that it and the grant cover |
| BrokerRuns.RevocationTakesEffect | crates/supervisor/src/broker.rs:422-434 | a lease revoked by id keeps its first record and authorises nothing in any later run |
| BrokerAnswers.RevocationReaches | crates/supervisor/src/broker.rs:422-434 | revoking by id changes that lease and nothing else |
| BrokerRuns.SupersededStaysDead | crates/supervisor/src/broker.rs:366-389 | after a grant is superseded, and whatever is done later, no earlier lease authorises a request for the capability; one that passes is authorised by a lease that did not exist before, even when the generation number comes back |
| Broker.CapabilityBroker.RegisterActivation | crates/supervisor/src/broker/agent.rs:281-304 | a new activation gets the next generation; a revoked or superseded one is refused |
| Broker.CapabilityBroker.GrantFromNegotiation | crates/supervisor/src/broker/agent.rs:253-343 | the grant loop and the lease loop do what the declared negotiation does, also when a conflict stops them half-way |
| Broker.CapabilityBroker.RevokeAgentGrants | crates/supervisor/src/broker/agent.rs:360-398 | for every order of the agents, all leases of the activation are revoked and it is marked for good |
| BridgeRuns.RunKeepsRegister | crates/supervisor/src/broker/agent.rs:253-398 | over every run, direct leases included, the generations of an agent stay distinct, its current activation is the newest, and a revoked activation stays revoked |
| BrokerAnswers.ActivationRevocationReaches | crates/supervisor/src/broker/agent.rs:360-398 | revoking an activation leaves its record on exactly the live leases of its agents and generations |
| BrokerAnswers.ActivationRevocationMarks | crates/supervisor/src/broker/agent.rs:360-398 | it marks exactly that activation and ends it where it is current; every other activation stays |
| BridgeRuns.RevokedActivationStaysOut | crates/supervisor/src/broker/agent.rs:345-398 | after any run, once an activation is revoked, a request under its agent and generation passes the gate in any later run only if a live lease was issued directly under that agent and generation since |
| BridgeRuns.DirectLeaseReopens | crates/supervisor/src/broker.rs:391-418 | such a lease does open the gate again, because revoking an activation leaves its grants in place |
| BridgeSuccess.ReopeningRun | crates/supervisor/src/broker/agent.rs:345-398 | a run from the empty broker, for every agent, activation and capability, in which that happens |
| BridgeSuccess.NegotiationSucceedsExactlyWhen | crates/supervisor/src/broker/agent.rs:253-343 | a negotiation succeeds exactly when it is admissible, its activation is new or current, nobody holds a requested capability under the same generation number by another grant, no lease id is taken or shared, and the clock is not at its end |
| BrokerAnswers.NegotiationErrors | crates/supervisor/src/broker/agent.rs:253-343 | which error a negotiation gives, each exactly when |
| BrokerAnswers.NegotiationGoesAsFar | crates/supervisor/src/broker/agent.rs:253-343 | a negotiation of a welcome activation makes it current whatever comes of it, grants in order up to the first conflict, leases in order up to the first that cannot be stored, and takes nothing back |
| BrokerAnswers.NegotiatedLeaseLasts | crates/supervisor/src/broker/agent.rs:318-330 | a negotiated lease lasts the agreed seconds to the millisecond, or to the end of the clock |
| BrokerAnswers.VersionIsTheLastPart | crates/supervisor/src/broker/agent.rs:220-226 | the version of a grant is what follows the last slash of the api version, or all of it |
| BridgeSuccess.HyphenFreeKindsHaveDistinctIds | crates/supervisor/src/broker/agent.rs:230-235 | capabilities of one activation whose kinds have no hyphen have different lease ids |
| BridgeSuccess.SharedLeaseId | crates/supervisor/src/broker/agent.rs:230-235 | with hyphens on both sides two capabilities can share a lease id, and then cannot be negotiated together |
| BridgeSuccess.NegotiationTakesOver | crates/supervisor/src/broker/agent.rs:253-343 | after a successful negotiation every other agent and generation is refused the granted capabilities and gets the same answers as before for all others |
| BridgeRuns.NegotiatedPassesGate | crates/supervisor/src/broker/agent.rs:253-343 | after a successful negotiation every granted capability passes the gate until the lease expires |
| BridgeRuns.NegotiationSupersedes | crates/supervisor/src/broker/agent.rs:247-249 | afterwards only the new activation holds live leases for the granted capabilities, and every other capability is untouched |
| BridgeRuns.ReplayWithinTheSameInstant | crates/supervisor/src/broker/agent.rs:250-252 | replaying the current activation re-issues it exactly when the clock reads the same instant; at any other reading it conflicts |
| Scheduler.TimerHost.constructor | crates/daemon/src/scheduler.rs:176-190 | starts with nothing registered |
| Scheduler.TimerHost.Register | crates/daemon/src/scheduler.rs:194-241 | an invalid request or timestamp and a pending wake id are refused; otherwise one entry is added, with the whole new state |
| SchedulerAnswers.RegistersExactlyWhen | crates/daemon/src/scheduler.rs:194-241 | a wake is accepted exactly when its id and repeat are in bounds, its times can be read and no pending wake has its id; a conflict exactly when one has |
| SchedulerAnswers.RegisteredAsAsked | crates/daemon/src/scheduler.rs:205-240 | an accepted wake waits, behind the others, until the wall clock reaches its deadline or request time; the reply names that time and the number pending |
| SchedulerRuns.PrintedTimeIsHonoured | crates/daemon/src/scheduler.rs:205-240 | a wake asked for at a printed instant is due exactly when the wall clock gets there, or at once when it is past, and the reply names that instant |
| Scheduler.TimerHost.Cancel | crates/daemon/src/scheduler.rs:244-270 | removes the pending wake of that id, if any, and counts it once |
| SchedulerAnswers.CancelRemovesExactly | crates/daemon/src/scheduler.rs:244-270 | in every reachable state cancelling takes the one wake of that id out of the list, keeps the others in order, marks its registration, and answers whether there was one and how many are left; an id of illegal length is refused |
| SchedulerAnswers.CancelledNeverFires | crates/daemon/src/scheduler.rs:244-270 | a wake that was pending when it was cancelled gains no fire in any later run |
| SchedulerAnswers.EndedStaysEnded | crates/daemon/src/scheduler.rs:244-409 | a cancelled or completed registration never changes again |
| Scheduler.TimerHost.FindDue | crates/daemon/src/scheduler.rs:361 | finds the first due entry in list order, or none when none is due |
| Scheduler.Retain | crates/daemon/src/scheduler.rs:256 | keeps exactly the entries of other wake ids, in order |
| Scheduler.TimerHost.Fire | crates/daemon/src/scheduler.rs:382-409 | the due entry leaves the list and comes back later in time or is completed |
| Scheduler.TimerHost.WorkerPass | crates/daemon/src/scheduler.rs:356-378 | the firing loop ends and does what the declared pass does |
| Scheduler.FiringReducesDue | crates/daemon/src/scheduler.rs:356-378 | firing lowers the number of entries due at the fixed now, the measure of the loop |
| SchedulerRuns.RunsKeepInv | crates/daemon/src/scheduler.rs:194-409 | over every run of registrations, cancellations and passes the list, the counters and the history of every wake agree |
| SchedulerRuns.RegistrationsAreConserved | crates/daemon/src/scheduler.rs:194-270 | registered equals pending plus cancelled plus completed; pending wake ids are distinct and none has zero fires left |
| SchedulerRuns.CompletedWakesFiredExactly | crates/daemon/src/scheduler.rs:382-409 | a wake is completed exactly when it has fired as often as it asked for, and never fires more often |
| SchedulerRuns.PeriodicFiresAreSpaced | crates/daemon/src/scheduler.rs:382-409 | the k-th further fire of a periodic wake comes at least k intervals after its first, which is not before its time |
| SchedulerRuns.PassFiresDueOnce | crates/daemon/src/scheduler.rs:356-378 | a pass fires every due wake exactly once, not before its now, touches no other wake and leaves none due |
| SchedulerAnswers.PassReportsItsLastFire | crates/daemon/src/scheduler.rs:382-409 | a pass that fires anything reports its last fire: a wake that was due, with the last reading and stamp |
| Envelope.ValidateEnvelope | crates/daemon/src/envelope.rs:215-273 | the findings point at exactly the fields that break their rule, and there are none exactly for valid frames |
| EnvelopeGrammar.ValidExactlyWhenLegal | crates/daemon/src/envelope.rs:215-517 | the frames without findings are exactly those of a grammar, kind by kind |
| Envelope.ValidateHelloPayload | crates/daemon/src/envelope.rs:301-329 | the Hello rules, field by field, both ways |
| Envelope.ValidateAgreementPayload | crates/daemon/src/envelope.rs:353-390 | the Agreement rules, field by field, both ways |
| Envelope.ValidateResultBranches | crates/daemon/src/envelope.rs:423-456 | a Result has a payload or an error and not both, with the bounds on the error |
| Envelope.ValidateFields | crates/daemon/src/envelope.rs:275-517 | required and forbidden fields of each kind, both ways |
| Envelope.ValidateHeader | crates/daemon/src/envelope.rs:218-258 | the rules every envelope obeys, both ways |
| Envelope.ValidApiVersion | crates/daemon/src/envelope.rs:596-630 | the scanner accepts exactly the texts of the pattern it names, stated as a decomposition into three groups |
| EnvelopeGrammar.ApiVersionsAreSpelt | crates/daemon/src/envelope.rs:596-630 | every text spelt as name space, slash and version is an api version |
| EnvelopeGrammar.ApiVersionsAreSpeltSo | crates/daemon/src/envelope.rs:596-630 | and every api version is spelt so |
| Envelope.ValidMethod | crates/daemon/src/envelope.rs:583-592 | accepts exactly the method pattern |
| EnvelopeGrammar.MethodsAreSpelt | crates/daemon/src/envelope.rs:583-592 | the method pattern, by its letters |
| Envelope.ValidCoordinateKind | crates/daemon/src/envelope.rs:633-640 | accepts exactly the kind pattern |
| EnvelopeGrammar.KindsAreSpelt | crates/daemon/src/envelope.rs:633-640 | the kind pattern, by its letters |
| Envelope.IsUnique | crates/daemon/src/envelope.rs:575-580 | the seen-set loop answers whether all items differ |
| Envelope.TokensAreFresh | crates/daemon/src/envelope.rs:724-733 | tokens of different counter readings differ, whatever the clock said |
| Envelope.TokensAreIds | crates/daemon/src/envelope.rs:724-733 | every token is a legal envelope id |
| EnvelopeGrammar.TokensAreSpelt | crates/daemon/src/envelope.rs:711-733 | a token is its prefix, the clock and the counter in hexadecimal, and both read back |
| Session.Connection.constructor | crates/daemon/src/server.rs:198-203 | a new connection has seen nothing and agreed on nothing |
| Session.Connection.HandleHello | crates/daemon/src/server.rs:734-920 | the new session and broker states and the reply, for every broker answer and every class |
| Session.Connection.Negotiate | crates/daemon/src/server.rs:800-874 | the catalog loop and the broker call settle what is granted |
| Session.Connection.HandleInvocation | crates/daemon/src/server.rs:922-1111 | the chain of refusals, the gate and the handler, with the error each gives |
| Session.Connection.HandleEnvelope | crates/daemon/src/server.rs:683-732 | replay, validation and dispatch by kind, with the whole new state |
| Session.Connection.HandleIncoming | crates/daemon/src/server.rs:520-560 | the same with frames that cannot be read |
| SessionRuns.HandlerRunsExactlyWhen | crates/daemon/src/server.rs:928-1021 | over every sequence of messages, and however others change the broker between them, a handler runs exactly for a valid Invocation under a new id naming the latest Agreement of an activation on this connection, for a capability it granted, and either through the gate with that agent and generation or as the Shell |
| SessionAnswers.HandlerOutcomeIsSent | crates/daemon/src/server.rs:1043-1110 | over every sequence of messages, whenever a handler runs the one reply is a Result for the capability and method of the request: what the handler returned, under the activation named and without an error, or the code, message and retry flag of its failure and no payload |
| SessionAnswers.InvocationIsRefused | crates/daemon/src/server.rs:928-1021 | every Invocation that is in order as a message and is not dispatched gets the error of the first check it fails, told from the latest Agreements and the gate |
| SessionAnswers.MalformedIsRefused | crates/daemon/src/server.rs:683-718 | an unreadable, repeated or invalid message is refused as malformed, whatever it asks for |
| SessionAnswers.HelloIsAnswered | crates/daemon/src/server.rs:754-919 | a Hello is refused exactly when an earlier Agreement of the connection has another class; otherwise the Agreement names the activation, what it grants, what not and why, and how long leases last |
| SessionAnswers.OtherRepliesComplain | crates/daemon/src/server.rs:683-1111 | every other reply is a Result with an error and no payload |
| SessionAnswers.ShellExactlyWhen | crates/daemon/src/server.rs:105-141 | who gets the class of the Shell |
| SessionAnswers.FoldedExactly | crates/local-transport/src/peer.rs:35-44 | which bytes agree where file names ignore case |
| SessionRuns.HandlerStaysWithinHello | crates/daemon/src/server.rs:734-1021 | every handler run stays within a Hello agreed on earlier on the connection: a capability it supports and the catalog lists, under its participant and class |
| SessionRuns.UnrecognisedPeerIsAlwaysGated | crates/daemon/src/server.rs:105-141 | where the policy does not recognise the peer every handler run passed the broker gate |
| SessionRuns.OneClassPerConnection | crates/daemon/src/server.rs:754-794 | all activations of one connection have one authority class |
| SessionRuns.RepliesAreNumbered | crates/daemon/src/server.rs:1188-1190 | the replies of a connection carry 0, 1, 2, … in the order they are sent |
| SessionRuns.AtMostOneReply | crates/daemon/src/server.rs:683-732 | each message gets at most one reply, tied to its id, and exactly which messages get none |
| SessionRuns.ActivationsWereAgreed | crates/daemon/src/server.rs:874-885 | the activations a session holds are exactly the latest Agreements of the connection |
| SessionReplies.AgreementSplitsSupports | crates/daemon/src/server.rs:800-874 | whatever the broker answers, granted and unavailable together are exactly the supports, and only catalogued capabilities are granted |
| SessionReplies.GrantsAreNegotiated | crates/daemon/src/server.rs:812-874 | a generation stands for a successful negotiation of all that is granted; a grant without one is the Shell after a broker conflict, and nothing else |
| SessionReplies.HelloIsBackedExactlyWhen | crates/daemon/src/server.rs:800-874 | the broker backs a Hello exactly when it asks for something the catalog lists, its activation is welcome, nobody else holds any of it under the generation number the agent would get, no lease id is taken, and the clock is not at its end; a valid Hello never makes two lease ids meet |
| Catalog.CatalogIsValid | crates/daemon/src/capabilities.rs:94-121 | every coordinate of the catalog obeys the frame rules |
| Owners.SameOwnerExactlyWhen | crates/daemon/src/server.rs:749-752 | two participants share a broker owner exactly when they have the same component and facet or differ only in which hyphen is the joint |
| Owners.HyphenFreeFacetsHaveOneOwner | crates/daemon/src/server.rs:749-752 | where neither facet has a hyphen an owner stands for one component and facet |
| Owners.ShellOwnerIsShared | crates/daemon/src/server.rs:749-752 | a participant of the ordinary class with the owner of the Shell |
| SessionReplies.AgreementsAreValid | crates/daemon/src/server.rs:888-919 | every Agreement passes the frame validation exactly up to the year 9999, splits the supports and names a held activation |
| SessionReplies.InvocationRepliesAreValid | crates/daemon/src/server.rs:1043-1110 | so does every reply to a valid Invocation |
| SessionReplies.ErrorReplyIsValidExactlyWhen | crates/daemon/src/server.rs:1177-1208 | an error reply is a valid frame exactly when it names a well-formed capability and method and the id is usable; the refusal of a class switch is not |
| Daemon.ReleaseConnection | crates/daemon/src/server.rs:580-584 | the release loop revokes every activation of the connection, in any order |
| Daemon.RunsKeepInv | crates/daemon/src/server.rs:476-585 | in every interleaving of connections each broker-backed activation of a session is registered with the broker under its agent and generation |
| Daemon.EndingRevokesExactlyAtEndOfStream | crates/daemon/src/server.rs:542-584 | ending a connection revokes its activations exactly when its frames ended, and not when a reply could not be sent |
| Daemon.FailedSendLeavesAuthority | crates/daemon/src/server.rs:553-560 | after a failed send what the Hello negotiated still passes the gate until the lease runs out |
| DaemonRuns.AuthorityOutlivesItsConnection | crates/daemon/src/server.rs:553-560 | a run of three events, under every configuration, in which that happens |
| Daemon.DisconnectedStaysOut | crates/daemon/src/server.rs:573-584 | after a connection ends with its frames no request under any of its agents and generations passes the gate again, whatever all others do |
| Daemon.EndingLeavesOthersAlone | crates/daemon/src/server.rs:573-584 | the end of one connection changes no answer of the gate for another, given distinct token readings |
| Daemon.HelloTakesOver | crates/daemon/src/server.rs:800-874 | a Hello that the broker backs takes the granted capabilities from every other agent and generation, whatever connection they are on, and changes no other answer of the gate |
| Daemon.BrokerIsARun | crates/daemon/src/server.rs:476-585 | the broker of a running daemon has come about by negotiations and revocations alone, without a direct lease |
| Daemon.IdsOfConnectionsDiffer | crates/daemon/src/envelope.rs:720-733 | two connections never hold the same activation id, given distinct token readings |
| Transport.CredentialDesk.Issue | crates/local-transport/src/server.rs:220-238 | the sweep, in any order, drops exactly the used and expired records before the new one is added |
| Transport.CredentialDesk.Authenticate | crates/local-transport/src/server.rs:535-554 | format, lookup, expiry and single use in that order, with the record each leaves |
| Transport.IsValidFormat | crates/local-transport/src/credential.rs:74-79 | accepts exactly the prefix and 32 hexadecimal digits |
| Transport.HexEncode | crates/local-transport/src/credential.rs:96-102 | the loop writes two digits a byte |
| Transport.TokensAreWellFormed | crates/local-transport/src/credential.rs:62-71 | sixteen bytes give a well-formed token and different bytes a different one |
| TransportAnswers.FormatIsOfTokens | crates/local-transport/src/credential.rs:62-79 | a text has the token format exactly when it is, but for the case of its digits, the token of some sixteen bytes |
| TransportRuns.LimiterCountsSlots | crates/local-transport/src/server.rs:117-137 | in every interleaving of accept loops and workers, with stale loads and spurious failures, the limiter is the number of slots held, at most the maximum, and its subtraction never wraps |
| TransportAnswers.SlotIsTakenExactlyWhen | crates/local-transport/src/server.rs:117-137 | a swap takes a slot exactly when it has seen the number held and that is below the maximum, and gives up exactly when it has seen the maximum or more |
| TransportRuns.ConnectionsAreAccounted | crates/local-transport/src/server.rs:376-515 | at every moment accepted equals the six outcome counters plus the connections not yet counted |
| TransportAnswers.EndingsTell | crates/local-transport/src/server.rs:376-515 | in every interleaving a connection that has had a slot never ends as refused for lack of one, an admitted one never under a bad credential, a refused one only as refused, and an ending never changes |
| TransportRuns.QuietServerBalances | crates/local-transport/src/server.rs:376-515 | when no connection is in progress accepted equals the six outcome counters, authenticated equals credentials consumed, and every slot is free |
| TransportRuns.FreeSlotsBalanceExactlyWhen | crates/local-transport/src/server.rs:495-515 | at an instant when all slots are free and nobody waits for one the counters balance exactly when no connection has released before it was counted |
| TransportRuns.SlotFreedBeforeCounted | crates/local-transport/src/server.rs:495-501 | a run to an instant where they do not: the success reply cannot be written |
| TransportRuns.FreeSlotsReaderBalancesExactlyWhen | crates/local-transport/src/server.rs:241-245 | a reader that copies the counters and later finds every slot free has copied balanced counters exactly when every connection accepted by the copy is past its slot and counted at the load and none was counted in between |
| TransportRuns.ReaderMissesAnEnding | crates/local-transport/src/server.rs:241-245 | a run in which nobody waits and no slot is given back early, and the reader is wrong: a connection ends between its two readings |
| TransportRuns.TokensAreAcceptedOnce | crates/local-transport/src/server.rs:535-554 | each token is accepted at most once, only if issued, and only before it expires, for any clock readings |
| TransportAnswers.TokenIsAcceptedExactlyWhen | crates/local-transport/src/server.rs:220-238 | over every run, on the histories and the steps alone: a token is accepted exactly when it is well formed, issued, not accepted yet and not expired, and no issue since and no presentation of it has read the clock at or past its expiry |
| TransportAnswers.TokenAnswers | crates/local-transport/src/server.rs:535-554 | which error an issued token meets otherwise, each exactly when |
| TransportAnswers.UnissuedIsRefused | crates/local-transport/src/server.rs:535-554 | a token never issued is refused as malformed or invalid |
| TransportAnswers.RecordIsKeptExactlyWhen | crates/local-transport/src/server.rs:220-238 | the record of a token is there exactly as long as no sweep or late presentation has dropped it |
| TransportAnswers.PresentingDecides | crates/local-transport/src/server.rs:535-554 | a presentation admits its connection and is recorded exactly when the token is good |
| TransportRuns.AcceptedTokenIsSpent | crates/local-transport/src/server.rs:224-233 | an accepted token is refused ever after, also when a sweep has dropped its record |
| TransportRuns.ConsumedNeverExceedsIssued | crates/local-transport/src/server.rs:236-237 | credentials consumed never exceed credentials issued once no issue call is between its two locks |
| Framing.FillBuffer | crates/local-transport/src/framing.rs:102-113 | the filling loop reads what the schedule hands over, skips interruptions, and stops at the end or at an error |
| Framing.ReadFrameFrom | crates/local-transport/src/framing.rs:70-97 | one frame, the clean end, or the error, and what it leaves unread |
| Framing.ReadAll | crates/local-transport/src/server.rs:582-615 | reading on until something other than a frame, a timeout being read again |
| Framing.ReadFrameIsExact | crates/local-transport/src/framing.rs:70-113 | whatever is read without an I/O error is what the bytes alone say, however they arrived |
| Framing.FrameReadsBackExactlyWhen | crates/local-transport/src/framing.rs:44-60 | an encoded payload reads back, whatever follows, exactly when it is within the limit and below 2^32 bytes |
| Framing.CheckedFrameReadsBack | crates/local-transport/src/framing.rs:52-60 | what the checked encoder lets through reads back, and what it refuses the reader refuses with the same error |
| FramingTimeouts.FramesReadBackExactlyWhen | crates/local-transport/src/framing.rs:70-113 | the concatenated frames of any list read back as that list and then a clean end, for any short reads, interruptions and timeouts, exactly when no timeout falls inside a frame, a condition on the schedule and the frame sizes alone |
| FramingTimeouts.TimeoutsBetweenFramesLoseNothing | crates/local-transport/src/framing.rs:102-113 | that condition holds exactly when no failed read drops bytes, also on a stream cut anywhere |
| Framing.TimeoutInsideFrameLosesBytes | crates/local-transport/src/framing.rs:109 | a timeout inside a frame loses the bytes already read: two frames read as one and a truncated one |
| FramingTimeouts.NoTimeoutIsBetweenFrames | crates/local-transport/src/framing.rs:102-113 | a schedule without timeouts meets the condition |
| FramingTimeouts.CutStreamReadsBack | crates/local-transport/src/framing.rs:75-95 | a stream cut anywhere reads as the whole frames before the cut and then as a clean end or as truncated, never as a wrong payload |
| FramingTimeouts.CutCanHideALoss | crates/local-transport/src/framing.rs:109 | inside a cut frame a lost byte can go unnoticed, so there the condition is not needed |
| WebSocket.EncodeFrame | crates/adapter-dsh/src/ws.rs:151-183 | the three length forms and the masking in place |
| WebSocket.DecodeFrame | crates/adapter-dsh/src/ws.rs:39-126 | every check in its order and the unmasking in place |
| WebSocketAnswers.DecodesExactlyWhen | crates/adapter-dsh/src/ws.rs:39-126 | decoding gives a frame exactly when the bytes begin with it: the final bit and the code and nothing else in the first byte, the announced length within the cap, the control-frame rules, and every payload byte unmasked |
| WebSocketAnswers.RefusedExactlyWhen | crates/adapter-dsh/src/ws.rs:39-107 | each error of the head, the length, the cap, the mask and the payload, exactly when |
| WebSocket.MaskInPlace | crates/adapter-dsh/src/ws.rs:108-114 | masks the bytes from a position on and no others |
| WebSocket.MaskingTwice | crates/adapter-dsh/src/ws.rs:108-114 | masking twice with one key is the identity |
| WebSocket.FrameRoundTrip | crates/adapter-dsh/src/ws.rs:151-183 | decoding an encoded frame with any trailing bytes and any key gives the opcode and payload, or the cap error, or the control-frame error, by length and opcode alone |
| WebSocket.FrameReadsBackExactlyWhen | crates/adapter-dsh/src/ws.rs:39-126 | so it reads back exactly within the cap and, for control frames, up to 125 bytes |
| WebSocket.PrefixIsRejected | crates/adapter-dsh/src/ws.rs:39-107 | every strict prefix of an encoded frame is rejected |
| WebSocket.TextFramesReadBack | crates/adapter-dsh/src/ws.rs:134-141 | server and client text frames read back exactly up to the cap |
| WebSocket.CloseFrameReadsBackExactlyWhen | crates/adapter-dsh/src/ws.rs:144-149 | a close frame reads back with its status code exactly when code and reason take at most 125 bytes |
| WebSocket.AcceptedIsBounded | crates/adapter-dsh/src/ws.rs:90-120 | no accepted payload exceeds the cap and no accepted control frame is fragmented or long |
| WebSocket.UnfinishedReadsBack | crates/adapter-dsh/src/ws.rs:39-126 | clearing the final bit of any accepted data frame gives the same frame unfinished, of a control frame an error, and changes no other error |
| Chunked.DecodeChunked | crates/adapter-dsh/src/http.rs:145-171 | the decoding loop computes the declared decoding and never accepts more than the cap |
| Chunked.FindCrLf | crates/adapter-dsh/src/http.rs:187-191 | finds the first line end, or none when there is none |
| Chunked.EncodingDecodes | crates/adapter-dsh/src/http.rs:145-171 | every sequence of chunks with size lines that give their sizes decodes to the joined data within the cap and is refused above it, whatever the trailers and the two bytes behind each chunk |
| Chunked.DecodedIsAnEncoding | crates/adapter-dsh/src/http.rs:145-171 | and every input that decodes is such a sequence |
| Chunked.SizeLineReadsExactlyWhen | crates/adapter-dsh/src/http.rs:151-156 | hexadecimal digits and an extension give the size exactly when the extension is well-formed UTF-8 and the size fits 64 bits |
| SizeLines.SizeLineGives | crates/adapter-dsh/src/http.rs:151-156 | white space, perhaps a plus, hexadecimal digits of 64 bits, white space and perhaps a semicolon with any text behind give the number, for every choice of them |
| SizeLines.GivesSizeLine | crates/adapter-dsh/src/http.rs:151-156 | and every line that gives a number is of that form |
| SizeLines.Utf8IsEncoded | crates/adapter-dsh/src/http.rs:151-152 | the check for UTF-8 accepts exactly the encodings of sequences of Unicode scalar values |
| SizeLines.NotTextExactlyWhen | crates/adapter-dsh/src/http.rs:151-156 | a line is refused as no text exactly when it encodes no characters, and otherwise only for its number |
| SizeLines.HexDigitsAreSpelt | crates/adapter-dsh/src/http.rs:154-156 | the digits of a size and their values |
| Chunked.BadExtensionIsRefused | crates/adapter-dsh/src/http.rs:151-156 | a size line with the byte 255 in its extension is refused, whatever follows |
| Chunked.BodyReadsBack | crates/adapter-dsh/src/http.rs:145-171 | for every split of a body into non-empty chunks with extensions, and every trailer, decoding gives the body back within the cap |
| Negotiation.NegotiationSession.Begin | crates/adapter-dsh-std/src/negotiate.rs:439-451 | a fresh session carries nothing over |
| Negotiation.NegotiationSession.ReceiveHello | crates/adapter-dsh-std/src/negotiate.rs:462-505 | phase, replay and frame checks in order; the first Hello is kept |
| Negotiation.NegotiationSession.IssueAgreement | crates/adapter-dsh-std/src/negotiate.rs:511-596 | every check in order, the record and the history entries |
| Negotiation.AllUniqueUnavailable | crates/adapter-dsh-std/src/negotiate.rs:409-412 | whether the coordinates of the unavailable list all differ |
| Negotiation.NegotiationSession.Activate | crates/adapter-dsh-std/src/negotiate.rs:599-635 | agreed becomes active with a copy of the agreement; active answers the record |
| Negotiation.NegotiationSession.Reject | crates/adapter-dsh-std/src/negotiate.rs:638-671 | proposed or agreed becomes rejected; rejected answers the record; active conflicts |
| Negotiation.NegotiationSession.UnsatisfiedRequirements | crates/adapter-dsh-std/src/negotiate.rs:674-689 | the required coordinates not granted, in order |
| Negotiation.NothingMissingExactlyWhen | crates/adapter-dsh-std/src/negotiate.rs:674-689 | none is missing exactly when every required coordinate is granted |
| Negotiation.GrantedStaysWithinSupports | crates/adapter-dsh-std/src/negotiate.rs:462-671 | over every sequence of calls granted stays within the supports and apart from unavailable, and the activation copies the agreement |
| Negotiation.HistoryIsATimeline | crates/adapter-dsh-std/src/negotiate.rs:462-671 | over every sequence of calls the history is an optional Hello, then an optional Agreement behind a degrade notice exactly when something is unavailable, then an optional activation or rejection, with the ids the session holds |
| Negotiation.FailedCallsChangeNothing | crates/adapter-dsh-std/src/negotiate.rs:462-671 | a failed call changes nothing and no call rewrites the history |
| Negotiation.EndedSessionsAreFinal | crates/adapter-dsh-std/src/negotiate.rs:462-671 | once active or rejected no later call changes anything |
| NegotiationAnswers.HelloIsTakenExactlyWhen | crates/adapter-dsh-std/src/negotiate.rs:462-505 | over every sequence of calls, which Hello is taken, answered again or refused, told from the history |
| NegotiationAnswers.AgreementIsIssuedExactlyWhen | crates/adapter-dsh-std/src/negotiate.rs:511-596 | an Agreement is issued exactly when the Hello is all that has happened and the terms answer it, and what it carries |
| NegotiationAnswers.ActivatesExactlyWhen | crates/adapter-dsh-std/src/negotiate.rs:599-635 | activation succeeds exactly after an Agreement and without a rejection, with the agreed terms; again with the same record |
| NegotiationAnswers.RejectsExactlyWhen | crates/adapter-dsh-std/src/negotiate.rs:638-671 | rejection succeeds exactly without an activation, and the first one counts |
| NegotiationAnswers.HistoryTellsPhase | crates/adapter-dsh-std/src/negotiate.rs:462-671 | the phase is what the history says |
| Usage.UsageAggregator.Ingest | crates/adapter-dsh/src/usage.rs:101-128 | one sample goes to its session, and a new session to the end of the order list |
| Usage.UsageAggregator.ComputeTotals | crates/adapter-dsh/src/usage.rs:172-186 | for every iteration order, and with saturation at both levels, the totals are the true sums of all samples capped once |
| Usage.UsageAggregator.Snapshot | crates/adapter-dsh/src/usage.rs:141-169 | one record a session, in the order of the first samples of the sessions |
| Usage.AggregationIsFaithful | crates/adapter-dsh/src/usage.rs:101-128 | after any sequence of values each session is listed once and holds its true sums capped and its first and last times, and every value is counted |
| Usage.PeriodsAreOrdered | crates/adapter-dsh/src/usage.rs:141-169 | the period of a record runs from the earliest to the latest time among the samples of the session, and is the moment of the snapshot when none has a time |
| Usage.RecordsCarryTrueSums | crates/adapter-dsh/src/usage.rs:141-169 | a record carries the true sums of the samples of its session, each capped, and no cache sum of zero |
| Usage.SampleIsFiledUnder | crates/adapter-dsh/src/usage.rs:101-128 | a sample is filed under its own session id, else under the session it came with, else under <unknown>, and changes no other session |

## Left out

- Sockets, named pipes, kernel identity probes, files and threads themselves: operating system calls.
- JSON text: decoded values are datatypes, and a handler's success is an object by construction.
- Capability handlers, the event router, the terminal, browser and runtime hosts: plumbing around the session.
- Finding a usage object in a flow value, and the event allowlist: table lookups.
- HTTP heads and the plain body branch: per-branch checks.
- Deadlines of the transport worker: when a wait gives up is an input of the step machine.
- Condition-variable waits of the timer worker: a pass is given its clock readings.
- Machine width of the counters: `u64` counters and generations are unbounded, and so is the sum of a chunk size and 2.
- Broker.CapabilityBroker.GrantFromNegotiation: one clock reading serves a whole negotiation, where the code reads the clock again for each revocation record and each expiry check.
- Broker.CapabilityBroker.RevokeAgentGrants: the number of leases it returns for observability is not modelled.
- Transport.CredentialDesk.Issue: one call here; the two locks it takes one after the other are separate steps in `Transport.Apply`.
- Envelope.ValidateEnvelope: the set of paths is modelled, not the order and the wording of the findings.
- Envelope.IsUnique: items are compared as values, where the code compares their serialised text.
- TransportRuns.FreeSlotsReaderBalancesExactlyWhen: the relaxed load of the limiter is taken at a moment not before the copy of the counters.
- FramingTimeouts.CutStreamReadsBack: one way only; `FramingTimeouts.CutCanHideALoss` shows a cut frame in which the converse fails.
- Framing.ReadAll: the write queue and the idle deadline of the worker loop are not part of it.
- Scheduler.TimerHost.WorkerPass: no order among the fires of one pass beyond the list order is claimed.
