# Ket: a verified model

Ket is a personal VPN: a client that enrolls with an invite, ranks the transports a server offers and keeps one tunnel
up, and a server that admits sessions under grants. This project models the parts of both with the most state and the
most arithmetic, and proves what they are for.

- **The client** (`Client`, `ClientTrace`). The connection state machine as a class whose adapters, tunnels, control
  plane, clock and cancellation answer arbitrarily. Every operation appends to a trace what it did to the outside.
  Each operation's contract says what it leaves of the client as a function of what it found and what it was answered.
  `Client.Run` states that the trace of every run obeys the rules of `ClientTrace`, and `Client.HeedsUnlessMisled`
  exactly when it heeds requests; the lemmas there draw the consequences: at most one tunnel, nothing without a
  request, no address that was not probed.
- **Invites** (`Cbor`, `Locators`, `Invite`, `SignedInvites`). The canonical encoding and its decoder, which is proved
  to be the exact inverse: it accepts a byte string if and only if it is the encoding of something valid.
- **Choosing transports** (`Identifiers`, `History`, `Transports`, `Selector`). The bounded history against the
  unbounded one, and the ranking as the best transports by the records, the clock and the settings.
- **Allowances** (`Calendar`, `Allowance`). The calendar closed forms against a calendar stepped day by day, periods
  that tile time, and one stored total that reads as the bytes of the period.
- **The server** (`GrantAdmin`, `ActivityLog`, `DataPlane`, `XrayStats`). Editing a grant and ending its sessions, the
  bounded activity log, provisioning several engines, and reading traffic counters.
- **Scanning invites** (`SquareFilter`, `Downscale`) and **diagnosing the bridge** (`BridgeDiagnostic`).

`Arithmetic`, `Wrappers`, `Sets`, `Sequences`, `Sessions` and `AccessCodes` hold what several modules share. Values
that come from outside are parameters or arbitrary choices. Integers are unbounded, with 16-, 32- and 64-bit limits
and saturation written out; `usize` has 64 bits.

## What the proofs found

- Weekly periods do not tile before Monday 1970-01-05 (`Allowance.WeeksTileFromFirstMonday`), and the end of the last
  period in 64 bits does not fit into 64 bits (`Allowance.EndFitsIffNotLast`).
- The comparison with the re-encoding in `decode_payload` never refuses anything: reading is already exact
  (`Invite.DecodePayload`).
- The length prefix of the signed bytes separates the fields only for application IDs of at most 65535 bytes
  (`SignedInvites.LongIdsShift`); real IDs are far shorter.
- A connect call can probe without a request in force, and with any protocol, if a tunnel fails to stop with a network
  error while a due renewal ends the session: `renew_before_connect_locked` takes the error for an unreachable control
  plane (`Client.MisledRun`; `Client.HeedsUnlessMisled` has the exact condition). Both kinds of tunnel in the
  repository report transport errors, so it does not happen with them (`Client.RunWithTransportErrors`).
- In maintenance, too, such a tunnel makes the end of a session count as an unreachable control plane
  (`Client.KetClient.MaintainLease`).
- Traffic of another period between two adds of one period makes the grant's total forget the first of them
  (`Allowance.ForgottenBytes`, and `Allowance.UsedIsPeriodTotal` for the exact condition); a clock that never goes
  back over the start of a period rules it out.
- A record that was dropped from the history and comes back is wrong, but never kept (`History.NotedKeepsTop`).
- A failed provision takes a session from an engine that already served it (`DataPlane.LosesServedSession`;
  `DataPlane.LawfulEnginesRestore` has the exact condition).

## Model

| member | source | states |
|---|---|---|
| Client.Run | crates/ket-client-core/src/client.rs:161-620 | after any sequence of operations, with any answers from the adapters, the tunnels, the control plane and the clock: the trace obeys the rules of ownership and addresses, the one tunnel that runs is the one the client holds, and the phase shown is the case; the operations were performed in order, each with the effect its contract states, from a new client to the one returned |
| Client.Perform | crates/ket-client-core/src/client.rs:161-620 | every operation keeps that invariant, and what it leaves - session, renewal, tunnel, request, counters, phase, history, remembered addresses and trace - is decided by what it found and what the outside answered; it makes a run that heeded requests stop heeding them if and only if it is a connect call that is misled |
| Client.HeedsUnlessMisled | crates/ket-client-core/src/client.rs:161-620 | every probe and dial of a run was requested if and only if none of its connect calls was misled; without a tunnel that fails to stop with a network error none is |
| Client.RunWithTransportErrors | crates/ket-client-core/src/client.rs:161-620 | with tunnels that never report a failed stop as a network error, as both kinds in the repository, every run tries only what was requested |
| Client.MisledRun | crates/ket-client-core/src/client.rs:252-275 | a concrete run, from a new client, that probes without a request in force: the renewal is refused, the tunnel fails to stop with a network error, and connecting goes on |
| ClientTrace.AtMostOneTunnel | crates/ket-client-core/src/client.rs:1023-1037 | at every moment of a run at most one tunnel runs, and it is the last one started: none is leaked or overwritten |
| ClientTrace.StoppedBetween | crates/ket-client-core/src/client.rs:622-636 | between the start of a tunnel and the start of the next one, or the end of the session, that tunnel was successfully stopped |
| ClientTrace.WasStopped | crates/ket-client-core/src/client.rs:1023-1037 | a tunnel that was started and does not run any more was successfully stopped after its start |
| ClientTrace.PrefixObeys | crates/ket-client-core/src/client.rs:622-785 | every prefix of a run obeys the rules too, so the statements about an event hold at the moment it happened |
| ClientTrace.PrefixHeeds | crates/ket-client-core/src/client.rs:622-785 | every prefix of a run that heeds requests heeds them |
| ClientTrace.ExtendsKeepsEvents | crates/ket-client-core/src/client.rs:161-620 | a run that goes on keeps the events it had, in order |
| ClientTrace.RequestOrigin | crates/ket-client-core/src/client.rs:252-275 | a request in force was made by a connect call that nothing has ended since |
| ClientTrace.OnlyOnRequest | crates/ket-client-core/src/client.rs:622-785 | in a run that heeds requests nothing is probed or dialled unless a connect call asked for it that no stop, disconnect, cancellation or failed connect has ended since, and only with the protocol that call named |
| ClientTrace.AnswerOrigin | crates/ket-client-core/src/client.rs:1039-1065 | a remembered address list came from a successful probe within the current enrollment |
| ClientTrace.DialledAddressesWereProbed | crates/ket-client-core/src/client.rs:702-740 | a tunnel is dialled only with the addresses a successful probe of the same endpoint, port, protocol and TLS name gave earlier in the same enrollment |
| Client.RenewalIsInTime | crates/ket-client-core/src/client.rs:1149-1151 | a lease is renewed half way to its end, rounded towards now: never before now and never after it expires; an expired one is due at once |
| Client.NoteFallback | crates/ket-client-core/src/client.rs:1015-1021 | the list of fallbacks is the newest eight, in order |
| Client.KetClient.StopAndRetainOnFailure | crates/ket-client-core/src/client.rs:1023-1037 | a tunnel taken out of the state is either stopped or owned by the state again, whatever error it fails with, and that error is the answer |
| Client.KetClient.RecordLostTunnel | crates/ket-client-core/src/client.rs:983-1001 | the history notes the loss; it is shown as a fallback exactly when its transport is the one shown as active, and nothing else shown changes |
| Client.KetClient.CachedProbeFor | crates/ket-client-core/src/client.rs:1049-1065 | remembered addresses are used exactly after a failed name lookup for a transport of the same identity, and are those of a probe in this enrollment |
| Client.KetClient.Started | crates/ket-client-core/src/client.rs:734-750 | a started tunnel is owned from its start, before it is in the state |
| Client.KetClient.AddressesFor | crates/ket-client-core/src/client.rs:702-726 | exactly one probe is made; the addresses are its answer, or exactly the remembered ones of the same identity when only the name lookup failed |
| Client.KetClient.TryTransport | crates/ket-client-core/src/client.rs:684-781 | one probe, of this candidate. Without an answer to it the attempt is cancelled; a refused probe fails it with that error, unless only the name lookup failed and addresses of the same identity are remembered; then no answer to the dial is a cancellation, a refused dial fails it with that error, a tunnel in time is up, and one that is late is cancelled or, if it would not stop, stuck with that error. A tunnel in the state exactly when up or stuck; success and failure are noted in the history, a cancellation is not; only a tunnel that is up changes the remembered addresses |
| Client.KetClient.Dial | crates/ket-client-core/src/client.rs:734-780 | one dial with the given addresses, by what it answers: cancelled, failed, up, or cancelled late with a tunnel that stops or does not; history and remembered addresses change exactly with it; ownership is kept throughout |
| Client.KetClient.TryCandidate | crates/ket-client-core/src/client.rs:684-785 | the same with the end of the connection: a cancellation ends the request and shows the enrolled phase without a tunnel, a stuck tunnel is an error, and a failure leaves the client ready for the next candidate |
| Client.KetClient.FinishCancelledConnection | crates/ket-client-core/src/client.rs:792-803 | a cancelled connection ends the request, which the run notes, and shows the enrolled phase, with no tunnel |
| Client.KetClient.Candidates | crates/ket-client-core/src/client.rs:637-667 | the candidates are the ranking of the session’s transports under the current settings, the history memory loads or else the one at hand, and the current time |
| Client.KetClient.ConnectLocked | crates/ket-client-core/src/client.rs:622-785 | a tunnel that runs is in the way and changes nothing; one that is down is stopped first, and kept with its error if it would not stop; then the candidates are tried in the order of their ranking as TryInOrder says, and without any the error tells a missing protocol from no compatible transport; something is probed exactly when no tunnel is in the way and a transport matches |
| Client.KetClient.TryInOrder | crates/ket-client-core/src/client.rs:683-785 | the candidates tried are a prefix, up to and including the first that does not fail: all before it failed; if it is up the answer is a success, connected over it; if it is cancelled a success in the enrolled phase, without tunnel and request; if it is stuck its error; and if all fail the error of the last; each attempt is noted in the history in turn |
| Client.KetClient.ConnectRanked | crates/ket-client-core/src/client.rs:637-785 | the same from the ranking on, with no tunnel in the way |
| Client.TriedAllWell | crates/ket-client-core/src/client.rs:683-785 | what that means for a caller: a first candidate that works is enough for a tunnel, a failure keeps the request, and a failure without a tunnel has tried every candidate |
| Client.KetClient.RefreshLocked | crates/ket-client-core/src/client.rs:852-935 | each answer determines the result and everything the client is after it; only an answer that ends the session - 401, 404 or a required update - touches the tunnel: the request is given up, the tunnel stopped and the session ended, in this order, and session and tunnel survive together exactly when the tunnel would not stop |
| Client.KetClient.EndSession | crates/ket-client-core/src/client.rs:884-925 | the end of a session, with the exact events, error, session and tunnel for a tunnel that stops and one that does not |
| Client.KetClient.RenewBeforeConnect | crates/ket-client-core/src/client.rs:827-850 | before the deadline, nothing; after it a refresh, whose failure to reach the control plane counts as success exactly while the lease runs, and any other error is the answer; the request and the run are kept if connecting goes on, except exactly when the renewal loses the request |
| Client.KetClient.ReconnectLocked | crates/ket-client-core/src/client.rs:805-825 | an attempt, and after a failed one a refresh, which renews exactly when that is due: what the client then is, is what the refresh makes of what the attempt left; the refresh’s error is the answer exactly when it ends the session, and the attempt’s error otherwise; it ends connected, cancelled or in the error phase, and with a tunnel if the first of its candidates works |
| Client.KetClient.AskAfterFailure | crates/ket-client-core/src/client.rs:808-823 | the refresh after a failed attempt: its effect, and whose error is the answer |
| Client.KetClient.Enroll | crates/ket-client-core/src/client.rs:161-229 | a malformed code or an existing session changes nothing, so such a code never reaches the server; otherwise exactly one session is asked for; it is kept if and only if the manifest can be trusted, has not expired, and has one to 32 transports with different identifiers; a refused manifest with a readable token is given back |
| Client.KetClient.ConnectWithProtocol | crates/ket-client-core/src/client.rs:252-275 | without a session nothing changes; otherwise the call is noted, the lease is renewed if that is due, and the connection attempted as ConnectLocked says; a renewal that fails is the answer; a call that fails gives the request up; what it tries is requested if and only if the call is not misled |
| Client.KetClient.Answer | crates/ket-client-core/src/client.rs:266-274 | the same for the part behind the call; without a renewal, a first candidate that works is enough for a tunnel |
| Client.KetClient.Refresh | crates/ket-client-core/src/client.rs:277-285 | the same for a refresh or renewal the user asks for |
| Client.KetClient.MaintainOnce | crates/ket-client-core/src/client.rs:287-401 | by cases on what the tunnel, the control plane and the route answer, all of them covered: a tunnel that is down is stopped before anything else, and kept only if it would not stop; if a request is in force its loss is noted and a reconnect follows; a request without a tunnel is answered by a reconnect; in every other case the lease is kept; without a request nothing is started |
| Client.KetClient.MaintainLease | crates/ket-client-core/src/client.rs:334-398 | an answer counts as for any refresh, with a renewal exactly when it is due; an unreachable control plane lets the route be looked at, and so does, in effect, a session’s end whose tunnel fails to stop with a network error |
| Client.KetClient.AfterControlFailure | crates/ket-client-core/src/client.rs:344-398 | the tunnel is left alone exactly while no connection is wanted, at the first failure in a row, without a network, or with a healthy route; otherwise it is stopped first and replaced, or kept if it would not stop |
| Client.KetClient.Replace | crates/ket-client-core/src/client.rs:302-314 | a tunnel is stopped, and kept with its error if it would not stop; then its loss is noted in the history, unless the network is to blame, and a reconnect follows |
| Client.KetClient.Disconnect | crates/ket-client-core/src/client.rs:403-492 | the run notes the call, then the stop of the tunnel, then the release, then, on success, the end of the session, and nothing else; it succeeds exactly when the tunnel stops and the server takes the session back or answers 401 or 404; failure keeps the session, and the tunnel if that is what would not stop; all that is left is stated |
| Client.KetClient.StopTunnel | crates/ket-client-core/src/client.rs:499-547 | the run notes the call and one stop of the tunnel if there is one, and nothing else; the lease stays; it fails exactly when the tunnel would not stop, which is then kept; all that is left is stated |
| Client.KetClient.VerifyAfterNetworkChange | crates/ket-client-core/src/client.rs:597-620 | without a wanted tunnel, without a network or with a healthy route nothing changes; otherwise the tunnel is stopped first and replaced, without a note of its loss, or kept if it would not stop |
| Client.KetClient.NetworkMoved | crates/ket-client-core/src/client.rs:582-592 | true exactly for a network other than the last known one, seen by a tunnel that is online; it then is the last known one, so a network is reported once |
| Cbor.HeadUnique | crates/invite-capsule/src/cbor.rs:94-106 | one place of an input holds the shortest head of at most one major type and value |
| Cbor.HeadFormat | crates/invite-capsule/src/cbor.rs:147-165 | the bytes of a head, one by one: the major type and a small value in the first, or the value in one, two, four or eight bytes behind it, the most significant first, and never more than it needs |
| Cbor.StringUnique | crates/invite-capsule/src/cbor.rs:60-83 | one place holds at most one string |
| Cbor.ItemUnique | crates/invite-capsule/src/cbor.rs:122-165 | the encodings are a prefix code: one place holds at most one item, of whatever kind |
| Cbor.ItemFormat | crates/invite-capsule/src/cbor.rs:122-165 | the major types of the items, and the byte for a missing number |
| Cbor.EncodingsDiffer | crates/invite-capsule/src/cbor.rs:122-165 | two different sequences of items, of whatever kinds and lengths, have different bytes |
| Cbor.BigEndianInverse | crates/invite-capsule/src/cbor.rs:94-106 | reading the argument bytes of a value in its shortest width gives the value back |
| Cbor.BigEndianOf | crates/invite-capsule/src/cbor.rs:94-120 | writing the number read from bytes, in as many bytes, gives those bytes |
| Cbor.AsciiIsUtf8 | crates/invite-capsule/src/cbor.rs:66-69 | ASCII bytes pass the text check |
| Cbor.ScalarsAreText | crates/invite-capsule/src/cbor.rs:66-69 | the text check accepts the UTF-8 of every sequence of Unicode scalar values |
| Cbor.TextIsScalars | crates/invite-capsule/src/cbor.rs:66-69 | and every text it accepts is the UTF-8 of such a sequence |
| Cbor.Encoder.EncodeHead | crates/invite-capsule/src/cbor.rs:147-165 | appends the one head the decoder accepts for the major type and value |
| Cbor.Encoder.Array | crates/invite-capsule/src/cbor.rs:122-124 | appends the encoding that Decoder.Array is proved to be the exact inverse of |
| Cbor.Encoder.Uint | crates/invite-capsule/src/cbor.rs:126-128 | appends the encoding that Decoder.Uint is proved to be the exact inverse of |
| Cbor.Encoder.OptionalUint | crates/invite-capsule/src/cbor.rs:130-135 | appends the encoding that Decoder.OptionalUint is proved to be the exact inverse of |
| Cbor.Encoder.Bytes | crates/invite-capsule/src/cbor.rs:137-140 | appends the encoding that Decoder.Bytes is proved to be the exact inverse of |
| Cbor.Encoder.Text | crates/invite-capsule/src/cbor.rs:142-145 | appends the encoding that Decoder.Text is proved to be the exact inverse of |
| Cbor.Decoder.Argument | crates/invite-capsule/src/cbor.rs:94-106 | accepts exactly the shortest form of a value: what it accepts re-encodes to the bytes consumed, and every shortest form is accepted |
| Cbor.Decoder.ReadHead | crates/invite-capsule/src/cbor.rs:85-106 | accepts exactly the canonical heads of the major type |
| Cbor.Decoder.Uint | crates/invite-capsule/src/cbor.rs:41-47 | accepts exactly canonical integers and consumes their encoding |
| Cbor.Decoder.OptionalUint | crates/invite-capsule/src/cbor.rs:50-56 | accepts exactly canonical integers and null |
| Cbor.Decoder.ArrayLen | crates/invite-capsule/src/cbor.rs:37-39 | accepts exactly canonical array heads |
| Cbor.Decoder.Array | crates/invite-capsule/src/cbor.rs:31-35 | succeeds if and only if the canonical head of that many items stands here |
| Cbor.Decoder.ReadString | crates/invite-capsule/src/cbor.rs:60-91 | accepts exactly canonical strings within the limit; a longer one is too large, not invalid |
| Cbor.Decoder.Bytes | crates/invite-capsule/src/cbor.rs:60-63 | accepts exactly canonical byte strings within the limit |
| Cbor.Decoder.Text | crates/invite-capsule/src/cbor.rs:66-69 | accepts exactly canonical strings within the limit that are well-formed UTF-8 |
| Locators.PublicDnsNameIsText | crates/invite-capsule/src/locator/host.rs:27-48 | a valid public name passes the text check, so every valid locator can be read back |
| Locators.PublicDnsNameMeans | crates/invite-capsule/src/locator/host.rs:13-48 | a name is public exactly when it is at most 253 bytes and at least two labels, each one to 63 small letters, digits and inner hyphens, the last with a letter, and it is none of the nine reserved names or below one |
| Locators.SplitInvertsJoin | crates/invite-capsule/src/locator/host.rs:31-31 | splitting at dots gives back the labels a name was joined from |
| Locators.JoinInvertsSplit | crates/invite-capsule/src/locator/host.rs:31-31 | and every name is its labels, joined |
| Locators.ValidSetMeaning | crates/invite-capsule/src/locator/mod.rs:271-289 | the sequential check accepts exactly the sets whose locators are all of accepted kinds, valid and pairwise different |
| Locators.ValidateSetMeans | crates/invite-capsule/src/locator/mod.rs:271-289 | a set is accepted exactly when it has one to four different locators, each of an accepted kind, with a port, and a public name, a good onion key or an I2P hash that is not zero |
| Locators.FirstBroken | crates/invite-capsule/src/locator/mod.rs:271-289 | a set is refused for its first locator that breaks a rule, with the error of that rule |
| Locators.EncodeInto | crates/invite-capsule/src/locator/mod.rs:152-179 | appends the encoding Decode inverts |
| Locators.LocatorFormat | crates/invite-capsule/src/locator/mod.rs:152-179 | a locator is an array of three: the number of its kind, its place and its port, byte by byte |
| Locators.EncodingUnique | crates/invite-capsule/src/locator/mod.rs:152-179 | one place holds at most one locator |
| Locators.DecodePort | crates/invite-capsule/src/locator/mod.rs:291-293 | accepts exactly canonical 16-bit integers |
| Locators.Exact32 | crates/invite-capsule/src/locator/mod.rs:295-300 | accepts exactly canonical byte strings of 32 bytes |
| Locators.DecodePlace | crates/invite-capsule/src/locator/mod.rs:189-206 | reads exactly the part between tag and port of a readable locator of that kind |
| Locators.DecodeTag | crates/invite-capsule/src/locator/mod.rs:183-185 | accepts exactly a canonical locator opening |
| Locators.DecodeBody | crates/invite-capsule/src/locator/mod.rs:189-207 | reads exactly a readable locator behind its tag |
| Locators.Decode | crates/invite-capsule/src/locator/mod.rs:183-210 | accepts exactly the encodings of valid locators of an accepted kind, and returns that locator |
| Invite.EncodeTarget | crates/invite-capsule/src/capsule.rs:111-115 | appends key and locators in the form ReadTarget inverts |
| Invite.EncodeAccess | crates/invite-capsule/src/capsule.rs:116-120 | appends the rest in the form ReadAccess inverts |
| Invite.CanonicalPayload | crates/invite-capsule/src/capsule.rs:104-122 | gives the canonical bytes exactly for valid capsules, and the reason otherwise |
| Invite.PayloadFormat | crates/invite-capsule/src/capsule.rs:104-122 | the payload is an array of ten, field by field: version 1, application, capability type, key, locators, access code, the two protocol versions, flags 0, and the expiry or null |
| Invite.LocatorsInOrder | crates/invite-capsule/src/capsule.rs:111-115 | the locators’ bytes follow each other in order |
| Invite.ReadHeader | crates/invite-capsule/src/capsule.rs:128-137 | succeeds exactly on this application’s header, and refuses any other application’s header as that |
| Invite.ReadVersion | crates/invite-capsule/src/capsule.rs:128-131 | succeeds exactly on the opening of this version |
| Invite.ReadApplication | crates/invite-capsule/src/capsule.rs:132-137 | tells this application from every other one |
| Invite.ReadKey | crates/invite-capsule/src/capsule.rs:138-142 | accepts exactly encodings of usable node keys |
| Invite.ReadLocators | crates/invite-capsule/src/capsule.rs:147-149 | reads exactly a sequence of acceptable locators, each where the one before it ends |
| Invite.ReadTarget | crates/invite-capsule/src/capsule.rs:138-149 | reads exactly the targets that can be valid |
| Invite.ReadAccessCode | crates/ket-invite/src/profile.rs:98-105 | accepts exactly encodings of well-formed access codes |
| AccessCodes.AccessCodeMeans | crates/ket-invite/src/profile.rs:76-83 | a code is well formed exactly when it is thirty-two characters, each an ASCII letter or digit |
| Invite.ReadProtocolVersion | crates/invite-capsule/src/capsule.rs:223-225 | accepts exactly canonical 16-bit integers |
| Invite.ReadVersions | crates/invite-capsule/src/capsule.rs:151-152 | reads exactly the two protocol versions |
| Invite.ReadLifetime | crates/invite-capsule/src/capsule.rs:153-156 | reads exactly an optional lifetime |
| Invite.ReadAccess | crates/invite-capsule/src/capsule.rs:150-156 | reads exactly the fields behind the locators |
| Invite.ReadFields | crates/invite-capsule/src/capsule.rs:126-165 | a successful read consumed exactly the canonical bytes of what it returns, for every input |
| Invite.DecodePayload | crates/invite-capsule/src/capsule.rs:126-170 | succeeds exactly on canonical payloads of valid capsules and returns that capsule; the final comparison with the re-encoding never refuses anything; another application’s payload is refused as such |
| Invite.PayloadUnique | crates/invite-capsule/src/capsule.rs:104-122 | two different capsules never share a payload, valid or not |
| Invite.ValidTarget | crates/invite-capsule/src/capsule.rs:93-102 | whatever validation accepts, the reader accepts |
| Invite.ValidateMeans | crates/invite-capsule/src/capsule.rs:93-102 | a capsule is valid exactly when its protocol range starts at one or more and is not empty, its locators are accepted and, at a given time, it has no expiry or one later than that; which error comes first |
| SignedInvites.BuildSignatureInput | crates/invite-capsule/src/signature.rs:8-16 | the signed bytes are the domain, the length-prefixed application and the payload |
| SignedInvites.SignatureInputFormat | crates/invite-capsule/src/signature.rs:8-16 | for IDs of less than 65536 bytes, the length is two bytes, the most significant first |
| SignedInvites.SignedBytesDetermineFields | crates/invite-capsule/src/signature.rs:8-16 | within one domain the signed bytes determine application and payload, for every application ID of at most 65535 bytes |
| SignedInvites.LongIdsShift | crates/invite-capsule/src/signature.rs:8-16 | from 65535 bytes on they do not: a byte can move from the payload to the ID |
| SignedInvites.Verify | crates/invite-capsule/src/signed.rs:64-73 | gives the verdict Verified: structure, then signature, then lifetime |
| SignedInvites.VerifiedMeans | crates/invite-capsule/src/signed.rs:64-73 | an invite verifies exactly when its protocol range and locators are valid, its signature is the node’s for exactly these signed bytes, and it has not expired; a wrong signature is reported before an expiry |
| SignedInvites.ExpiryComesLast | crates/invite-capsule/src/signed.rs:64-73 | an invite is refused as expired exactly when it verifies at no time given and has expired; any other defect is reported as itself |
| SignedInvites.CanonicalBinary | crates/invite-capsule/src/signed.rs:75-85 | gives the canonical bytes exactly for valid capsules within the size limit |
| SignedInvites.EnvelopeFormat | crates/invite-capsule/src/signed.rs:75-85 | the binary form is an array of two byte strings: the payload, and 64 bytes of signature |
| SignedInvites.OpenEnvelope | crates/invite-capsule/src/signed.rs:89-99 | splits exactly the canonical envelopes with a 64-byte signature |
| SignedInvites.Decode | crates/invite-capsule/src/signed.rs:88-109 | accepts exactly the canonical bytes of invites that verify now and returns that invite, which then has no expiry or a later one; an authentic encoding that does not verify is refused with the reason verification gives, and as expired if that is all; empty input and more than 1024 bytes are too large |
| SignedInvites.RoundTrip | crates/invite-capsule/src/signed.rs:75-109 | every invite that verifies and fits survives encoding and decoding |
| Calendar.CivilIsCalendar | crates/ket-core/src/allowance.rs:97-113 | the closed form is the calendar stepped day by day from 1970-01-01, on every day, and the other closed form takes it back |
| Calendar.CivilInvertsDays | crates/ket-core/src/allowance.rs:97-123 | the two closed forms are inverse on every date from 1970 on |
| Calendar.CivilRoundTrip | crates/ket-core/src/allowance.rs:97-123 | every day number gives a real date that gives the day number |
| Calendar.NextDayCountsOne | crates/ket-core/src/allowance.rs:115-123 | the next day counts one more, over month ends, leap days, centuries and eras |
| Calendar.NewYearFollows | crates/ket-core/src/allowance.rs:115-123 | years that start in March follow each other without a gap, including over the end of an era |
| Calendar.YearOfEraBounds | crates/ket-core/src/allowance.rs:97-113 | the year found for a day of an era is the one that contains it |
| Calendar.DaysOfCalendarDate | crates/ket-core/src/allowance.rs:115-123 | the date n days after 1970-01-01 has day number n |
| Calendar.CalendarDateOfDays | crates/ket-core/src/allowance.rs:115-123 | every date from 1970 on is reached by stepping, at its day number |
| Calendar.MondaysAreSevenApart | crates/ket-core/src/allowance.rs:57-57 | the days of the week, stepped from Thursday 1970-01-01, repeat every seven days |
| Allowance.PeriodsTile | crates/ket-core/src/allowance.rs:52-81 | a moment lies in its period, shares its start with exactly the moments of that period, shares the end with them, and the next period starts at the end |
| Allowance.MonthsAreCalendarMonths | crates/ket-core/src/allowance.rs:52-81 | two moments share a monthly period exactly when their dates, in the calendar stepped day by day, have the same year and month; it starts at midnight of its first day and ends at midnight of the first day of the next month |
| Allowance.DaysAndWeeks | crates/ket-core/src/allowance.rs:52-81 | a daily period is the day from midnight on; a weekly one, from 1970-01-05 on, seven days from midnight of a Monday; the one before that starts at 0 |
| Allowance.WeeksTileFromFirstMonday | crates/ket-core/src/allowance.rs:52-81 | for weeks every one of these clauses holds exactly from Monday 1970-01-05 on |
| Allowance.EndFitsIffNotLast | crates/ket-core/src/allowance.rs:67-81 | the end fits into 64 bits exactly for moments before the last period that starts in 64 bits |
| Allowance.StartShared | crates/ket-core/src/allowance.rs:52-64 | up to a moment, everything since its period start has that start, weeks of 1970 included |
| Allowance.StartIsMonotone | crates/ket-core/src/allowance.rs:52-64 | later moments are not in earlier periods |
| Allowance.MonthStart | crates/ket-core/src/allowance.rs:52-64 | the first of the month is a date and lies the right number of days back |
| Allowance.MonthEnd | crates/ket-core/src/allowance.rs:67-81 | the first of the next month lies behind the day by the length of the month, December included |
| Allowance.DaysTile | crates/ket-core/src/allowance.rs:52-81 | days of one period share its first day and the day after it |
| Allowance.NextPeriodStarts | crates/ket-core/src/allowance.rs:52-81 | the day after a period is the first of the next |
| Allowance.Meter.Add | crates/ket-server/src/allowance.rs:39-50 | the one stored total is the one of all adds so far |
| Allowance.Meter.Read | crates/ket-server/src/allowance.rs:11-20 | never reads more than the bytes added in the current period, and reads all of them exactly when no bytes of another period were added in between, or those added since fill the counter; nothing without an allowance |
| Allowance.UsedIsPeriodTotal | crates/ket-server/src/allowance.rs:11-50 | the same of the functions, for adds at any times |
| Allowance.ForgottenBytes | crates/ket-server/src/allowance.rs:39-50 | a clock that steps back over midnight and on again: concrete adds of which the first is not read any more |
| Allowance.UsedInOrder | crates/ket-server/src/allowance.rs:11-50 | for adds at times that never go back, what is read is the saturated total of the current period |
| Allowance.UsedIsRun | crates/ket-server/src/allowance.rs:11-50 | one stored total, overwritten when the period changes, is the saturated total of the latest run of adds, for any times |
| Allowance.RunIsPeriod | crates/ket-server/src/allowance.rs:39-50 | the latest uninterrupted run of adds is the whole period exactly when the period is unbroken |
| Allowance.InOrderIsUnbroken | crates/ket-server/src/allowance.rs:11-50 | times whose periods never go back leave the period unbroken, even if the clock steps back within a period |
| Allowance.UsedUpIffPeriodReached | crates/ket-server/src/allowance.rs:31-35 | a grant is refused, until the period ends, exactly when the run reaches the allowance: for an unbroken period, when its bytes do |
| History.TransportHistory.RecordSuccess | crates/ket-client-core/src/strategy.rs:48-59 | the bounded records are those of the unbounded history, for its 32 largest identifiers |
| History.TransportHistory.RecordFailure | crates/ket-client-core/src/strategy.rs:70-77 | the same, after a failure |
| History.TransportHistory.Bound | crates/ket-client-core/src/strategy.rs:61-68 | dropping smallest identifiers leaves exactly the largest 32 of all that ever occurred |
| History.NotedKeepsTop | crates/ket-client-core/src/strategy.rs:48-77 | an identifier that was dropped and comes back with a fresh record is dropped again, so a wrong record is never kept |
| History.TopExists | crates/ket-client-core/src/strategy.rs:61-68 | there always are largest identifiers to keep |
| History.Note | crates/ket-client-core/src/strategy.rs:48-77 | noting an event in any records, however many, leaves exactly the 32 largest identifiers with their records |
| History.TopAfter | crates/ket-client-core/src/strategy.rs:61-68 | how the largest identifiers change when one joins |
| History.SmallestIsNotKept | crates/ket-client-core/src/strategy.rs:61-68 | while there are too many, the smallest identifier is not one to keep |
| History.TopUnique | crates/ket-client-core/src/strategy.rs:61-68 | which identifiers are kept is determined by those that occurred |
| Identifiers.LessMeans | crates/ket-client-core/src/strategy.rs:61-68 | identifiers are ordered by their first difference, and a prefix comes first |
| History.RecordsAreSeparate | crates/ket-client-core/src/strategy.rs:48-77 | without the bound a transport’s record depends on its own events only |
| History.RecordMeaning | crates/ket-client-core/src/strategy.rs:48-77 | a record holds the number of failures since the last success, the last latency, whether there was one, and the end of the backoff: 1, 2, 4 and then 8 times the base, at most 120 seconds, after the last failure |
| History.CooldownIsBounded | crates/ket-client-core/src/strategy.rs:70-77 | a kept record is that of the transport’s own events, and its cooldown ends at most 120 seconds after its last failure |
| Selector.KeyLessTransitive | crates/ket-client-core/src/strategy.rs:151-171 | the ranking order is transitive |
| Selector.KeyLessTotal | crates/ket-client-core/src/strategy.rs:151-171 | the ranking order is total and strict on keys |
| Selector.EligibleMembers | crates/ket-client-core/src/strategy.rs:134-150 | which transports are eligible, as a property of the set: exclusions apply to automatic choice unless they exclude everything |
| Selector.SortSorts | crates/ket-client-core/src/strategy.rs:151-171 | the sort is an ordered permutation |
| Selector.SortStrict | crates/ket-client-core/src/strategy.rs:151-171 | with unique identifiers the order is strict |
| Selector.StrictOrderUnique | crates/ket-client-core/src/strategy.rs:151-171 | a set of transports has one strictly sorted order |
| Selector.RankIsBest | crates/ket-client-core/src/strategy.rs:125-174 | the ranking holds advertised, supported transports of the explicit protocol, an excluded one only when automatic choice has nothing else; as many as allowed; and by the records, the clock and the preference no better one is behind a worse one or left out for it: not cooling down, then preferred, then fewer failures, then worked before, then lower priority, then lower latency or 500, then the smaller identifier |
| Selector.RankPrefers | crates/ket-client-core/src/strategy.rs:125-174 | with unique identifiers, of two transports that may be ranked the better one, by those criteria in that order, comes first, and the other is not ranked without it |
| Selector.RankIsFull | crates/ket-client-core/src/strategy.rs:173-174 | a transport that may be ranked is left out only when the ranking is full |
| Selector.BetterIsTotal | crates/ket-client-core/src/strategy.rs:151-172 | of two transports with different identifiers exactly one is better |
| Selector.MayRankIsEligible | crates/ket-client-core/src/strategy.rs:134-150 | the filters keep exactly the transports that may be ranked |
| Selector.RankIgnoresOrder | crates/ket-client-core/src/strategy.rs:125-174 | with unique identifiers the ranking does not depend on the advertised order |
| Selector.RankMembers | crates/ket-client-core/src/strategy.rs:125-174 | ranked transports are advertised, supported and of the explicit protocol; the ranking is empty exactly when there is none |
| BridgeDiagnostic.ClassifyIsPick | crates/ket-client-core/src/full_route.rs:242-343 | classification picks the diagnostic of highest priority whose words occur |
| BridgeDiagnostic.ClassifyIsFirst | crates/ket-client-core/src/full_route.rs:284-343 | which of the nine diagnostics is picked when several occur: the first of them in a fixed order |
| BridgeDiagnostic.MentionsInAnyCase | crates/ket-client-core/src/full_route.rs:285-285 | a phrase counts exactly when it is spelled in the output with each letter small or capital |
| BridgeDiagnostic.PermissionDenied | crates/ket-client-core/src/full_route.rs:284-296 | an output with “Permission denied” in any case is a permission problem, whatever else it says |
| BridgeDiagnostic.PickIsUnique | crates/ket-client-core/src/full_route.rs:242-254 | there is one such pick |
| BridgeDiagnostic.NeedlesFitTail | crates/ket-client-core/src/full_route.rs:284-343 | every searched phrase fits into the carried tail |
| BridgeDiagnostic.ContainsAcross | crates/ket-client-core/src/full_route.rs:257-282 | a phrase stands in the text with the next chunk exactly when it stood before or stands in the tail with the chunk |
| BridgeDiagnostic.MentionsAcross | crates/ket-client-core/src/full_route.rs:257-343 | the same for whole conditions, including those of several phrases |
| BridgeDiagnostic.ClassifyAcross | crates/ket-client-core/src/full_route.rs:257-343 | the better of the old pick and the pick of tail and chunk is the pick of everything read |
| BridgeDiagnostic.ClassifyDecoded | crates/ket-client-core/src/full_route.rs:270-272 | the diagnostic of the decoded text is that of the bytes |
| BridgeDiagnostic.ContainsDecoded | crates/ket-client-core/src/full_route.rs:270-271 | lossy decoding neither hides a phrase nor makes one up |
| BridgeDiagnostic.Collect | crates/ket-client-core/src/full_route.rs:257-282 | the chunked scan, decoding each piece on its own, gives the diagnostic of the whole decoded output, however the bytes were split into reads, in the middle of a character or not |
| ActivityLog.LogHoldsLatest | crates/ket-server/src/activity.rs:65-87 | after any trace a grant’s log holds exactly the last 24 distinct activities, in the order of their last occurrence, each once |
| ActivityLog.OrderMembers | crates/ket-server/src/activity.rs:65-87 | the reference order lists exactly what occurred, each once |
| ActivityLog.OrderIsByLastOccurrence | crates/ket-server/src/activity.rs:65-87 | the reference order is the order of last occurrences |
| ActivityLog.LatestStep | crates/ket-server/src/activity.rs:65-87 | moving an entry to the end of the bounded log is moving it in the whole order |
| ActivityLog.LastTimes | crates/ket-server/src/activity.rs:65-87 | an entry’s time is that of its activity’s last occurrence |
| ActivityLog.EntryMeaning | crates/ket-server/src/activity.rs:65-87 | an entry’s count is the saturating number of occurrences since its activity last entered the log, and its first time that of the first of them |
| ActivityLog.CountsAddUp | crates/ket-server/src/activity.rs:65-87 | every event is counted exactly once: in the log, with an evicted entry, or as one that met an entry whose count was full; the first two count all of them if and only if there was none of the last |
| ActivityLog.TotalOfRecorded | crates/ket-server/src/activity.rs:65-87 | a record adds exactly one to the counts, apart from what it evicts, unless it meets a full entry; then it adds nothing |
| ActivityLog.RecordIn | crates/ket-server/src/activity.rs:65-87 | the in-place edit of the queue is the step the traces are made of |
| ActivityLog.Log.Record | crates/ket-server/src/activity.rs:65-87 | each grant’s entries are those of its own trace |
| ActivityLog.Log.Recent | crates/ket-server/src/activity.rs:90-95 | the entries of the grant’s trace since it was last forgotten, newest first |
| ActivityLog.Log.Retain | crates/ket-server/src/activity.rs:98-100 | a grant that is not kept starts over with an empty trace, and no other one changes |
| GrantAdmin.PersistedState.Apply | crates/ket-server/src/grant_admin.rs:22-96 | not found exactly when there is no such grant, and then nothing changes; otherwise the grant’s name, limit, expiry, pause, protocols and allowance are those of the change where given, its count restarts with another period or on request; all its sessions end exactly when it is paused and was not, gets other protocols, or its allowance is reached by the bytes it keeps of the current period; if not, those that run and have as many older running ones as the new limit; they are named in the result, the others stay cut to its expiry, and nothing else changes; a missing slot stops the edit after the cut |
| GrantAdmin.EditTerms | crates/ket-server/src/grant_admin.rs:33-50 | every given field and no other is changed; pausing or other protocols end all sessions |
| GrantAdmin.EditGrant | crates/ket-server/src/grant_admin.rs:33-63 | the edited grant, field by field, and whether all sessions end: newly paused, other protocols, or an allowance that the bytes kept of the current period reach |
| GrantAdmin.AppliedMeans | crates/ket-server/src/grant_admin.rs:22-96 | what the program’s own steps amount to, said of the state before and after |
| GrantAdmin.EndsIffNotStays | crates/ket-server/src/grant_admin.rs:73-85 | a session of the grant ends exactly when all do, or it runs and as many older ones run as the limit allows |
| GrantAdmin.SortByAge | crates/ket-server/src/grant_admin.rs:65-72 | every session of the grant once, oldest first, ties by ID |
| GrantAdmin.InsertByAge | crates/ket-server/src/grant_admin.rs:65-72 | inserting one keeps the order complete |
| GrantAdmin.CutSessions | crates/ket-server/src/grant_admin.rs:65-85 | the counting loop ends exactly the sessions that have at least the limit of older live ones, or all |
| GrantAdmin.NextTally | crates/ket-server/src/grant_admin.rs:73-85 | one round of the loop keeps the tally exact |
| GrantAdmin.EndingStep | crates/ket-server/src/grant_admin.rs:73-85 | what the next oldest session adds to the live and to the ending ones |
| GrantAdmin.EditSplitsSessions | crates/ket-server/src/grant_admin.rs:65-95 | an edit splits the sessions into ended and remaining ones; no other grant’s session ends; of the live ones exactly the oldest within the limit remain |
| GrantAdmin.FirstAreOldest | crates/ket-server/src/grant_admin.rs:65-85 | the first n of the live sessions are n, or all, and older than the rest |
| GrantAdmin.KeepAndDropSplit | crates/ket-server/src/grant_admin.rs:86-95 | ended and remaining sessions together are all sessions |
| GrantAdmin.NothingEndsAgain | crates/ket-server/src/grant_admin.rs:65-95 | what remains would all remain under the same limit |
| GrantAdmin.CutHolds | crates/ket-server/src/grant_admin.rs:75-78 | remaining sessions end with the grant, and cutting again changes nothing |
| GrantAdmin.EditTwice | crates/ket-server/src/grant_admin.rs:33-63 | the second edit finds the grant as it leaves it |
| GrantAdmin.ApplyTwice | crates/ket-server/src/grant_admin.rs:22-96 | the same change at the same time finds the grant edited, the sessions cut and nothing to end |
| GrantAdmin.ApplyAgain | crates/ket-server/src/grant_admin.rs:22-96 | two runs of the edit: once the first has succeeded, the second returns no ended session and leaves grants and sessions as the first left them |
| DataPlane.CompositeDataPlane.ProvisionOne | crates/ket-server/src/data_plane.rs:537-549 | what is assumed of an engine: taking a session serves it, refusing it may leave it served or not, and no other session or engine is touched |
| DataPlane.CompositeDataPlane.KickOne | crates/ket-server/src/data_plane.rs:537-549 | what is assumed of an engine: giving sessions back drops them, failing to may keep some, and no other session or engine is touched |
| DataPlane.CompositeDataPlane.Provision | crates/ket-server/src/data_plane.rs:537-549 | it succeeds exactly when every engine takes the session, which all then serve; otherwise the engines before the first that refuses are asked to give it back, the last of them first, later ones are not called, and what each engine serves is determined by its answer; after a failure the engines are as before if and only if Restores holds of the state and the answers |
| DataPlane.CompositeDataPlane.RollBack | crates/ket-server/src/data_plane.rs:540-546 | every engine that had taken the session is asked to drop it, the last one first, whatever the others answer |
| DataPlane.CompositeDataPlane.Kick | crates/ket-server/src/data_plane.rs:612-636 | every engine is asked, in order, whatever the others answered; success means exactly that all gave the sessions back, and then none serves them |
| DataPlane.RestoresIff | crates/ket-server/src/data_plane.rs:537-549 | the exact condition, on the state before and the answers, under which a failed provision changes nothing |
| DataPlane.LawfulEnginesRestore | crates/ket-server/src/data_plane.rs:537-549 | with engines whose refusal has no effect and that give back what they took, a failed provision leaves every engine as it was if and only if none before the refusing one served the session already, for any number of engines |
| DataPlane.LosesServedSession | crates/ket-server/src/data_plane.rs:537-549 | a concrete run with engines that keep the rules: one that already served the session loses it |
| DataPlane.ShadowsocksControl.SessionPort | crates/ket-server/src/config.rs:449-452 | a session’s port is the first port plus its slot, and there is one exactly when that is in the range |
| DataPlane.ShadowsocksControl.Request | crates/ket-server/src/data_plane.rs:870-873 | what is assumed of the manager: a request changes no port but its own, whatever it answers; an honest one does what it is asked |
| DataPlane.ShadowsocksControl.Provision | crates/ket-server/src/data_plane.rs:896-906 | success means the port is served, even by a manager whose answers cannot be trusted; no other port changes; with an honest one it fails exactly for a session without a port |
| DataPlane.ShadowsocksControl.Reconcile | crates/ket-server/src/data_plane.rs:908-933 | success means the managed ports served are exactly the sessions’ ports; ports outside the range are never touched, even on failure; with an honest manager it fails exactly when a session has no port |
| DataPlane.ShadowsocksControl.Kick | crates/ket-server/src/data_plane.rs:957-975 | success means none of the sessions’ ports is served; no other port changes, even on failure; with an honest manager it fails exactly when a session has no port |
| XrayStats.CollectStats | crates/ket-server/src/data_plane.rs:1312-1336 | sent and received are the sums of all uplink and downlink counters at any depth, saturating once at the end as at every step |
| XrayStats.AddCounter | crates/ket-server/src/data_plane.rs:1314-1324 | one object adds its own counter to the right direction |
| XrayStats.CollectFields | crates/ket-server/src/data_plane.rs:1325-1327 | the fields of an object add up |
| XrayStats.CollectItems | crates/ket-server/src/data_plane.rs:1329-1333 | the items of an array add up |
| XrayStats.CollectUserTotals | crates/ket-server/src/data_plane.rs:1282-1310 | every user’s total grows by its counters at any depth, and the users with a total are those that had one or are named |
| XrayStats.AddUserCounter | crates/ket-server/src/data_plane.rs:1284-1298 | one object adds to the total of the user it names and to no other |
| XrayStats.CollectUserFields | crates/ket-server/src/data_plane.rs:1299-1301 | the fields of an object add up for each user |
| XrayStats.CollectUserItems | crates/ket-server/src/data_plane.rs:1303-1307 | the items of an array add up for each user |
| XrayStats.CounterMeans | crates/ket-server/src/data_plane.rs:1285-1288 | an object is a counter exactly when it has a text as its name and, as its value, a number in 64 bits or one written as text |
| XrayStats.ParsesDecimal | crates/ket-server/src/data_plane.rs:1377-1382 | a number written in decimal is read back, with or without a plus sign, exactly if it fits in 64 bits |
| XrayStats.ParsesOnlyDigits | crates/ket-server/src/data_plane.rs:1377-1382 | nothing else is read but digits behind at most one plus sign |
| XrayStats.UserMeans | crates/ket-server/src/data_plane.rs:1289-1296 | a counter belongs to a user exactly when it is named after the user and a direction |
| XrayStats.DirectionMeans | crates/ket-server/src/data_plane.rs:1319-1323 | uplink counters count as sent and downlink counters as received, and no other ones count |
| XrayStats.SuffixesDiffer | crates/ket-server/src/data_plane.rs:1319-1323 | no counter counts in both directions |
| XrayStats.UsersHaveTraffic | crates/ket-server/src/data_plane.rs:1289-1296 | a counter that names a user counts in one of the directions |
| XrayStats.TrafficSplits | crates/ket-server/src/data_plane.rs:1282-1336 | sent plus received is the user’s traffic plus everybody else’s, for every answer and user: the two passes lose nothing and count nothing twice |
| XrayStats.ReadingsAgree | crates/ket-server/src/data_plane.rs:1266-1336 | the two readings of one user agree, however they saturated, exactly when the answer has no other traffic or the user’s own is beyond 64 bits |
| XrayStats.ObjectIgnoresOrder | crates/ket-server/src/data_plane.rs:1282-1336 | the totals of one object do not depend on the order of its own fields |
| XrayStats.PermutedIsSame | crates/ket-server/src/data_plane.rs:1299-1301 | an object with its fields in another order is such an answer |
| XrayStats.SameIsReflexive | crates/ket-server/src/data_plane.rs:1282-1336 | and so is every parsed answer itself |
| XrayStats.OrderIsIrrelevant | crates/ket-server/src/data_plane.rs:1282-1336 | answers that differ only in the order of fields, at any depth, have the same sent, received and per-user totals and name the same users |
| XrayStats.SameTotals | crates/ket-server/src/data_plane.rs:1275-1310 | answers that differ only in the order of fields, at any depth, give every user the same total |
| SquareFilter.SquareFilter | crates/ket-qr/src/decode.rs:131-154 | the two passes pick the extreme of the whole square window, cut at the image edges, for every pixel |
| SquareFilter.RowExtreme | crates/ket-qr/src/decode.rs:136-139 | the extreme of the window’s part of the row |
| SquareFilter.ColumnExtreme | crates/ket-qr/src/decode.rs:143-147 | the extreme of the window’s part of the column |
| SquareFilter.HorizontalPass | crates/ket-qr/src/decode.rs:133-140 | every pixel becomes its row extreme |
| SquareFilter.VerticalPass | crates/ket-qr/src/decode.rs:141-148 | every pixel becomes its column extreme |
| SquareFilter.PassesCompose | crates/ket-qr/src/decode.rs:131-154 | a column extreme of row extremes is the extreme of the square |
| SquareFilter.CloseLightGaps | crates/ket-qr/src/decode.rs:126-129 | the result is a darkest filter followed by a lightest filter |
| SquareFilter.DarkestThreshold | crates/ket-qr/src/decode.rs:126-154 | darkest: at least t exactly when the whole window is |
| SquareFilter.LightestThreshold | crates/ket-qr/src/decode.rs:126-154 | lightest: at least t exactly when some pixel of the window is |
| SquareFilter.CloseThreshold | crates/ket-qr/src/decode.rs:126-129 | a pixel stays at least t exactly when some window that contains it is entirely at least t |
| SquareFilter.CloseDarkens | crates/ket-qr/src/decode.rs:126-129 | closing never makes a pixel lighter |
| SquareFilter.CloseIsMonotone | crates/ket-qr/src/decode.rs:126-129 | a lighter image closes to a lighter image |
| SquareFilter.CloseIsIdempotent | crates/ket-qr/src/decode.rs:126-129 | closing twice is closing once |
| SquareFilter.StaysLight | crates/ket-qr/src/decode.rs:126-129 | a light window survives closing |
| SquareFilter.GapIsFilled | crates/ket-qr/src/decode.rs:40-43 | light gaps of up to 2r pixels in a row are filled |
| SquareFilter.ColumnGapIsFilled | crates/ket-qr/src/decode.rs:40-43 | and so are light gaps of up to 2r pixels in a column, such as the space between two lines |
| Downscale.Normalize | crates/ket-qr/src/raster.rs:46-94 | refuses exactly images without pixels, with more than 4096 a side or 4194304 in all, or whose bytes are not one to four a pixel; otherwise every output pixel is the mean luminance of its cell |
| Downscale.Average | crates/ket-qr/src/raster.rs:64-94 | the loops write every output pixel, with the mean of its cell |
| Downscale.Mean | crates/ket-qr/src/raster.rs:71-86 | the loop over a cell gives its mean |
| Downscale.SumCell | crates/ket-qr/src/raster.rs:77-83 | the two inner loops sum the rectangle |
| Downscale.CompositedLuma | crates/ket-qr/src/raster.rs:96-108 | an opaque pixel is its grey level, and any other one the exact mix of that and white, rounded down |
| Downscale.LumaOfBytes | crates/ket-qr/src/raster.rs:78-108 | the luminance of a pixel from its bytes in the image: grey, or red, two greens and blue in quarters, mixed with white by its alpha, each rounded down |
| Downscale.OutSideBounds | crates/ket-qr/src/raster.rs:64-66 | an output side is at least one and at most 960 and the source side, and in proportion, rounded down |
| Downscale.CellsFollow | crates/ket-qr/src/raster.rs:70-76 | cells are not empty, follow each other without gap or overlap and cover the side |
| Downscale.CellOf | crates/ket-qr/src/raster.rs:70-76 | every source coordinate lies in a cell |
| Downscale.CellUnique | crates/ket-qr/src/raster.rs:70-76 | and in no other |
| Downscale.OutputFits | crates/ket-qr/src/raster.rs:64-67 | every accepted image gives a frame the reader accepts; small images keep their size, and others have a longer side of 960 and the other in proportion; no 32-bit product overflows |
| Downscale.CellInside | crates/ket-qr/src/raster.rs:70-76 | cells lie inside the image |
| Downscale.MeanIsPixel | crates/ket-qr/src/raster.rs:84-86 | a mean fits into a byte |
| Downscale.CellsConserveLuminance | crates/ket-qr/src/raster.rs:68-87 | the sums of all cells are the sum of the image: no source pixel is left out or counted twice |
| Downscale.SmallImagesPassThrough | crates/ket-qr/src/raster.rs:64-87 | an image of at most 960 pixels a side passes through pixel for pixel |

## Left out

- Client.Run: operations run one after another, as the operation lock makes them; cancellation can arrive at every
  await of a connection attempt. An operation whose future is dropped half way is not part of this model.
- DataPlane.CompositeDataPlane.ProvisionOne: engines are sets of sessions; what an engine does with other sessions'
  users is assumed, not proved.
- Snapshot fields that only inform (node, traffic, allowance, timestamps, update advice) and connect options: they
  decide nothing.
- Text and manual forms of an invite, and URLs of locators: base64 and string formatting.
- Ed25519: key and signature checks are predicates of the profile.
- Onion addresses: their checksum is a predicate of the profile.
- Lossy decoding of bridge output: ASCII is decoded as it is, and what other bytes become is a parameter of which only
  is assumed that they become other characters, and at least one.
- Decoding PNG and JPEG, finding codes in a frame, `halve` and the list of repair passes.
- Parsing JSON text: `XrayStats` starts from the parsed value, whose fields stand in any order.
- The other engines' controls, usage accounting across engine restarts, HTTP handlers, persistence, configuration and
  the user interfaces.

