/** What a client does to the outside, and the rules every run of it obeys.

    A trace is the sequence of a client's dealings with its adapters, together with the calls that
    start and end a request to be connected. Two properties are about whole runs: `Obeys` says that
    tunnels are owned and addresses were probed, `Heeds` that nothing is tried without a request. */
module ClientTrace {
  import opened AccessCodes
  import opened Arithmetic
  import opened Wrappers
  import opened Transports

  /** What a probe result is kept under: an address is good for this endpoint and no other. */
  datatype ProbeIdentity = ProbeIdentity(endpoint: string, port: nat, protocol: Protocol, tlsServerName: Option<string>)

  function IdentityOf(t: Transport): ProbeIdentity {
    ProbeIdentity(t.endpoint, t.port, t.protocol, t.tlsServerName)
  }

  datatype ProbeReport = ProbeReport(addresses: seq<string>)

  /** Started tunnels are numbered in the order they start. */
  type Tunnel = nat

  datatype Event =
    | CreateSession(code: seq<Byte>)
    | Enrolled
    /** The server is asked to take a session back. */
    | ReleaseCalled
    | SessionEnded
    | ConnectCalled(protocol: Option<Protocol>)
    /** `stop_tunnel` or `disconnect`. */
    | StopCalled
    /** The request to be connected ended otherwise: it failed, was cancelled or lost its session. */
    | GaveUp
    | Probed(transport: Transport, report: Option<ProbeReport>)
    | Dialled(transport: Transport, using: ProbeReport, started: Option<Tunnel>)
    | Stopped(tunnel: Tunnel, ok: bool)

  datatype Trace = Empty | Then(before: Trace, last: Event)

  /** The tunnels that started and have not been stopped. */
  ghost function Live(trace: Trace): set<Tunnel> {
    match trace
    case Empty => {}
    case Then(before, Dialled(_, _, Some(tunnel))) => Live(before) + {tunnel}
    case Then(before, Stopped(tunnel, true)) => Live(before) - {tunnel}
    case Then(before, _) => Live(before)
  }

  ghost function StartedCount(trace: Trace): nat {
    match trace
    case Empty => 0
    case Then(before, Dialled(_, _, Some(_))) => StartedCount(before) + 1
    case Then(before, _) => StartedCount(before)
  }

  /** The request to be connected that is in force, with its explicit protocol if it has one. */
  ghost function Request(trace: Trace): Option<Option<Protocol>> {
    match trace
    case Empty => None
    case Then(_, ConnectCalled(protocol)) => Some(protocol)
    case Then(_, StopCalled) => None
    case Then(_, GaveUp) => None
    case Then(_, SessionEnded) => None
    case Then(before, _) => Request(before)
  }

  /** The successful probes of the current enrollment. */
  ghost function Answers(trace: Trace): set<(ProbeIdentity, ProbeReport)> {
    match trace
    case Empty => {}
    case Then(_, Enrolled) => {}
    case Then(_, SessionEnded) => {}
    case Then(before, Probed(t, Some(report))) => Answers(before) + {(IdentityOf(t), report)}
    case Then(before, _) => Answers(before)
  }

  ghost predicate Requested(before: Trace, t: Transport) {
    Request(before).Some? && (Request(before).value.Some? ==> Request(before).value.value == t.protocol)
  }

  ghost predicate Allowed(before: Trace, e: Event) {
    match e
    case CreateSession(code) => IsAccessCode(code)
    case Enrolled => Live(before) == {}
    case ReleaseCalled => Live(before) == {}
    case SessionEnded => Live(before) == {}
    case ConnectCalled(_) => true
    case StopCalled => true
    case GaveUp => true
    case Probed(_, _) => Live(before) == {}
    case Dialled(t, report, started) =>
      && Live(before) == {}
      && (IdentityOf(t), report) in Answers(before)
      && (started.Some? ==> started.value == StartedCount(before))
    case Stopped(tunnel, _) => tunnel in Live(before)
  }

  ghost predicate Obeys(trace: Trace) {
    trace.Then? ==> Obeys(trace.before) && Allowed(trace.before, trace.last)
  }

  /** Every probe and dial was requested when it was made. */
  ghost predicate Heeds(trace: Trace) {
    trace.Then? ==> Heeds(trace.before) && (IsTry(trace.last) ==> Requested(trace.before, trace.last.transport))
  }

  predicate IsTry(e: Event) { e.Probed? || e.Dialled? }

  /** The transports probed, in order. */
  ghost function Tried(trace: Trace): seq<Transport> {
    match trace
    case Empty => []
    case Then(before, Probed(t, _)) => Tried(before) + [t]
    case Then(before, _) => Tried(before)
  }

  /** `trace` goes on where `before` ends. */
  ghost predicate Extends(trace: Trace, before: Trace) {
    trace == before || (trace.Then? && Extends(trace.before, before))
  }

  lemma {:induction false} ExtendsTransitive(c: Trace, b: Trace, a: Trace)
    requires Extends(c, b) && Extends(b, a)
    ensures Extends(c, a)
  {
    if c != b {
      ExtendsTransitive(c.before, b, a);
    }
  }

  /** `trace` goes on from `before`, and everything since was requested if and only if `asked`. */
  ghost predicate Continues(trace: Trace, before: Trace, asked: bool) {
    Extends(trace, before) && (Heeds(trace) <==> Heeds(before) && asked)
  }

  lemma ContinuesTransitive(c: Trace, b: Trace, a: Trace, later: bool, earlier: bool)
    requires Continues(c, b, later) && Continues(b, a, earlier)
    ensures Continues(c, a, later && earlier)
  {
    ExtendsTransitive(c, b, a);
  }

  lemma ExtendsOf(trace: Trace, before: Trace, asked: bool)
    requires Continues(trace, before, asked)
    ensures Extends(trace, before)
  {
  }

  lemma ContinuesOne(trace: Trace, e: Event)
    ensures Continues(trace, trace, true)
    ensures !IsTry(e) ==> Continues(Then(trace, e), trace, true) && Tried(Then(trace, e)) == Tried(trace)
  {
  }

  lemma ContinuesTwo(trace: Trace, e: Event, f: Event)
    requires !IsTry(e) && !IsTry(f)
    ensures Continues(Then(Then(trace, e), f), trace, true)
  {
    hide Continues;
    ContinuesOne(trace, e);
    ContinuesOne(Then(trace, e), f);
    ContinuesTransitive(Then(Then(trace, e), f), Then(trace, e), trace, true, true);
  }

  // ----- What the rules mean for the events of a run, in order

  function Events(trace: Trace): seq<Event> {
    if trace.Empty? then [] else Events(trace.before) + [trace.last]
  }

  /** What happened before stays as it was. */
  lemma {:induction false} ExtendsKeepsEvents(trace: Trace, before: Trace)
    requires Extends(trace, before)
    ensures Events(before) <= Events(trace)
  {
    if trace != before {
      ExtendsKeepsEvents(trace.before, before);
    }
  }

  /** At every moment of a run at most one tunnel is running, and it is the last one started. */
  lemma {:induction false} AtMostOneTunnel(trace: Trace)
    requires Obeys(trace)
    ensures Live(trace) == {} || (StartedCount(trace) > 0 && Live(trace) == {StartedCount(trace) - 1})
    ensures |Live(trace)| <= 1
  {
    if trace.Then? {
      var before := trace.before;
      AtMostOneTunnel(before);
      match trace.last {
        case Dialled(_, _, Some(tunnel)) => assert Live(trace) == {tunnel};
        case Stopped(tunnel, true) => assert Live(trace) == {};
        case _ => assert Live(trace) == Live(before);
      }
    }
  }

  /** The run up to and including its event `i`. */
  function Prefix(trace: Trace, i: nat): (p: Trace)
    requires i <= |Events(trace)|
  {
    if i == |Events(trace)| then trace else Prefix(trace.before, i)
  }

  lemma {:induction false} PrefixObeys(trace: Trace, i: nat)
    requires Obeys(trace) && i < |Events(trace)|
    ensures Obeys(Prefix(trace, i + 1)) && Prefix(trace, i + 1).Then?
    ensures Prefix(trace, i + 1).last == Events(trace)[i] && Prefix(trace, i + 1).before == Prefix(trace, i)
    ensures Events(Prefix(trace, i)) == Events(trace)[..i]
  {
    if i + 1 < |Events(trace)| {
      PrefixObeys(trace.before, i);
      assert Events(trace)[..i] == Events(trace.before)[..i];
    }
  }

  lemma {:induction false} PrefixHeeds(trace: Trace, i: nat)
    requires Heeds(trace) && i < |Events(trace)|
    ensures Heeds(Prefix(trace, i + 1)) && Prefix(trace, i + 1).Then?
    ensures Prefix(trace, i + 1).last == Events(trace)[i] && Prefix(trace, i + 1).before == Prefix(trace, i)
    ensures Events(Prefix(trace, i)) == Events(trace)[..i]
  {
    if i + 1 < |Events(trace)| {
      PrefixHeeds(trace.before, i);
      assert Events(trace)[..i] == Events(trace.before)[..i];
    }
  }

  predicate EndsRequest(e: Event) {
    e.StopCalled? || e.GaveUp? || e.SessionEnded?
  }

  /** A request in force was made by a connect call, and nothing has ended it since. */
  lemma {:induction false} RequestOrigin(trace: Trace) returns (k: nat)
    requires Request(trace).Some?
    ensures k < |Events(trace)| && Events(trace)[k] == ConnectCalled(Request(trace).value)
    ensures forall j :: k < j < |Events(trace)| ==> !EndsRequest(Events(trace)[j]) && !Events(trace)[j].ConnectCalled?
  {
    if trace.last.ConnectCalled? {
      k := |Events(trace)| - 1;
    } else {
      k := RequestOrigin(trace.before);
    }
  }

  /** Nothing is probed or dialled unless a connect call asked for it that nothing has ended since,
      and then only with the protocol that call named, if it named one. In particular, after
      `stop_tunnel` or `disconnect` nothing starts until the next connect call. */
  lemma OnlyOnRequest(trace: Trace, i: nat) returns (k: nat)
    requires Heeds(trace) && i < |Events(trace)| && IsTry(Events(trace)[i])
    ensures k < i && Events(trace)[k].ConnectCalled?
    ensures forall j :: k < j < i ==> !EndsRequest(Events(trace)[j]) && !Events(trace)[j].ConnectCalled?
    ensures Events(trace)[k].protocol.Some? ==> Events(trace)[k].protocol.value == Events(trace)[i].transport.protocol
  {
    PrefixHeeds(trace, i);
    k := RequestOrigin(Prefix(trace, i));
  }

  /** A remembered answer came from a successful probe of the current enrollment. */
  lemma {:induction false} AnswerOrigin(trace: Trace, answer: (ProbeIdentity, ProbeReport)) returns (k: nat)
    requires answer in Answers(trace)
    ensures k < |Events(trace)| && Events(trace)[k].Probed?
    ensures Events(trace)[k].report == Some(answer.1) && IdentityOf(Events(trace)[k].transport) == answer.0
    ensures forall j :: k < j < |Events(trace)| ==> !Events(trace)[j].Enrolled? && !Events(trace)[j].SessionEnded?
  {
    if trace.last.Probed? && trace.last.report == Some(answer.1) && IdentityOf(trace.last.transport) == answer.0 {
      k := |Events(trace)| - 1;
    } else {
      k := AnswerOrigin(trace.before, answer);
    }
  }

  /** The addresses a tunnel is dialled with are those of a successful probe, in the same
      enrollment, of the same endpoint, port, protocol and TLS name. */
  lemma DialledAddressesWereProbed(trace: Trace, i: nat) returns (k: nat)
    requires Obeys(trace) && i < |Events(trace)| && Events(trace)[i].Dialled?
    ensures k < i && Events(trace)[k].Probed? && Events(trace)[k].report == Some(Events(trace)[i].using)
    ensures var probed, dialled := Events(trace)[k].transport, Events(trace)[i].transport;
            && probed.endpoint == dialled.endpoint && probed.port == dialled.port
            && probed.protocol == dialled.protocol && probed.tlsServerName == dialled.tlsServerName
    ensures forall j :: k < j < i ==> !Events(trace)[j].Enrolled? && !Events(trace)[j].SessionEnded?
  {
    PrefixObeys(trace, i);
    var e := Events(trace)[i];
    k := AnswerOrigin(Prefix(trace, i), (IdentityOf(e.transport), e.using));
  }

  /** Between the start of a tunnel and the start of the next one, or the end of the session, the
      first was stopped. */
  lemma {:induction false} StoppedBetween(trace: Trace, i: nat, j: nat) returns (k: nat)
    requires Obeys(trace) && i < j < |Events(trace)|
    requires Events(trace)[i].Dialled? && Events(trace)[i].started.Some?
    requires Events(trace)[j].Dialled? || Events(trace)[j].SessionEnded?
    ensures i < k < j && Events(trace)[k] == Stopped(Events(trace)[i].started.value, true)
  {
    PrefixObeys(trace, i);
    PrefixObeys(trace, j);
    k := WasStopped(Prefix(trace, j), i, Events(trace)[i].started.value);
  }

  lemma {:induction false} WasStopped(trace: Trace, i: nat, tunnel: Tunnel) returns (k: nat)
    requires i < |Events(trace)| && Events(trace)[i].Dialled? && Events(trace)[i].started == Some(tunnel)
    requires tunnel !in Live(trace)
    ensures i < k < |Events(trace)| && Events(trace)[k] == Stopped(tunnel, true)
  {
    if trace.last == Stopped(tunnel, true) {
      k := |Events(trace)| - 1;
    } else {
      k := WasStopped(trace.before, i, tunnel);
    }
  }
}
