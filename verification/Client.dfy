/** The client's connection state machine.

    Each public method holds the client's operation lock, so a run is a sequence of these methods.
    What the outside decides - the clock, the control plane, the adapters, the tunnel's status, the
    network, and a cancellation that arrives meanwhile - is an input of the operation, and the contracts
    hold whatever it is. */
module Client {
  import opened AccessCodes
  import opened Arithmetic
  import opened Wrappers
  import opened Transports
  import opened History
  import opened Selector
  import opened ClientTrace

  const MAX_FALLBACKS := 8
  const MAX_TRANSPORTS := 32
  const MAX_CONTROL_FAILURES := 255

  datatype ClientError =
    | InvalidInput | NotEnrolled | AlreadyConnected | Api(status: nat) | Network
    | InvalidResponse | NoCompatibleTransport | PreferredProtocolUnavailable
    | DnsResolution | TransportFailed | Local | UpdateRequired

  predicate IsUnauthorized(e: ClientError) { e.Api? && (e.status == 401 || e.status == 404) }

  predicate EndsSession(e: ClientError) { IsUnauthorized(e) || e.UpdateRequired? }

  datatype Result<+T> = Ok(value: T) | Err(error: ClientError)

  datatype Phase =
    | Disconnected | Enrolling | EnrolledPhase | Probing | Connecting | Connected
    | Reconnecting | Disconnecting | ErrorPhase

  datatype Session = Session(transports: seq<Transport>, expiresAt: nat)

  datatype CachedProbe = CachedProbe(identity: ProbeIdentity, report: ProbeReport)

  datatype Snapshot = Snapshot(
    phase: Phase,
    preferred: Option<Protocol>,
    active: Option<string>,
    latency: Option<nat>,
    reconnectAttempt: nat,
    issue: Option<ClientError>,
    fallbacks: seq<string>)

  // ----- What the outside answers

  datatype Reply<+T> = Answered(value: T) | Refused(error: ClientError)

  /** A tunnel's answer to being stopped: any error is possible. */
  datatype Stop = Done | Failing(error: ClientError)

  /** A manifest: `trusted` when its contents hold together, `readable` when its token does. */
  datatype Manifest = Manifest(transports: seq<Transport>, expiresAt: nat, trusted: bool, readable: bool)

  /** A status answer, and the time at which it is applied. */
  datatype Status = Status(expiresAt: nat, trusted: bool, at: nat)

  /** Renewing before a connection: the clock before, the control plane, the tunnel if the session
      ends, and the clock after. */
  datatype Renewal = Renewal(now: nat, control: Reply<Status>, stop: Stop, later: nat)

  /** One candidate: the probe and the dial (`None` when cancelled meanwhile), whether the attempt was
      cancelled before the tunnel could be used, how the tunnel is stopped then, and the time a failure
      is noted with. */
  datatype TryReply = TryReply(
    probe: Option<Reply<ProbeReport>>,
    dial: Option<Reply<Dialling>>,
    late: bool,
    stop: Stop,
    now: nat)

  /** A tunnel that started: its handshake latency and the network it sees. */
  datatype Dialling = Dialling(latency: nat, generation: nat)

  predicate Succeeds(a: TryReply) {
    && a.probe.Some? && a.probe.value.Answered?
    && a.dial.Some? && a.dial.value.Answered? && !a.late
  }

  /** A connection attempt: the history memory loads and the clock, by which candidates are ranked, and
      what each of them does. */
  datatype Attempts = Attempts(loaded: map<string, Record>, now: nat, tries: nat -> TryReply)

  /** A connect call: the renewal, whether the held tunnel still runs, how it is stopped if not, and
      the attempt. */
  datatype ConnectReply = ConnectReply(renewal: Renewal, running: bool, stop: Stop, attempts: Attempts)

  /** Asking about the lease: the clock, the control plane, and the tunnel if the session ends. */
  datatype LeaseReply = LeaseReply(now: nat, control: Reply<Status>, stop: Stop)

  datatype ReconnectReply = ReconnectReply(attempts: Attempts, lease: LeaseReply)

  /** Checking the route of a tunnel: whether there is a network, whether the route works, and, for a
      tunnel that is replaced, its transport, the time its loss is noted with, how it stops and how the
      reconnect goes. */
  datatype RouteReply = RouteReply(
    offline: bool,
    healthy: bool,
    id: string,
    now: nat,
    stop: Stop,
    reconnect: ReconnectReply)

  /** A round of maintenance: whether the tunnel runs, how it stops if not, and the rest. */
  datatype MaintainReply = MaintainReply(running: bool, stop: Stop, lease: LeaseReply, route: RouteReply)

  /** What the contracts of the operations speak of. */
  datatype View = View(
    session: Option<Session>,
    renewAt: Option<nat>,
    tunnel: Option<Tunnel>,
    requested: bool,
    preferred: Option<Protocol>,
    failures: nat,
    phase: Phase,
    records: map<string, Record>,
    cache: map<string, CachedProbe>,
    hasMemory: bool,
    excluded: set<Protocol>,
    trace: Trace)

  /** A client that has not done anything yet. */
  ghost function NewView(): View {
    View(None, None, None, false, None, 0, Disconnected, map[], map[], false, {}, Empty)
  }

  /** The transport whose tunnel was lost, and when. */
  datatype Loss = Loss(id: string, now: nat)

  /** How one transport of a connection attempt went. */
  datatype Attempt = Up | Cancelled | Failed(error: ClientError) | Stuck(error: ClientError)

  /** The addresses in hand after the probe: its answer, or those remembered for the same identity when
      only the lookup of the name failed. */
  function AddressesIn(cache: map<string, CachedProbe>, t: Transport, probe: Reply<ProbeReport>): Option<ProbeReport> {
    match probe
    case Answered(report) => Some(report)
    case Refused(error) =>
      if error.DnsResolution? && t.id in cache && cache[t.id].identity == IdentityOf(t)
      then Some(cache[t.id].report) else None
  }

  /** How a candidate goes, by what it answers. */
  function AttemptOf(cache: map<string, CachedProbe>, t: Transport, a: TryReply): Attempt {
    match a.probe
    case None => Cancelled
    case Some(probe) =>
      if AddressesIn(cache, t, probe).None? then Failed(probe.error)
      else
        match a.dial
        case None => Cancelled
        case Some(Refused(error)) => Failed(error)
        case Some(Answered(_)) =>
          if !a.late then Up else if a.stop.Done? then Cancelled else Stuck(a.stop.error)
  }

  /** The addresses remembered after an attempt: those of a tunnel that came up replace the older ones. */
  ghost function CacheAfter(cache: map<string, CachedProbe>, t: Transport, a: TryReply): map<string, CachedProbe> {
    if AttemptOf(cache, t, a).Up?
    then cache[t.id := CachedProbe(IdentityOf(t), AddressesIn(cache, t, a.probe.value).value)]
    else cache
  }

  /** The histories from `first` to `last`, before and after each of the first `n` attempts: a tunnel that
      came up and a failure are noted, a cancellation is not. */
  ghost predicate Noting(histories: seq<map<string, Record>>, candidates: seq<Transport>, tries: nat -> TryReply,
                         cache: map<string, CachedProbe>, cooldown: nat, n: nat, first: map<string, Record>,
                         last: map<string, Record>)
  {
    && n <= |candidates| && |histories| == n + 1 && histories[0] == first && histories[n] == last
    && forall i :: 0 <= i < n ==> NotedAttempt(histories[i], cache, candidates[i], tries(i), cooldown, histories[i + 1])
  }

  ghost predicate NotedAttempt(before: map<string, Record>, cache: map<string, CachedProbe>, t: Transport, a: TryReply,
                               cooldown: nat, after: map<string, Record>)
  {
    match AttemptOf(cache, t, a)
    case Up =>
      a.dial.Some? && a.dial.value.Answered? && IsNoted(before, Success(t.id, a.dial.value.value.latency), after)
    case Failed(_) => IsNoted(before, Failure(t.id, a.now, cooldown), after)
    case _ => after == before
  }

  lemma NotingOneMore(histories: seq<map<string, Record>>, candidates: seq<Transport>, tries: nat -> TryReply,
                      cache: map<string, CachedProbe>, cooldown: nat, n: nat, first: map<string, Record>,
                      last: map<string, Record>, next: map<string, Record>)
    requires n < |candidates| && Noting(histories, candidates, tries, cache, cooldown, n, first, last)
    requires NotedAttempt(last, cache, candidates[n], tries(n), cooldown, next)
    ensures Noting(histories + [next], candidates, tries, cache, cooldown, n + 1, first, next)
  {
    hide NotedAttempt;
  }

  /** The first `n` attempts fail. */
  ghost predicate AllFail(candidates: seq<Transport>, tries: nat -> TryReply, cache: map<string, CachedProbe>, n: nat) {
    n <= |candidates| && forall i :: 0 <= i < n ==> AttemptOf(cache, candidates[i], tries(i)).Failed?
  }

  lemma OneMoreFails(candidates: seq<Transport>, tries: nat -> TryReply, cache: map<string, CachedProbe>, n: nat)
    requires n < |candidates| && AllFail(candidates, tries, cache, n)
    requires AttemptOf(cache, candidates[n], tries(n)).Failed?
    ensures AllFail(candidates, tries, cache, n + 1)
  {
    hide AttemptOf;
  }

  /** How trying candidates in order ends: all before the last one tried failed, and that one decides. */
  ghost predicate Concluded(candidates: seq<Transport>, tries: nat -> TryReply, cache: map<string, CachedProbe>,
                            tried: nat, after: View, r: Result<()>)
  {
    && 0 < tried <= |candidates|
    && AllFail(candidates, tries, cache, tried - 1)
    && EndsWith(AttemptOf(cache, candidates[tried - 1], tries(tried - 1)), after, r)
    && (AttemptOf(cache, candidates[tried - 1], tries(tried - 1)).Failed? ==> tried == |candidates|)
  }

  /** What the attempt that decides leads to. */
  ghost predicate EndsWith(attempt: Attempt, after: View, r: Result<()>) {
    match attempt
    case Up => r == Ok(()) && after.tunnel.Some? && after.phase == Connected
    case Cancelled => r == Ok(()) && after.tunnel.None? && after.phase == EnrolledPhase && !after.requested
    case Stuck(error) => r == Err(error) && after.tunnel.Some? && after.phase == ErrorPhase
    case Failed(error) => r == Err(error) && after.tunnel.None? && after.phase == ErrorPhase
  }

  /** One attempt, as it changes a client that may try `t`. */
  ghost predicate TriedOne(before: View, t: Transport, a: TryReply, cooldown: nat, outcome: Attempt, after: View) {
    && outcome == AttemptOf(before.cache, t, a)
    && after == before.(tunnel := after.tunnel, phase := after.phase, records := after.records, trace := after.trace,
                        requested := before.requested && !outcome.Cancelled?,
                        cache := CacheAfter(before.cache, t, a))
    && (if outcome.Failed? then after.tunnel.None? else EndsWith(outcome, after, ResultOf(outcome)))
    && NotedAttempt(before.records, before.cache, t, a, cooldown, after.records)
    && Continues(after.trace, before.trace, before.requested) && Tried(after.trace) == Tried(before.trace) + [t]
  }

  function ResultOf(outcome: Attempt): Result<()> {
    match outcome
    case Failed(error) => Err(error)
    case Stuck(error) => Err(error)
    case _ => Ok(())
  }

  /** The first `n` candidates failed. */
  ghost predicate Advanced(start: View, candidates: seq<Transport>, tries: nat -> TryReply, cooldown: nat, n: nat,
                           histories: seq<map<string, Record>>, v: View)
  {
    && start.tunnel.None? && v == start.(phase := v.phase, records := v.records, trace := v.trace)
    && AllFail(candidates, tries, start.cache, n)
    && Noting(histories, candidates, tries, start.cache, cooldown, n, start.records, v.records)
    && Continues(v.trace, start.trace, start.requested || n == 0)
    && Tried(v.trace) == Tried(start.trace) + candidates[..n]
  }

  /** What trying the candidates does: those tried are the first ones, up to the first that does not fail;
      the history notes each; and the last one tried decides. */
  ghost predicate TriedAll(start: View, candidates: seq<Transport>, tries: nat -> TryReply, cooldown: nat, tried: nat,
                           histories: seq<map<string, Record>>, after: View, r: Result<()>)
  {
    && Concluded(candidates, tries, start.cache, tried, after, r)
    && after == start.(tunnel := after.tunnel, phase := after.phase, records := after.records, trace := after.trace,
                       requested := start.requested && after.phase != EnrolledPhase,
                       cache := CacheAfter(start.cache, candidates[tried - 1], tries(tried - 1)))
    && Noting(histories, candidates, tries, start.cache, cooldown, tried, start.records, after.records)
    && Continues(after.trace, start.trace, start.requested)
    && Tried(after.trace) == Tried(start.trace) + candidates[..tried]
  }

  lemma AdvancedNone(start: View, candidates: seq<Transport>, tries: nat -> TryReply, cooldown: nat)
    requires start.tunnel.None?
    ensures Advanced(start, candidates, tries, cooldown, 0, [start.records], start)
  {
    ContinuesOne(start.trace, GaveUp);
  }

  lemma AdvancedOne(start: View, candidates: seq<Transport>, tries: nat -> TryReply, cooldown: nat, n: nat,
                    histories: seq<map<string, Record>>, v: View, outcome: Attempt, w: View)
    requires Advanced(start, candidates, tries, cooldown, n, histories, v) && n < |candidates|
    requires TriedOne(v, candidates[n], tries(n), cooldown, outcome, w)
    ensures outcome.Failed? ==> Advanced(start, candidates, tries, cooldown, n + 1, histories + [w.records], w)
    ensures !outcome.Failed? ==>
              TriedAll(start, candidates, tries, cooldown, n + 1, histories + [w.records], w, ResultOf(outcome))
  {
    CacheKept(start.cache, candidates[n], tries(n));
    hide Continues, Tried, NotedAttempt, AttemptOf, AllFail, Noting, CacheAfter;
    NotingOneMore(histories, candidates, tries, start.cache, cooldown, n, start.records, v.records, w.records);
    ContinuesTransitive(w.trace, v.trace, start.trace, start.requested, start.requested || n == 0);
    assert candidates[..n + 1] == candidates[..n] + [candidates[n]];
    if outcome.Failed? {
      OneMoreFails(candidates, tries, start.cache, n);
    }
  }

  lemma AdvancedThrough(start: View, candidates: seq<Transport>, tries: nat -> TryReply, cooldown: nat,
                        histories: seq<map<string, Record>>, v: View, error: ClientError)
    requires candidates != [] && Advanced(start, candidates, tries, cooldown, |candidates|, histories, v)
    requires AttemptOf(start.cache, candidates[|candidates| - 1], tries(|candidates| - 1)) == Failed(error)
    ensures TriedAll(start, candidates, tries, cooldown, |candidates|, histories, v.(phase := ErrorPhase), Err(error))
  {
    CacheKept(start.cache, candidates[|candidates| - 1], tries(|candidates| - 1));
    hide Continues, Tried, AttemptOf, Noting, CacheAfter;
  }

  lemma CacheKept(cache: map<string, CachedProbe>, t: Transport, a: TryReply)
    ensures AttemptOf(cache, t, a).Failed? ==> CacheAfter(cache, t, a) == cache
  {
  }

  lemma TriedAllWell(start: View, candidates: seq<Transport>, tries: nat -> TryReply, cooldown: nat, tried: nat,
                     histories: seq<map<string, Record>>, after: View, r: Result<()>)
    requires TriedAll(start, candidates, tries, cooldown, tried, histories, after, r)
    ensures 0 < tried <= |candidates| && Tried(after.trace) == Tried(start.trace) + candidates[..tried]
    ensures Continues(after.trace, start.trace, start.requested)
    ensures Succeeds(tries(0)) ==> tried == 1 && r.Ok? && after.tunnel.Some?
    ensures r.Err? ==> after.requested == start.requested && after.phase == ErrorPhase
    ensures r.Err? && after.tunnel.None? ==> tried == |candidates|
    ensures r.Ok? ==> || (after.phase == Connected && after.requested == start.requested)
                      || (after.phase == EnrolledPhase && !after.requested)
  {
    hide Continues, Tried, Noting;
    assert tried > 1 ==> AttemptOf(start.cache, candidates[0], tries(0)).Failed?;
  }

  function RenewalDeadline(now: nat, expiresAt: nat): nat {
    SaturatingAdd(now, (if expiresAt > now then expiresAt - now else 0) / 2)
  }

  /** A lease is renewed half way to its end: not before now and not after it expires. One that has
      expired is due at once. */
  lemma RenewalIsInTime(now: nat, expiresAt: nat)
    requires now <= U64_MAX && expiresAt <= U64_MAX
    ensures now <= RenewalDeadline(now, expiresAt) <= Max(now, expiresAt)
    ensures now <= expiresAt ==>
              0 <= (expiresAt - RenewalDeadline(now, expiresAt)) - (RenewalDeadline(now, expiresAt) - now) <= 1
  {
  }

  function NoteFallback(fallbacks: seq<string>, id: string): (f: seq<string>)
    ensures |f| == Min(|fallbacks| + 1, 8) && f[|f| - 1] == id
    ensures f[..|f| - 1] == fallbacks[|fallbacks| + 1 - |f|..]
  {
    var all := fallbacks + [id];
    if |all| > MAX_FALLBACKS then all[|all| - MAX_FALLBACKS..] else all
  }

  ghost function Held(tunnel: Option<Tunnel>): set<Tunnel> {
    if tunnel.Some? then {tunnel.value} else {}
  }

  class KetClient {
    const policy: Policy
    const supports: Transport -> bool
    var session: Option<Session>
    var renewAt: Option<nat>
    var controlFailures: nat
    var tunnel: Option<Tunnel>
    /** The number the next tunnel gets. */
    var tunnelsStarted: nat
    var connectionRequested: bool
    var preferred: Option<Protocol>
    var records: map<string, Record>
    var probes: map<string, CachedProbe>
    var networkGeneration: nat
    var hasMemory: bool
    var excluded: set<Protocol>
    var snapshot: Snapshot
    ghost var trace: Trace

    // ----- Invariants

    /** The run so far obeys the rules and its one live tunnel is `held`: nothing the adapters
        started is lost, overwritten or kept twice. The other fields agree with the run. */
    ghost predicate Owns(held: Option<Tunnel>)
      reads `session, `tunnelsStarted, `connectionRequested, `preferred, `probes, `snapshot, `trace
    {
      && Obeys(trace)
      && Live(trace) == Held(held) && StartedCount(trace) == tunnelsStarted
      && Request(trace) == (if connectionRequested then Some(preferred) else None)
      && (held.Some? || connectionRequested ==> session.Some?)
      && (session.Some? ==> UniqueIds(session.value.transports))
      && (session.None? ==> probes == map[] && snapshot.active.None? && snapshot.latency.None?)
      && (forall id :: id in probes ==> (probes[id].identity, probes[id].report) in Answers(trace))
      && |snapshot.fallbacks| <= MAX_FALLBACKS
    }

    /** What a user sees between operations is what is the case. */
    ghost predicate Settled()
      reads `session, `tunnel, `snapshot
    {
      match snapshot.phase
      case Disconnected => session.None?
      case EnrolledPhase => session.Some? && tunnel.None? && snapshot.active.None? && snapshot.latency.None?
      case Connected => tunnel.Some? && snapshot.active.Some? && snapshot.latency.Some?
      case ErrorPhase => true
      case _ => false
    }

    ghost predicate Valid()
      reads this
    {
      Owns(tunnel) && Settled()
    }

    ghost function Look(): View
      reads this
    {
      View(session, renewAt, tunnel, connectionRequested, preferred, controlFailures, snapshot.phase,
           records, probes, hasMemory, excluded, trace)
    }

    constructor (policy: Policy, supports: Transport -> bool)
      ensures Valid() && Look() == NewView()
      ensures this.policy == policy && this.supports == supports
    {
      this.policy := policy;
      this.supports := supports;
      session, renewAt, controlFailures, tunnel, tunnelsStarted := None, None, 0, None, 0;
      connectionRequested, preferred, records, probes := false, None, map[], map[];
      networkGeneration, hasMemory, excluded := 0, false, {};
      snapshot := Snapshot(Disconnected, None, None, None, 0, None, []);
      trace := Empty;
    }

    // ----- Owning a tunnel

    /** Stops a tunnel that was taken out of the state, and puts it back if it would not stop. */
    method StopAndRetainOnFailure(t: Tunnel, stop: Stop) returns (r: Result<()>)
      requires tunnel.None? && Owns(Some(t))
      modifies `tunnel, `trace
      ensures Owns(tunnel)
      ensures r == (if stop.Done? then Ok(()) else Err(stop.error)) && tunnel == (if stop.Done? then None else Some(t))
      ensures trace == Then(old(trace), Stopped(t, stop.Done?)) && Continues(trace, old(trace), true)
      ensures Tried(trace) == Tried(old(trace))
    {
      ContinuesOne(trace, Stopped(t, stop.Done?));
      trace := Then(trace, Stopped(t, stop.Done?));
      match stop {
        case Done => return Ok(());
        case Failing(error) =>
          if tunnel.None? {
            tunnel := Some(t);
          }
          r := Err(error);
      }
    }

    method Fail(error: ClientError)
      requires Owns(tunnel)
      modifies `snapshot
      ensures Owns(tunnel) && snapshot == old(snapshot).(phase := ErrorPhase, issue := Some(error))
      ensures Look() == old(Look()).(phase := ErrorPhase)
    {
      snapshot := snapshot.(phase := ErrorPhase, issue := Some(error));
    }

    /** The history notes a failure, with the time and the configured cooldown. */
    method CoolDown(id: string, now: nat)
      requires Owns(tunnel)
      modifies `records
      ensures Owns(tunnel) && IsNoted(old(records), Failure(id, now, policy.failureCooldown), records)
    {
      hide IsNoted;
      records := Note(records, Failure(id, now, policy.failureCooldown));
    }

    method RecordFailure(t: Transport, now: nat)
      requires Owns(tunnel)
      modifies `records, `snapshot
      ensures IsNoted(old(records), Failure(t.id, now, policy.failureCooldown), records)
      ensures Owns(tunnel) && snapshot == old(snapshot).(fallbacks := NoteFallback(old(snapshot).fallbacks, t.id))
    {
      hide IsNoted;
      CoolDown(t.id, now);
      snapshot := snapshot.(fallbacks := NoteFallback(snapshot.fallbacks, t.id));
    }

    /** A lost tunnel is shown as a fallback exactly when its transport is the one shown as active. */
    method RecordLostTunnel(id: string, now: nat)
      requires Owns(tunnel)
      modifies `records, `snapshot
      ensures Owns(tunnel) && IsNoted(old(records), Failure(id, now, policy.failureCooldown), records)
      ensures snapshot == if old(snapshot).active == Some(id)
                          then old(snapshot).(fallbacks := NoteFallback(old(snapshot).fallbacks, id)) else old(snapshot)
    {
      hide IsNoted;
      CoolDown(id, now);
      if snapshot.active == Some(id) {
        snapshot := snapshot.(fallbacks := NoteFallback(snapshot.fallbacks, id));
      }
    }

    // ----- Connecting

    /** The addresses last used for a transport of the same identity. */
    ghost function Cached(t: Transport): Option<ProbeReport>
      reads this`probes
    {
      if t.id in probes && probes[t.id].identity == IdentityOf(t) then Some(probes[t.id].report) else None
    }

    /** The addresses last used for a transport, when only their lookup failed now. */
    method CachedProbeFor(t: Transport, error: ClientError) returns (report: Option<ProbeReport>)
      requires Owns(tunnel)
      ensures report == if error.DnsResolution? then Cached(t) else None
      ensures report.Some? ==> (IdentityOf(t), report.value) in Answers(trace)
    {
      if error.DnsResolution? && t.id in probes && probes[t.id].identity == IdentityOf(t) {
        return Some(probes[t.id].report);
      }
      return None;
    }

    /** The connection in progress may deal with `t`. */
    ghost predicate MayTry(t: Transport)
      reads this
    {
      tunnel.None? && Owns(None) && session.Some? && (preferred.Some? ==> preferred.value == t.protocol)
    }

    ghost method NoteProbe(t: Transport, report: Option<ProbeReport>)
      requires MayTry(t)
      modifies `trace
      ensures MayTry(t) && trace == Then(old(trace), Probed(t, report))
      ensures report.Some? ==> (IdentityOf(t), report.value) in Answers(trace)
      ensures Continues(trace, old(trace), connectionRequested) && Tried(trace) == Tried(old(trace)) + [t]
    {
      trace := Then(trace, Probed(t, report));
    }

    ghost method NoteFailedDial(t: Transport, report: ProbeReport)
      requires MayTry(t) && (IdentityOf(t), report) in Answers(trace)
      modifies `trace
      ensures MayTry(t) && trace == Then(old(trace), Dialled(t, report, None))
      ensures Continues(trace, old(trace), connectionRequested) && Tried(trace) == Tried(old(trace))
    {
      trace := Then(trace, Dialled(t, report, None));
    }

    /** The adapter starts a tunnel, which is not in the state yet. */
    method Started(t: Transport, report: ProbeReport) returns (started: Tunnel)
      requires MayTry(t) && (IdentityOf(t), report) in Answers(trace)
      modifies `trace, `tunnelsStarted
      ensures Owns(Some(started)) && trace == Then(old(trace), Dialled(t, report, Some(started)))
      ensures (IdentityOf(t), report) in Answers(trace)
      ensures Continues(trace, old(trace), connectionRequested) && Tried(trace) == Tried(old(trace))
    {
      started := tunnelsStarted;
      tunnelsStarted := tunnelsStarted + 1;
      trace := Then(trace, Dialled(t, report, Some(started)));
    }

    /** Probes a candidate, or recalls its addresses when only their lookup failed. */
    method AddressesFor(t: Transport, probe: Option<Reply<ProbeReport>>)
      returns (report: Option<ProbeReport>, cancelled: bool, error: ClientError)
      requires MayTry(t)
      modifies `trace
      ensures MayTry(t) && (cancelled <==> probe.None?)
      ensures report.Some? ==> (IdentityOf(t), report.value) in Answers(trace)
      ensures match probe
              case None => report == None && trace == Then(old(trace), Probed(t, None))
              case Some(Answered(answer)) =>
                report == Some(answer) && trace == Then(old(trace), Probed(t, Some(answer)))
              case Some(Refused(e)) =>
                && report == (if e.DnsResolution? then Cached(t) else None) && error == e
                && trace == Then(old(trace), Probed(t, None))
      ensures Continues(trace, old(trace), connectionRequested) && Tried(trace) == Tried(old(trace)) + [t]
    {
      hide Obeys, Live, StartedCount, Request, Answers, Continues, Tried;
      report, cancelled, error := None, false, NoCompatibleTransport;
      match probe {
        case None =>
          NoteProbe(t, None);
          cancelled := true;
        case Some(Answered(answer)) =>
          NoteProbe(t, Some(answer));
          report := Some(answer);
        case Some(Refused(e)) =>
          NoteProbe(t, None);
          error := e;
          report := CachedProbeFor(t, e);
      }
    }

    /** Probes and dials one candidate. */
    method TryTransport(t: Transport, index: nat, reconnecting: bool, a: TryReply) returns (outcome: Attempt)
      requires MayTry(t)
      modifies `tunnel, `tunnelsStarted, `trace, `snapshot, `records, `probes, `networkGeneration
      ensures Owns(tunnel)
      ensures tunnel.Some? <==> outcome.Up? || outcome.Stuck?
      ensures outcome.Up? ==> Settled() && snapshot.phase == Connected && snapshot.active == Some(t.id)
      ensures Continues(trace, old(trace), connectionRequested) && Tried(trace) == Tried(old(trace)) + [t]
      ensures a.probe.None? ==> outcome == Cancelled && records == old(records)
      ensures a.probe.Some? ==>
                var inHand := a.probe.value.Answered? || (a.probe.value.error.DnsResolution? && old(Cached(t)).Some?);
                if !inHand then outcome == Failed(a.probe.value.error)
                else
                  match a.dial
                  case None => outcome == Cancelled && records == old(records)
                  case Some(Refused(error)) => outcome == Failed(error)
                  case Some(Answered(_)) =>
                    outcome == if !a.late then Up else if a.stop.Done? then Cancelled else Stuck(a.stop.error)
      ensures outcome == AttemptOf(old(probes), t, a) && probes == CacheAfter(old(probes), t, a)
      ensures NotedAttempt(old(records), old(probes), t, a, policy.failureCooldown, records)
    {
      hide Obeys, Live, StartedCount, Request, Answers, Continues, Tried, IsNoted;
      snapshot := snapshot.(phase := if reconnecting then Reconnecting else Probing, active := Some(t.id),
                            reconnectAttempt := if reconnecting then index + 1 else 0, issue := None);
      var report, cancelled, error := AddressesFor(t, a.probe);
      if cancelled {
        return Cancelled;
      }
      if report.None? {
        RecordFailure(t, a.now);
        return Failed(error);
      }
      snapshot := snapshot.(phase := if reconnecting then Reconnecting else Connecting);
      ghost var probed := trace;
      outcome := Dial(t, report.value, a);
      ContinuesTransitive(trace, probed, old(trace), connectionRequested, connectionRequested);
    }

    /** Dials the addresses a probe gave, and takes the tunnel into the state. */
    method Dial(t: Transport, report: ProbeReport, a: TryReply) returns (outcome: Attempt)
      requires MayTry(t) && (IdentityOf(t), report) in Answers(trace)
      modifies `tunnel, `tunnelsStarted, `trace, `snapshot, `records, `probes, `networkGeneration
      ensures Owns(tunnel)
      ensures tunnel.Some? <==> outcome.Up? || outcome.Stuck?
      ensures outcome.Up? ==> Settled() && snapshot.phase == Connected && snapshot.active == Some(t.id)
      ensures outcome.Up? ==> trace == Then(old(trace), Dialled(t, report, tunnel))
      ensures outcome.Failed? ==> trace == Then(old(trace), Dialled(t, report, None))
      ensures Continues(trace, old(trace), connectionRequested) && Tried(trace) == Tried(old(trace))
      ensures match a.dial
              case None => outcome == Cancelled && records == old(records)
              case Some(Refused(error)) =>
                outcome == Failed(error) && IsNoted(old(records), Failure(t.id, a.now, policy.failureCooldown), records)
              case Some(Answered(d)) =>
                if !a.late then outcome == Up && IsNoted(old(records), Success(t.id, d.latency), records)
                else records == old(records) && outcome == if a.stop.Done? then Cancelled else Stuck(a.stop.error)
      ensures probes == if outcome.Up? then old(probes)[t.id := CachedProbe(IdentityOf(t), report)] else old(probes)
    {
      hide Obeys, Live, StartedCount, Request, Answers, Continues, Tried, IsNoted;
      match a.dial {
        case None =>
          NoteFailedDial(t, report);
          outcome := Cancelled;
        case Some(Refused(error)) =>
          NoteFailedDial(t, report);
          RecordFailure(t, a.now);
          outcome := Failed(error);
        case Some(Answered(tunnel)) =>
          var started := Started(t, report);
          if a.late {
            ghost var dialled := trace;
            var stopped := StopAndRetainOnFailure(started, a.stop);
            ContinuesTransitive(trace, dialled, old(trace), true, connectionRequested);
            return if stopped.Ok? then Cancelled else Stuck(stopped.error);
          }
          Adopt(t, report, started, tunnel);
          outcome := Up;
      }
    }

    /** Takes a started tunnel into the state. */
    method Adopt(t: Transport, report: ProbeReport, started: Tunnel, d: Dialling)
      requires Owns(Some(started)) && (IdentityOf(t), report) in Answers(trace)
      modifies `tunnel, `snapshot, `records, `probes, `networkGeneration
      ensures Owns(tunnel) && tunnel == Some(started) && Settled()
      ensures snapshot.phase == Connected && snapshot.active == Some(t.id) && snapshot.latency == Some(d.latency)
      ensures IsNoted(old(records), Success(t.id, d.latency), records)
      ensures probes == old(probes)[t.id := CachedProbe(IdentityOf(t), report)] && networkGeneration == d.generation
    {
      hide Obeys, Live, StartedCount, Request, Answers, IsNoted;
      probes := probes[t.id := CachedProbe(IdentityOf(t), report)];
      records := Note(records, Success(t.id, d.latency));
      networkGeneration, tunnel := d.generation, Some(started);
      snapshot := snapshot.(phase := Connected, active := Some(t.id), latency := Some(d.latency),
                            reconnectAttempt := 0, issue := None);
    }

    method FinishCancelledConnection()
      requires tunnel.None? && Owns(None) && session.Some?
      modifies `connectionRequested, `trace, `snapshot
      ensures Valid() && !connectionRequested && snapshot.phase == EnrolledPhase
      ensures trace == Then(old(trace), GaveUp)
      ensures Continues(trace, old(trace), true) && Tried(trace) == Tried(old(trace))
    {
      trace := Then(trace, GaveUp);
      connectionRequested := false;
      snapshot := snapshot.(phase := EnrolledPhase, active := None, latency := None,
                              reconnectAttempt := 0, issue := None);
    }

    /** The history a ranking looks at. */
    ghost function KnownIn(v: View, a: Attempts): map<string, Record> {
      if v.hasMemory then a.loaded else v.records
    }

    /** The transports in the order they rank in, for the settings and what is known. */
    ghost function RankingIn(v: View, a: Attempts): seq<Transport>
      requires v.session.Some?
    {
      RankFor(Context(policy, supports, KnownIn(v, a), a.now, v.preferred, v.excluded), v.session.value.transports)
    }

    lemma SameRanking(v: View, w: View, a: Attempts)
      requires v.session.Some? && v == w.(tunnel := v.tunnel, trace := v.trace)
      ensures RankingIn(v, a) == RankingIn(w, a)
    {
    }

    /** Some transport on offer is supported and of the preferred protocol. */
    ghost predicate HasCandidate(s: Option<Session>, protocol: Option<Protocol>) {
      s.Some? && exists t :: t in s.value.transports && supports(t) && (protocol.Some? ==> protocol.value == t.protocol)
    }

    /** The transports to try, best first, ranked by what is known about the current network. */
    method Candidates(a: Attempts) returns (candidates: seq<Transport>)
      requires session.Some?
      modifies `records
      ensures candidates == old(RankingIn(Look(), a)) && records == old(KnownIn(Look(), a))
      ensures forall t :: t in candidates ==> t in session.value.transports && supports(t)
      ensures forall t :: t in candidates && preferred.Some? ==> preferred.value == t.protocol
      ensures candidates != [] <==> HasCandidate(session, preferred)
    {
      if hasMemory {
        records := a.loaded;
      }
      var c := Context(policy, supports, records, a.now, preferred, excluded);
      candidates := RankFor(c, session.value.transports);
      RankMembers(c, session.value.transports);
      hide RankFor;
      var ts := session.value.transports;
      if candidates != [] {
        assert candidates[0] in ts && Matches(c, candidates[0]);
      }
      assert forall t :: t in ts && supports(t) && (preferred.Some? ==> preferred.value == t.protocol) ==>
             Matches(c, t);
    }

    /** Tries one candidate, and finishes the connection unless it failed. */
    method TryCandidate(t: Transport, index: nat, reconnecting: bool, a: TryReply) returns (outcome: Attempt)
      requires MayTry(t)
      modifies `tunnel, `tunnelsStarted, `connectionRequested, `trace, `snapshot, `records, `probes, `networkGeneration
      ensures Owns(tunnel)
      ensures outcome.Up? || outcome.Cancelled? ==> Settled()
      ensures outcome.Up? ==> snapshot.active == Some(t.id)
      ensures TriedOne(old(Look()), t, a, policy.failureCooldown, outcome, Look())
    {
      hide Obeys, Live, StartedCount, Request, Answers, Continues, Tried, NotedAttempt, AttemptOf, CacheAfter;
      outcome := TryTransport(t, index, reconnecting, a);
      match outcome {
        case Cancelled =>
          ghost var before := trace;
          FinishCancelledConnection();
          ContinuesTransitive(trace, before, old(trace), true, old(connectionRequested));
        case Stuck(error) => Fail(error);
        case _ =>
      }
    }

    /** Tries the candidates in order, each once, until one is up or all have failed. */
    method TryInOrder(candidates: seq<Transport>, reconnecting: bool, tries: nat -> TryReply)
      returns (r: Result<()>, ghost tried: nat, ghost histories: seq<map<string, Record>>)
      requires tunnel.None? && Owns(None) && session.Some? && candidates != []
      requires forall t :: t in candidates && preferred.Some? ==> preferred.value == t.protocol
      modifies `tunnel, `tunnelsStarted, `connectionRequested, `trace, `snapshot, `records, `probes, `networkGeneration
      ensures Owns(tunnel) && (r.Ok? ==> Settled())
      ensures r.Ok? && tunnel.Some? ==> 0 < tried <= |candidates| && snapshot.active == Some(candidates[tried - 1].id)
      ensures TriedAll(old(Look()), candidates, tries, policy.failureCooldown, tried, histories, Look(), r)
    {
      hide Owns, Settled, TriedAll, Advanced, AttemptOf;
      var lastError := NoCompatibleTransport;
      tried, histories := 0, [records];
      ghost var start := Look();
      AdvancedNone(start, candidates, tries, policy.failureCooldown);
      for i := 0 to |candidates|
        invariant tunnel.None? && Owns(None) && tried == i
        invariant Advanced(start, candidates, tries, policy.failureCooldown, i, histories, Look())
        invariant probes == start.cache
        invariant i > 0 ==> AttemptOf(start.cache, candidates[i - 1], tries(i - 1)) == Failed(lastError)
      {
        CacheKept(probes, candidates[i], tries(i));
        hide Continues, Tried, NotedAttempt, EndsWith, CacheAfter;
        ghost var before := Look();
        var outcome := TryCandidate(candidates[i], i, reconnecting, tries(i));
        AdvancedOne(start, candidates, tries, policy.failureCooldown, i, histories, before, outcome, Look());
        tried, histories := i + 1, histories + [records];
        if !outcome.Failed? {
          r := if outcome.Stuck? then Err(outcome.error) else Ok(());
          return;
        }
        lastError := outcome.error;
      }
      AdvancedThrough(start, candidates, tries, policy.failureCooldown, histories, Look(), lastError);
      Fail(lastError);
      r := Err(lastError);
    }

    /** How a connection that did not fail ended: with a tunnel and the request as it was, or
        cancelled and without both. */
    ghost predicate Finished(requested: bool)
      reads `connectionRequested, `snapshot
    {
      || (snapshot.phase == Connected && connectionRequested == requested)
      || (snapshot.phase == EnrolledPhase && !connectionRequested)
    }

    /** What a connection attempt does to a client without a tunnel: the candidates are tried in the order
        they rank in until one does not fail, and that one, or the last, decides. */
    ghost predicate Attempted(before: View, a: Attempts, after: View, r: Result<()>) {
      && before.session.Some?
      && if RankingIn(before, a) == [] then
           && r == Err(NoCandidateError(before.session.value.transports, before.preferred))
           && after == before.(records := KnownIn(before, a), phase := ErrorPhase)
         else exists tried, histories :: AttemptedWith(before, a, tried, histories, after, r)
    }

    ghost predicate AttemptedWith(before: View, a: Attempts, tried: nat, histories: seq<map<string, Record>>,
                                  after: View, r: Result<()>)
    {
      && before.session.Some?
      && TriedAll(before.(records := KnownIn(before, a)), RankingIn(before, a), a.tries, policy.failureCooldown,
                  tried, histories, after, r)
    }

    ghost function NoCandidateError(transports: seq<Transport>, preferred: Option<Protocol>): ClientError {
      if preferred.Some? && forall t :: t in transports ==> t.protocol != preferred.value
      then PreferredProtocolUnavailable else NoCompatibleTransport
    }

    /** What `ConnectLocked` does: a tunnel that runs is in the way, and so is one that would not stop. */
    ghost predicate Linked(before: View, running: bool, stop: Stop, a: Attempts, after: View, r: Result<()>) {
      if before.tunnel.None? then Attempted(before, a, after, r)
      else if running then r == Err(AlreadyConnected) && after == before
      else
        var stopped := before.(trace := Then(before.trace, Stopped(before.tunnel.value, stop.Done?)));
        match stop
        case Failing(error) => r == Err(error) && after == stopped
        case Done => Attempted(stopped.(tunnel := None), a, after, r)
    }

    /** Stops a tunnel that is down, and tries the ranked candidates. */
    method ConnectLocked(reconnecting: bool, running: bool, stop: Stop, a: Attempts)
      returns (r: Result<()>, ghost tried: nat)
      requires Owns(tunnel) && session.Some?
      modifies `tunnel, `tunnelsStarted, `connectionRequested, `trace, `snapshot, `records, `probes, `networkGeneration
      ensures Owns(tunnel)
      ensures r.Ok? ==> Settled() && Finished(old(connectionRequested))
      ensures r.Err? ==> connectionRequested == old(connectionRequested)
      ensures r.Err? ==>
                snapshot.phase == ErrorPhase || (tunnel.Some? && tunnel == old(tunnel) && snapshot == old(snapshot))
      ensures Continues(trace, old(trace), old(connectionRequested) || tried == 0)
      ensures var ranked := old(RankingIn(Look(), a));
              && tried <= |ranked| && Tried(trace) == Tried(old(trace)) + ranked[..tried]
              && (r.Ok? ==> tried > 0 && (tunnel.Some? ==> snapshot.active == Some(ranked[tried - 1].id)))
              && (r.Err? && tunnel.None? ==> tried == |ranked|)
      ensures tried > 0 <==> (old(tunnel).None? || (!running && stop.Done?)) && HasCandidate(session, preferred)
      ensures tried > 0 && Succeeds(a.tries(0)) ==> r.Ok? && tunnel.Some?
      ensures Linked(old(Look()), running, stop, a, Look(), r)
    {
      hide Owns, Settled, Continues, Tried, RankingIn, HasCandidate, Succeeds, Attempted;
      tried := 0;
      ContinuesOne(trace, GaveUp);
      if tunnel.Some? {
        if running {
          return Err(AlreadyConnected), tried;
        }
        var stale := tunnel.value;
        tunnel := None;
        var stopped := StopAndRetainOnFailure(stale, stop);
        if stopped.Err? {
          return Err(stopped.error), tried;
        }
      }
      ghost var stopped := trace;
      SameRanking(old(Look()), Look(), a);
      r, tried := ConnectRanked(reconnecting, a);
      ContinuesTransitive(trace, stopped, old(trace), old(connectionRequested) || tried == 0, true);
    }

    method ConnectRanked(reconnecting: bool, a: Attempts) returns (r: Result<()>, ghost tried: nat)
      requires tunnel.None? && Owns(None) && session.Some?
      modifies `tunnel, `tunnelsStarted, `connectionRequested, `trace, `snapshot, `records, `probes, `networkGeneration
      ensures Owns(tunnel)
      ensures r.Ok? ==> Settled() && Finished(old(connectionRequested))
      ensures r.Err? ==> connectionRequested == old(connectionRequested) && snapshot.phase == ErrorPhase
      ensures Continues(trace, old(trace), old(connectionRequested) || tried == 0)
      ensures var ranked := old(RankingIn(Look(), a));
              && tried <= |ranked| && Tried(trace) == Tried(old(trace)) + ranked[..tried]
              && (r.Ok? ==> tried > 0 && (tunnel.Some? ==> snapshot.active == Some(ranked[tried - 1].id)))
              && (r.Err? && tunnel.None? ==> tried == |ranked|)
      ensures tried > 0 <==> HasCandidate(session, preferred)
      ensures tried > 0 && Succeeds(a.tries(0)) ==> r.Ok? && tunnel.Some?
      ensures Attempted(old(Look()), a, Look(), r)
    {
      hide Owns, Settled, Continues, Tried, RankingIn, KnownIn, HasCandidate, Succeeds, TriedAll, NoCandidateError;
      tried := 0;
      ContinuesOne(trace, GaveUp);
      var ranked := Candidates(a);
      if !reconnecting {
        ClearFallbacks();
      }
      if ranked == [] {
        r := FailWithoutCandidate();
        return;
      }
      ghost var known, histories := Look(), [];
      r, tried, histories := TryInOrder(ranked, reconnecting, a.tries);
      TriedAllWell(known, ranked, a.tries, policy.failureCooldown, tried, histories, Look(), r);
      assert AttemptedWith(old(Look()), a, tried, histories, Look(), r);
    }

    method ClearFallbacks()
      requires Owns(tunnel)
      modifies `snapshot
      ensures Owns(tunnel) && snapshot == old(snapshot).(fallbacks := [])
    {
      snapshot := snapshot.(fallbacks := []);
    }

    method FailWithoutCandidate() returns (r: Result<()>)
      requires Owns(tunnel) && session.Some?
      modifies `snapshot
      ensures Owns(tunnel) && r == Err(NoCandidateError(session.value.transports, preferred))
      ensures snapshot == old(snapshot).(phase := ErrorPhase, issue := Some(r.error))
    {
      hide Owns;
      var missing := preferred.Some? && !exists t :: t in session.value.transports && t.protocol == preferred.value;
      r := Err(if missing then PreferredProtocolUnavailable else NoCompatibleTransport);
      Fail(r.error);
    }

    // ----- Keeping the lease

    /** The session is over: whatever depended on it is forgotten. */
    method ForgetSession()
      requires tunnel.None? && Owns(None) && !connectionRequested
      modifies `session, `renewAt, `controlFailures, `probes, `snapshot, `trace
      ensures Owns(None) && session.None? && renewAt.None? && controlFailures == 0 && probes == map[]
      ensures snapshot == old(snapshot).(active := None, latency := None, preferred := None, reconnectAttempt := 0)
      ensures trace == Then(old(trace), SessionEnded)
    {
      trace := Then(trace, SessionEnded);
      session, renewAt, controlFailures, probes := None, None, 0, map[];
      snapshot := snapshot.(active := None, latency := None, preferred := None, reconnectAttempt := 0);
    }

    method ApplyStatus(expiresAt: nat, renewed: bool, now: nat)
      requires Owns(tunnel) && session.Some?
      modifies `session, `renewAt, `controlFailures, `snapshot
      ensures Owns(tunnel) && session == Some(old(session).value.(expiresAt := expiresAt))
      ensures snapshot == old(snapshot).(issue := None) && controlFailures == 0
      ensures renewAt == if renewed then Some(RenewalDeadline(now, expiresAt)) else old(renewAt)
    {
      session := Some(session.value.(expiresAt := expiresAt));
      if renewed {
        renewAt := Some(RenewalDeadline(now, expiresAt));
      }
      controlFailures := 0;
      snapshot := snapshot.(issue := None);
    }

    /** A run that ends the session, or whose tunnel would not stop for that. */
    ghost function EndOf(before: Trace, held: Option<Tunnel>, ended: bool): Trace {
      var gaveUp := Then(before, GaveUp);
      var stopped := if held.Some? then Then(gaveUp, Stopped(held.value, ended)) else gaveUp;
      if ended then Then(stopped, SessionEnded) else stopped
    }

    lemma EndOfContinues(before: Trace, held: Option<Tunnel>, ended: bool)
      ensures Continues(EndOf(before, held, ended), before, true)
    {
      hide Continues;
      var gaveUp := Then(before, GaveUp);
      var stopped := if held.Some? then Then(gaveUp, Stopped(held.value, ended)) else gaveUp;
      ContinuesOne(before, GaveUp);
      if held.Some? {
        ContinuesTwo(before, GaveUp, Stopped(held.value, ended));
      }
      ContinuesOne(stopped, SessionEnded);
      ContinuesTransitive(Then(stopped, SessionEnded), stopped, before, true, true);
    }

    /** The session is over, or, if its tunnel lingers, only the request. Nothing is left of a session that
        is over but the history and the settings. */
    ghost function EndedIn(v: View, lingers: bool): View {
      var ended := v.(requested := false, preferred := None, phase := ErrorPhase,
                      trace := EndOf(v.trace, v.tunnel, !lingers));
      if lingers then ended
      else ended.(session := None, renewAt := None, tunnel := None, failures := 0, cache := map[])
    }

    /** The answer ends the session, and the tunnel then fails to stop. */
    ghost predicate LingersIn(v: View, control: Reply<Status>, stop: Stop) {
      v.session.Some? && control.Refused? && EndsSession(control.error) && v.tunnel.Some? && stop.Failing?
    }

    /** What asking about the lease does. Nothing but the lease changes unless the answer ends the session:
        then the request is given up, the tunnel stopped and the session forgotten, except when the
        tunnel would not stop. */
    ghost predicate Refreshed(before: View, renew: bool, control: Reply<Status>, stop: Stop, after: View,
                              r: Result<()>)
    {
      if before.session.None? then r == Err(NotEnrolled) && after == before
      else
        match control
        case Answered(status) =>
          if status.trusted then
            && r == Ok(())
            && after == before.(session := Some(before.session.value.(expiresAt := status.expiresAt)), failures := 0,
                                renewAt := if renew then Some(RenewalDeadline(status.at, status.expiresAt))
                                           else before.renewAt)
          else r == Err(InvalidResponse) && after == before
        case Refused(error) =>
          if error in {Api(401), Api(404), UpdateRequired} then
            var lingers := before.tunnel.Some? && stop.Failing?;
            && r == Err(if lingers then stop.error else error)
            && after == EndedIn(before, lingers)
          else r == Err(error) && after == before
    }

    method RefreshLocked(renew: bool, surfaceErrors: bool, control: Reply<Status>, stop: Stop) returns (r: Result<()>)
      requires Owns(tunnel)
      modifies `session, `renewAt, `controlFailures, `tunnel, `connectionRequested, `preferred, `probes
      modifies `snapshot, `trace
      ensures Owns(tunnel) && Continues(trace, old(trace), true)
      ensures Refreshed(old(Look()), renew, control, stop, Look(), r)
      ensures !(old(session).Some? && control.Refused? && EndsSession(control.error)) ==>
                snapshot.(issue := None) == old(snapshot).(issue := None)
    {
      hide Continues, Obeys, Live, StartedCount, Request, Answers;
      ContinuesOne(trace, GaveUp);
      if session.None? {
        return Err(NotEnrolled);
      }
      var error := InvalidResponse;
      match control {
        case Answered(status) =>
          if status.trusted {
            ApplyStatus(status.expiresAt, renew, status.at);
            return Ok(());
          }
        case Refused(e) =>
          error := e;
      }
      if EndsSession(error) {
        r := EndSession(error, stop);
        return;
      }
      if surfaceErrors {
        snapshot := snapshot.(issue := Some(error));
      }
      r := Err(error);
    }

    method EndSession(error: ClientError, stop: Stop) returns (r: Result<()>)
      requires Owns(tunnel) && session.Some?
      modifies `session, `renewAt, `controlFailures, `tunnel, `connectionRequested, `preferred, `probes
      modifies `snapshot, `trace
      ensures Owns(tunnel) && Continues(trace, old(trace), true)
      ensures var lingers := old(tunnel).Some? && stop.Failing?;
              && r == Err(if lingers then stop.error else error)
              && Look() == EndedIn(old(Look()), lingers)
    {
      hide Owns, Continues;
      r := Abandon(stop);
      EndOfContinues(old(trace), old(tunnel), r.Ok?);
      if r.Err? {
        Fail(r.error);
        return;
      }
      ForgetSession();
      Fail(error);
      r := Err(error);
    }

    /** Gives the request up and stops the tunnel, if there is one. */
    method Abandon(stop: Stop) returns (r: Result<()>)
      requires Owns(tunnel) && session.Some?
      modifies `tunnel, `connectionRequested, `preferred, `trace
      ensures Owns(tunnel) && !connectionRequested && preferred.None?
      ensures r == if old(tunnel).Some? && stop.Failing? then Err(stop.error) else Ok(())
      ensures tunnel == if r.Ok? then None else old(tunnel)
      ensures trace == if old(tunnel).Some? then Then(Then(old(trace), GaveUp), Stopped(old(tunnel).value, r.Ok?))
                       else Then(old(trace), GaveUp)
    {
      hide Owns, Continues;
      GiveUp();
      ForgetProtocol();
      r := StopHeld(stop);
    }

    method ForgetProtocol()
      requires Owns(tunnel) && !connectionRequested
      modifies `preferred
      ensures Owns(tunnel) && preferred.None? && Look() == old(Look()).(preferred := None)
    {
      preferred := None;
    }

    method GiveUp()
      requires Owns(tunnel)
      modifies `connectionRequested, `trace
      ensures Owns(tunnel) && !connectionRequested
      ensures trace == Then(old(trace), GaveUp) && Continues(trace, old(trace), true)
    {
      ContinuesOne(trace, GaveUp);
      connectionRequested := false;
      trace := Then(trace, GaveUp);
    }

    /** The renewal ends the request, and yet connecting goes on: the session's end could not stop the
        tunnel, and its error is taken for an unreachable control plane while the lease still runs. */
    ghost predicate LosesRequest(a: Renewal)
      reads this
    {
      && renewAt.Some? && renewAt.value <= a.now
      && LingersIn(Look(), a.control, a.stop) && a.stop.error.Network?
      && a.later < session.value.expiresAt
    }

    /** What renewing before a connection does: nothing before the deadline, and a refresh after it, whose
        failure to reach the control plane does not matter while the lease runs. */
    ghost predicate Renewed(before: View, a: Renewal, after: View, r: Result<()>) {
      if before.session.None? then r == Err(NotEnrolled) && after == before
      else if before.renewAt.None? || a.now < before.renewAt.value then r == Ok(()) && after == before
      else exists q :: RenewedWith(before, a, q, after, r)
    }

    ghost predicate RenewedWith(before: View, a: Renewal, q: Result<()>, after: View, r: Result<()>) {
      && before.session.Some?
      && Refreshed(before, true, a.control, a.stop, after, q)
      && r == if q.Err? && q.error.Network? && a.later < before.session.value.expiresAt then Ok(()) else q
    }

    method RenewBeforeConnect(a: Renewal) returns (r: Result<()>)
      requires Valid()
      modifies `session, `renewAt, `controlFailures, `tunnel, `connectionRequested, `preferred, `probes
      modifies `snapshot, `trace
      ensures Valid() && Continues(trace, old(trace), true)
      ensures r.Ok? ==> old(session).Some? && session.Some? && tunnel == old(tunnel)
                        && session.value.transports == old(session).value.transports
      ensures r.Ok? && !old(LosesRequest(a)) ==>
                connectionRequested == old(connectionRequested) && preferred == old(preferred) && trace == old(trace)
      ensures old(LosesRequest(a)) ==> r.Ok? && !connectionRequested && preferred.None?
      ensures old(session).Some? && (old(renewAt).None? || a.now < old(renewAt).value) ==>
                r == Ok(()) && Look() == old(Look())
      ensures Renewed(old(Look()), a, Look(), r)
    {
      hide Owns, Continues, EndOf;
      ContinuesOne(trace, GaveUp);
      if session.None? {
        return Err(NotEnrolled);
      }
      var expiresAt := session.value.expiresAt;
      if renewAt.None? || a.now < renewAt.value {
        return Ok(());
      }
      r := RefreshLocked(true, false, a.control, a.stop);
      ghost var refreshed := r;
      if r.Err? && r.error.Network? && a.later < expiresAt {
        ClearIssue();
        r := Ok(());
      }
      assert RenewedWith(old(Look()), a, refreshed, Look(), r);
    }

    method ClearIssue()
      requires Owns(tunnel)
      modifies `snapshot
      ensures Owns(tunnel) && snapshot == old(snapshot).(issue := None)
    {
      snapshot := snapshot.(issue := None);
    }

    /** Connects again without being asked; `connection_requested` survives a failure, so that the
        next maintenance tries once more. */
    method ReconnectLocked(a: ReconnectReply) returns (r: Result<()>)
      requires tunnel.None? && Owns(None) && connectionRequested
      modifies this
      ensures Valid() && Continues(trace, old(trace), true)
      ensures Reconnected(old(Look()), a, Look(), r)
    {
      assert session.Some?;
      hide Owns, Continues, HasCandidate, Succeeds, Attempted, Asked;
      r := ConnectAgain(a.attempts);
      ghost var mid, q := Look(), r;
      if r.Err? {
        r := AskAfterFailure(r.error, a.lease);
        ContinuesTransitive(trace, mid.trace, old(trace), true, true);
      } else {
        AskedNothing(mid, q, a.lease);
      }
      assert ReconnectedBy(old(Look()), a, mid, q, Look(), r);
    }

    /** What a reconnect needs of `ConnectLocked`. */
    method ConnectAgain(a: Attempts) returns (r: Result<()>)
      requires tunnel.None? && Owns(None) && session.Some? && connectionRequested
      modifies `tunnel, `tunnelsStarted, `connectionRequested, `trace, `snapshot, `records, `probes, `networkGeneration
      ensures Owns(tunnel) && Continues(trace, old(trace), true)
      ensures r.Ok? ==> Settled() && (connectionRequested <==> snapshot.phase == Connected)
      ensures r.Err? ==> snapshot.phase == ErrorPhase
      ensures HasCandidate(session, preferred) && Succeeds(a.tries(0)) ==> r.Ok? && tunnel.Some?
      ensures Attempted(old(Look()), a, Look(), r)
    {
      hide Owns, Continues, HasCandidate, Succeeds, RankingIn, Tried, Attempted;
      ghost var tried;
      r, tried := ConnectLocked(true, false, Done, a);
    }

    lemma AskedNothing(v: View, q: Result<()>, a: LeaseReply)
      requires q.Ok?
      ensures Asked(v, q, a, v, q)
    {
    }

    /** After a failed attempt, asks whether there still is a session. */
    method AskAfterFailure(error: ClientError, a: LeaseReply) returns (r: Result<()>)
      requires Owns(tunnel) && session.Some? && snapshot.phase == ErrorPhase
      modifies `session, `renewAt, `controlFailures, `tunnel, `connectionRequested, `preferred, `probes
      modifies `snapshot, `trace
      ensures Valid() && r.Err? && snapshot.phase == ErrorPhase && Continues(trace, old(trace), true)
      ensures Asked(old(Look()), Err(error), a, Look(), r)
    {
      hide Owns, Continues, EndOf;
      var due := renewAt.Some? && renewAt.value <= a.now;
      var refreshed := RefreshLocked(due, false, a.control, a.stop);
      if refreshed.Err? && EndsSession(refreshed.error) {
        return refreshed;
      }
      Fail(error);
      r := Err(error);
      assert Refreshed(old(Look()), due, a.control, a.stop, Look(), refreshed);
    }

    /** How a reconnect ends: with a tunnel or cancelled, or in the error phase; with a tunnel if the first
        of the candidates there are works; and after a failed attempt the lease is asked about, which
        decides only if the session is over. */
    ghost predicate Reconnected(before: View, a: ReconnectReply, after: View, r: Result<()>) {
      && (r.Ok? ==> (after.requested <==> after.phase == Connected))
      && (r.Err? ==> after.phase == ErrorPhase)
      && (HasCandidate(before.session, before.preferred) && Succeeds(a.attempts.tries(0)) ==>
            r.Ok? && after.tunnel.Some?)
      && exists mid, q :: ReconnectedBy(before, a, mid, q, after, r)
    }

    ghost predicate ReconnectedBy(before: View, a: ReconnectReply, mid: View, q: Result<()>, after: View, r: Result<()>) {
      Attempted(before, a.attempts, mid, q) && Asked(mid, q, a.lease, after, r)
    }

    ghost predicate Asked(mid: View, q: Result<()>, a: LeaseReply, after: View, r: Result<()>) {
      if q.Ok? then after == mid && r == q
      else
        var due := mid.renewAt.Some? && mid.renewAt.value <= a.now;
        exists s: Result<()> :: Refreshed(mid, due, a.control, a.stop, after, s)
                                && r == if s.Err? && s.error in {Api(401), Api(404), UpdateRequired} then s else q
    }

    // ----- The public operations

    /** The manifest is one a session can be made of. */
    predicate Accepts(m: Manifest, now: nat) {
      m.trusted && m.expiresAt > now && 1 <= |m.transports| <= MAX_TRANSPORTS && UniqueIds(m.transports)
    }

    lemma AcceptsMeans(m: Manifest, now: nat)
      ensures Accepts(m, now) <==>
              && m.trusted && now < m.expiresAt && 1 <= |m.transports| <= 32
              && forall i, j :: 0 <= i < j < |m.transports| ==> m.transports[i].id != m.transports[j].id
    {
    }

    /** What enrolling does: a session is asked for if there is none and the code is well formed, and kept if
        the answer is accepted. */
    ghost predicate EnrolledBy(before: View, code: seq<Byte>, answer: Reply<Manifest>, now: nat, later: nat,
                               after: View, r: Result<()>)
    {
      if before.session.Some? || !IsAccessCode(code) then r == Err(InvalidInput) && after == before
      else
        var asked := before.(trace := EnrollmentOf(before.trace, code, answer, now));
        if answer.Answered? && Accepts(answer.value, now) then
          && r == Ok(())
          && after == asked.(session := Some(Session(answer.value.transports, answer.value.expiresAt)),
                             renewAt := Some(RenewalDeadline(later, answer.value.expiresAt)), phase := EnrolledPhase)
        else r.Err? && after == asked.(phase := ErrorPhase)
    }

    method Enroll(code: seq<Byte>, answer: Reply<Manifest>, now: nat, later: nat) returns (r: Result<()>)
      requires Valid()
      modifies this
      ensures Valid() && Continues(trace, old(trace), true)
      ensures old(session).Some? || !IsAccessCode(code) ==> r == Err(InvalidInput) && unchanged(this)
      ensures old(session).None? && IsAccessCode(code) ==>
                match answer
                case Refused(error) => r == Err(error)
                case Answered(m) =>
                  r == if m.trusted && now < m.expiresAt && 1 <= |m.transports| <= 32
                          && forall i, j :: 0 <= i < j < |m.transports| ==> m.transports[i].id != m.transports[j].id
                       then Ok(()) else Err(InvalidResponse)
      ensures EnrolledBy(old(Look()), code, answer, now, later, Look(), r)
    {
      assert session.None? ==> tunnel.None?;
      hide Continues, IsAccessCode, Owns, UniqueIds;
      ContinuesOne(trace, GaveUp);
      if !IsAccessCode(code) || session.Some? {
        return Err(InvalidInput);
      }
      ContinuesTwo(trace, CreateSession(code), ReleaseCalled);
      ContinuesTwo(trace, CreateSession(code), Enrolled);
      ContinuesOne(trace, CreateSession(code));
      Ask(code);
      match answer {
        case Refused(error) =>
          Fail(error);
          return Err(error);
        case Answered(m) =>
          AcceptsMeans(m, now);
          if !Accepts(m, now) {
            if m.readable {
              Release();
            }
            Fail(InvalidResponse);
            return Err(InvalidResponse);
          }
          Keep(m, later);
          r := Ok(());
      }
    }

    method Ask(code: seq<Byte>)
      requires tunnel.None? && Owns(None) && session.None? && IsAccessCode(code)
      modifies `snapshot, `trace
      ensures Owns(None) && Look() == old(Look()).(phase := Enrolling, trace := Then(old(trace), CreateSession(code)))
    {
      snapshot := snapshot.(phase := Enrolling, issue := None, reconnectAttempt := 0);
      trace := Then(trace, CreateSession(code));
    }

    method Keep(m: Manifest, later: nat)
      requires tunnel.None? && Owns(None) && session.None? && UniqueIds(m.transports)
      modifies `session, `renewAt, `snapshot, `trace
      ensures Valid()
      ensures Look() == old(Look()).(session := Some(Session(m.transports, m.expiresAt)),
                                     renewAt := Some(RenewalDeadline(later, m.expiresAt)), phase := EnrolledPhase,
                                     trace := Then(old(trace), Enrolled))
    {
      trace := Then(trace, Enrolled);
      renewAt := Some(RenewalDeadline(later, m.expiresAt));
      session := Some(Session(m.transports, m.expiresAt));
      snapshot := snapshot.(phase := EnrolledPhase, issue := None);
    }

    /** One session is asked for; a manifest that is not accepted is given back if its token is known. */
    ghost function EnrollmentOf(before: Trace, code: seq<Byte>, answer: Reply<Manifest>, now: nat): Trace {
      var asked := Then(before, CreateSession(code));
      match answer
      case Refused(_) => asked
      case Answered(m) =>
        if Accepts(m, now) then Then(asked, Enrolled)
        else if m.readable then Then(asked, ReleaseCalled)
        else asked
    }

    /** The call probes without a request in force: the renewal loses it, the tunnel it could not stop
        is down and stops now, and there is a transport to try. */
    ghost predicate Misled(a: ConnectReply)
      reads this
    {
      LosesRequest(a.renewal) && !a.running && a.stop.Done? && HasCandidate(session, None)
    }

    /** The same, of what the client looks like. */
    ghost predicate IsMisled(v: View, a: ConnectReply) {
      && v.renewAt.Some? && v.renewAt.value <= a.renewal.now
      && v.session.Some? && a.renewal.later < v.session.value.expiresAt
      && a.renewal.control.Refused? && EndsSession(a.renewal.control.error)
      && v.tunnel.Some? && a.renewal.stop == Failing(Network)
      && !a.running && a.stop.Done? && HasCandidate(v.session, None)
    }

    /** What a connect call does: the lease is renewed if that is due, then the connection is attempted;
        and a call that fails gives the request up. */
    ghost predicate Called(before: View, protocol: Option<Protocol>, a: ConnectReply, after: View, r: Result<()>) {
      var called := before.(requested := true, preferred := protocol,
                            trace := Then(before.trace, ConnectCalled(protocol)));
      AnswersCall(called, a, after, r)
    }

    ghost predicate AnswersCall(called: View, a: ConnectReply, after: View, r: Result<()>) {
      exists renewed, s, end :: AnsweredWith(called, a, renewed, s, end, after, r)
    }

    ghost predicate AnsweredWith(called: View, a: ConnectReply, renewed: View, s: Result<()>, end: View, after: View,
                                 r: Result<()>)
    {
      && Renewed(called, a.renewal, renewed, s)
      && (if s.Err? then r == s && end == renewed else Linked(renewed, a.running, a.stop, a.attempts, end, r))
      && after == if r.Ok? then end else end.(requested := false, trace := Then(end.trace, GaveUp))
    }

    /** A user's request to connect. It stays in force only when it leads to a tunnel. */
    method ConnectWithProtocol(protocol: Option<Protocol>, a: ConnectReply) returns (r: Result<()>)
      requires Valid()
      modifies this
      ensures Valid() && Continues(trace, old(trace), !old(Misled(a)))
      ensures old(session).None? ==> r == Err(NotEnrolled) && unchanged(this)
      ensures old(session).Some? ==> Extends(trace, Then(old(trace), ConnectCalled(protocol)))
      ensures r.Ok? ==> (connectionRequested <==> snapshot.phase == Connected && !old(Misled(a)))
      ensures r.Err? && old(session).Some? ==> !connectionRequested
      ensures old(session).Some? && (old(renewAt).None? || a.renewal.now < old(renewAt).value) ==>
                && session == old(session) && renewAt == old(renewAt)
                && (old(tunnel).None? && HasCandidate(session, protocol) && Succeeds(a.attempts.tries(0)) ==>
                      r.Ok? && tunnel.Some?)
      ensures old(session).Some? ==> Called(old(Look()), protocol, a, Look(), r)
    {
      hide Continues, Extends, Obeys, Live, StartedCount, Request, Answers, HasCandidate, Succeeds, AnswersCall;
      ContinuesOne(trace, ConnectCalled(protocol));
      if session.None? {
        return Err(NotEnrolled);
      }
      ghost var misled := Misled(a);
      Call(protocol);
      ghost var called := trace;
      assert Misled(a) == misled;
      r := Answer(a);
      ContinuesTransitive(trace, called, old(trace), !misled, true);
      ExtendsOf(trace, called, !misled);
    }

    /** Answers the request: renews the lease if that is due and connects, or gives the request up. */
    method Answer(a: ConnectReply) returns (r: Result<()>)
      requires Valid() && session.Some? && connectionRequested
      modifies this
      ensures Valid() && Continues(trace, old(trace), !old(Misled(a)))
      ensures r.Ok? ==> (connectionRequested <==> snapshot.phase == Connected && !old(Misled(a)))
      ensures r.Err? ==> !connectionRequested
      ensures old(renewAt).None? || a.renewal.now < old(renewAt).value ==>
                && session == old(session) && renewAt == old(renewAt)
                && (old(tunnel).None? && HasCandidate(session, old(preferred)) && Succeeds(a.attempts.tries(0)) ==>
                      r.Ok? && tunnel.Some?)
      ensures AnswersCall(old(Look()), a, Look(), r)
    {
      hide Continues, Owns, Settled, Succeeds, Linked, Renewed;
      ghost var asked := true;
      ContinuesOne(trace, GaveUp);
      r := RenewBeforeConnect(a.renewal);
      ghost var view, s := Look(), r;
      if r.Ok? {
        ghost var renewed, tried := trace, 0;
        asked := connectionRequested;
        r, tried := ConnectOnce(a);
        asked := asked || tried == 0;
        ContinuesTransitive(trace, renewed, old(trace), asked, true);
      }
      assert asked <==> !old(Misled(a));
      ghost var end := Look();
      if r.Err? {
        GiveUp();
        ContinuesTransitive(trace, end.trace, old(trace), true, asked);
      }
      assert AnsweredWith(old(Look()), a, view, s, end, Look(), r);
    }

    /** What a connect call needs of `ConnectLocked`. */
    method ConnectOnce(a: ConnectReply) returns (r: Result<()>, ghost tried: nat)
      requires Valid() && session.Some?
      modifies `tunnel, `tunnelsStarted, `connectionRequested, `trace, `snapshot, `records, `probes, `networkGeneration
      ensures Valid()
      ensures r.Ok? ==> tried > 0 && Finished(old(connectionRequested))
      ensures Continues(trace, old(trace), old(connectionRequested) || tried == 0)
      ensures tried > 0 <==> (old(tunnel).None? || (!a.running && a.stop.Done?)) && HasCandidate(session, preferred)
      ensures tried > 0 && Succeeds(a.attempts.tries(0)) ==> r.Ok? && tunnel.Some?
      ensures Linked(old(Look()), a.running, a.stop, a.attempts, Look(), r)
    {
      hide Continues, Obeys, Live, StartedCount, Request, Answers, HasCandidate, Succeeds, RankingIn, Tried, Linked;
      r, tried := ConnectLocked(false, a.running, a.stop, a.attempts);
    }

    method Call(protocol: Option<Protocol>)
      requires Owns(tunnel) && session.Some?
      modifies `connectionRequested, `preferred, `snapshot, `trace
      ensures Owns(tunnel) && (old(Settled()) ==> Settled()) && snapshot == old(snapshot).(preferred := protocol)
      ensures connectionRequested && preferred == protocol && trace == Then(old(trace), ConnectCalled(protocol))
    {
      trace := Then(trace, ConnectCalled(protocol));
      connectionRequested, preferred := true, protocol;
      snapshot := snapshot.(preferred := protocol);
    }

    method Refresh(renew: bool, control: Reply<Status>, stop: Stop) returns (r: Result<()>)
      requires Valid()
      modifies this
      ensures Valid() && Continues(trace, old(trace), true)
      ensures Refreshed(old(Look()), renew, control, stop, Look(), r)
    {
      r := RefreshLocked(renew, true, control, stop);
    }

    /** A tunnel is replaced: stopped before anything else is done, and kept if it would not stop; then its
        loss is noted, unless the network is to blame, and a reconnect follows. */
    ghost predicate Replaced(before: View, stop: Stop, lost: Option<Loss>, a: ReconnectReply, after: View,
                             r: Result<()>)
      requires before.tunnel.Some?
    {
      var stopped := before.(trace := Then(before.trace, Stopped(before.tunnel.value, stop.Done?)));
      match stop
      case Failing(error) => r == Err(error) && after == stopped
      case Done =>
        && Continues(after.trace, stopped.trace, true)
        && exists known :: LossNoted(before.records, lost, known)
                           && Reconnected(stopped.(tunnel := None, records := known), a, after, r)
    }

    ghost predicate LossNoted(before: map<string, Record>, lost: Option<Loss>, after: map<string, Record>) {
      match lost
      case None => after == before
      case Some(Loss(id, now)) => IsNoted(before, Failure(id, now, policy.failureCooldown), after)
    }

    method Replace(stop: Stop, lost: Option<Loss>, a: ReconnectReply) returns (r: Result<()>)
      requires Valid() && tunnel.Some? && connectionRequested
      modifies this
      ensures Valid() && Continues(trace, old(trace), true)
      ensures Replaced(old(Look()), stop, lost, a, Look(), r)
    {
      hide Continues, Owns, Reconnected, IsNoted;
      var taken := tunnel.value;
      tunnel := None;
      var stopped := StopAndRetainOnFailure(taken, stop);
      if stopped.Err? {
        return stopped;
      }
      ghost var stop := trace;
      if lost.Some? {
        RecordLostTunnel(lost.value.id, lost.value.now);
      }
      ghost var start := Look();
      assert LossNoted(old(records), lost, start.records);
      r := ReconnectLocked(a);
      ContinuesTransitive(trace, stop, old(trace), true, true);
    }

    /** What an unreachable control plane does. A tunnel in use is left alone at the first failure in a row,
        without a network, and with a healthy route; otherwise it is replaced. */
    ghost predicate Rerouted(before: View, a: RouteReply, after: View, r: Result<()>) {
      if !before.requested || before.tunnel.None? then
        r == Err(Network) && after == before.(failures := Min(before.failures + 1, 255))
      else if a.offline || before.failures == 0 || a.healthy then
        r == Ok(()) && after == before.(failures := Min(before.failures + 1, 255))
      else Replaced(before.(failures := 0), a.stop, Some(Loss(a.id, a.now)), a.reconnect, after, r)
    }

    /** What keeping the lease does: an answer counts as for any refresh, and an unreachable control plane
        lets the route be looked at. A session's end whose tunnel fails to stop with a network error is
        counted as an unreachable control plane, too. */
    ghost predicate Maintained(before: View, lease: LeaseReply, route: RouteReply, after: View, r: Result<()>) {
      if before.session.Some? && lease.control == Refused(Network) then Rerouted(before, route, after, r)
      else
        var due := before.renewAt.Some? && before.renewAt.value <= lease.now;
        if LingersIn(before, lease.control, lease.stop) && lease.stop.error.Network? then
          && r == Err(Network)
          && after == EndedIn(before, true).(failures := Min(before.failures + 1, 255))
        else Refreshed(before, due, lease.control, lease.stop, after, r)
    }

    /** What a round of maintenance does: a tunnel that is down is replaced, or just stopped if no request
        is in force; a request without a tunnel is connected; otherwise the lease is kept. */
    ghost predicate MaintainedOnce(before: View, a: MaintainReply, after: View, r: Result<()>) {
      if before.tunnel.None? then
        if before.requested then Reconnected(before, a.route.reconnect, after, r)
        else Maintained(before, a.lease, a.route, after, r)
      else if a.running then Maintained(before, a.lease, a.route, after, r)
      else if before.requested || a.stop.Failing? then
        Replaced(before, a.stop, Some(Loss(a.route.id, a.route.now)), a.route.reconnect, after, r)
      else
        var stopped := before.(tunnel := None, phase := EnrolledPhase,
                               trace := Then(before.trace, Stopped(before.tunnel.value, true)));
        Maintained(stopped, a.lease, a.route, after, r)
    }

    /** One round of background maintenance: replaces a tunnel that is down, connects if a request is in
        force and there is no tunnel, and otherwise keeps the lease. */
    method MaintainOnce(a: MaintainReply) returns (r: Result<()>)
      requires Valid()
      modifies this
      ensures Valid() && Continues(trace, old(trace), true)
      ensures !old(connectionRequested) ==> !connectionRequested && tunnelsStarted == old(tunnelsStarted)
      ensures MaintainedOnce(old(Look()), a, Look(), r)
    {
      hide Continues, Obeys, Live, StartedCount, Request, Answers, Reconnected, Maintained;
      ContinuesOne(trace, GaveUp);
      var hadTunnel := tunnel.Some?;
      if tunnel.Some? && !a.running {
        if connectionRequested {
          r := Replace(a.stop, Some(Loss(a.route.id, a.route.now)), a.route.reconnect);
          return;
        }
        var lost := tunnel.value;
        tunnel := None;
        var stopped := StopAndRetainOnFailure(lost, a.stop);
        ContinuesOne(trace, GaveUp);
        if stopped.Err? {
          return stopped;
        }
        snapshot := snapshot.(phase := EnrolledPhase, active := None, latency := None,
                              reconnectAttempt := 0, issue := None);
      }
      if !hadTunnel && connectionRequested {
        r := ReconnectLocked(a.route.reconnect);
        return;
      }
      ghost var before := trace;
      r := MaintainLease(a.lease, a.route);
      ContinuesTransitive(trace, before, old(trace), true, true);
    }

    /** Keeps the lease, renewing it when that is due. */
    method MaintainLease(lease: LeaseReply, route: RouteReply) returns (r: Result<()>)
      requires Valid()
      modifies this
      ensures Valid() && Continues(trace, old(trace), true)
      ensures !old(connectionRequested) ==> !connectionRequested && tunnelsStarted == old(tunnelsStarted)
      ensures Maintained(old(Look()), lease, route, Look(), r)
    {
      hide Continues, Obeys, Live, StartedCount, Request, Answers, Replaced, EndOf;
      var due := renewAt.Some? && renewAt.value <= lease.now;
      r := RefreshLocked(due, false, lease.control, lease.stop);
      if r.Err? && r.error.Network? {
        ghost var before := trace;
        r := AfterControlFailure(route);
        ContinuesTransitive(trace, before, old(trace), true, true);
      }
    }

    method AfterControlFailure(a: RouteReply) returns (r: Result<()>)
      requires Valid()
      modifies this
      ensures Valid() && Continues(trace, old(trace), true)
      ensures !old(connectionRequested) ==> !connectionRequested && tunnelsStarted == old(tunnelsStarted)
      ensures Rerouted(old(Look()), a, Look(), r)
    {
      hide Continues, Obeys, Live, StartedCount, Request, Answers, Replaced;
      ContinuesOne(trace, GaveUp);
      controlFailures := Min(controlFailures + 1, MAX_CONTROL_FAILURES);
      var active := connectionRequested && tunnel.Some?;
      var verify := controlFailures >= 2 && active;
      if active && a.offline {
        snapshot := snapshot.(issue := Some(Network));
        return Ok(());
      }
      if active && (!verify || a.healthy) {
        snapshot := snapshot.(issue := None);
        return Ok(());
      }
      if !verify {
        return Err(Network);
      }
      controlFailures := 0;
      r := Replace(a.stop, Some(Loss(a.id, a.now)), a.reconnect);
    }

    /** A run in which the user stops the tunnel, if there is one. */
    ghost function StopOf(before: Trace, held: Option<Tunnel>, ok: bool): Trace {
      var called := Then(before, StopCalled);
      if held.Some? then Then(called, Stopped(held.value, ok)) else called
    }

    lemma StopOfContinues(before: Trace, held: Option<Tunnel>, ok: bool)
      ensures var stopped := StopOf(before, held, ok);
              && Continues(stopped, before, true)
              && Continues(Then(stopped, ReleaseCalled), before, true)
              && Continues(Then(Then(stopped, ReleaseCalled), SessionEnded), before, true)
    {
      hide Continues;
      var stopped := StopOf(before, held, ok);
      ContinuesOne(before, StopCalled);
      if held.Some? {
        ContinuesTwo(before, StopCalled, Stopped(held.value, ok));
      }
      ContinuesOne(stopped, ReleaseCalled);
      ContinuesTwo(stopped, ReleaseCalled, SessionEnded);
      ContinuesTransitive(Then(stopped, ReleaseCalled), stopped, before, true, true);
      ContinuesTransitive(Then(Then(stopped, ReleaseCalled), SessionEnded), stopped, before, true, true);
    }

    /** The user wants no connection any more. */
    method EndRequest()
      requires Owns(tunnel)
      modifies `connectionRequested, `trace
      ensures Owns(tunnel) && !connectionRequested && trace == Then(old(trace), StopCalled)
      ensures Look() == old(Look()).(requested := false, trace := Then(old(trace), StopCalled))
    {
      trace := Then(trace, StopCalled);
      connectionRequested := false;
    }

    method Show(phase: Phase)
      requires Owns(tunnel)
      modifies `snapshot
      ensures Owns(tunnel) && snapshot == old(snapshot).(phase := phase, issue := None)
      ensures Look() == old(Look()).(phase := phase)
    {
      snapshot := snapshot.(phase := phase, issue := None);
    }

    /** Shows that there is no tunnel. */
    method ShowIdle(phase: Phase)
      requires Owns(tunnel)
      modifies `snapshot
      ensures Owns(tunnel)
      ensures snapshot == old(snapshot).(phase := phase, active := None, latency := None, reconnectAttempt := 0,
                                         issue := None)
      ensures Look() == old(Look()).(phase := phase)
    {
      snapshot := snapshot.(phase := phase, active := None, latency := None, reconnectAttempt := 0, issue := None);
    }

    /** Stops the tunnel, if there is one. */
    method StopHeld(stop: Stop) returns (r: Result<()>)
      requires Owns(tunnel)
      modifies `tunnel, `trace
      ensures Owns(tunnel) && r == (if old(tunnel).Some? && stop.Failing? then Err(stop.error) else Ok(()))
      ensures tunnel == if r.Ok? then None else old(tunnel)
      ensures trace == if old(tunnel).Some? then Then(old(trace), Stopped(old(tunnel).value, r.Ok?)) else old(trace)
      ensures Look() == old(Look()).(tunnel := tunnel, trace := trace)
    {
      hide Owns, Continues;
      var taken := tunnel;
      tunnel := None;
      r := Ok(());
      if taken.Some? {
        r := StopAndRetainOnFailure(taken.value, stop);
      }
    }

    /** What stopping does: the request is over, and the tunnel unless it would not stop. */
    ghost function StoppedIn(v: View, stop: Stop): View {
      var stopped := v.(requested := false, failures := 0,
                        trace := StopOf(v.trace, v.tunnel, v.tunnel.None? || stop.Done?));
      if v.tunnel.Some? && stop.Failing? then stopped.(phase := ErrorPhase)
      else stopped.(tunnel := None, phase := if v.session.Some? then EnrolledPhase else Disconnected)
    }

    /** What disconnecting does: the request is over, then the tunnel unless it would not stop, then the
        session unless the server would not take it back. */
    ghost function DisconnectedIn(v: View, stop: Stop, release: Reply<()>): View {
      var stopped := v.(requested := false, preferred := None,
                        trace := StopOf(v.trace, v.tunnel, v.tunnel.None? || stop.Done?));
      if v.tunnel.Some? && stop.Failing? then stopped.(phase := ErrorPhase)
      else if v.session.None? then stopped.(phase := Disconnected)
      else GivenBack(stopped.(tunnel := None), release)
    }

    ghost function GivenBack(v: View, release: Reply<()>): View {
      var released := v.(trace := Then(v.trace, ReleaseCalled));
      if release.Refused? && release.error !in {Api(401), Api(404)} then released.(phase := ErrorPhase)
      else released.(session := None, renewAt := None, failures := 0, cache := map[], phase := Disconnected,
                     trace := Then(released.trace, SessionEnded))
    }

    method Disconnect(stop: Stop, release: Reply<()>) returns (r: Result<()>)
      requires Valid()
      modifies this
      ensures Valid() && !connectionRequested && tunnelsStarted == old(tunnelsStarted)
      ensures r == if old(tunnel).Some? && stop.Failing? then Err(stop.error)
                   else if old(session).None? || release.Answered? || release.error in {Api(401), Api(404)} then Ok(())
                   else Err(release.error)
      ensures Look() == DisconnectedIn(old(Look()), stop, release) && Continues(trace, old(trace), true)
    {
      assert tunnel.Some? ==> session.Some?;
      hide Owns, Settled, Continues;
      StopOfContinues(trace, tunnel, true);
      StopOfContinues(trace, tunnel, false);
      EndRequest();
      ForgetProtocol();
      if tunnel.None? && session.None? {
        ShowIdle(Disconnected);
        return Ok(());
      }
      r := Leave(stop, release);
    }

    method Leave(stop: Stop, release: Reply<()>) returns (r: Result<()>)
      requires Owns(tunnel) && session.Some? && !connectionRequested
      modifies `session, `renewAt, `controlFailures, `tunnel, `probes, `snapshot, `trace
      ensures Valid()
      ensures r == if old(tunnel).Some? && stop.Failing? then Err(stop.error)
                   else if release.Answered? || IsUnauthorized(release.error) then Ok(())
                   else Err(release.error)
      ensures var stopped := if old(tunnel).Some? then Then(old(trace), Stopped(old(tunnel).value, stop.Done?))
                             else old(trace);
              Look() == if old(tunnel).Some? && stop.Failing?
                        then old(Look()).(phase := ErrorPhase, trace := stopped)
                        else GivenBack(old(Look()).(tunnel := None, trace := stopped), release)
    {
      hide Owns, Continues;
      Show(Disconnecting);
      r := StopHeld(stop);
      if r.Err? {
        Fail(r.error);
        return;
      }
      ShowIdle(Disconnecting);
      r := GiveBack(release);
    }

    /** Gives the session back and forgets it; that the server does not know it any more is as good. */
    method GiveBack(release: Reply<()>) returns (r: Result<()>)
      requires tunnel.None? && Owns(None) && session.Some? && !connectionRequested
      modifies `session, `renewAt, `controlFailures, `probes, `snapshot, `trace
      ensures r == if release.Answered? || IsUnauthorized(release.error) then Ok(()) else Err(release.error)
      ensures Owns(None) && (r.Ok? ==> snapshot.active.None? && snapshot.latency.None?)
      ensures Look() == GivenBack(old(Look()), release)
    {
      Release();
      if release.Refused? && !IsUnauthorized(release.error) {
        Fail(release.error);
        return Err(release.error);
      }
      ForgetSession();
      snapshot := snapshot.(phase := Disconnected, issue := None);
      r := Ok(());
    }

    ghost method Release()
      requires tunnel.None? && Owns(None)
      modifies `trace
      ensures Owns(None) && Look() == old(Look()).(trace := Then(old(trace), ReleaseCalled))
    {
      trace := Then(trace, ReleaseCalled);
    }

    /** Stops forwarding and keeps the lease. */
    method StopTunnel(stop: Stop) returns (r: Result<()>)
      requires Valid()
      modifies this
      ensures Valid() && tunnelsStarted == old(tunnelsStarted)
      ensures r == if old(tunnel).Some? && stop.Failing? then Err(stop.error) else Ok(())
      ensures Look() == StoppedIn(old(Look()), stop) && Continues(trace, old(trace), true)
    {
      hide Owns, Continues;
      StopOfContinues(trace, tunnel, true);
      StopOfContinues(trace, tunnel, false);
      EndRequest();
      controlFailures := 0;
      Show(Disconnecting);
      r := StopHeld(stop);
      if r.Err? {
        Fail(r.error);
        return;
      }
      ShowIdle(if session.Some? then EnrolledPhase else Disconnected);
    }

    ghost predicate VerifiedRoute(before: View, a: RouteReply, after: View, r: Result<()>) {
      if before.requested && before.tunnel.Some? && !a.offline && !a.healthy
      then Replaced(before, a.stop, None, a.reconnect, after, r)
      else r == Ok(()) && after == before
    }

    /** A change of network: a tunnel in use stays without a network or with a healthy route, and is
        replaced at once otherwise. */
    method VerifyAfterNetworkChange(a: RouteReply) returns (r: Result<()>)
      requires Valid()
      modifies this
      ensures Valid() && Continues(trace, old(trace), true)
      ensures VerifiedRoute(old(Look()), a, Look(), r)
    {
      hide Owns, Continues, Replaced;
      ContinuesOne(trace, GaveUp);
      if tunnel.None? || !connectionRequested || a.offline || a.healthy {
        return Ok(());
      }
      r := Replace(a.stop, None, a.reconnect);
    }

    /** True when the tunnel reports another network than the one last known, which it then is. */
    method NetworkMoved(offline: bool, generation: nat) returns (moved: bool)
      requires Valid()
      modifies `networkGeneration
      ensures Valid()
      ensures moved <==> tunnel.Some? && !offline && generation != old(networkGeneration)
      ensures networkGeneration == if moved then generation else old(networkGeneration)
    {
      if tunnel.None? || offline || generation == networkGeneration {
        return false;
      }
      networkGeneration := generation;
      return true;
    }

    /** Settings for later connections; they need no operation lock. */
    method Configure(excluded: set<Protocol>, hasMemory: bool)
      requires Valid()
      modifies `excluded, `hasMemory
      ensures Valid() && this.excluded == excluded && this.hasMemory == hasMemory
    {
      this.excluded, this.hasMemory := excluded, hasMemory;
    }
  }

  // ----- Whole runs

  datatype Operation =
    | DoEnroll(code: seq<Byte>, answer: Reply<Manifest>, now: nat, later: nat)
    | DoConnect(protocol: Option<Protocol>, reply: ConnectReply)
    | DoRefresh(renew: bool, control: Reply<Status>, stop: Stop)
    | DoMaintain(maintain: MaintainReply)
    | DoVerify(route: RouteReply)
    | DoStop(stop: Stop)
    | DoDisconnect(stop: Stop, release: Reply<()>)
    | DoCheckNetwork(offline: bool, generation: nat)
    | DoConfigure(excluded: set<Protocol>, hasMemory: bool)

  /** One operation, as it changes a client: what it tries is requested if and only if it is not a misled
      connect call, and what it leaves is decided by what it found and what the outside answered. */
  ghost predicate Stepped(client: KetClient, before: View, o: Operation, after: View) {
    && Continues(after.trace, before.trace, !(o.DoConnect? && client.IsMisled(before, o.reply)))
    && exists r :: Effect(client, before, o, after, r)
  }

  ghost predicate Effect(client: KetClient, before: View, o: Operation, after: View, r: Result<()>) {
    match o
    case DoEnroll(code, answer, now, later) => client.EnrolledBy(before, code, answer, now, later, after, r)
    case DoConnect(protocol, reply) =>
      if before.session.None? then r == Err(NotEnrolled) && after == before
      else client.Called(before, protocol, reply, after, r)
    case DoRefresh(renew, control, stop) => client.Refreshed(before, renew, control, stop, after, r)
    case DoMaintain(maintain) => client.MaintainedOnce(before, maintain, after, r)
    case DoVerify(route) => client.VerifiedRoute(before, route, after, r)
    case DoStop(stop) => after == client.StoppedIn(before, stop)
    case DoDisconnect(stop, release) => after == client.DisconnectedIn(before, stop, release)
    case DoCheckNetwork(_, _) => after == before
    case DoConfigure(excluded, hasMemory) => after == before.(excluded := excluded, hasMemory := hasMemory)
  }

  method Perform(client: KetClient, o: Operation)
    requires client.Valid()
    modifies client
    ensures client.Valid() && Stepped(client, old(client.Look()), o, client.Look())
  {
    hide Continues, KetClient.Owns, KetClient.Settled, KetClient.EnrolledBy, KetClient.Called, KetClient.Refreshed;
    hide KetClient.MaintainedOnce, KetClient.VerifiedRoute, KetClient.StoppedIn, KetClient.DisconnectedIn;
    ContinuesOne(client.trace, GaveUp);
    var r := Ok(());
    match o {
      case DoEnroll(code, answer, now, later) => r := client.Enroll(code, answer, now, later);
      case DoConnect(protocol, reply) => r := client.ConnectWithProtocol(protocol, reply);
      case DoRefresh(renew, control, stop) => r := client.Refresh(renew, control, stop);
      case DoMaintain(reply) => r := client.MaintainOnce(reply);
      case DoVerify(reply) => r := client.VerifyAfterNetworkChange(reply);
      case DoStop(stop) => r := client.StopTunnel(stop);
      case DoDisconnect(stop, release) => r := client.Disconnect(stop, release);
      case DoCheckNetwork(offline, generation) => var _ := client.NetworkMoved(offline, generation);
      case DoConfigure(excluded, hasMemory) => client.Configure(excluded, hasMemory);
    }
    assert Effect(client, old(client.Look()), o, client.Look(), r);
  }

  /** A run: what the client looked like before each operation and in the end. */
  ghost predicate IsRun(client: KetClient, operations: seq<Operation>, views: seq<View>) {
    && |views| == |operations| + 1
    && views[0] == NewView()
    && forall i :: 0 <= i < |operations| ==> Stepped(client, views[i], operations[i], views[i + 1])
  }

  /** Every run, of any operations and with any answers from outside, obeys the rules of ownership and
      addresses from its first event to its last; the tunnel the client holds is the only one that
      runs; and what the client shows is what is the case. */
  method Run(policy: Policy, supports: Transport -> bool, operations: seq<Operation>)
    returns (client: KetClient, ghost views: seq<View>)
    ensures client.Valid() && fresh(client) && client.supports == supports
    ensures Obeys(client.trace) && Live(client.trace) == Held(client.tunnel)
    ensures IsRun(client, operations, views) && views[|operations|].trace == client.trace
  {
    hide Stepped;
    client := new KetClient(policy, supports);
    views := [client.Look()];
    for i := 0 to |operations|
      invariant client.Valid() && fresh(client) && |views| == i + 1 && views[i] == client.Look()
      invariant views[0] == NewView()
      invariant forall k :: 0 <= k < i ==> Stepped(client, views[k], operations[k], views[k + 1])
    {
      Perform(client, operations[i]);
      views := views + [client.Look()];
    }
  }

  /** A run tries only what was requested exactly when none of its connect calls is misled; only a tunnel
      that fails to stop with a network error can mislead one. */
  lemma {:induction false} HeedsUnlessMisled(client: KetClient, operations: seq<Operation>, views: seq<View>)
    requires IsRun(client, operations, views)
    ensures Heeds(views[|operations|].trace) <==>
            forall i :: 0 <= i < |operations| && operations[i].DoConnect? ==>
              !client.IsMisled(views[i], operations[i].reply)
    ensures (forall i :: 0 <= i < |operations| && operations[i].DoConnect? ==>
               operations[i].reply.renewal.stop != Failing(Network)) ==>
            Heeds(views[|operations|].trace)
  {
    if operations != [] {
      hide Stepped, Heeds, KetClient.IsMisled;
      var last := |operations| - 1;
      assert IsRun(client, operations[..last], views[..last + 1]);
      HeedsUnlessMisled(client, operations[..last], views[..last + 1]);
      HeedsStep(client, operations, views, last);
    }
  }

  lemma {:induction false} HeedsStep(client: KetClient, operations: seq<Operation>, views: seq<View>, last: nat)
    requires |views| == |operations| + 1 && last + 1 == |operations|
    requires Stepped(client, views[last], operations[last], views[last + 1])
    requires Heeds(views[last].trace) <==>
             forall i :: 0 <= i < last && operations[i].DoConnect? ==>
               !client.IsMisled(views[i], operations[i].reply)
    ensures Heeds(views[last + 1].trace) <==>
            forall i :: 0 <= i < |operations| && operations[i].DoConnect? ==>
              !client.IsMisled(views[i], operations[i].reply)
    ensures operations[last].DoConnect? && operations[last].reply.renewal.stop != Failing(Network) ==>
              !client.IsMisled(views[last], operations[last].reply)
  {
    hide Heeds, Extends, Effect;
  }

  /** With tunnels that never report a failed stop as a network error, as both kinds in use do not,
      every run tries only what was requested. */
  method RunWithTransportErrors(policy: Policy, supports: Transport -> bool, operations: seq<Operation>)
    returns (client: KetClient)
    requires forall i :: 0 <= i < |operations| && operations[i].DoConnect? ==>
               operations[i].reply.renewal.stop != Failing(Network)
    ensures client.Valid() && fresh(client) && Heeds(client.trace)
  {
    ghost var views;
    client, views := Run(policy, supports, operations);
    hide IsRun, Heeds;
    HeedsUnlessMisled(client, operations, views);
  }

  /** A run that probes without a request: the tunnel is down and the lease due for renewal when the
      user connects again; the server does not know the session any more; the tunnel fails to stop,
      with a network error; and stops at the second attempt. */
  method MisledRun(policy: Policy) returns (client: KetClient)
    ensures client.Valid() && !Heeds(client.trace)
  {
    hide Heeds, Obeys, Live, StartedCount, Request, Answers, Tried, Extends, KetClient.Called;
    var t := Transport("a", WireGuard, "vpn.example", 51820, 0, None);
    var code := seq(ACCESS_CODE_BYTES, _ => 0x6b);
    var works := TryReply(Some(Answered(ProbeReport([]))), Some(Answered(Dialling(20, 0))), false, Done, 0);
    var attempts := Attempts(map[], 0, _ => works);
    var idle := Renewal(20, Refused(Network), Done, 20);
    var lost := Renewal(60, Refused(Api(401)), Failing(Network), 61);
    client := new KetClient(policy, _ => true);
    var enrolled := client.Enroll(code, Answered(Manifest([t], 100, true, true)), 10, 10);
    assert client.session.value.transports[0] == t;
    var first := client.ConnectWithProtocol(Some(WireGuard), ConnectReply(idle, false, Done, attempts));
    assert client.session.value.transports[0] == t;
    assert client.Misled(ConnectReply(lost, false, Done, attempts));
    var second := client.ConnectWithProtocol(Some(WireGuard), ConnectReply(lost, false, Done, attempts));
  }
}
