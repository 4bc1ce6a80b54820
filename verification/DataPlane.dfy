/** Provisioning sessions on several engines at once, and the Shadowsocks engine's port pool.

    What an engine answers is an input. The Shadowsocks manager is not even trusted to do what it says it
    did: unless it is honest, a request may change its own port in any way, whichever answer comes back. */
module DataPlane {
  import opened Sessions

  datatype Result<+T> = Ok(value: T) | Err

  // ----- Several engines

  /** What the engines answer: engine `j` takes a session or, refusing it, may serve it all the same; it
      gives sessions back or, failing to, still serves those it keeps. */
  datatype Answers = Answers(
    takes: nat -> bool,
    serves: nat -> bool,
    gives: nat -> bool,
    keeps: nat -> set<string>)

  /** A call of an engine. */
  datatype Call = Provisioned(engine: nat) | Kicked(engine: nat)

  /** What an engine serves after it was asked to take a session. */
  function AfterProvision(a: Answers, j: nat, served: set<string>, session: string): set<string> {
    if a.takes(j) || a.serves(j) then served + {session} else served - {session}
  }

  /** What an engine serves after it was asked to drop sessions. */
  function AfterKick(a: Answers, j: nat, served: set<string>, sessions: set<string>): set<string> {
    if a.gives(j) then served - sessions else served - sessions + a.keeps(j) * sessions
  }

  /** The first of `n` engines that does not take a session, or `n`. */
  function FirstRefusal(a: Answers, n: nat): (f: nat)
    ensures f <= n && (f < n ==> !a.takes(f)) && forall j :: 0 <= j < f ==> a.takes(j)
  {
    if n == 0 then 0
    else
      var f := FirstRefusal(a, n - 1);
      if f < n - 1 || !a.takes(n - 1) then f else n
  }

  /** The engines before the refusing one are asked for the session and, when it refuses, to give it
      back, the last of them first. */
  function CallsOf(refusal: nat, n: nat): seq<Call>
    requires refusal <= n
  {
    if refusal == n then Provisions(n) else Provisions(refusal + 1) + KicksBack(refusal, 0)
  }

  function Provisions(n: nat): seq<Call> {
    if n == 0 then [] else Provisions(n - 1) + [Provisioned(n - 1)]
  }

  function Kicks(n: nat): seq<Call> {
    if n == 0 then [] else Kicks(n - 1) + [Kicked(n - 1)]
  }

  /** From the engine before `count` down to `k`. */
  function KicksBack(count: nat, k: nat): seq<Call>
    decreases count - k
  {
    if k >= count then [] else KicksBack(count, k + 1) + [Kicked(k)]
  }

  class CompositeDataPlane {
    /** The sessions each engine serves. */
    var engines: seq<set<string>>
    ghost var calls: seq<Call>

    constructor (engines: seq<set<string>>)
      ensures this.engines == engines && calls == []
    {
      this.engines, calls := engines, [];
    }

    method ProvisionOne(k: nat, session: string, a: Answers) returns (ok: bool)
      requires k < |engines|
      modifies this
      ensures ok == a.takes(k) && engines == old(engines)[k := AfterProvision(a, k, old(engines)[k], session)]
      ensures calls == old(calls) + [Provisioned(k)]
    {
      calls := calls + [Provisioned(k)];
      engines := engines[k := AfterProvision(a, k, engines[k], session)];
      ok := a.takes(k);
    }

    method KickOne(k: nat, sessions: set<string>, a: Answers) returns (ok: bool)
      requires k < |engines|
      modifies this
      ensures ok == a.gives(k) && engines == old(engines)[k := AfterKick(a, k, old(engines)[k], sessions)]
      ensures calls == old(calls) + [Kicked(k)]
    {
      calls := calls + [Kicked(k)];
      engines := engines[k := AfterKick(a, k, engines[k], sessions)];
      ok := a.gives(k);
    }

    /** Provisions every engine, or takes the session back from those that have taken it. */
    method Provision(session: string, a: Answers) returns (r: Result<()>)
      modifies this
      ensures var f := FirstRefusal(a, |old(engines)|);
              && (r.Ok? <==> f == |old(engines)|)
              && calls == old(calls) + CallsOf(f, |old(engines)|)
              && |engines| == |old(engines)|
              && forall j :: 0 <= j < |engines| ==>
                   engines[j] == if j > f then old(engines)[j]
                                 else if j == f then AfterProvision(a, j, old(engines)[j], session)
                                 else if r.Ok? then old(engines)[j] + {session}
                                 else AfterKick(a, j, old(engines)[j] + {session}, {session})
      ensures r.Err? ==> (engines == old(engines) <==> Restores(old(engines), session, a))
    {
      ghost var f := FirstRefusal(a, |engines|);
      var k := 0;
      while k < |engines|
        invariant k <= |engines| == |old(engines)| && k <= f
        invariant forall j :: 0 <= j < k ==> engines[j] == old(engines)[j] + {session}
        invariant forall j :: k <= j < |engines| ==> engines[j] == old(engines)[j]
        invariant calls == old(calls) + Provisions(k)
      {
        var ok := ProvisionOne(k, session, a);
        assert calls == old(calls) + Provisions(k + 1);
        if !ok {
          RollBack(k, session, a);
          RestoresIff(old(engines), engines, session, a);
          return Err;
        }
        k := k + 1;
      }
      r := Ok(());
    }

    /** Takes the session back from the first `count` engines, the last one first. */
    method RollBack(count: nat, session: string, a: Answers)
      requires count <= |engines|
      modifies this
      ensures |engines| == |old(engines)| && calls == old(calls) + KicksBack(count, 0)
      ensures forall j :: 0 <= j < count ==> engines[j] == AfterKick(a, j, old(engines)[j], {session})
      ensures forall j :: count <= j < |engines| ==> engines[j] == old(engines)[j]
    {
      var k := count;
      while k > 0
        invariant 0 <= k <= count <= |engines| == |old(engines)|
        invariant forall j :: k <= j < count ==> engines[j] == AfterKick(a, j, old(engines)[j], {session})
        invariant forall j :: 0 <= j < |engines| && !(k <= j < count) ==> engines[j] == old(engines)[j]
        invariant calls == old(calls) + KicksBack(count, k)
      {
        k := k - 1;
        var _ := KickOne(k, {session}, a);
        assert calls == old(calls) + KicksBack(count, k);
      }
    }

    /** Every engine is asked, whatever the ones before it answered; the answer is a success exactly
        when all gave the sessions back. */
    method Kick(sessions: set<string>, a: Answers) returns (r: Result<()>)
      modifies this
      ensures r.Ok? <==> forall j :: 0 <= j < |engines| ==> a.gives(j)
      ensures |engines| == |old(engines)| && calls == old(calls) + Kicks(|engines|)
      ensures forall j :: 0 <= j < |engines| ==> engines[j] == AfterKick(a, j, old(engines)[j], sessions)
      ensures r.Ok? ==> forall j :: 0 <= j < |engines| ==> engines[j] !! sessions
    {
      var failures := 0;
      var k := 0;
      while k < |engines|
        invariant k <= |engines| == |old(engines)|
        invariant failures == 0 <==> forall j :: 0 <= j < k ==> a.gives(j)
        invariant forall j :: 0 <= j < k ==> engines[j] == AfterKick(a, j, old(engines)[j], sessions)
        invariant forall j :: k <= j < |engines| ==> engines[j] == old(engines)[j]
        invariant calls == old(calls) + Kicks(k)
      {
        var ok := KickOne(k, sessions, a);
        assert calls == old(calls) + Kicks(k + 1);
        if !ok {
          failures := failures + 1;
        }
        k := k + 1;
      }
      r := if failures == 0 then Ok(()) else Err;
    }
  }

  /** When a refused session leaves the engines as they were: each engine before the refusing one has
      the session now exactly when it had it before, and so has the refusing one. */
  ghost predicate Restores(engines: seq<set<string>>, session: string, a: Answers) {
    var f := FirstRefusal(a, |engines|);
    && (forall j :: 0 <= j < f ==> (session in engines[j] <==> !a.gives(j) && session in a.keeps(j)))
    && (f < |engines| ==> (session in engines[f] <==> a.serves(f)))
  }

  lemma RestoresIff(before: seq<set<string>>, after: seq<set<string>>, session: string, a: Answers)
    requires var f := FirstRefusal(a, |before|);
             && f < |before| == |after|
             && forall j :: 0 <= j < |after| ==>
                  after[j] == if j > f then before[j]
                              else if j == f then AfterProvision(a, j, before[j], session)
                              else AfterKick(a, j, before[j] + {session}, {session})
    ensures after == before <==> Restores(before, session, a)
  {
    var f := FirstRefusal(a, |before|);
    forall j | 0 <= j < f
      ensures after[j] == before[j] <==> (session in before[j] <==> !a.gives(j) && session in a.keeps(j))
    {
      OneSession(before[j], after[j], session);
    }
    OneSession(before[f], after[f], session);
  }

  lemma OneSession(before: set<string>, after: set<string>, session: string)
    requires after - {session} == before - {session}
    ensures after == before <==> (session in after <==> session in before)
  {
    if session in after <==> session in before {
      forall s ensures s in after <==> s in before {
        assert s != session ==> (s in after <==> s in after - {session}) && (s in before <==> s in before - {session});
      }
    }
  }

  /** Engines whose refusal has no effect and that give back what they took: a refused session leaves
      every engine as it was exactly when none of those before the refusing one served it already. */
  lemma LawfulEnginesRestore(engines: seq<set<string>>, session: string, a: Answers)
    requires forall j :: 0 <= j < |engines| ==> a.gives(j) && (a.serves(j) <==> session in engines[j])
    ensures Restores(engines, session, a) <==>
            forall j :: 0 <= j < FirstRefusal(a, |engines|) ==> session !in engines[j]
  {
    hide FirstRefusal;
  }

  /** Lawful engines, and a session that is lost where it was served already: the first engine has it,
      takes it again, and gives it back when the second one refuses it. */
  method LosesServedSession(session: string) returns (plane: CompositeDataPlane, a: Answers, r: Result<()>)
    ensures forall j :: 0 <= j < 2 ==> a.gives(j) && (a.serves(j) <==> session in [{session}, {}][j])
    ensures r.Err? && plane.engines == [{}, {}] && !Restores([{session}, {}], session, a)
  {
    a := Answers(j => j == 0, j => j == 0, _ => true, _ => {});
    plane := new CompositeDataPlane([{session}, {}]);
    assert FirstRefusal(a, 2) == 1;
    r := plane.Provision(session, a);
    assert plane.engines[0] == {} && plane.engines[1] == {};
    LawfulEnginesRestore([{session}, {}], session, a);
  }

  // ----- The Shadowsocks port pool

  class ShadowsocksControl {
    const portStart: nat
    const portEnd: nat
    /** The ports the manager serves. */
    var ports: set<nat>

    constructor (portStart: nat, portEnd: nat, ports: set<nat>)
      ensures this.portStart == portStart && this.portEnd == portEnd && this.ports == ports
    {
      this.portStart, this.portEnd, this.ports := portStart, portEnd, ports;
    }

    predicate Managed(port: nat) { portStart <= port <= portEnd }

    function SessionPort(s: Allocation): (r: Result<nat>)
      ensures r.Ok? <==> portStart + s.slot <= portEnd
      ensures r.Ok? ==> Managed(r.value) && r.value - portStart == s.slot
    {
      if portStart + s.slot <= portEnd then Ok(portStart + s.slot) else Err
    }

    /** A request to add or remove one port. An honest manager does it and says so; any other one may do
        anything with that port and answer anything, but leaves the other ports alone. */
    method Request(port: nat, add: bool, honest: bool) returns (ok: bool)
      modifies `ports
      ensures forall q :: q != port ==> (q in ports <==> q in old(ports))
      ensures honest ==> ok && (port in ports <==> add)
    {
      ok := *;
      var serves: bool := *;
      if honest {
        ok, serves := true, add;
      }
      ports := if serves then ports + {port} else ports - {port};
    }

    method ActivePorts(honest: bool) returns (r: Result<set<nat>>)
      ensures r.Ok? ==> r.value == ports
      ensures honest ==> r.Ok?
    {
      var ok: bool := *;
      r := if ok || honest then Ok(ports) else Err;
    }

    method AddServer(s: Allocation, honest: bool) returns (r: Result<nat>)
      modifies `ports
      ensures honest ==> r == SessionPort(s) && (r.Ok? ==> r.value in ports)
      ensures r.Ok? ==> r == SessionPort(s)
      ensures forall q :: SessionPort(s) != Ok(q) ==> (q in ports <==> q in old(ports))
    {
      var port := SessionPort(s);
      if !port.Ok? {
        return Err;
      }
      var ok := Request(port.value, true, honest);
      r := if ok then port else Err;
    }

    /** A lease that was provisioned is served, and no other port has changed. With an honest manager only
        a session without a port fails. */
    method Provision(s: Allocation, honest: bool) returns (r: Result<()>)
      modifies `ports
      ensures honest ==> (r.Ok? <==> SessionPort(s).Ok?)
      ensures r.Ok? ==> SessionPort(s).Ok? && SessionPort(s).value in ports
      ensures forall q :: SessionPort(s) != Ok(q) ==> (q in ports <==> q in old(ports))
    {
      var port := SessionPort(s);
      if !port.Ok? {
        return Err;
      }
      var removed := Request(port.value, false, honest);
      if !removed {
        return Err;
      }
      var added := AddServer(s, honest);
      if !added.Ok? {
        return Err;
      }
      var active := ActivePorts(honest);
      r := if active.Ok? && port.value in active.value then Ok(()) else Err;
    }

    ghost function SessionPorts(sessions: seq<Allocation>): set<nat> {
      set i | 0 <= i < |sessions| && SessionPort(sessions[i]).Ok? :: SessionPort(sessions[i]).value
    }

    /** After a successful reconciliation the pool serves exactly the sessions' ports; whatever
        happens, ports outside the pool are untouched. With an honest manager it fails exactly when some
        session has no port. */
    method Reconcile(sessions: seq<Allocation>, honest: bool) returns (r: Result<()>)
      modifies `ports
      ensures honest ==> (r.Ok? <==> forall i :: 0 <= i < |sessions| ==> SessionPort(sessions[i]).Ok?)
      ensures forall q :: !Managed(q) ==> (q in ports <==> q in old(ports))
      ensures r.Ok? ==> (forall i :: 0 <= i < |sessions| ==> SessionPort(sessions[i]).Ok?)
                        && forall q :: Managed(q) ==> (q in ports <==> q in SessionPorts(sessions))
    {
      var active := ActivePorts(honest);
      if !active.Ok? {
        return Err;
      }
      var stale: set<nat> := set q | q in active.value && Managed(q);
      while stale != {}
        invariant forall q :: q in stale ==> Managed(q)
        invariant honest ==> forall q :: q in ports && Managed(q) ==> q in stale
        invariant forall q :: !Managed(q) ==> (q in ports <==> q in old(ports))
        decreases |stale|
      {
        var port :| port in stale;
        var ok := Request(port, false, honest);
        if !ok {
          return Err;
        }
        stale := stale - {port};
      }
      var expected: set<nat> := {};
      for k := 0 to |sessions|
        invariant forall q :: !Managed(q) ==> (q in ports <==> q in old(ports))
        invariant forall i :: 0 <= i < k ==> SessionPort(sessions[i]).Ok?
        invariant expected == SessionPorts(sessions[..k])
        invariant honest ==> forall q :: Managed(q) ==> (q in ports <==> q in expected)
      {
        var added := AddServer(sessions[k], honest);
        if !added.Ok? {
          return Err;
        }
        PortsStep(sessions, k);
        expected := expected + {added.value};
      }
      assert sessions[..|sessions|] == sessions;
      active := ActivePorts(honest);
      if !active.Ok? {
        return Err;
      }
      var actual := set q | q in active.value && Managed(q);
      r := if actual == expected then Ok(()) else Err;
    }

    lemma PortsStep(sessions: seq<Allocation>, k: nat)
      requires k < |sessions| && SessionPort(sessions[k]).Ok?
      ensures SessionPorts(sessions[..k + 1]) == SessionPorts(sessions[..k]) + {SessionPort(sessions[k]).value}
    {
      assert sessions[..k + 1] == sessions[..k] + [sessions[k]];
      forall q | q in SessionPorts(sessions[..k]) ensures q in SessionPorts(sessions[..k + 1]) {
        var i :| 0 <= i < k && SessionPort(sessions[..k][i]) == Ok(q);
        assert sessions[..k + 1][i] == sessions[..k][i];
      }
      assert sessions[..k + 1][k] == sessions[k];
    }

    /** After a successful kick none of the sessions' ports is served; whatever happens, only those
        ports may have changed. */
    method Kick(sessions: seq<Allocation>, honest: bool) returns (r: Result<()>)
      modifies `ports
      ensures honest ==> (r.Ok? <==> forall i :: 0 <= i < |sessions| ==> SessionPort(sessions[i]).Ok?)
      ensures forall q :: q !in SessionPorts(sessions) ==> (q in ports <==> q in old(ports))
      ensures r.Ok? ==> forall i :: 0 <= i < |sessions| ==> SessionPort(sessions[i]).Ok?
      ensures r.Ok? ==> ports !! SessionPorts(sessions)
    {
      var removed: set<nat> := {};
      for k := 0 to |sessions|
        invariant forall q :: q !in SessionPorts(sessions) ==> (q in ports <==> q in old(ports))
        invariant forall i :: 0 <= i < k ==> SessionPort(sessions[i]).Ok?
        invariant removed == SessionPorts(sessions[..k])
        invariant honest ==> ports !! removed
      {
        var port := SessionPort(sessions[k]);
        if !port.Ok? {
          return Err;
        }
        assert port.value in SessionPorts(sessions);
        var ok := Request(port.value, false, honest);
        if !ok {
          return Err;
        }
        PortsStep(sessions, k);
        removed := removed + {port.value};
      }
      assert sessions[..|sessions|] == sessions;
      var active := ActivePorts(honest);
      assert honest ==> active.Ok? && active.value * removed == {};
      if !active.Ok? || active.value * removed != {} {
        return Err;
      }
      assert forall q :: q in removed ==> q !in active.value * removed;
      r := Ok(());
    }
  }
}
