/** An admin's change to one access grant, and the sessions it ends. */
module GrantAdmin {
  import opened Arithmetic
  import opened Sessions
  import opened Sets
  import opened Wrappers
  import opened Identifiers
  import opened Transports
  import opened Allowance

  datatype ProtocolAccess = All | Only(protocols: set<Protocol>)

  datatype Grant = Grant(
    id: string,
    name: string,
    maxConnections: nat,
    expiresAt: Option<nat>,
    paused: bool,
    protocols: ProtocolAccess,
    allowance: Option<DataAllowance>,
    allowanceSince: Option<nat>,
    usage: Option<PeriodUsage>)

  datatype Session = Session(id: string, grantId: string, slot: Option<nat>, issuedAt: nat, expiresAt: nat)

  /** What an edit sets; for the allowance, setting it to none differs from not setting it. */
  datatype Changes = Changes(
    name: Option<string>,
    maxConnections: Option<nat>,
    expiresAt: Option<nat>,
    paused: Option<bool>,
    protocols: Option<ProtocolAccess>,
    allowance: Option<Option<DataAllowance>>,
    resetUsage: bool)

  datatype ServiceError = NotFound | MissingSlot

  datatype Result<+T> = Ok(value: T) | Err(error: ServiceError)

  // ----- The grant

  function Or<T>(change: Option<T>, current: T): T {
    if change.Some? then change.value else current
  }

  function PeriodOf(a: Option<DataAllowance>): Option<Period> {
    if a.Some? then Some(a.value.period) else None
  }

  /** The edit changes over which period traffic is counted. */
  predicate RestartsCount(g: Grant, c: Changes) {
    c.allowance.Some? && PeriodOf(c.allowance.value) != PeriodOf(g.allowance)
  }

  function Edited(g: Grant, c: Changes, now: nat): Grant {
    g.(name := Or(c.name, g.name),
       paused := Or(c.paused, g.paused),
       protocols := Or(c.protocols, g.protocols),
       maxConnections := Or(c.maxConnections, g.maxConnections),
       expiresAt := if c.expiresAt.Some? then c.expiresAt else g.expiresAt,
       allowance := Or(c.allowance, g.allowance),
       allowanceSince := if !RestartsCount(g, c) then g.allowanceSince
                         else if c.allowance.value.Some? then Some(now) else None,
       usage := if RestartsCount(g, c) || c.resetUsage then None else g.usage)
  }

  predicate IsUsedUp(g: Grant, now: nat) { UsedUpUntil(g.allowance, g.usage, now).Some? }

  /** Whether the change ends every session: newly paused, other protocols, or used up. */
  predicate EndsAll(g: Grant, c: Changes, now: nat) {
    || (Or(c.paused, g.paused) && !g.paused)
    || Or(c.protocols, g.protocols) != g.protocols
    || IsUsedUp(Edited(g, c, now), now)
  }

  /** The fields that are replaced as given. */
  function EditedTerms(g: Grant, c: Changes): Grant {
    g.(name := Or(c.name, g.name),
       paused := Or(c.paused, g.paused),
       protocols := Or(c.protocols, g.protocols),
       maxConnections := Or(c.maxConnections, g.maxConnections),
       expiresAt := if c.expiresAt.Some? then c.expiresAt else g.expiresAt)
  }

  method EditTerms(before: Grant, c: Changes) returns (g: Grant, endAll: bool)
    ensures g == EditedTerms(before, c)
    ensures endAll <==>
            (Or(c.paused, before.paused) && !before.paused) || Or(c.protocols, before.protocols) != before.protocols
  {
    g, endAll := before, false;
    if c.name.Some? {
      g := g.(name := c.name.value);
    }
    if c.paused.Some? {
      endAll := endAll || (c.paused.value && !g.paused);
      g := g.(paused := c.paused.value);
    }
    if c.protocols.Some? {
      endAll := endAll || c.protocols.value != g.protocols;
      g := g.(protocols := c.protocols.value);
    }
    if c.maxConnections.Some? {
      g := g.(maxConnections := c.maxConnections.value);
    }
    if c.expiresAt.Some? {
      g := g.(expiresAt := c.expiresAt);
    }
  }

  /** The change sets an allowance over another period than the grant's, or removes it, or brings one. */
  predicate ChangesPeriod(g: Grant, c: Changes) {
    match c.allowance
    case None => false
    case Some(None) => g.allowance.Some?
    case Some(Some(wanted)) => g.allowance.None? || g.allowance.value.period != wanted.period
  }

  /** `after` is the grant as the change leaves it, field by field. */
  ghost predicate IsEdited(g: Grant, c: Changes, now: nat, after: Grant) {
    && after.id == g.id
    && after.name == (match c.name case Some(name) => name case None => g.name)
    && after.paused == (match c.paused case Some(paused) => paused case None => g.paused)
    && after.protocols == (match c.protocols case Some(protocols) => protocols case None => g.protocols)
    && after.maxConnections == (match c.maxConnections case Some(max) => max case None => g.maxConnections)
    && after.expiresAt == (match c.expiresAt case Some(end) => Some(end) case None => g.expiresAt)
    && after.allowance == (match c.allowance case Some(allowance) => allowance case None => g.allowance)
    && after.allowanceSince == (if !ChangesPeriod(g, c) then g.allowanceSince
                                else if after.allowance.Some? then Some(now) else None)
    && after.usage == (if ChangesPeriod(g, c) || c.resetUsage then None else g.usage)
  }

  /** The bytes the grant keeps of the period of `now`. */
  ghost function KeptBytes(g: Grant, now: nat): nat
    requires g.allowance.Some?
  {
    match g.usage
    case None => 0
    case Some(usage) => if usage.start == Start(g.allowance.value.period, now) then usage.used else 0
  }

  /** The change ends all sessions of a grant: it pauses one that was not paused, sets other protocols, or
      leaves an allowance that the bytes of the current period reach. */
  ghost predicate LeavesNone(g: Grant, c: Changes, now: nat, after: Grant) {
    || (c.paused == Some(true) && !g.paused)
    || (c.protocols.Some? && c.protocols.value != g.protocols)
    || (after.allowance.Some? && KeptBytes(after, now) >= after.allowance.value.bytes)
  }

  method EditGrant(before: Grant, c: Changes, now: nat) returns (g: Grant, endAll: bool)
    ensures IsEdited(before, c, now, g) && (endAll <==> LeavesNone(before, c, now, g))
    ensures g == Edited(before, c, now) && (endAll <==> EndsAll(before, c, now))
  {
    EditMeans(before, c, now);
    hide UsedUpUntil, Or;
    g, endAll := EditTerms(before, c);
    if c.allowance.Some? {
      assert Or(c.allowance, before.allowance) == c.allowance.value by { OrSome(c.allowance, before.allowance); }
      var wanted := c.allowance.value;
      if PeriodOf(wanted) != PeriodOf(g.allowance) {
        g := g.(usage := None, allowanceSince := if wanted.Some? then Some(now) else None);
      }
      g := g.(allowance := wanted);
    } else {
      OrSome(c.allowance, before.allowance);
    }
    if c.resetUsage {
      g := g.(usage := None);
    }
    endAll := endAll || UsedUpUntil(g.allowance, g.usage, now).Some?;
  }

  lemma EditMeans(g: Grant, c: Changes, now: nat)
    ensures IsEdited(g, c, now, Edited(g, c, now))
    ensures EndsAll(g, c, now) <==> LeavesNone(g, c, now, Edited(g, c, now))
  {
    hide Start, End;
  }

  lemma OrSome<T>(change: Option<T>, current: T)
    ensures Or(change, current) == if change.Some? then change.value else current
  {
  }

  // ----- Its sessions

  predicate Before(a: Session, b: Session) {
    a.issuedAt < b.issuedAt || (a.issuedAt == b.issuedAt && Less(a.id, b.id))
  }

  lemma BeforeOrder(a: Session, b: Session, c: Session)
    ensures Before(a, b) && Before(b, c) ==> Before(a, c)
    ensures !(Before(a, b) && Before(b, a)) && !Before(a, a)
    ensures a.id != b.id ==> Before(a, b) || Before(b, a)
  {
    if Less(a.id, b.id) && Less(b.id, c.id) { LessTransitive(a.id, b.id, c.id); }
    LessTotal(a.id, b.id);
    LessTotal(a.id, a.id);
  }

  predicate UniqueSessions(ss: seq<Session>) {
    forall i, j :: 0 <= i < j < |ss| ==> ss[i].id != ss[j].id
  }

  function Cut(s: Session, grant: string, expiresAt: Option<nat>): Session {
    if s.grantId == grant && expiresAt.Some? then s.(expiresAt := Min(s.expiresAt, expiresAt.value)) else s
  }

  function CutAll(ss: seq<Session>, grant: string, expiresAt: Option<nat>): (cut: seq<Session>)
    ensures |cut| == |ss|
  {
    seq(|ss|, i requires 0 <= i < |ss| => Cut(ss[i], grant, expiresAt))
  }

  /** What decides which sessions of one grant may stay. */
  datatype Limit = Limit(grant: string, endAll: bool, max: nat, now: nat)

  predicate IsLive(l: Limit, s: Session) { s.grantId == l.grant && s.expiresAt > l.now }

  /** The live sessions of the grant that are older than `s`. */
  ghost function Older(l: Limit, ss: seq<Session>, s: Session): set<Session> {
    set t | t in ss && IsLive(l, t) && Before(t, s)
  }

  /** A session ends when all do, or when it is live and enough older ones are. */
  ghost predicate Ends(l: Limit, ss: seq<Session>, s: Session) {
    s.grantId == l.grant && (l.endAll || (IsLive(l, s) && |Older(l, ss, s)| >= l.max))
  }

  ghost function Ending(l: Limit, ss: seq<Session>): set<string> {
    set s | s in ss && Ends(l, ss, s) :: s.id
  }

  function Keep(ss: seq<Session>, ending: set<string>): seq<Session> {
    if ss == [] then []
    else Keep(ss[..|ss| - 1], ending) + (if ss[|ss| - 1].id in ending then [] else [ss[|ss| - 1]])
  }

  function Drop(ss: seq<Session>, ending: set<string>): seq<Session> {
    if ss == [] then []
    else Drop(ss[..|ss| - 1], ending) + (if ss[|ss| - 1].id in ending then [ss[|ss| - 1]] else [])
  }

  predicate HaveSlots(ss: seq<Session>) {
    forall i :: 0 <= i < |ss| ==> ss[i].slot.Some?
  }

  function Allocations(ss: seq<Session>): seq<Allocation>
    requires HaveSlots(ss)
  {
    seq(|ss|, i requires 0 <= i < |ss| => Allocation(ss[i].id, ss[i].slot.value))
  }

  /** The grant's sessions, oldest first, as places in `ss`. */
  ghost predicate IsOrder(order: seq<int>, ss: seq<Session>, n: nat, grant: string) {
    && n <= |ss|
    && (forall k :: 0 <= k < |order| ==> 0 <= order[k] < n && ss[order[k]].grantId == grant)
    && (forall k, m :: 0 <= k < m < |order| ==> Before(ss[order[k]], ss[order[m]]))
    && (forall j :: 0 <= j < n && ss[j].grantId == grant ==> j in order)
  }

  method SortByAge(ss: seq<Session>, grant: string) returns (order: seq<int>)
    requires UniqueSessions(ss)
    ensures IsOrder(order, ss, |ss|, grant)
  {
    hide Before;
    order := [];
    for i := 0 to |ss|
      invariant IsOrder(order, ss, i, grant)
    {
      if ss[i].grantId == grant {
        order := InsertByAge(order, ss, i, grant);
      }
    }
  }

  method InsertByAge(order: seq<int>, ss: seq<Session>, i: nat, grant: string) returns (after: seq<int>)
    requires UniqueSessions(ss) && i < |ss| && IsOrder(order, ss, i, grant) && ss[i].grantId == grant
    ensures IsOrder(after, ss, i + 1, grant)
  {
    hide Before;
    var p := 0;
    while p < |order| && Before(ss[order[p]], ss[i])
      invariant p <= |order|
      invariant forall k :: 0 <= k < p ==> Before(ss[order[k]], ss[i])
    {
      p := p + 1;
    }
    forall k | p <= k < |order| ensures Before(ss[i], ss[order[k]]) {
      BeforeOrder(ss[order[p]], ss[i], ss[i]);
      BeforeOrder(ss[i], ss[order[p]], ss[order[k]]);
    }
    after := order[..p] + [i] + order[p..];
    Inserted(order, ss, i, grant, p);
  }

  lemma Inserted(order: seq<int>, ss: seq<Session>, i: nat, grant: string, p: nat)
    requires i < |ss| && IsOrder(order, ss, i, grant) && ss[i].grantId == grant && p <= |order|
    requires forall k :: 0 <= k < p ==> Before(ss[order[k]], ss[i])
    requires forall k :: p <= k < |order| ==> Before(ss[i], ss[order[k]])
    ensures IsOrder(order[..p] + [i] + order[p..], ss, i + 1, grant)
  {
    hide Before;
    var after := order[..p] + [i] + order[p..];
    forall k, m | 0 <= k < m < |after| ensures Before(ss[after[k]], ss[after[m]]) {
      var k' := if k <= p then k else k - 1;
      var m' := if m <= p then m else m - 1;
      assert k != p ==> after[k] == order[k'];
      assert m != p ==> after[m] == order[m'];
    }
    forall j | 0 <= j < i + 1 && ss[j].grantId == grant ensures j in after {
      assert j < i ==> j in order;
    }
  }

  // ----- The edit of the whole state

  class PersistedState {
    var grants: seq<Grant>
    var sessions: seq<Session>

    /** Session IDs are unique, as every stored state is checked to be. */
    ghost predicate Valid()
      reads this
    {
      UniqueSessions(sessions)
    }

    constructor (grants: seq<Grant>, sessions: seq<Session>)
      requires UniqueSessions(sessions)
      ensures Valid() && this.grants == grants && this.sessions == sessions
    {
      this.grants, this.sessions := grants, sessions;
    }

    /** The first grant with the ID. */
    method Find(id: string) returns (k: nat)
      ensures k <= |grants| && (k < |grants| ==> grants[k].id == id)
      ensures forall i :: 0 <= i < k ==> grants[i].id != id
    {
      k := 0;
      while k < |grants| && grants[k].id != id
        invariant k <= |grants| && forall i :: 0 <= i < k ==> grants[i].id != id
      {
        k := k + 1;
      }
    }

    /** Applies the change to the grant. All its sessions end, or those beyond its new limit; the others stay,
        cut to its lifetime. If an ended session has no slot the edit is given up half way. */
    method Apply(id: string, c: Changes, now: nat) returns (r: Result<seq<Allocation>>)
      requires Valid()
      modifies this
      ensures Valid()
      ensures r == Err(NotFound) <==> forall i :: 0 <= i < |old(grants)| ==> old(grants)[i].id != id
      ensures r == Err(NotFound) ==> unchanged(this)
      ensures forall k: nat :: IsFirst(old(grants), k, id) ==>
                && Described(old(grants), old(sessions), k, c, now, grants, sessions, r)
                && Applied(old(grants), old(sessions), k, c, now, grants, sessions, r)
    {
      hide Edited, EndsAll, Ends, CutAll, Described, IsEdited, LeavesNone;
      var k := Find(id);
      if k == |grants| {
        return Err(NotFound);
      }
      var g, endAll := EditGrant(grants[k], c, now);
      grants := grants[k := g];
      var cut, ending := CutSessions(sessions, Limit(id, endAll, g.maxConnections, now), g.expiresAt);
      CutIsUnique(sessions, id, g.expiresAt);
      sessions := cut;
      var ended := Drop(sessions, ending);
      if !HaveSlots(ended) {
        r := Err(MissingSlot);
        AppliedMeans(old(grants), old(sessions), k, c, now, grants, sessions, r);
        return;
      }
      KeepIsUnique(sessions, ending);
      sessions := Keep(sessions, ending);
      r := Ok(Allocations(ended));
      AppliedMeans(old(grants), old(sessions), k, c, now, grants, sessions, r);
    }
  }

  /** Cuts the grant's sessions to its lifetime, oldest first, and counts the live ones to find
      those that must end. */
  method CutSessions(before: seq<Session>, l: Limit, expiresAt: Option<nat>)
    returns (sessions: seq<Session>, ending: set<string>)
    requires UniqueSessions(before)
    ensures sessions == CutAll(before, l.grant, expiresAt)
    ensures ending == Ending(l, sessions)
  {
    ghost var cut := CutAll(before, l.grant, expiresAt);
    var order := SortByAge(before, l.grant);
    hide CutAll, IsOrder, UniqueSessions, Tallied, Ending;
    sessions, ending := before, {};
    var active := 0;
    NothingYet(l, before, cut, order[..0]);
    for k := 0 to |order|
      invariant Tallied(l, before, cut, order[..k], sessions, ending, active)
    {
      NextTally(l, before, expiresAt, order, k, sessions, ending, active);
      var s := sessions[order[k]];
      if expiresAt.Some? {
        s := s.(expiresAt := Min(s.expiresAt, expiresAt.value));
      }
      sessions := sessions[order[k] := s];
      var live := s.expiresAt > l.now;
      if l.endAll || (live && active >= l.max) {
        ending := ending + {s.id};
      } else if live {
        active := active + 1;
      }
    }
    AllInOrder(l, before, expiresAt, order, sessions, ending, active);
  }

  /** Where the loop stands when the sessions in `done` have been looked at. */
  ghost predicate Tallied(l: Limit, ss: seq<Session>, cut: seq<Session>, done: seq<int>,
                          sessions: seq<Session>, ending: set<string>, active: nat) {
    && |ss| == |cut|
    && sessions == Partly(ss, cut, done)
    && (!l.endAll ==> active == Min(|LiveAmong(l, cut, done)|, l.max))
    && ending == EndingAmong(l, cut, done)
  }

  lemma NextTally(l: Limit, ss: seq<Session>, expiresAt: Option<nat>, order: seq<int>, k: nat,
                  sessions: seq<Session>, ending: set<string>, active: nat)
    requires IsOrder(order, ss, |ss|, l.grant) && k < |order|
    requires Tallied(l, ss, CutAll(ss, l.grant, expiresAt), order[..k], sessions, ending, active)
    ensures var i, cut := order[k], CutAll(ss, l.grant, expiresAt);
            && 0 <= i < |sessions| && sessions[i].grantId == l.grant
            && var s := Cut(sessions[i], l.grant, expiresAt);
            var ends := l.endAll || (s.expiresAt > l.now && active >= l.max);
            Tallied(l, ss, cut, order[..k + 1], sessions[i := s],
                    if ends then ending + {s.id} else ending,
                    if !ends && s.expiresAt > l.now then active + 1 else active)
  {
    var cut := CutAll(ss, l.grant, expiresAt);
    CutKeepsOrder(order, ss, l.grant, expiresAt);
    hide CutAll, IsOrder, LiveAmong, EndingAmong, Partly;
    EndingStep(l, cut, order, k);
    PartlyStep(ss, l.grant, expiresAt, order, k);
  }

  /** What an edit of the grant at `k` makes of a state. */
  ghost predicate Applied(grants: seq<Grant>, sessions: seq<Session>, k: nat, c: Changes, now: nat,
                          after: seq<Grant>, remaining: seq<Session>, r: Result<seq<Allocation>>)
    requires k < |grants|
  {
    var g := Edited(grants[k], c, now);
    var l := Limit(grants[k].id, EndsAll(grants[k], c, now), g.maxConnections, now);
    var cut := CutAll(sessions, grants[k].id, g.expiresAt);
    var ended := Drop(cut, Ending(l, cut));
    && after == grants[k := g]
    && remaining == (if r.Ok? then Keep(cut, Ending(l, cut)) else cut)
    && r == if HaveSlots(ended) then Ok(Allocations(ended)) else Err(MissingSlot)
  }

  /** When a session ends under the grant. */
  function EndUnder(g: Grant, s: Session): nat {
    if g.expiresAt.Some? && g.expiresAt.value < s.expiresAt then g.expiresAt.value else s.expiresAt
  }

  /** The grant's sessions that run at `now` and were issued before `s`, by time and then identifier. */
  ghost function RunningBefore(g: Grant, now: nat, ss: seq<Session>, s: Session): set<string> {
    set t | t in ss && t.grantId == g.id && EndUnder(g, t) > now
            && (t.issuedAt < s.issuedAt || (t.issuedAt == s.issuedAt && Less(t.id, s.id))) :: t.id
  }

  /** A session of an edited grant stays: not all end, and it is over already or within the limit. */
  ghost predicate Stays(g: Grant, none: bool, now: nat, ss: seq<Session>, s: Session) {
    !none && (EndUnder(g, s) <= now || |RunningBefore(g, now, ss, s)| < g.maxConnections)
  }

  /** What an edit of the grant at `k` makes of a state: the grant's fields are those of the change; its
      sessions that do not stay are ended, and named in the result; the others are cut to its lifetime;
      and nothing else changes. An ended session without a slot keeps all sessions in the state. */
  ghost predicate Described(grants: seq<Grant>, sessions: seq<Session>, k: nat, c: Changes, now: nat,
                            after: seq<Grant>, remaining: seq<Session>, r: Result<seq<Allocation>>)
    requires k < |grants|
  {
    && |after| == |grants| && IsEdited(grants[k], c, now, after[k])
    && (forall i :: 0 <= i < |grants| && i != k ==> after[i] == grants[i])
    && var g, none := after[k], LeavesNone(grants[k], c, now, after[k]);
    && (forall s :: s in sessions && s.grantId != g.id ==> s in remaining)
    && (forall s :: s in remaining && s.grantId != g.id ==> s in sessions)
    && (forall s :: s in remaining && s.grantId == g.id ==>
          exists t :: t in sessions && t.grantId == g.id && s == t.(expiresAt := EndUnder(g, t)))
    && (forall s :: s in sessions && s.grantId == g.id ==>
          (s.(expiresAt := EndUnder(g, s)) in remaining <==> r.Err? || Stays(g, none, now, sessions, s)))
    && (r == Err(MissingSlot) <==>
        exists s :: s in sessions && s.grantId == g.id && s.slot.None? && !Stays(g, none, now, sessions, s))
    && (r.Ok? ==> forall s :: s in sessions && s.slot.Some? ==>
          (Allocation(s.id, s.slot.value) in r.value <==>
           s.grantId == g.id && !Stays(g, none, now, sessions, s)))
  }

  lemma {:induction false} IdsOf(all: set<Session>)
    requires DistinctIds(all)
    ensures |set s | s in all :: s.id| == |all|
  {
    if x :| x in all {
      IdsOf(all - {x});
      assert (set s | s in all :: s.id) == (set s | s in all - {x} :: s.id) + {x.id};
    }
  }

  lemma CutEnds(s: Session, g: Grant)
    requires s.grantId == g.id
    ensures Cut(s, g.id, g.expiresAt) == s.(expiresAt := EndUnder(g, s))
  {
  }

  /** The sessions counted before and after the cut are the same. */
  lemma OlderIsRunning(g: Grant, l: Limit, ss: seq<Session>, s: Session)
    requires UniqueSessions(ss) && l.grant == g.id
    ensures |Older(l, CutAll(ss, g.id, g.expiresAt), s)| == |RunningBefore(g, l.now, ss, s)|
  {
    var cut := CutAll(ss, g.id, g.expiresAt);
    CutIsUnique(ss, g.id, g.expiresAt);
    LiveIdsDiffer(l, cut);
    var older := Older(l, cut, s);
    assert DistinctIds(older) by {
      assert older <= LiveSessions(l, cut);
    }
    IdsOf(older);
    hide Less;
    assert (set t | t in older :: t.id) == RunningBefore(g, l.now, ss, s) by {
      RunningAreOlder(g, l, ss, s);
    }
  }

  lemma RunningAreOlder(g: Grant, l: Limit, ss: seq<Session>, s: Session)
    requires l.grant == g.id
    ensures (set t | t in Older(l, CutAll(ss, g.id, g.expiresAt), s) :: t.id) == RunningBefore(g, l.now, ss, s)
  {
    hide Less;
    var cut := CutAll(ss, g.id, g.expiresAt);
    var older := Older(l, cut, s);
    forall t | t in older ensures t.id in RunningBefore(g, l.now, ss, s) {
      var i :| 0 <= i < |cut| && cut[i] == t;
      assert ss[i] in ss;
    }
    forall t | t in ss && t.grantId == g.id && EndUnder(g, t) > l.now
        && (t.issuedAt < s.issuedAt || (t.issuedAt == s.issuedAt && Less(t.id, s.id)))
      ensures exists u :: u in older && u.id == t.id
    {
      var i :| 0 <= i < |ss| && ss[i] == t;
      assert cut[i] in cut && cut[i] in older;
    }
  }

  /** A session of the grant ends exactly when it does not stay. */
  lemma EndsIffNotStays(g: Grant, l: Limit, ss: seq<Session>, s: Session)
    requires UniqueSessions(ss) && s in ss && s.grantId == g.id && l.grant == g.id && l.max == g.maxConnections
    ensures var cut, e := CutAll(ss, g.id, g.expiresAt), s.(expiresAt := EndUnder(g, s));
            e in cut && (e.id in Ending(l, cut) <==> !Stays(g, l.endAll, l.now, ss, s))
  {
    var cut := CutAll(ss, g.id, g.expiresAt);
    var i :| 0 <= i < |ss| && ss[i] == s;
    CutEnds(s, g);
    assert cut[i] in cut;
    CutIsUnique(ss, g.id, g.expiresAt);
    EndingIff(l, cut, cut[i]);
    OlderIsRunning(g, l, ss, cut[i]);
    assert RunningBefore(g, l.now, ss, cut[i]) == RunningBefore(g, l.now, ss, s);
    hide CutAll, Older, RunningBefore, Ending;
  }

  lemma OthersDoNotEnd(l: Limit, ss: seq<Session>, s: Session)
    requires UniqueSessions(ss) && s in ss && s.grantId != l.grant
    ensures s.id !in Ending(l, ss)
  {
    EndingIff(l, ss, s);
  }

  ghost predicate IsFirst(grants: seq<Grant>, k: nat, id: string) {
    k < |grants| && grants[k].id == id && forall i :: 0 <= i < k ==> grants[i].id != id
  }

  ghost function LiveAmong(l: Limit, ss: seq<Session>, order: seq<int>): set<Session> {
    set j | j in order && 0 <= j < |ss| && IsLive(l, ss[j]) :: ss[j]
  }

  ghost function EndingAmong(l: Limit, ss: seq<Session>, order: seq<int>): set<string> {
    set j | j in order && 0 <= j < |ss| && Ends(l, ss, ss[j]) :: ss[j].id
  }

  lemma CutKeepsOrder(order: seq<int>, ss: seq<Session>, grant: string, expiresAt: Option<nat>)
    requires IsOrder(order, ss, |ss|, grant)
    ensures IsOrder(order, CutAll(ss, grant, expiresAt), |ss|, grant)
  {
  }

  lemma CutIsUnique(ss: seq<Session>, grant: string, expiresAt: Option<nat>)
    requires UniqueSessions(ss)
    ensures UniqueSessions(CutAll(ss, grant, expiresAt))
  {
  }

  lemma DistinctOrder(order: seq<int>, ss: seq<Session>, k: nat, grant: string)
    requires IsOrder(order, ss, |ss|, grant) && k < |order|
    ensures order[k] !in order[..k]
    ensures order[..k + 1] == order[..k] + [order[k]]
  {
    if order[k] in order[..k] {
      var m :| 0 <= m < k && order[m] == order[k];
      BeforeOrder(ss[order[m]], ss[order[k]], ss[order[k]]);
      assert false;
    }
  }

  /** The live sessions older than the one at place `k` are the live ones before that place. */
  lemma OlderAreBefore(l: Limit, ss: seq<Session>, order: seq<int>, k: nat)
    requires IsOrder(order, ss, |ss|, l.grant) && k < |order|
    ensures Older(l, ss, ss[order[k]]) == LiveAmong(l, ss, order[..k])
  {
    hide Before;
    var s := ss[order[k]];
    forall t | t in LiveAmong(l, ss, order[..k]) ensures t in Older(l, ss, s) {
      var m :| 0 <= m < k && ss[order[m]] == t;
    }
    forall t | t in Older(l, ss, s) ensures t in LiveAmong(l, ss, order[..k]) {
      var j :| 0 <= j < |ss| && ss[j] == t;
      var m :| 0 <= m < |order| && order[m] == j;
      BeforeOrder(t, s, s);
      assert m < k;
      assert order[..k][m] == j;
    }
  }

  /** The sessions while those in `done` have been cut. */
  ghost function Partly(ss: seq<Session>, cut: seq<Session>, done: seq<int>): seq<Session>
    requires |ss| == |cut|
  {
    seq(|ss|, j requires 0 <= j < |ss| => if j in done then cut[j] else ss[j])
  }

  lemma NothingYet(l: Limit, ss: seq<Session>, cut: seq<Session>, order: seq<int>)
    requires order == [] && |ss| == |cut|
    ensures Tallied(l, ss, cut, order, ss, {}, 0)
  {
    assert LiveAmong(l, cut, order) == {};
  }

  lemma PartlyStep(ss: seq<Session>, grant: string, expiresAt: Option<nat>, order: seq<int>, k: nat)
    requires IsOrder(order, ss, |ss|, grant) && k < |order|
    ensures var cut, i := CutAll(ss, grant, expiresAt), order[k];
            var now := Partly(ss, cut, order[..k]);
            && 0 <= i < |now| && now[i].grantId == grant
            && Cut(now[i], grant, expiresAt) == cut[i] && cut[i].grantId == grant
            && now[i := cut[i]] == Partly(ss, cut, order[..k + 1])
  {
    DistinctOrder(order, ss, k, grant);
  }

  /** What the place `k` in the order adds to the live and to the ending sessions. */
  lemma EndingStep(l: Limit, ss: seq<Session>, order: seq<int>, k: nat)
    requires IsOrder(order, ss, |ss|, l.grant) && k < |order|
    ensures order[k] !in order[..k] && order[..k + 1] == order[..k] + [order[k]]
    ensures var live, older := IsLive(l, ss[order[k]]), |LiveAmong(l, ss, order[..k])|;
            && |LiveAmong(l, ss, order[..k + 1])| == older + (if live then 1 else 0)
            && EndingAmong(l, ss, order[..k + 1]) == EndingAmong(l, ss, order[..k])
               + (if l.endAll || (live && older >= l.max) then {ss[order[k]].id} else {})
  {
    hide LiveAmong, EndingAmong;
    DistinctOrder(order, ss, k, l.grant);
    OlderAreBefore(l, ss, order, k);
    LiveAmongStep(l, ss, order, k);
    EndingAmongStep(l, ss, order, k);
  }

  lemma LiveAmongStep(l: Limit, ss: seq<Session>, order: seq<int>, k: nat)
    requires IsOrder(order, ss, |ss|, l.grant) && k < |order|
    ensures |LiveAmong(l, ss, order[..k + 1])|
            == |LiveAmong(l, ss, order[..k])| + (if IsLive(l, ss[order[k]]) then 1 else 0)
  {
    DistinctOrder(order, ss, k, l.grant);
    var s := ss[order[k]];
    OlderAreBefore(l, ss, order, k);
    BeforeOrder(s, s, s);
    assert s !in LiveAmong(l, ss, order[..k]);
    hide IsOrder, Before, Older;
    if IsLive(l, s) {
      assert LiveAmong(l, ss, order[..k + 1]) == LiveAmong(l, ss, order[..k]) + {s};
    } else {
      assert LiveAmong(l, ss, order[..k + 1]) == LiveAmong(l, ss, order[..k]);
    }
  }

  lemma EndingAmongStep(l: Limit, ss: seq<Session>, order: seq<int>, k: nat)
    requires IsOrder(order, ss, |ss|, l.grant) && k < |order|
    ensures EndingAmong(l, ss, order[..k + 1])
            == EndingAmong(l, ss, order[..k]) + (if Ends(l, ss, ss[order[k]]) then {ss[order[k]].id} else {})
  {
    hide Ends;
    DistinctOrder(order, ss, k, l.grant);
  }

  lemma AllInOrder(l: Limit, ss: seq<Session>, expiresAt: Option<nat>, order: seq<int>,
                   sessions: seq<Session>, ending: set<string>, active: nat)
    requires IsOrder(order, ss, |ss|, l.grant)
    requires Tallied(l, ss, CutAll(ss, l.grant, expiresAt), order[..|order|], sessions, ending, active)
    ensures sessions == CutAll(ss, l.grant, expiresAt) && ending == Ending(l, sessions)
  {
    assert order[..|order|] == order;
    hide LiveAmong, IsLive;
    var cut := CutAll(ss, l.grant, expiresAt);
    forall s | s in cut && Ends(l, cut, s) ensures s.id in EndingAmong(l, cut, order) {
      var j :| 0 <= j < |cut| && cut[j] == s;
      assert j in order;
    }
  }

  lemma {:induction false} KeepMembers(ss: seq<Session>, ending: set<string>)
    ensures forall s :: s in Keep(ss, ending) <==> s in ss && s.id !in ending
  {
    if ss != [] {
      var front, last := ss[..|ss| - 1], ss[|ss| - 1];
      KeepMembers(front, ending);
      assert forall s :: s in ss <==> s in front || s == last;
      assert forall s :: s in Keep(ss, ending) <==> s in Keep(front, ending) || (s == last && last.id !in ending);
    }
  }

  lemma {:induction false} DropMembers(ss: seq<Session>, ending: set<string>)
    ensures forall s :: s in Drop(ss, ending) <==> s in ss && s.id in ending
  {
    if ss != [] {
      var front, last := ss[..|ss| - 1], ss[|ss| - 1];
      DropMembers(front, ending);
      assert forall s :: s in ss <==> s in front || s == last;
      assert forall s :: s in Drop(ss, ending) <==> s in Drop(front, ending) || (s == last && last.id in ending);
    }
  }

  lemma JoinOne(kept: seq<Session>, dropped: seq<Session>, all: seq<Session>, s: Session)
    requires multiset(kept) + multiset(dropped) == multiset(all)
    ensures multiset(kept + [s]) + multiset(dropped) == multiset(all + [s])
    ensures multiset(kept) + multiset(dropped + [s]) == multiset(all + [s])
  {
  }

  lemma LastKeptOrDropped(ss: seq<Session>, ending: set<string>)
    requires ss != []
    ensures var front, last := ss[..|ss| - 1], ss[|ss| - 1];
            && ss == front + [last]
            && Keep(ss, ending) == (if last.id in ending then Keep(front, ending) else Keep(front, ending) + [last])
            && Drop(ss, ending) == (if last.id in ending then Drop(front, ending) + [last] else Drop(front, ending))
  {
  }

  lemma {:induction false} KeepAndDropSplit(ss: seq<Session>, ending: set<string>)
    ensures multiset(Keep(ss, ending)) + multiset(Drop(ss, ending)) == multiset(ss)
  {
    if ss != [] {
      hide Keep, Drop;
      var front, last := ss[..|ss| - 1], ss[|ss| - 1];
      KeepAndDropSplit(front, ending);
      LastKeptOrDropped(ss, ending);
      JoinOne(Keep(front, ending), Drop(front, ending), front, last);
    }
  }

  lemma {:induction false} KeepIsUnique(ss: seq<Session>, ending: set<string>)
    requires UniqueSessions(ss)
    ensures UniqueSessions(Keep(ss, ending))
  {
    if ss != [] {
      var front, last := ss[..|ss| - 1], ss[|ss| - 1];
      KeepIsUnique(front, ending);
      var kept := Keep(front, ending);
      forall i | 0 <= i < |kept| ensures kept[i].id != last.id {
        KeepMembers(front, ending);
        assert kept[i] in kept;
      }
      hide Keep;
      assert UniqueSessions(kept + [last]);
    }
  }

  // ----- What an edit does to the state

  lemma CutMembers(g: Grant, ss: seq<Session>)
    ensures var cut := CutAll(ss, g.id, g.expiresAt);
            && (forall s :: s in ss && s.grantId == g.id ==> s.(expiresAt := EndUnder(g, s)) in cut)
            && (forall s: Session :: s.grantId != g.id ==> (s in cut <==> s in ss))
            && (forall s :: s in cut && s.grantId == g.id ==>
                  exists t :: t in ss && t.grantId == g.id && s == t.(expiresAt := EndUnder(g, t)))
  {
    var cut := CutAll(ss, g.id, g.expiresAt);
    forall i | 0 <= i < |ss|
      ensures cut[i] == if ss[i].grantId == g.id then ss[i].(expiresAt := EndUnder(g, ss[i])) else ss[i]
    {
    }
    forall s | s in ss ensures (if s.grantId == g.id then s.(expiresAt := EndUnder(g, s)) else s) in cut {
      var i :| 0 <= i < |ss| && ss[i] == s;
      assert cut[i] in cut;
    }
    forall s | s in cut && s.grantId == g.id
      ensures exists t :: t in ss && t.grantId == g.id && s == t.(expiresAt := EndUnder(g, t))
    {
      var i :| 0 <= i < |cut| && cut[i] == s;
      assert ss[i] in ss;
    }
  }

  /** The ended sessions are those of the grant that do not stay. */
  lemma EndedMembers(g: Grant, l: Limit, ss: seq<Session>)
    requires UniqueSessions(ss) && l.grant == g.id && l.max == g.maxConnections
    ensures var cut := CutAll(ss, g.id, g.expiresAt);
            var ended := Drop(cut, Ending(l, cut));
            && (forall s :: s in ss && s.grantId == g.id ==>
                  (s.(expiresAt := EndUnder(g, s)) in ended <==> !Stays(g, l.endAll, l.now, ss, s)))
            && (forall e :: e in ended ==>
                  exists t :: t in ss && t.grantId == g.id && e == t.(expiresAt := EndUnder(g, t)))
  {
    var cut := CutAll(ss, g.id, g.expiresAt);
    CutMembers(g, ss);
    CutIsUnique(ss, g.id, g.expiresAt);
    DropMembers(cut, Ending(l, cut));
    hide CutAll, Drop, Ending, UniqueSessions, EndUnder, Stays;
    forall s | s in ss && s.grantId == g.id
      ensures s.(expiresAt := EndUnder(g, s)) in Drop(cut, Ending(l, cut)) <==> !Stays(g, l.endAll, l.now, ss, s)
    {
      EndsIffNotStays(g, l, ss, s);
    }
    forall e | e in Drop(cut, Ending(l, cut)) ensures e.grantId == g.id {
      if e.grantId != g.id { OthersDoNotEnd(l, cut, e); }
    }
  }

  lemma RemainingMembers(g: Grant, l: Limit, ss: seq<Session>)
    requires UniqueSessions(ss) && l.grant == g.id && l.max == g.maxConnections
    ensures var cut := CutAll(ss, g.id, g.expiresAt);
            var kept := Keep(cut, Ending(l, cut));
            && (forall s :: s in ss && s.grantId == g.id ==>
                  (s.(expiresAt := EndUnder(g, s)) in kept <==> Stays(g, l.endAll, l.now, ss, s)))
            && (forall s: Session :: s.grantId != g.id ==> (s in kept <==> s in ss))
            && (forall s :: s in kept && s.grantId == g.id ==>
                  exists t :: t in ss && t.grantId == g.id && s == t.(expiresAt := EndUnder(g, t)))
  {
    var cut := CutAll(ss, g.id, g.expiresAt);
    CutMembers(g, ss);
    CutIsUnique(ss, g.id, g.expiresAt);
    KeepMembers(cut, Ending(l, cut));
    hide CutAll, Keep, Ending, UniqueSessions, EndUnder, Stays;
    forall s | s in ss && s.grantId == g.id
      ensures s.(expiresAt := EndUnder(g, s)) in Keep(cut, Ending(l, cut)) <==> Stays(g, l.endAll, l.now, ss, s)
    {
      EndsIffNotStays(g, l, ss, s);
    }
    forall s | s in ss && s.grantId != g.id ensures s in Keep(cut, Ending(l, cut)) {
      OthersDoNotEnd(l, cut, s);
    }
  }

  /** The result names the sessions that ended, unless one of them has no slot. */
  lemma AnswerMeans(g: Grant, l: Limit, ss: seq<Session>)
    requires UniqueSessions(ss) && l.grant == g.id && l.max == g.maxConnections
    ensures var cut := CutAll(ss, g.id, g.expiresAt);
            var ended := Drop(cut, Ending(l, cut));
            && (!HaveSlots(ended) <==>
                exists s :: s in ss && s.grantId == g.id && s.slot.None? && !Stays(g, l.endAll, l.now, ss, s))
            && (HaveSlots(ended) ==> forall s :: s in ss && s.slot.Some? ==>
                  (Allocation(s.id, s.slot.value) in Allocations(ended) <==>
                   s.grantId == g.id && !Stays(g, l.endAll, l.now, ss, s)))
  {
    EndedMembers(g, l, ss);
    var cut := CutAll(ss, g.id, g.expiresAt);
    var ended := Drop(cut, Ending(l, cut));
    hide CutAll, Drop, Ending, EndUnder, Stays;
    if !HaveSlots(ended) {
      var i :| 0 <= i < |ended| && ended[i].slot.None?;
      assert ended[i] in ended;
    }
    forall s | s in ss && s.grantId == g.id && s.slot.None? && !Stays(g, l.endAll, l.now, ss, s)
      ensures !HaveSlots(ended)
    {
      var i :| 0 <= i < |ended| && ended[i] == s.(expiresAt := EndUnder(g, s));
    }
    if HaveSlots(ended) {
      forall s | s in ss && s.slot.Some?
        ensures Allocation(s.id, s.slot.value) in Allocations(ended) <==>
                s.grantId == g.id && !Stays(g, l.endAll, l.now, ss, s)
      {
        NamedIffEnded(g, ss, ended, s);
      }
    }
  }

  lemma NamedIffEnded(g: Grant, ss: seq<Session>, ended: seq<Session>, s: Session)
    requires UniqueSessions(ss) && HaveSlots(ended) && s in ss && s.slot.Some?
    requires forall e :: e in ended ==>
               exists t :: t in ss && t.grantId == g.id && e == t.(expiresAt := EndUnder(g, t))
    ensures Allocation(s.id, s.slot.value) in Allocations(ended) <==>
            s.grantId == g.id && s.(expiresAt := EndUnder(g, s)) in ended
  {
    hide EndUnder;
    var named := Allocations(ended);
    if Allocation(s.id, s.slot.value) in named {
      var i :| 0 <= i < |named| && named[i] == Allocation(s.id, s.slot.value);
      assert ended[i] in ended;
      var t :| t in ss && t.grantId == g.id && ended[i] == t.(expiresAt := EndUnder(g, t));
      SameSession(ss, s, t);
    }
    if s.grantId == g.id && s.(expiresAt := EndUnder(g, s)) in ended {
      var i :| 0 <= i < |ended| && ended[i] == s.(expiresAt := EndUnder(g, s));
      assert named[i] == Allocation(s.id, s.slot.value);
    }
  }

  lemma SameSession(ss: seq<Session>, s: Session, t: Session)
    requires UniqueSessions(ss) && s in ss && t in ss && s.id == t.id
    ensures s == t
  {
    var i :| 0 <= i < |ss| && ss[i] == s;
    var j :| 0 <= j < |ss| && ss[j] == t;
    assert !(i < j) && !(j < i);
  }

  lemma AppliedMeans(grants: seq<Grant>, ss: seq<Session>, k: nat, c: Changes, now: nat,
                     after: seq<Grant>, remaining: seq<Session>, r: Result<seq<Allocation>>)
    requires k < |grants| && UniqueSessions(ss) && Applied(grants, ss, k, c, now, after, remaining, r)
    ensures Described(grants, ss, k, c, now, after, remaining, r)
  {
    var g := Edited(grants[k], c, now);
    EditMeans(grants[k], c, now);
    var l := Limit(g.id, EndsAll(grants[k], c, now), g.maxConnections, now);
    CutMembers(g, ss);
    RemainingMembers(g, l, ss);
    AnswerMeans(g, l, ss);
    assert g.id == grants[k].id;
    hide Edited, EndsAll, IsEdited, LeavesNone, CutAll, Keep, Drop, Ending, HaveSlots, Allocations, EndUnder, Stays;
  }

  // ----- What an edit does to the sessions

  lemma EndingIff(l: Limit, ss: seq<Session>, s: Session)
    requires UniqueSessions(ss) && s in ss
    ensures s.id in Ending(l, ss) <==> Ends(l, ss, s)
  {
    hide Ends;
    if t :| t in ss && Ends(l, ss, t) && t.id == s.id {
      var i :| 0 <= i < |ss| && ss[i] == s;
      var j :| 0 <= j < |ss| && ss[j] == t;
      assert i == j;
    }
  }

  /** The live sessions of `all` that have fewer than `max` live ones before them. */
  ghost function First(all: set<Session>, max: nat): set<Session> {
    set s | s in all && |OlderIn(all, s)| < max
  }

  ghost function OlderIn(all: set<Session>, s: Session): set<Session> {
    set t | t in all && Before(t, s)
  }

  ghost predicate DistinctIds(all: set<Session>) {
    forall s, t :: s in all && t in all && s != t ==> s.id != t.id
  }

  lemma {:induction false} NewestExists(all: set<Session>) returns (m: Session)
    requires all != {} && DistinctIds(all)
    ensures m in all && forall s :: s in all && s != m ==> Before(s, m)
  {
    m :| m in all;
    var rest := all - {m};
    if rest == {} {
      assert all == {m};
    } else {
      var n := NewestExists(rest);
      BeforeOrder(m, n, n);
      if Before(m, n) {
        m := n;
      } else {
        forall s | s in rest && s != n ensures Before(s, m) { BeforeOrder(s, n, m); }
      }
    }
  }

  /** The first `max` of a set are as many as there are, and older than all others. */
  lemma {:induction false} FirstAreOldest(all: set<Session>, max: nat)
    requires DistinctIds(all)
    ensures |First(all, max)| == Min(|all|, max)
    ensures forall s, t :: s in First(all, max) && t in all && t !in First(all, max) ==> Before(s, t)
    decreases |all|
  {
    hide Before, First, OlderIn;
    if all == {} {
      FirstOfNone(all, max);
    } else {
      var m := NewestExists(all);
      FirstAreOldest(all - {m}, max);
      FirstStep(all, m, max);
      SizeOfSubset(First(all - {m}, max), all - {m});
    }
  }

  lemma FirstOfNone(all: set<Session>, max: nat)
    requires all == {}
    ensures First(all, max) == {}
  {
  }

  lemma FirstStep(all: set<Session>, m: Session, max: nat)
    requires m in all && forall s :: s in all && s != m ==> Before(s, m)
    ensures First(all, max) == First(all - {m}, max) + (if |all - {m}| < max then {m} else {})
    ensures First(all - {m}, max) <= all - {m}
  {
    hide Before;
    var rest := all - {m};
    BeforeOrder(m, m, m);
    assert OlderIn(all, m) == rest;
    forall s | s in rest ensures OlderIn(all, s) == OlderIn(rest, s) { BeforeOrder(s, m, m); }
  }

  ghost function LiveSessions(l: Limit, ss: seq<Session>): set<Session> {
    set s | s in ss && IsLive(l, s)
  }

  lemma LiveIdsDiffer(l: Limit, ss: seq<Session>)
    requires UniqueSessions(ss)
    ensures DistinctIds(LiveSessions(l, ss))
  {
    forall s, t | s in LiveSessions(l, ss) && t in LiveSessions(l, ss) && s != t ensures s.id != t.id {
      var i :| 0 <= i < |ss| && ss[i] == s;
      var j :| 0 <= j < |ss| && ss[j] == t;
    }
  }

  /** An edit splits the old sessions into the ended and the remaining ones. No other grant's session
      ends. Either none of the grant's sessions remains, or those that are not live remain and, of the
      live ones, exactly the oldest `max`. */
  lemma EditSplitsSessions(l: Limit, ss: seq<Session>)
    requires UniqueSessions(ss)
    ensures var kept, ended := Keep(ss, Ending(l, ss)), Drop(ss, Ending(l, ss));
            && multiset(kept) + multiset(ended) == multiset(ss)
            && (forall s :: s in ss && s.grantId != l.grant ==> s in kept)
            && (l.endAll ==> forall s :: s in kept ==> s.grantId != l.grant)
            && (!l.endAll ==> forall s :: s in ss && !IsLive(l, s) ==> s in kept)
            && (!l.endAll ==> LiveSessions(l, kept) == First(LiveSessions(l, ss), l.max))
            && |First(LiveSessions(l, ss), l.max)| == Min(|LiveSessions(l, ss)|, l.max)
            && forall s, t :: s in First(LiveSessions(l, ss), l.max) && t in LiveSessions(l, ss)
                 && t !in First(LiveSessions(l, ss), l.max)
                 ==> Before(s, t)
  {
    var ending := Ending(l, ss);
    KeepAndDropSplit(ss, ending);
    KeepMembers(ss, ending);
    LiveIdsDiffer(l, ss);
    FirstAreOldest(LiveSessions(l, ss), l.max);
    hide Keep, Drop, Before, First, OlderIn, UniqueSessions, Ending;
    forall s | s in ss ensures s in Keep(ss, ending) <==> !Ends(l, ss, s) { EndingIff(l, ss, s); }
    assert !l.endAll ==> LiveSessions(l, Keep(ss, ending)) == First(LiveSessions(l, ss), l.max) by {
      forall s
        ensures !l.endAll ==> (s in LiveSessions(l, Keep(ss, ending)) <==> s in First(LiveSessions(l, ss), l.max))
      {
        FirstIff(l, ss, s);
      }
    }
  }

  lemma FirstIff(l: Limit, ss: seq<Session>, s: Session)
    ensures s in First(LiveSessions(l, ss), l.max) <==> s in ss && IsLive(l, s) && |Older(l, ss, s)| < l.max
  {
    assert Older(l, ss, s) == OlderIn(LiveSessions(l, ss), s);
  }

  /** What remains after an edit would all remain under the same limit. */
  lemma NothingEndsAgain(l: Limit, again: Limit, ss: seq<Session>)
    requires UniqueSessions(ss) && again == l.(endAll := again.endAll) && (again.endAll ==> l.endAll)
    ensures Ending(again, Keep(ss, Ending(l, ss))) == {}
  {
    var kept := Keep(ss, Ending(l, ss));
    KeepMembers(ss, Ending(l, ss));
    hide Keep, Before, UniqueSessions;
    forall s | s in kept ensures !Ends(again, kept, s) {
      EndingIff(l, ss, s);
      assert Older(again, kept, s) <= Older(l, ss, s);
      SizeOfSubset(Older(again, kept, s), Older(l, ss, s));
    }
  }

  lemma {:induction false} KeepAll(ss: seq<Session>)
    ensures Keep(ss, {}) == ss && Drop(ss, {}) == []
  {
    if ss != [] {
      KeepAll(ss[..|ss| - 1]);
    }
  }

  /** Every remaining session of the grant ends with it, and cutting again changes nothing. */
  lemma CutHolds(ss: seq<Session>, ending: set<string>, grant: string, expiresAt: Option<nat>)
    ensures var kept := Keep(CutAll(ss, grant, expiresAt), ending);
            && (forall s :: s in kept && s.grantId == grant && expiresAt.Some? ==> s.expiresAt <= expiresAt.value)
            && CutAll(kept, grant, expiresAt) == kept
  {
    KeepMembers(CutAll(ss, grant, expiresAt), ending);
    var kept := Keep(CutAll(ss, grant, expiresAt), ending);
    hide Keep;
    forall s | s in kept ensures Cut(s, grant, expiresAt) == s {
      var i :| 0 <= i < |ss| && CutAll(ss, grant, expiresAt)[i] == s;
    }
    forall i | 0 <= i < |kept| ensures CutAll(kept, grant, expiresAt)[i] == kept[i] {
      assert kept[i] in kept;
    }
  }

  /** The change edits the grant once: its second application finds the grant as it leaves it. */
  lemma EditTwice(g: Grant, c: Changes, now: nat)
    ensures Edited(Edited(g, c, now), c, now) == Edited(g, c, now)
    ensures EndsAll(Edited(g, c, now), c, now) ==> EndsAll(g, c, now)
  {
    hide UsedUpUntil;
  }

  /** Applying the same change again at the same time changes nothing and ends nothing. */
  lemma ApplyTwice(g: Grant, ss: seq<Session>, c: Changes, now: nat)
    requires UniqueSessions(ss)
    ensures var after := Edited(g, c, now);
            var l := Limit(g.id, EndsAll(g, c, now), after.maxConnections, now);
            var cut := CutAll(ss, g.id, after.expiresAt);
            var kept := Keep(cut, Ending(l, cut));
            var again := Limit(g.id, EndsAll(after, c, now), Edited(after, c, now).maxConnections, now);
            && Edited(after, c, now) == after
            && CutAll(kept, g.id, after.expiresAt) == kept
            && Ending(again, kept) == {} && Keep(kept, {}) == kept && Drop(kept, {}) == []
  {
    EditTwice(g, c, now);
    hide Edited, EndsAll, Keep, Drop, CutAll, Ending, UniqueSessions;
    var after := Edited(g, c, now);
    var l := Limit(g.id, EndsAll(g, c, now), after.maxConnections, now);
    var cut := CutAll(ss, g.id, after.expiresAt);
    CutIsUnique(ss, g.id, after.expiresAt);
    CutHolds(ss, Ending(l, cut), g.id, after.expiresAt);
    NothingEndsAgain(l, l.(endAll := EndsAll(after, c, now)), cut);
    KeepAll(Keep(cut, Ending(l, cut)));
  }

  /** Two runs of the same change at the same time: once the first has succeeded, the second finds the
      same grant, ends nothing and leaves the state as it is. */
  method ApplyAgain(state: PersistedState, id: string, c: Changes, now: nat)
    returns (first: Result<seq<Allocation>>, second: Result<seq<Allocation>>, ghost grants: seq<Grant>,
            ghost sessions: seq<Session>)
    requires state.Valid()
    modifies state
    ensures state.Valid()
    ensures first.Ok? ==> second == Ok([]) && state.grants == grants && state.sessions == sessions
    ensures first.Ok? ==>
              var k := FirstOf(old(state.grants), id);
              && k < |old(state.grants)|
              && Applied(old(state.grants), old(state.sessions), k, c, now, grants, sessions, first)
    ensures first == Err(NotFound) ==> second == Err(NotFound) && unchanged(state)
  {
    hide Applied, UniqueSessions;
    ghost var before, ss := state.grants, state.sessions;
    ghost var k := FirstOf(before, id);
    first := state.Apply(id, c, now);
    grants, sessions := state.grants, state.sessions;
    if first.Ok? {
      AppliedEdits(before, ss, k, c, now, grants, sessions, first);
    }
    second := state.Apply(id, c, now);
    if first.Ok? {
      AppliedTwice(before, ss, k, c, now, grants, sessions, first, state.grants, state.sessions, second);
    }
  }

  lemma AppliedEdits(before: seq<Grant>, ss: seq<Session>, k: nat, c: Changes, now: nat,
                     grants: seq<Grant>, sessions: seq<Session>, r: Result<seq<Allocation>>)
    requires k < |before| && IsFirst(before, k, before[k].id) && Applied(before, ss, k, c, now, grants, sessions, r)
    ensures grants == before[k := Edited(before[k], c, now)] && IsFirst(grants, k, before[k].id)
  {
    hide EndsAll, Keep, Drop, CutAll, Ending;
  }

  lemma AppliedTwice(before: seq<Grant>, ss: seq<Session>, k: nat, c: Changes, now: nat,
                     grants: seq<Grant>, sessions: seq<Session>, first: Result<seq<Allocation>>,
                     grants2: seq<Grant>, sessions2: seq<Session>, second: Result<seq<Allocation>>)
    requires k < |before| && UniqueSessions(ss) && |grants| == |before|
    requires Applied(before, ss, k, c, now, grants, sessions, first) && first.Ok?
    requires Applied(grants, sessions, k, c, now, grants2, sessions2, second)
    ensures second == Ok([]) && grants2 == grants && sessions2 == sessions
  {
    EditKeepsId(before[k], c, now);
    hide Edited, EndsAll, Keep, Drop, CutAll, Ending, UniqueSessions;
    ApplyTwice(before[k], ss, c, now);
  }

  ghost function FirstOf(grants: seq<Grant>, id: string): (k: nat)
    ensures k <= |grants| && (forall i :: 0 <= i < k ==> grants[i].id != id)
    ensures k < |grants| ==> IsFirst(grants, k, id)
  {
    if grants == [] || grants[0].id == id then 0 else 1 + FirstOf(grants[1..], id)
  }

  lemma EditKeepsId(g: Grant, c: Changes, now: nat)
    ensures Edited(g, c, now).id == g.id
  {
  }
}
