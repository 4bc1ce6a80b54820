/** The transports a server advertises. */
module Transports {
  import opened Wrappers

  datatype Protocol =
    | Hysteria2 | Ikev2 | OpenVpnStunnel | Shadowsocks2022
    | Stealth | VlessXtlsReality | WireGuard | XorScrambled

  datatype Transport = Transport(
    id: string,
    protocol: Protocol,
    endpoint: string,
    port: nat,
    priority: nat,
    tlsServerName: Option<string>)
}

/** Which transports one connection tries, and in which order. */
module Selector {
  import opened Arithmetic
  import opened Sequences
  import opened Wrappers
  import opened Identifiers
  import opened Transports
  import opened History

  const DEFAULT_LATENCY := 500

  datatype Policy = Policy(maxAttempts: nat, preferred: Option<Protocol>, failureCooldown: nat)

  // ----- Keys

  datatype Key = Key(
    cooling: bool,
    notPreferred: bool,
    failures: nat,
    unproven: bool,
    priority: nat,
    latency: nat,
    id: string)

  /** The order of the program's key tuples: field by field, `false` before `true`. */
  predicate KeyLess(a: Key, b: Key) {
    if a.cooling != b.cooling then b.cooling
    else if a.notPreferred != b.notPreferred then b.notPreferred
    else if a.failures != b.failures then a.failures < b.failures
    else if a.unproven != b.unproven then b.unproven
    else if a.priority != b.priority then a.priority < b.priority
    else if a.latency != b.latency then a.latency < b.latency
    else Less(a.id, b.id)
  }

  lemma KeyLessTransitive(a: Key, b: Key, c: Key)
    requires KeyLess(a, b) && KeyLess(b, c)
    ensures KeyLess(a, c)
  {
    if Less(a.id, b.id) && Less(b.id, c.id) {
      LessTransitive(a.id, b.id, c.id);
    }
  }

  lemma KeyLessTotal(a: Key, b: Key)
    ensures a == b || KeyLess(a, b) || KeyLess(b, a)
    ensures !(KeyLess(a, b) && KeyLess(b, a)) && !KeyLess(a, a)
  {
    LessTotal(a.id, b.id);
    LessTotal(a.id, a.id);
  }

  /** What a ranking looks at besides the advertised transports. */
  datatype Context = Context(
    policy: Policy,
    supports: Transport -> bool,
    records: map<string, Record>,
    now: nat,
    explicitProtocol: Option<Protocol>,
    excluded: set<Protocol>)

  function KeyOf(c: Context, t: Transport): (k: Key)
    ensures k.id == t.id
  {
    var known := t.id in c.records;
    var record := RecordIn(c.records, t.id);
    var preference := if c.explicitProtocol.Some? then c.explicitProtocol else c.policy.preferred;
    Key(known && record.cooldownUntil > c.now,
        preference != Some(t.protocol),
        record.failures,
        !record.worked,
        t.priority,
        if record.latency.Some? then record.latency.value else DEFAULT_LATENCY,
        t.id)
  }

  // ----- Ranking

  function Filter(ts: seq<Transport>, keep: Transport -> bool): seq<Transport> {
    if ts == [] then []
    else (if keep(ts[0]) then [ts[0]] else []) + Filter(ts[1..], keep)
  }

  predicate Matches(c: Context, t: Transport) {
    c.supports(t) && (c.explicitProtocol.None? || c.explicitProtocol.value == t.protocol)
  }

  function Matching(c: Context): Transport -> bool { (t: Transport) => Matches(c, t) }

  function NotExcluded(c: Context): Transport -> bool { (t: Transport) => t.protocol !in c.excluded }

  /** Exclusions apply when no protocol was asked for and something remains without them. */
  function Eligible(c: Context, ts: seq<Transport>): seq<Transport> {
    var candidates := Filter(ts, Matching(c));
    var allowed := Filter(candidates, NotExcluded(c));
    if c.explicitProtocol.None? && allowed != [] then allowed else candidates
  }

  function Insert(c: Context, t: Transport, ts: seq<Transport>): seq<Transport> {
    if ts == [] || !KeyLess(KeyOf(c, ts[0]), KeyOf(c, t)) then [t] + ts else [ts[0]] + Insert(c, t, ts[1..])
  }

  function Sort(c: Context, ts: seq<Transport>): seq<Transport> {
    if ts == [] then [] else Insert(c, ts[0], Sort(c, ts[1..]))
  }

  function RankFor(c: Context, ts: seq<Transport>): seq<Transport> {
    var sorted := Sort(c, Eligible(c, ts));
    sorted[..Min(|sorted|, Max(c.policy.maxAttempts, 1))]
  }

  // ----- What the filter keeps

  predicate UniqueIds(ts: seq<Transport>) {
    forall i, j :: 0 <= i < j < |ts| ==> ts[i].id != ts[j].id
  }

  lemma {:induction false} FilterMembers(ts: seq<Transport>, keep: Transport -> bool)
    ensures forall t :: t in Filter(ts, keep) <==> t in ts && keep(t)
    ensures UniqueIds(ts) ==> UniqueIds(Filter(ts, keep))
  {
    if ts != [] {
      FilterMembers(ts[1..], keep);
      assert ts == [ts[0]] + ts[1..];
      assert UniqueIds(ts) ==> forall t :: t in ts[1..] ==> t.id != ts[0].id;
    }
  }

  /** Which transports are eligible does not depend on the advertised order. */
  lemma EligibleMembers(c: Context, ts: seq<Transport>)
    ensures forall t :: t in Eligible(c, ts) <==>
              && t in ts && Matches(c, t)
              && (c.explicitProtocol.None? && t.protocol in c.excluded ==>
                    forall u :: u in ts && Matches(c, u) ==> u.protocol in c.excluded)
    ensures UniqueIds(ts) ==> UniqueIds(Eligible(c, ts))
  {
    var candidates := Filter(ts, Matching(c));
    FilterMembers(ts, Matching(c));
    var allowed := Filter(candidates, NotExcluded(c));
    FilterMembers(candidates, NotExcluded(c));
    if allowed == [] {
      assert forall u :: u in candidates && u.protocol !in c.excluded ==> u in allowed;
    } else {
      assert allowed[0] in allowed;
    }
  }

  // ----- What the sort does

  ghost predicate NotAfter(c: Context, a: Transport, b: Transport) {
    !KeyLess(KeyOf(c, b), KeyOf(c, a))
  }

  ghost predicate Sorted(c: Context, ts: seq<Transport>) {
    forall i, j :: 0 <= i < j < |ts| ==> NotAfter(c, ts[i], ts[j])
  }

  lemma NotAfterTransitive(c: Context, x: Transport, y: Transport, z: Transport)
    requires NotAfter(c, x, y) && NotAfter(c, y, z)
    ensures NotAfter(c, x, z)
  {
    hide KeyLess, KeyOf;
    var a, b, d := KeyOf(c, x), KeyOf(c, y), KeyOf(c, z);
    KeyLessTotal(a, b);
    KeyLessTotal(b, d);
    KeyLessTotal(a, d);
    if KeyLess(a, b) && KeyLess(b, d) { KeyLessTransitive(a, b, d); }
  }

  lemma {:induction false} InsertMembers(c: Context, t: Transport, ts: seq<Transport>)
    ensures multiset(Insert(c, t, ts)) == multiset(ts) + multiset{t}
  {
    hide KeyLess, KeyOf;
    if ts != [] {
      InsertMembers(c, t, ts[1..]);
      assert ts == [ts[0]] + ts[1..];
    }
  }

  lemma {:induction false} InsertSorts(c: Context, t: Transport, ts: seq<Transport>)
    requires Sorted(c, ts)
    ensures Sorted(c, Insert(c, t, ts))
  {
    hide KeyLess, KeyOf;
    if ts == [] {
    } else if NotAfter(c, t, ts[0]) {
      forall j | 0 <= j < |ts| ensures NotAfter(c, t, ts[j]) {
        if j > 0 { NotAfterTransitive(c, t, ts[0], ts[j]); }
      }
    } else {
      var rest := Insert(c, t, ts[1..]);
      InsertSorts(c, t, ts[1..]);
      InsertMembers(c, t, ts[1..]);
      KeyLessTotal(KeyOf(c, ts[0]), KeyOf(c, t));
      forall i | 0 <= i < |rest| ensures NotAfter(c, ts[0], rest[i]) {
        assert rest[i] in multiset(rest);
        assert rest[i] == t || rest[i] in ts[1..];
      }
    }
  }

  lemma EmptySorted(c: Context)
    ensures Sorted(c, [])
  {
  }

  lemma {:induction false} SortSorts(c: Context, ts: seq<Transport>)
    ensures multiset(Sort(c, ts)) == multiset(ts) && |Sort(c, ts)| == |ts|
    ensures Sorted(c, Sort(c, ts))
  {
    hide NotAfter, Insert, Sorted;
    if ts == [] {
      EmptySorted(c);
    } else {
      SortSorts(c, ts[1..]);
      InsertSorts(c, ts[0], Sort(c, ts[1..]));
      InsertMembers(c, ts[0], Sort(c, ts[1..]));
      assert ts == [ts[0]] + ts[1..];
    }
    assert |multiset(Sort(c, ts))| == |Sort(c, ts)| && |multiset(ts)| == |ts|;
  }

  ghost predicate StrictlySorted(c: Context, ts: seq<Transport>) {
    forall i, j :: 0 <= i < j < |ts| ==> KeyLess(KeyOf(c, ts[i]), KeyOf(c, ts[j]))
  }

  lemma {:induction false} SameIdsSameMember(ts: seq<Transport>, us: seq<Transport>)
    requires multiset(ts) == multiset(us) && UniqueIds(ts)
    ensures UniqueIds(us)
  {
    forall i, j | 0 <= i < j < |us| ensures us[i].id != us[j].id {
      assert us[i] in multiset(us) && us[j] in multiset(us);
      var k :| 0 <= k < |ts| && ts[k] == us[i];
      var l :| 0 <= l < |ts| && ts[l] == us[j];
      if k == l { TwoPlaces(us, i, j); OnePlace(ts, k); }
    }
  }

  lemma OnePlace(ts: seq<Transport>, k: nat)
    requires k < |ts| && UniqueIds(ts)
    ensures multiset(ts)[ts[k]] == 1
  {
    assert ts == ts[..k] + [ts[k]] + ts[k + 1..];
    assert ts[k] !in ts[..k] && ts[k] !in ts[k + 1..];
  }

  lemma SortStrict(c: Context, ts: seq<Transport>)
    requires UniqueIds(ts)
    ensures StrictlySorted(c, Sort(c, ts)) && UniqueIds(Sort(c, ts))
  {
    hide KeyLess, Sort;
    SortSorts(c, ts);
    var s := Sort(c, ts);
    SameIdsSameMember(ts, s);
    forall i, j | 0 <= i < j < |s| ensures KeyLess(KeyOf(c, s[i]), KeyOf(c, s[j])) {
      assert NotAfter(c, s[i], s[j]);
      KeyLessTotal(KeyOf(c, s[i]), KeyOf(c, s[j]));
    }
  }

  /** A set of transports has one strictly sorted order. */
  lemma {:induction false} StrictOrderUnique(c: Context, a: seq<Transport>, b: seq<Transport>)
    requires StrictlySorted(c, a) && StrictlySorted(c, b)
    requires forall t :: t in a <==> t in b
    ensures a == b
  {
    hide KeyLess, KeyOf;
    if a == [] {
      assert forall i :: 0 <= i < |b| ==> b[i] in a;
    } else {
      assert a[0] in a && b != [] && b[0] in b;
      FirstIsLeast(c, a, b[0]);
      FirstIsLeast(c, b, a[0]);
      KeyLessTotal(KeyOf(c, a[0]), KeyOf(c, b[0]));
      assert a[0] == b[0];
      TailMembers(c, a);
      TailMembers(c, b);
      StrictOrderUnique(c, a[1..], b[1..]);
      assert a == [a[0]] + a[1..] && b == [b[0]] + b[1..];
    }
  }

  lemma FirstIsLeast(c: Context, ts: seq<Transport>, t: Transport)
    requires StrictlySorted(c, ts) && t in ts
    ensures t == ts[0] || KeyLess(KeyOf(c, ts[0]), KeyOf(c, t))
  {
    hide KeyLess, KeyOf;
  }

  lemma TailMembers(c: Context, ts: seq<Transport>)
    requires StrictlySorted(c, ts) && ts != []
    ensures forall t :: t in ts[1..] <==> t in ts && t != ts[0]
  {
    hide KeyLess, KeyOf;
    KeyLessTotal(KeyOf(c, ts[0]), KeyOf(c, ts[0]));
    assert ts == [ts[0]] + ts[1..];
  }

  // ----- What a ranking is

  predicate IsCooling(c: Context, t: Transport) {
    t.id in c.records && c.now < c.records[t.id].cooldownUntil
  }

  predicate IsPreferred(c: Context, t: Transport) {
    match c.explicitProtocol
    case Some(protocol) => t.protocol == protocol
    case None => c.policy.preferred.Some? && t.protocol == c.policy.preferred.value
  }

  function FailuresOf(c: Context, t: Transport): nat {
    if t.id in c.records then c.records[t.id].failures else 0
  }

  predicate HasWorked(c: Context, t: Transport) {
    t.id in c.records && c.records[t.id].worked
  }

  function LatencyOf(c: Context, t: Transport): nat {
    if t.id in c.records && c.records[t.id].latency.Some? then c.records[t.id].latency.value else 500
  }

  /** `x` is to be tried before `y`: one that is not cooling down before one that is; then the preferred
      protocol; then fewer failures; then one that worked; then the lower priority number; then the
      lower last latency; then the smaller identifier. */
  predicate Better(c: Context, x: Transport, y: Transport) {
    if IsCooling(c, x) != IsCooling(c, y) then !IsCooling(c, x)
    else if IsPreferred(c, x) != IsPreferred(c, y) then IsPreferred(c, x)
    else if FailuresOf(c, x) != FailuresOf(c, y) then FailuresOf(c, x) < FailuresOf(c, y)
    else if HasWorked(c, x) != HasWorked(c, y) then HasWorked(c, x)
    else if x.priority != y.priority then x.priority < y.priority
    else if LatencyOf(c, x) != LatencyOf(c, y) then LatencyOf(c, x) < LatencyOf(c, y)
    else Less(x.id, y.id)
  }

  /** A ranking may hold `t`: it is advertised, supported and of the explicit protocol if there is one; and
      an excluded protocol counts only when Automatic has nothing else. */
  predicate MayRank(c: Context, ts: seq<Transport>, t: Transport) {
    && t in ts && c.supports(t)
    && match c.explicitProtocol
       case Some(protocol) => t.protocol == protocol
       case None => t.protocol in c.excluded ==> forall u :: u in ts && c.supports(u) ==> u.protocol in c.excluded
  }

  lemma BetterIsKeyLess(c: Context, x: Transport, y: Transport)
    ensures Better(c, x, y) <==> KeyLess(KeyOf(c, x), KeyOf(c, y))
  {
  }

  lemma MayRankIsEligible(c: Context, ts: seq<Transport>)
    ensures forall t :: MayRank(c, ts, t) <==> t in Eligible(c, ts)
  {
    EligibleMembers(c, ts);
    hide Eligible;
    assert c.explicitProtocol.None? ==> forall u :: Matches(c, u) <==> c.supports(u);
  }

  lemma RankIsSorted(c: Context, ts: seq<Transport>)
    ensures var r, e := RankFor(c, ts), Eligible(c, ts);
            && |r| == Min(|e|, Max(c.policy.maxAttempts, 1))
            && Sorted(c, r)
            && multiset(r) <= multiset(e)
            && forall x, y :: x in r && y in multiset(e) - multiset(r) ==> NotAfter(c, x, y)
  {
    hide KeyLess, KeyOf, Eligible, Sort;
    var e := Eligible(c, ts);
    var s, r := Sort(c, e), RankFor(c, ts);
    SortSorts(c, e);
    var rest := s[|r|..];
    assert s == r + rest;
    assert multiset(e) - multiset(r) == multiset(rest);
  }

  /** The ranking is the first `max(1, maxAttempts)` of the transports that may be ranked, each as often as
      it is advertised, with no better one behind a worse one or left out for it. */
  lemma RankIsBest(c: Context, ts: seq<Transport>)
    ensures var r, e := RankFor(c, ts), Eligible(c, ts);
            && (forall t :: t in e <==> MayRank(c, ts, t))
            && multiset(r) <= multiset(e) && |r| == Min(|e|, Max(c.policy.maxAttempts, 1))
            && (forall i, j :: 0 <= i < j < |r| ==> !Better(c, r[j], r[i]))
            && forall x, y :: x in r && y in multiset(e) - multiset(r) ==> !Better(c, y, x)
  {
    var r, e := RankFor(c, ts), Eligible(c, ts);
    MayRankIsEligible(c, ts);
    RankIsSorted(c, ts);
    hide KeyLess, KeyOf, Better, MayRank, Eligible, RankFor;
    forall i, j | 0 <= i < j < |r| ensures !Better(c, r[j], r[i]) {
      assert NotAfter(c, r[i], r[j]);
      BetterIsKeyLess(c, r[j], r[i]);
    }
    forall x, y | x in r && y in multiset(e) - multiset(r) ensures !Better(c, y, x) {
      BetterIsKeyLess(c, y, x);
    }
  }

  lemma RankIsStrict(c: Context, ts: seq<Transport>)
    requires UniqueIds(ts)
    ensures StrictlySorted(c, RankFor(c, ts))
    ensures forall x, y :: x in RankFor(c, ts) && y in Eligible(c, ts) && y !in RankFor(c, ts)
              ==> KeyLess(KeyOf(c, x), KeyOf(c, y))
  {
    EligibleMembers(c, ts);
    hide KeyLess, KeyOf, Eligible, Sort;
    var e := Eligible(c, ts);
    SortStrict(c, e);
    SortSorts(c, e);
    var s, r := Sort(c, e), RankFor(c, ts);
    forall x, y | x in r && y in e && y !in r ensures KeyLess(KeyOf(c, x), KeyOf(c, y)) {
      assert y in multiset(s);
      var i :| 0 <= i < |r| && r[i] == x;
      var j :| 0 <= j < |s| && s[j] == y;
      assert s[i] == x && j >= |r|;
    }
  }

  /** Of two transports with different IDs exactly one is better. */
  lemma BetterIsTotal(c: Context, x: Transport, y: Transport)
    requires x.id != y.id
    ensures Better(c, x, y) <==> !Better(c, y, x)
  {
    LessTotal(x.id, y.id);
  }

  lemma EarlierIsLess(c: Context, ts: seq<Transport>, i: nat, j: nat)
    requires StrictlySorted(c, ts) && i < |ts| && j < |ts|
    ensures KeyLess(KeyOf(c, ts[i]), KeyOf(c, ts[j])) ==> i < j
  {
    KeyLessTotal(KeyOf(c, ts[i]), KeyOf(c, ts[j]));
    hide KeyLess, KeyOf;
  }

  /** With unique IDs, of two transports that may be ranked the better one comes first, and the worse one is
      not ranked without it. */
  lemma RankPrefers(c: Context, ts: seq<Transport>, x: Transport, y: Transport)
    requires UniqueIds(ts) && MayRank(c, ts, x) && MayRank(c, ts, y) && Better(c, x, y)
    ensures var r := RankFor(c, ts);
            && (y in r ==> x in r)
            && forall i, j :: 0 <= i < |r| && 0 <= j < |r| && r[i] == x && r[j] == y ==> i < j
  {
    var r := RankFor(c, ts);
    MayRankIsEligible(c, ts);
    RankIsStrict(c, ts);
    BetterIsKeyLess(c, x, y);
    BetterIsKeyLess(c, y, x);
    KeyLessTotal(KeyOf(c, x), KeyOf(c, y));
    hide KeyLess, KeyOf, Better, MayRank, Eligible, RankFor;
    forall i, j | 0 <= i < |r| && 0 <= j < |r| && r[i] == x && r[j] == y ensures i < j {
      EarlierIsLess(c, r, i, j);
    }
  }

  /** A transport that may be ranked is left out only when the ranking is full. */
  lemma RankIsFull(c: Context, ts: seq<Transport>, t: Transport)
    requires MayRank(c, ts, t) && t !in RankFor(c, ts)
    ensures |RankFor(c, ts)| == Max(c.policy.maxAttempts, 1)
  {
    var r, e := RankFor(c, ts), Eligible(c, ts);
    MayRankIsEligible(c, ts);
    RankIsSorted(c, ts);
    hide RankFor, Eligible, MayRank, Sorted;
    assert t in multiset(e) && t !in multiset(r);
    assert |multiset(e) - multiset(r)| == |e| - |r| && t in multiset(e) - multiset(r);
  }

  /** With unique IDs the advertised order does not matter. */
  lemma RankIgnoresOrder(c: Context, ts: seq<Transport>, us: seq<Transport>)
    requires UniqueIds(ts) && multiset(ts) == multiset(us)
    ensures RankFor(c, ts) == RankFor(c, us)
  {
    SameIdsSameMember(ts, us);
    forall t ensures t in ts <==> t in us {
      assert t in ts <==> t in multiset(ts);
    }
    EligibleMembers(c, ts);
    EligibleMembers(c, us);
    hide KeyLess, KeyOf, Eligible, Sort, Matches;
    var d, e := Eligible(c, ts), Eligible(c, us);
    SortStrict(c, d);
    SortStrict(c, e);
    SortSorts(c, d);
    SortSorts(c, e);
    forall t ensures t in Sort(c, d) <==> t in Sort(c, e) {
      assert t in Sort(c, d) <==> t in multiset(Sort(c, d));
      assert t in Sort(c, e) <==> t in multiset(Sort(c, e));
    }
    StrictOrderUnique(c, Sort(c, d), Sort(c, e));
  }

  /** Every ranked transport is advertised, supported and of the explicit protocol; the ranking is
      empty only when there is no such transport; an excluded protocol is ranked under Automatic
      only when every candidate is excluded. */
  lemma RankMembers(c: Context, ts: seq<Transport>)
    ensures forall t :: t in RankFor(c, ts) ==> t in ts && Matches(c, t)
    ensures RankFor(c, ts) == [] <==> !exists t :: t in ts && Matches(c, t)
    ensures forall t, u :: t in RankFor(c, ts) && c.explicitProtocol.None? && t.protocol in c.excluded
              && u in ts && Matches(c, u)
              ==> u.protocol in c.excluded
  {
    EligibleMembers(c, ts);
    hide KeyLess, KeyOf, Sort, Matches;
    var e := Eligible(c, ts);
    RankIsSorted(c, ts);
    FilterMembers(ts, Matching(c));
    forall t | t in RankFor(c, ts) ensures t in e {
      assert t in multiset(RankFor(c, ts));
    }
    if e != [] { assert e[0] in e; }
  }
}
