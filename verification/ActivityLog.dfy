/** The activity log: for each grant a queue of at most 24 entries, in which an activity that occurs
    again moves to the end and counts. */
module ActivityLog {
  import opened Arithmetic
  import opened Wrappers
  import opened Transports

  const MAX_ENTRIES := 24

  datatype EventKind =
    | Enrolled | CheckedIn | Left | LeaseEnded | EndedByChange | EndedAllowanceUsed
    | RefusedWrongCode | RefusedExpired | RefusedPaused | RefusedAllowanceUsed | RefusedDeviceLimit
    | RefusedServerFull | RefusedUpdateRequired | RefusedNoProtocol | RefusedServerUnavailable
    | SignedIn | SignInRefused | SignInRefusedProtocol

  datatype Activity = Activity(event: EventKind, session: Option<string>, client: string, protocol: Option<Protocol>)

  datatype Entry = Entry(what: Activity, count: nat, firstAt: nat, lastAt: nat)

  /** One call of `Record` for a grant. */
  datatype Noticed = Noticed(what: Activity, at: nat)

  // ----- One grant

  /** The place of `a` in `order`, or its length. */
  function Place(order: seq<Activity>, a: Activity): (i: nat)
    ensures i <= |order| && (i < |order| ==> order[i] == a) && (i == |order| ==> a !in order)
  {
    if order == [] || order[0] == a then 0 else 1 + Place(order[1..], a)
  }

  function Keys(entries: seq<Entry>): (keys: seq<Activity>)
    ensures |keys| == |entries|
  {
    seq(|entries|, i requires 0 <= i < |entries| => entries[i].what)
  }

  function Recorded(entries: seq<Entry>, a: Activity, now: nat): seq<Entry> {
    var position := Place(Keys(entries), a);
    if position < |entries| then
      var entry := entries[position];
      entries[..position] + entries[position + 1..]
      + [entry.(count := Min(entry.count + 1, U32_MAX), lastAt := now)]
    else
      entries[if |entries| >= MAX_ENTRIES then 1 else 0..] + [Entry(a, 1, now, now)]
  }

  function EntriesAfter(trace: seq<Noticed>): seq<Entry> {
    if trace == [] then []
    else
      var last := trace[|trace| - 1];
      Recorded(EntriesAfter(trace[..|trace| - 1]), last.what, last.at)
  }

  // ----- The order of last occurrence, without a bound

  function Without(order: seq<Activity>, a: Activity): seq<Activity> {
    var i := Place(order, a);
    if i < |order| then order[..i] + order[i + 1..] else order
  }

  function Order(trace: seq<Noticed>): seq<Activity> {
    if trace == [] then []
    else Without(Order(trace[..|trace| - 1]), trace[|trace| - 1].what) + [trace[|trace| - 1].what]
  }

  ghost predicate Distinct(order: seq<Activity>) {
    forall i, j :: 0 <= i < j < |order| ==> order[i] != order[j]
  }

  predicate Occurs(trace: seq<Noticed>, a: Activity) {
    exists i :: 0 <= i < |trace| && trace[i].what == a
  }

  /** Where `a` last occurs. */
  function LastAt(trace: seq<Noticed>, a: Activity): (i: nat)
    requires Occurs(trace, a)
    ensures i < |trace| && trace[i].what == a
    ensures forall j :: i < j < |trace| ==> trace[j].what != a
  {
    if trace[|trace| - 1].what == a then |trace| - 1 else LastAt(trace[..|trace| - 1], a)
  }

  /** `Order` lists exactly what occurred, each once, by where it last occurred. */
  lemma {:induction false} OrderMembers(trace: seq<Noticed>)
    ensures Distinct(Order(trace))
    ensures forall a :: a in Order(trace) <==> Occurs(trace, a)
  {
    if trace != [] {
      var rest, a := trace[..|trace| - 1], trace[|trace| - 1].what;
      OrderMembers(rest);
      WithoutMeaning(Order(rest), a);
      hide Without, Occurs;
      forall b ensures b in Order(trace) <==> Occurs(trace, b) {
        OccursAfter(trace, b);
      }
    }
  }

  ghost predicate ByLastOccurrence(trace: seq<Noticed>, order: seq<Activity>) {
    forall i, j :: 0 <= i < j < |order| && Occurs(trace, order[i]) && Occurs(trace, order[j])
      ==> LastAt(trace, order[i]) < LastAt(trace, order[j])
  }

  lemma {:induction false} OrderIsByLastOccurrence(trace: seq<Noticed>)
    ensures ByLastOccurrence(trace, Order(trace))
  {
    if trace != [] {
      OrderIsByLastOccurrence(trace[..|trace| - 1]);
      hide Order, Occurs, LastAt;
      forall i, j | 0 <= i < j < |Order(trace)| && Occurs(trace, Order(trace)[i]) && Occurs(trace, Order(trace)[j])
        ensures LastAt(trace, Order(trace)[i]) < LastAt(trace, Order(trace)[j])
      {
        OrderStep(trace, i, j);
      }
    }
  }

  lemma OrderStep(trace: seq<Noticed>, i: nat, j: nat)
    requires trace != [] && ByLastOccurrence(trace[..|trace| - 1], Order(trace[..|trace| - 1]))
    requires i < j < |Order(trace)| && Occurs(trace, Order(trace)[i]) && Occurs(trace, Order(trace)[j])
    ensures LastAt(trace, Order(trace)[i]) < LastAt(trace, Order(trace)[j])
  {
    var rest, a := trace[..|trace| - 1], trace[|trace| - 1].what;
    var o := Without(Order(rest), a);
    assert a !in o by {
      OrderMembers(rest);
      WithoutMeaning(Order(rest), a);
    }
    var x, y := Order(trace)[i], Order(trace)[j];
    assert x == o[i] && x in o;
    hide Without, Occurs, LastAt, Place;
    LastAtRest(trace, x);
    if j < |o| {
      assert y == o[j] && y in o;
      LastAtRest(trace, y);
      var k, l := PlacesBefore(Order(rest), a, i, j);
    }
  }

  lemma LastAtRest(trace: seq<Noticed>, b: Activity)
    requires trace != [] && trace[|trace| - 1].what != b && Occurs(trace, b)
    ensures Occurs(trace[..|trace| - 1], b) && LastAt(trace, b) == LastAt(trace[..|trace| - 1], b) < |trace| - 1
  {
    OccursAfter(trace, b);
  }

  /** Where the elements `i` and `j` of `Without(order, a)` stand in `order`. */
  lemma PlacesBefore(order: seq<Activity>, a: Activity, i: nat, j: nat) returns (k: nat, l: nat)
    requires i < j < |Without(order, a)|
    ensures k < l < |order| && order[k] == Without(order, a)[i] && order[l] == Without(order, a)[j]
  {
    hide Place;
    var p := Place(order, a);
    k, l := if i < p then i else i + 1, if j < p then j else j + 1;
  }

  lemma OccursAfter(trace: seq<Noticed>, b: Activity)
    requires trace != []
    ensures Occurs(trace, b) <==> Occurs(trace[..|trace| - 1], b) || trace[|trace| - 1].what == b
  {
  }

  lemma WithoutMeaning(order: seq<Activity>, a: Activity)
    requires Distinct(order)
    ensures Distinct(Without(order, a)) && a !in Without(order, a)
    ensures forall b :: b in Without(order, a) <==> b in order && b != a
    ensures |Without(order, a)| == if a in order then |order| - 1 else |order|
  {
    var i := Place(order, a);
    if i < |order| {
      assert order == order[..i] + [a] + order[i + 1..];
    }
  }

  // ----- The bounded log holds the latest of that order

  function Latest(order: seq<Activity>): seq<Activity> {
    order[if |order| > 24 then |order| - 24 else 0..]
  }

  function KeysAfter(keys: seq<Activity>, a: Activity): seq<Activity> {
    if a in keys then Without(keys, a) + [a] else keys[if |keys| >= MAX_ENTRIES then 1 else 0..] + [a]
  }

  lemma KeysOfRecorded(entries: seq<Entry>, a: Activity, now: nat)
    ensures Keys(Recorded(entries, a, now)) == KeysAfter(Keys(entries), a)
  {
    hide Place;
    var keys, p := Keys(entries), Place(Keys(entries), a);
    assert a in keys <==> p < |entries|;
    hide Keys;
    if p < |entries| {
      var moved := entries[p].(count := Min(entries[p].count + 1, U32_MAX), lastAt := now);
      KeysOfSum(entries[..p] + entries[p + 1..], [moved]);
      KeysOfSum(entries[..p], entries[p + 1..]);
      KeysOfSlices(entries, p);
      KeyOf(moved);
    } else {
      var e := Entry(a, 1, now, now);
      KeysOfSum(entries[if |entries| >= MAX_ENTRIES then 1 else 0..], [e]);
      KeysOfSlices(entries, 0);
      KeyOf(e);
    }
  }

  lemma KeysOfSum(a: seq<Entry>, b: seq<Entry>)
    ensures Keys(a + b) == Keys(a) + Keys(b)
  {
  }

  lemma KeysOfSlices(entries: seq<Entry>, p: nat)
    requires p <= |entries|
    ensures Keys(entries[..p]) == Keys(entries)[..p] && Keys(entries[p..]) == Keys(entries)[p..]
    ensures p < |entries| ==> Keys(entries[p + 1..]) == Keys(entries)[p + 1..] && Keys(entries)[p] == entries[p].what
  {
  }

  lemma KeyOf(e: Entry)
    ensures Keys([e]) == [e.what]
  {
  }

  /** The latest of `gone + keys` are `keys`, when there are as many as fit. */
  lemma LatestIsSuffix(gone: seq<Activity>, keys: seq<Activity>)
    requires |keys| <= MAX_ENTRIES && (gone != [] ==> |keys| == MAX_ENTRIES)
    ensures Latest(gone + keys) == keys
  {
  }

  lemma LatestStep(order: seq<Activity>, a: Activity)
    requires Distinct(order)
    ensures KeysAfter(Latest(order), a) == Latest(Without(order, a) + [a])
  {
    var keys := Latest(order);
    var gone := order[..|order| - |keys|];
    assert order == gone + keys;
    WithoutInParts(gone, keys, a);
    if a in keys {
      SeenStep(gone, keys, a);
    } else {
      NewStep(gone, keys, a);
    }
  }

  lemma SeenStep(gone: seq<Activity>, keys: seq<Activity>, a: Activity)
    requires |keys| <= MAX_ENTRIES && (gone != [] ==> |keys| == MAX_ENTRIES) && a in keys
    requires Without(gone + keys, a) == gone + Without(keys, a) && |Without(keys, a)| == |keys| - 1
    ensures KeysAfter(keys, a) == Latest(Without(gone + keys, a) + [a])
  {
    hide Without, Latest;
    LatestIsSuffix(gone, Without(keys, a) + [a]);
    assert (gone + Without(keys, a)) + [a] == gone + (Without(keys, a) + [a]);
  }

  lemma NewStep(gone: seq<Activity>, keys: seq<Activity>, a: Activity)
    requires |keys| <= MAX_ENTRIES && (gone != [] ==> |keys| == MAX_ENTRIES) && a !in keys
    requires Without(gone + keys, a) == Without(gone, a) + keys && (gone == [] ==> Without(gone, a) == [])
    ensures KeysAfter(keys, a) == Latest(Without(gone + keys, a) + [a])
  {
    hide Without, Latest;
    var front, cut := Without(gone, a), if |keys| >= MAX_ENTRIES then 1 else 0;
    LatestIsSuffix(front + keys[..cut], keys[cut..] + [a]);
    assert (front + keys) + [a] == (front + keys[..cut]) + (keys[cut..] + [a]);
  }

  lemma WithoutInParts(gone: seq<Activity>, keys: seq<Activity>, a: Activity)
    requires Distinct(gone + keys)
    ensures Without(gone + keys, a) == if a in keys then gone + Without(keys, a) else Without(gone, a) + keys
    ensures |Without(keys, a)| == if a in keys then |keys| - 1 else |keys|
    ensures gone == [] ==> Without(gone, a) == []
  {
    hide Place;
    if a in keys {
      PlaceInSuffix(gone, keys, a);
    } else if a in gone {
      PlaceInPrefix(gone, keys, a);
    }
  }

  lemma DistinctPlaces(order: seq<Activity>, i: nat, k: nat)
    requires Distinct(order) && i < |order| && k < |order| && order[i] == order[k]
    ensures i == k
  {
  }

  lemma PlaceInSuffix(gone: seq<Activity>, keys: seq<Activity>, a: Activity)
    requires Distinct(gone + keys) && a in keys
    ensures Place(gone + keys, a) == |gone| + Place(keys, a)
  {
    hide Place, Distinct;
    var k := |gone| + Place(keys, a);
    assert (gone + keys)[k] == a;
    DistinctPlaces(gone + keys, Place(gone + keys, a), k);
  }

  lemma PlaceInPrefix(gone: seq<Activity>, keys: seq<Activity>, a: Activity)
    requires Distinct(gone + keys) && a in gone
    ensures Place(gone + keys, a) == Place(gone, a) < |gone|
  {
    hide Place, Distinct;
    assert (gone + keys)[Place(gone, a)] == a;
    DistinctPlaces(gone + keys, Place(gone + keys, a), Place(gone, a));
  }

  /** After any trace a grant's log holds exactly the last 24 distinct activities, in the order in
      which each last occurred. */
  lemma {:induction false} LogHoldsLatest(trace: seq<Noticed>)
    ensures Keys(EntriesAfter(trace)) == Latest(Order(trace))
    ensures Distinct(Keys(EntriesAfter(trace))) && |EntriesAfter(trace)| <= MAX_ENTRIES
  {
    OrderMembers(trace);
    if trace != [] {
      var rest, last := trace[..|trace| - 1], trace[|trace| - 1];
      LogHoldsLatest(rest);
      OrderMembers(rest);
      hide Recorded, Without, KeysAfter, Latest;
      KeysOfRecorded(EntriesAfter(rest), last.what, last.at);
      LatestStep(Order(rest), last.what);
    }
    LatestKeeps(Order(trace));
  }

  lemma LatestKeeps(order: seq<Activity>)
    requires Distinct(order)
    ensures Distinct(Latest(order)) && |Latest(order)| <= MAX_ENTRIES
  {
  }

  /** Every entry's last time is the time of that activity's last occurrence. */
  lemma {:induction false} LastTimes(trace: seq<Noticed>, i: nat)
    requires i < |EntriesAfter(trace)|
    ensures var e := EntriesAfter(trace)[i]; Occurs(trace, e.what) && e.lastAt == trace[LastAt(trace, e.what)].at
  {
    var rest, last := trace[..|trace| - 1], trace[|trace| - 1];
    var before, e := EntriesAfter(rest), EntriesAfter(trace)[i];
    LogHoldsLatest(trace);
    if i == |EntriesAfter(trace)| - 1 {
      assert e.what == last.what;
      OccursAfter(trace, e.what);
    } else {
      assert Keys(EntriesAfter(trace))[i] != Keys(EntriesAfter(trace))[|EntriesAfter(trace)| - 1];
      var k := EntryBefore(before, last.what, last.at, i);
      LastTimes(rest, k);
      OccursAfter(trace, e.what);
    }
  }

  /** An entry that a record did not touch, in the log before it. */
  lemma EntryBefore(entries: seq<Entry>, a: Activity, now: nat, i: nat) returns (k: nat)
    requires i < |Recorded(entries, a, now)| - 1
    ensures k < |entries| && entries[k] == Recorded(entries, a, now)[i]
  {
    hide Place;
    var position := Place(Keys(entries), a);
    if position < |entries| {
      k := if i < position then i else i + 1;
    } else {
      k := if |entries| >= MAX_ENTRIES then i + 1 else i;
    }
  }

  // ----- Counts

  function Total(entries: seq<Entry>): nat {
    if entries == [] then 0 else entries[0].count + Total(entries[1..])
  }

  /** The counts that left the log with evicted entries. */
  function Evicted(trace: seq<Noticed>): nat {
    if trace == [] then 0
    else
      var rest, last := trace[..|trace| - 1], trace[|trace| - 1];
      var entries := EntriesAfter(rest);
      Evicted(rest) + (if last.what !in Keys(entries) && |entries| >= MAX_ENTRIES then entries[0].count else 0)
  }

  lemma {:induction false} TotalOfSum(a: seq<Entry>, b: seq<Entry>)
    ensures Total(a + b) == Total(a) + Total(b)
  {
    if a == [] {
      assert a + b == b;
    } else {
      TotalOfSum(a[1..], b);
      assert (a + b)[1..] == a[1..] + b;
    }
  }

  /** The entry of `a` cannot count any further. */
  predicate IsFull(entries: seq<Entry>, a: Activity) {
    var p := Place(Keys(entries), a);
    p < |entries| && entries[p].count >= U32_MAX
  }

  /** Some record met a full entry. */
  predicate Saturates(trace: seq<Noticed>) {
    trace != [] &&
    var rest := trace[..|trace| - 1];
    Saturates(rest) || IsFull(EntriesAfter(rest), trace[|trace| - 1].what)
  }

  /** How many records met a full entry. */
  function Missed(trace: seq<Noticed>): nat {
    if trace == [] then 0
    else
      var rest := trace[..|trace| - 1];
      Missed(rest) + (if IsFull(EntriesAfter(rest), trace[|trace| - 1].what) then 1 else 0)
  }

  ghost predicate CountsFit(entries: seq<Entry>) {
    forall i :: 0 <= i < |entries| ==> entries[i].count <= U32_MAX
  }

  lemma {:induction false} CountsStayInRange(trace: seq<Noticed>)
    ensures CountsFit(EntriesAfter(trace))
  {
    hide CountsFit, EntriesAfter, Recorded;
    if trace == [] {
      NothingFits();
    } else {
      var rest, last := trace[..|trace| - 1], trace[|trace| - 1];
      assert trace == rest + [last];
      CountsStayInRange(rest);
      RecordedFits(EntriesAfter(rest), last.what, last.at);
      OneMore(rest, last);
    }
  }

  lemma NothingFits()
    ensures CountsFit(EntriesAfter([]))
  {
  }

  lemma RecordedFits(entries: seq<Entry>, a: Activity, now: nat)
    requires CountsFit(entries)
    ensures CountsFit(Recorded(entries, a, now))
  {
    hide Place, Keys;
    var after := Recorded(entries, a, now);
    forall i | 0 <= i < |after| ensures after[i].count <= U32_MAX {
      if i < |after| - 1 {
        var k := EntryBefore(entries, a, now, i);
      }
    }
  }

  /** Every event is counted exactly once: in the log, with an entry that was evicted, or as one that met
      a full entry. The log and the evicted entries count all of them exactly as long as there was none
      of the latter. */
  lemma {:induction false} CountsAddUp(trace: seq<Noticed>)
    ensures Total(EntriesAfter(trace)) + Evicted(trace) + Missed(trace) == |trace|
    ensures Missed(trace) == 0 <==> !Saturates(trace)
    ensures Total(EntriesAfter(trace)) + Evicted(trace) == |trace| <==> !Saturates(trace)
  {
    if trace != [] {
      var rest, last := trace[..|trace| - 1], trace[|trace| - 1];
      CountsAddUp(rest);
      CountsStayInRange(rest);
      hide IsFull, Total, Recorded, CountsFit;
      TotalOfRecorded(EntriesAfter(rest), last.what, last.at);
    }
  }

  lemma TotalOfOne(e: Entry)
    ensures Total([e]) == e.count
  {
  }

  lemma TotalOfMoved(entries: seq<Entry>, p: nat, moved: Entry)
    requires p < |entries|
    ensures Total(entries[..p] + entries[p + 1..] + [moved]) == Total(entries) - entries[p].count + moved.count
  {
    hide Total;
    var front, e, back := entries[..p], entries[p], entries[p + 1..];
    TotalOfOne(e);
    TotalOfOne(moved);
    assert Total(entries) == Total(front) + e.count + Total(back) by {
      assert entries == front + ([e] + back);
      TotalOfSum(front, [e] + back);
      TotalOfSum([e], back);
    }
    TotalOfSum(front + back, [moved]);
    TotalOfSum(front, back);
  }

  lemma TotalOfDropped(entries: seq<Entry>, e: Entry)
    ensures Total(entries + [e]) == Total(entries) + e.count
    ensures entries != [] ==> Total(entries[1..] + [e]) == Total(entries) - entries[0].count + e.count
  {
    TotalOfOne(e);
    TotalOfSum(entries, [e]);
    if entries != [] {
      TotalOfSum(entries[1..], [e]);
    }
  }

  /** A record adds exactly one to the counts, apart from what it evicts, unless it meets a full entry;
      then it adds nothing. */
  lemma TotalOfRecorded(entries: seq<Entry>, a: Activity, now: nat)
    ensures var dropped := if a !in Keys(entries) && |entries| >= MAX_ENTRIES then entries[0].count else 0;
            var added := Total(Recorded(entries, a, now)) + dropped - Total(entries);
            && (IsFull(entries, a) && CountsFit(entries) ==> added == 0)
            && (!IsFull(entries, a) ==> added == 1)
  {
    var p := Place(Keys(entries), a);
    assert a in Keys(entries) <==> p < |entries|;
    hide Place, Keys, Total;
    if p < |entries| {
      var e := entries[p];
      TotalOfMoved(entries, p, e.(count := Min(e.count + 1, U32_MAX), lastAt := now));
    } else {
      TotalOfDropped(entries, Entry(a, 1, now, now));
      assert entries[0..] == entries;
    }
  }

  // ----- What one entry says

  function Times(trace: seq<Noticed>, a: Activity): nat {
    if trace == [] then 0
    else Times(trace[..|trace| - 1], a) + (if trace[|trace| - 1].what == a then 1 else 0)
  }

  /** The event at `from` brought `a` into the log, where it has stayed since. */
  ghost predicate EnteredAt(trace: seq<Noticed>, a: Activity, from: nat) {
    && from < |trace| && trace[from].what == a
    && a !in Keys(EntriesAfter(trace[..from]))
    && forall k :: from < k <= |trace| ==> a in Keys(EntriesAfter(trace[..k]))
  }

  /** An entry's count is the saturating number of occurrences since its activity last entered the log,
      and its first time is that of the first of them. */
  lemma {:induction false} EntryMeaning(trace: seq<Noticed>, i: nat) returns (from: nat)
    requires i < |EntriesAfter(trace)|
    ensures var e := EntriesAfter(trace)[i];
            && EnteredAt(trace, e.what, from)
            && e.firstAt == trace[from].at
            && e.count == Min(Times(trace[from..], e.what), U32_MAX)
  {
    var rest, last := trace[..|trace| - 1], trace[|trace| - 1];
    var before, e := EntriesAfter(rest), EntriesAfter(trace)[i];
    assert Keys(EntriesAfter(trace))[i] == e.what;
    hide EntriesAfter, EnteredAt, Times;
    if i < |EntriesAfter(trace)| - 1 {
      NotLast(trace, i);
      var k := EntryBefore(before, last.what, last.at, i);
      from := EntryMeaning(rest, k);
      StaysSince(trace, e.what, from);
    } else if last.what in Keys(before) {
      var p := Place(Keys(before), last.what);
      from := EntryMeaning(rest, p);
      StaysSince(trace, e.what, from);
    } else {
      from := |rest|;
      EntersNow(trace);
    }
  }

  lemma {:induction false} NotLast(trace: seq<Noticed>, i: nat)
    requires trace != [] && i < |EntriesAfter(trace)| - 1
    ensures EntriesAfter(trace)[i].what != trace[|trace| - 1].what
  {
    LogHoldsLatest(trace);
    var entries := EntriesAfter(trace);
    assert Keys(entries)[i] != Keys(entries)[|entries| - 1];
    hide Place;
  }

  lemma {:induction false} StaysSince(trace: seq<Noticed>, a: Activity, from: nat)
    requires trace != [] && EnteredAt(trace[..|trace| - 1], a, from) && a in Keys(EntriesAfter(trace))
    ensures EnteredAt(trace, a, from)
    ensures Times(trace[from..], a)
         == Times(trace[..|trace| - 1][from..], a) + (if trace[|trace| - 1].what == a then 1 else 0)
  {
    hide EntriesAfter;
    var rest := trace[..|trace| - 1];
    assert trace[..from] == rest[..from];
    assert trace[..|trace|] == trace;
    forall k | from < k <= |trace| ensures a in Keys(EntriesAfter(trace[..k])) {
      assert k < |trace| ==> trace[..k] == rest[..k];
    }
    assert trace[from..][..|trace[from..]| - 1] == rest[from..];
  }

  lemma {:induction false} EntersNow(trace: seq<Noticed>)
    requires trace != [] && trace[|trace| - 1].what !in Keys(EntriesAfter(trace[..|trace| - 1]))
    requires trace[|trace| - 1].what in Keys(EntriesAfter(trace))
    ensures EnteredAt(trace, trace[|trace| - 1].what, |trace| - 1)
    ensures Times(trace[|trace| - 1..], trace[|trace| - 1].what) == 1
  {
    hide EntriesAfter;
    assert trace[..|trace|] == trace;
    assert trace[|trace| - 1..] == [trace[|trace| - 1]];
  }

  // ----- All grants

  datatype Step = Noted(grant: string, noticed: Noticed) | Kept(keep: string -> bool)

  /** What was recorded for a grant since it was last forgotten. */
  function TraceOf(steps: seq<Step>, grant: string): seq<Noticed> {
    if steps == [] then []
    else
      var before := TraceOf(steps[..|steps| - 1], grant);
      match steps[|steps| - 1]
      case Noted(g, noticed) => if g == grant then before + [noticed] else before
      case Kept(keep) => if keep(grant) then before else []
  }

  function EntriesOf(grants: map<string, seq<Entry>>, grant: string): seq<Entry> {
    if grant in grants then grants[grant] else []
  }

  lemma OneMore(trace: seq<Noticed>, n: Noticed)
    ensures EntriesAfter(trace + [n]) == Recorded(EntriesAfter(trace), n.what, n.at)
  {
    hide Recorded;
    assert (trace + [n])[..|trace|] == trace;
  }

  /** The in-place edit of one grant's queue. */
  method RecordIn(before: seq<Entry>, a: Activity, now: nat) returns (entries: seq<Entry>)
    ensures entries == Recorded(before, a, now)
  {
    hide Place;
    entries := before;
    var position := 0;
    while position < |entries| && entries[position].what != a
      invariant position <= |entries| && a !in Keys(entries)[..position]
    {
      position := position + 1;
    }
    FirstPlace(Keys(entries), a, position);
    if position < |entries| {
      var entry := entries[position];
      entries := entries[..position] + entries[position + 1..];
      entries := entries + [entry.(count := Min(entry.count + 1, U32_MAX), lastAt := now)];
    } else {
      if |entries| >= MAX_ENTRIES {
        entries := entries[1..];
      }
      entries := entries + [Entry(a, 1, now, now)];
    }
  }

  class Log {
    var grants: map<string, seq<Entry>>
    /** Every call so far, for the specification. */
    ghost var steps: seq<Step>

    /** Each grant's entries depend on its own trace only. */
    ghost predicate Valid()
      reads this
    {
      forall g: string :: EntriesOf(grants, g) == EntriesAfter(TraceOf(steps, g))
    }

    constructor ()
      ensures Valid() && steps == []
    {
      grants, steps := map[], [];
    }

    method Record(grant: string, a: Activity, now: nat)
      requires Valid()
      modifies this
      ensures Valid() && steps == old(steps) + [Noted(grant, Noticed(a, now))]
    {
      hide Recorded, EntriesAfter;
      var entries := RecordIn(EntriesOf(grants, grant), a, now);
      grants := grants[grant := entries];
      steps := steps + [Noted(grant, Noticed(a, now))];
      assert steps[..|steps| - 1] == old(steps);
      ghost var mine := TraceOf(old(steps), grant) + [Noticed(a, now)];
      OneMore(TraceOf(old(steps), grant), Noticed(a, now));
      forall g: string ensures EntriesOf(grants, g) == EntriesAfter(TraceOf(steps, g)) {
        assert TraceOf(steps, g) == if g == grant then mine else TraceOf(old(steps), g);
        assert old(EntriesOf(grants, g)) == EntriesAfter(TraceOf(old(steps), g));
      }
    }

    /** What the grant's trace left in the log, backwards. */
    method Recent(grant: string) returns (newest: seq<Entry>)
      requires Valid()
      ensures var entries := EntriesAfter(TraceOf(steps, grant));
              |newest| == |entries| && forall i :: 0 <= i < |newest| ==> newest[i] == entries[|entries| - 1 - i]
    {
      var entries := EntriesOf(grants, grant);
      newest := seq(|entries|, i requires 0 <= i < |entries| => entries[|entries| - 1 - i]);
    }

    /** A grant that is not kept starts over. */
    method Retain(keep: string -> bool)
      requires Valid()
      modifies this
      ensures Valid() && steps == old(steps) + [Kept(keep)]
    {
      grants := map g | g in grants && keep(g) :: grants[g];
      steps := steps + [Kept(keep)];
      assert steps[..|steps| - 1] == old(steps);
    }
  }

  lemma FirstPlace(keys: seq<Activity>, a: Activity, i: nat)
    requires i <= |keys| && a !in keys[..i] && (i < |keys| ==> keys[i] == a)
    ensures Place(keys, a) == i
  {
    assert forall k :: 0 <= k < i ==> keys[..i][k] != a;
    PlaceFirst(keys, a, i);
  }

  lemma {:induction false} PlaceFirst(keys: seq<Activity>, a: Activity, i: nat)
    requires i <= |keys| && (i < |keys| ==> keys[i] == a)
    ensures Place(keys, a) <= i
  {
    if i > 0 && keys[0] != a {
      PlaceFirst(keys[1..], a, i - 1);
    }
  }
}
