/** Identifiers in the order of the program's sorted maps: byte order of UTF-8, which is the order
    of the characters. */
module Identifiers {

  predicate Less(a: string, b: string) {
    b != [] && (a == [] || a[0] < b[0] || (a[0] == b[0] && Less(a[1..], b[1..])))
  }

  lemma {:induction false} LessTransitive(a: string, b: string, c: string)
    requires Less(a, b) && Less(b, c)
    ensures Less(a, c)
  {
    if a != [] && a[0] == b[0] == c[0] {
      LessTransitive(a[1..], b[1..], c[1..]);
    }
  }

  lemma {:induction false} LessTotal(a: string, b: string)
    ensures a == b || Less(a, b) || Less(b, a)
    ensures !(Less(a, b) && Less(b, a)) && !Less(a, a)
  {
    if a != [] {
      LessTotal(a[1..], a[1..]);
      if b != [] && a[0] == b[0] {
        LessTotal(a[1..], b[1..]);
        if a[1..] == b[1..] { assert a == [a[0]] + a[1..] == [b[0]] + b[1..] == b; }
      }
    }
  }

  /** `a` is smaller when it is a proper prefix, or has the smaller character where the two first differ. */
  lemma {:induction false} LessMeans(a: string, b: string)
    ensures Less(a, b) <==>
            a < b || exists k :: 0 <= k < |a| && k < |b| && a[..k] == b[..k] && a[k] < b[k]
  {
    if a != [] && b != [] && a[0] == b[0] {
      var s, t := a[1..], b[1..];
      LessMeans(s, t);
      assert a == [a[0]] + s && b == [b[0]] + t;
      assert a < b <==> s < t;
      if k :| 0 <= k < |s| && k < |t| && s[..k] == t[..k] && s[k] < t[k] {
        assert a[..k + 1] == [a[0]] + s[..k] && b[..k + 1] == [b[0]] + t[..k];
      }
      if k :| 0 <= k < |a| && k < |b| && a[..k] == b[..k] && a[k] < b[k] {
        assert s[..k - 1] == a[..k][1..] && t[..k - 1] == b[..k][1..] && s[k - 1] == a[k] && t[k - 1] == b[k];
      }
    } else if a != [] && b != [] {
      assert a[..0] == b[..0];
    }
  }

  predicate IsSmallest(k: string, keys: set<string>) {
    k in keys && forall j :: j in keys ==> j == k || Less(k, j)
  }

  lemma {:induction false} SmallestExists(keys: set<string>)
    requires keys != {}
    ensures exists k :: IsSmallest(k, keys)
  {
    var x :| x in keys;
    var rest := keys - {x};
    if rest == {} {
      assert keys == {x};
      assert IsSmallest(x, keys);
    } else {
      SmallestExists(rest);
      var y :| IsSmallest(y, rest);
      LessTotal(x, y);
      if Less(x, y) {
        forall j | j in rest && j != y ensures Less(x, j) { LessTransitive(x, y, j); }
        assert IsSmallest(x, keys);
      } else {
        assert IsSmallest(y, keys);
      }
    }
  }
}

/** How each transport fared, bounded to the records of the largest identifiers. */
module History {
  import opened Arithmetic
  import opened Sets
  import opened Wrappers
  import opened Identifiers

  const MAX_RECORDS := 32
  const MAX_COOLDOWN := 120

  datatype Record = Record(failures: nat, latency: Option<nat>, cooldownUntil: nat, worked: bool)

  const FRESH := Record(0, None, 0, false)

  datatype Event =
    | Success(id: string, latency: nat)
    | Failure(id: string, now: nat, base: nat)

  function Shift(n: nat): nat
    requires n <= 3
  {
    match n case 0 => 1 case 1 => 2 case 2 => 4 case 3 => 8
  }

  function AfterFailure(record: Record, now: nat, base: nat): Record {
    var failures := Min(record.failures + 1, U32_MAX);
    var multiplier := Shift(Min(failures - 1, 3));
    record.(failures := failures,
            cooldownUntil := SaturatingAdd(now, Min(Min(base * multiplier, U64_MAX), MAX_COOLDOWN)))
  }

  function AfterEvent(record: Record, e: Event): Record {
    match e
    case Success(_, latency) => Record(0, Some(latency), 0, true)
    case Failure(_, now, base) => AfterFailure(record, now, base)
  }

  // ----- The history without a bound

  function RecordIn(records: map<string, Record>, id: string): Record {
    if id in records then records[id] else FRESH
  }

  function Noted(records: map<string, Record>, e: Event): map<string, Record> {
    records[e.id := AfterEvent(RecordIn(records, e.id), e)]
  }

  function Unbounded(events: seq<Event>): map<string, Record> {
    if events == [] then map[] else Noted(Unbounded(events[..|events| - 1]), events[|events| - 1])
  }

  /** `top` are the `n` largest of `keys`, or all of them when there are no more. */
  ghost predicate IsTop(top: set<string>, keys: set<string>, n: nat) {
    && top <= keys && |top| == Min(|keys|, n)
    && forall a, b :: a in top && b in keys && b !in top ==> Less(b, a)
  }

  lemma TopUnique(a: set<string>, b: set<string>, keys: set<string>, n: nat)
    requires IsTop(a, keys, n) && IsTop(b, keys, n)
    ensures a == b
  {
    if a <= b {
      SizeOfSubset(a, b);
    } else if b <= a {
      SizeOfSubset(b, a);
    } else if x, y :| x in a && x !in b && y in b && y !in a {
      LessTotal(x, y);
      assert false;
    }
  }

  // ----- The bounded history

  class TransportHistory {
    var records: map<string, Record>
    /** Every event so far, for the specification. */
    ghost var events: seq<Event>

    /** The records are those of the history without a bound, for its largest identifiers. */
    ghost predicate Valid()
      reads this
    {
      var all := Unbounded(events);
      && IsTop(records.Keys, all.Keys, 32)
      && forall id :: id in records ==> records[id] == all[id]
    }

    constructor ()
      ensures Valid() && events == []
    {
      records := map[];
      events := [];
    }

    method RecordSuccess(id: string, latency: nat)
      requires Valid()
      modifies this
      ensures Valid() && events == old(events) + [Success(id, latency)]
    {
      ghost var e := Success(id, latency);
      records := records[id := Record(0, Some(latency), 0, true)];
      events := events + [e];
      NotedKeepsTop(old(records), old(events), e);
      Bound();
    }

    method RecordFailure(id: string, now: nat, base: nat)
      requires Valid()
      modifies this
      ensures Valid() && events == old(events) + [Failure(id, now, base)]
    {
      ghost var e := Failure(id, now, base);
      var record := if id in records then records[id] else FRESH;
      records := records[id := AfterFailure(record, now, base)];
      events := events + [e];
      NotedKeepsTop(old(records), old(events), e);
      Bound();
    }

    /** Drops the smallest identifiers until the records fit. */
    method Bound()
      requires exists keep ::
                 IsTop(keep, Unbounded(events).Keys, MAX_RECORDS) && CanBound(records, Unbounded(events), keep)
      modifies this`records
      ensures Valid()
    {
      ghost var all := Unbounded(events);
      ghost var keep :| IsTop(keep, all.Keys, MAX_RECORDS) && CanBound(records, all, keep);
      while |records| > MAX_RECORDS
        invariant CanBound(records, all, keep)
        decreases |records|
      {
        SmallestExists(records.Keys);
        var oldest: string :| IsSmallest(oldest, records.Keys);
        SmallestIsNotKept(records, all, keep, oldest);
        records := records - {oldest};
      }
      SizeOfSubset(records.Keys, all.Keys);
      SizeOfSubset(keep, records.Keys);
    }
  }

  /** The records still hold every key to keep, and those with the values of the whole history. */
  ghost predicate CanBound(records: map<string, Record>, all: map<string, Record>, keep: set<string>) {
    && keep <= records.Keys <= all.Keys
    && forall id :: id in keep ==> records[id] == all[id]
  }

  /** An event noted in the bounded records leaves a state `Bound` can finish: an identifier that was
      dropped earlier comes back with a wrong record, but it is then the one to drop again. */
  lemma NotedKeepsTop(records: map<string, Record>, events: seq<Event>, e: Event)
    requires IsTop(records.Keys, Unbounded(events).Keys, MAX_RECORDS)
    requires forall id :: id in records ==> records[id] == Unbounded(events)[id]
    ensures exists keep :: IsTop(keep, Unbounded(events + [e]).Keys, MAX_RECORDS)
                           && CanBound(Noted(records, e), Unbounded(events + [e]), keep)
  {
    hide IsTop, CanBound, Noted;
    var all := Unbounded(events);
    assert (events + [e])[..|events|] == events;
    assert Unbounded(events + [e]) == Noted(all, e);
    var keep := NotedTop(records, all, e);
  }

  lemma NotedTop(records: map<string, Record>, all: map<string, Record>, e: Event) returns (keep: set<string>)
    requires IsTop(records.Keys, all.Keys, MAX_RECORDS)
    requires forall id :: id in records ==> records[id] == all[id]
    ensures IsTop(keep, Noted(all, e).Keys, MAX_RECORDS) && CanBound(Noted(records, e), Noted(all, e), keep)
  {
    TopIsSubset(records.Keys, all.Keys);
    hide IsTop;
    keep := TopAfter(records.Keys, all.Keys, e.id);
    NotedCanBound(records, all, e, keep);
    assert Noted(all, e).Keys == all.Keys + {e.id} by { hide AfterEvent; }
    hide Noted, CanBound;
  }

  lemma TopIsSubset(top: set<string>, keys: set<string>)
    requires IsTop(top, keys, MAX_RECORDS)
    ensures top <= keys
  {
  }

  lemma NotedCanBound(records: map<string, Record>, all: map<string, Record>, e: Event, keep: set<string>)
    requires records.Keys <= all.Keys && keep <= records.Keys + {e.id}
    requires forall id :: id in records ==> records[id] == all[id]
    requires e.id in keep ==> (e.id in records <==> e.id in all)
    ensures CanBound(Noted(records, e), Noted(all, e), keep)
  {
    hide AfterEvent;
    forall id | id in keep ensures id in Noted(records, e) && Noted(records, e)[id] == Noted(all, e)[id] {
      if id == e.id {
        assert RecordIn(records, id) == RecordIn(all, id);
      }
    }
  }

  /** The largest keys after `id` joins: the old ones and `id`, without the smallest when too many. */
  lemma TopAfter(top: set<string>, keys: set<string>, id: string) returns (keep: set<string>)
    requires IsTop(top, keys, MAX_RECORDS)
    ensures IsTop(keep, keys + {id}, MAX_RECORDS) && keep <= top + {id}
    ensures id in keep ==> (id in top <==> id in keys)
  {
    if id in top {
      assert keys + {id} == keys;
      keep := top;
    } else if |top| < MAX_RECORDS {
      SizeOfSubset(top, keys);
      keep := keys + {id};
    } else {
      var joined := top + {id};
      SmallestExists(joined);
      var least :| IsSmallest(least, joined);
      keep := joined - {least};
      SizeOfSubset(keep, keys + {id});
      forall a, b | a in keep && b in keys + {id} && b !in keep ensures Less(b, a) {
        if b != least && a == id {
          LessTransitive(b, least, a);
        }
      }
      if id in keep && id in keys {
        LessTotal(id, least);
        assert false;
      }
    }
  }

  lemma SmallestIsNotKept(records: map<string, Record>, all: map<string, Record>, keep: set<string>, least: string)
    requires CanBound(records, all, keep) && IsTop(keep, all.Keys, MAX_RECORDS)
    requires |records| > MAX_RECORDS && IsSmallest(least, records.Keys)
    ensures least !in keep
  {
    if least in keep {
      assert |records.Keys| == |records| && keep != records.Keys;
      var x :| x in records.Keys && x !in keep;
      LessTotal(x, least);
      assert false;
    }
  }

  // ----- What one transport's record says

  function EventsOf(events: seq<Event>, id: string): seq<Event> {
    if events == [] then []
    else
      var last := events[|events| - 1];
      EventsOf(events[..|events| - 1], id) + (if last.id == id then [last] else [])
  }

  function RecordOf(events: seq<Event>): Record {
    if events == [] then FRESH else AfterEvent(RecordOf(events[..|events| - 1]), events[|events| - 1])
  }

  // ----- The history as a value

  /** What noting an event leaves: the largest identifiers, each with its record. */
  ghost predicate IsNoted(records: map<string, Record>, e: Event, after: map<string, Record>) {
    var all := Noted(records, e);
    && IsTop(after.Keys, all.Keys, 32)
    && forall id :: id in after ==> after[id] == all[id]
  }

  lemma {:induction false} TopExists(keys: set<string>) returns (top: set<string>)
    ensures IsTop(top, keys, MAX_RECORDS)
  {
    if keys == {} {
      top := {};
    } else {
      SmallestExists(keys);
      var least :| IsSmallest(least, keys);
      var rest := keys - {least};
      top := TopExists(rest);
      if |top| < MAX_RECORDS {
        SizeOfSubset(top, rest);
        top := keys;
      }
    }
  }

  /** Notes an event in any records, however many they are. */
  method Note(records: map<string, Record>, e: Event) returns (after: map<string, Record>)
    ensures IsNoted(records, e, after)
  {
    hide Noted;
    after := Noted(records, e);
    ghost var all := after;
    ghost var keep := TopExists(all.Keys);
    hide IsTop;
    assert CanBound(after, all, keep) by { TopIsSubset(keep, all.Keys); }
    while |after| > MAX_RECORDS
      invariant CanBound(after, all, keep) && forall id :: id in after ==> after[id] == all[id]
      decreases |after|
    {
      SmallestExists(after.Keys);
      var oldest: string :| IsSmallest(oldest, after.Keys);
      SmallestIsNotKept(after, all, keep, oldest);
      after := after - {oldest};
    }
    assert after.Keys == keep by { KeepFills(after, all, keep); }
  }

  lemma KeepFills(after: map<string, Record>, all: map<string, Record>, keep: set<string>)
    requires CanBound(after, all, keep) && IsTop(keep, all.Keys, MAX_RECORDS) && |after| <= MAX_RECORDS
    ensures after.Keys == keep
  {
    assert |after.Keys| == |after|;
    SizeOfSubset(after.Keys, all.Keys);
    SizeOfSubset(keep, after.Keys);
  }

  /** Without the bound, transports do not influence each other. */
  lemma {:induction false} RecordsAreSeparate(events: seq<Event>, id: string)
    ensures id in Unbounded(events) <==> EventsOf(events, id) != []
    ensures RecordIn(Unbounded(events), id) == RecordOf(EventsOf(events, id))
  {
    if events != [] {
      var rest, last := events[..|events| - 1], events[|events| - 1];
      RecordsAreSeparate(rest, id);
      if last.id == id {
        assert EventsOf(events, id)[..|EventsOf(rest, id)|] == EventsOf(rest, id);
      } else {
        assert EventsOf(events, id) == EventsOf(rest, id);
      }
    }
  }

  /** The failures since the last success. */
  function TrailingFailures(events: seq<Event>): nat {
    if events == [] || events[|events| - 1].Success? then 0
    else 1 + TrailingFailures(events[..|events| - 1])
  }

  function LastLatency(events: seq<Event>): Option<nat> {
    if events == [] then None
    else if events[|events| - 1].Success? then Some(events[|events| - 1].latency)
    else LastLatency(events[..|events| - 1])
  }

  lemma {:induction false} RecordMeaning(events: seq<Event>)
    ensures var record := RecordOf(events);
            && record.failures == Min(TrailingFailures(events), U32_MAX)
            && record.latency == LastLatency(events)
            && (record.worked <==> LastLatency(events).Some?)
            && (events == [] || events[|events| - 1].Success? ==> record.cooldownUntil == 0)
    ensures events != [] && events[|events| - 1].Failure? ==>
              var last := events[|events| - 1];
              var factor := match TrailingFailures(events) case 1 => 1 case 2 => 2 case 3 => 4 case _ => 8;
              RecordOf(events).cooldownUntil == Min(last.now + Min(last.base * factor, 120), U64_MAX)
  {
    if events != [] {
      RecordMeaning(events[..|events| - 1]);
    }
  }

  /** Whatever happened, a kept record's cooldown ends at most 120 seconds after that transport's
      last failure, and a transport whose last event succeeded has none. */
  lemma CooldownIsBounded(history: TransportHistory, id: string)
    requires history.Valid() && id in history.records
    ensures var mine := EventsOf(history.events, id);
            && mine != []
            && history.records[id] == RecordOf(mine)
            && history.records[id].cooldownUntil
               <= (if mine[|mine| - 1].Failure? then mine[|mine| - 1].now + 120 else 0)
  {
    RecordsAreSeparate(history.events, id);
    RecordMeaning(EventsOf(history.events, id));
  }
}
