/** Reading Xray's traffic counters from a `statsquery` answer: one pass adds up what was sent and
    received, another adds up both for each user. */
module XrayStats {
  import opened Arithmetic
  import opened Sequences
  import opened Wrappers

  /** A parsed answer. A number is an integer of any size, or something else. */
  datatype Json = Null | Bool(flag: bool) | Number(value: int) | Fraction | Text(text: string)
                | List(items: seq<Json>) | Object(fields: seq<Field>)

  datatype Field = Field(name: string, value: Json)

  /** The value of a name, as a map would give it. */
  function Get(fields: seq<Field>, name: string): Option<Json> {
    if fields == [] then None
    else if fields[0].name == name then Some(fields[0].value)
    else Get(fields[1..], name)
  }

  // ----- Numbers, also written as text

  predicate IsDigit(c: char) { '0' <= c <= '9' }

  predicate AllDigits(s: string) { forall i :: 0 <= i < |s| ==> IsDigit(s[i]) }

  function DigitsValue(s: string): nat
    requires AllDigits(s)
  {
    if s == [] then 0
    else
      assert IsDigit(s[|s| - 1]);
      DigitsValue(s[..|s| - 1]) * 10 + (s[|s| - 1] as int - '0' as int)
  }

  /** The decimal digits of a 64-bit number, a plus sign allowed before them. */
  function ParseU64(s: string): (r: Option<nat>)
    ensures r.Some? ==> r.value <= U64_MAX
  {
    var digits := if |s| > 0 && s[0] == '+' then s[1..] else s;
    if digits == [] || !AllDigits(digits) then None
    else if DigitsValue(digits) > U64_MAX then None
    else Some(DigitsValue(digits))
  }

  function Digit(n: nat): char
    requires n < 10
  {
    ('0' as int + n) as char
  }

  function Decimal(n: nat): string {
    if n < 10 then [Digit(n)] else Decimal(n / 10) + [Digit(n % 10)]
  }

  lemma {:induction false} DecimalValue(n: nat)
    ensures Decimal(n) != [] && AllDigits(Decimal(n))
    ensures DigitsValue(Decimal(n)) == n
  {
    if n < 10 {
      assert Decimal(n)[..0] == [];
    } else {
      DecimalValue(n / 10);
      var s := Decimal(n);
      assert s[..|s| - 1] == Decimal(n / 10);
    }
  }

  /** A number written in decimal is read back, with or without a plus sign, if it fits in 64 bits. */
  lemma ParsesDecimal(n: nat)
    ensures ParseU64(Decimal(n)) == ParseU64("+" + Decimal(n)) == if n <= U64_MAX then Some(n) else None
  {
    DecimalValue(n);
    hide Decimal, DigitsValue;
    assert IsDigit(Decimal(n)[0]);
    assert ("+" + Decimal(n))[1..] == Decimal(n);
  }

  /** And nothing is read that is not digits behind at most one plus sign. */
  lemma ParsesOnlyDigits(s: string)
    ensures ParseU64(s).Some? ==>
              && s != "" && s != "+"
              && forall i :: 0 <= i < |s| ==> '0' <= s[i] <= '9' || (i == 0 && s[i] == '+')
  {
    if ParseU64(s).Some? {
      var signed := s[0] == '+';
      var digits := if signed then s[1..] else s;
      assert AllDigits(digits);
      forall i | 0 <= i < |s| ensures '0' <= s[i] <= '9' || (i == 0 && s[i] == '+') {
        if i > 0 || !signed {
          assert IsDigit(digits[if signed then i - 1 else i]);
        }
      }
    }
  }

  function JsonU64(v: Json): (r: Option<nat>)
    ensures r.Some? ==> r.value <= U64_MAX
  {
    match v
    case Number(n) => if 0 <= n <= U64_MAX then Some(n) else None
    case Text(s) => ParseU64(s)
    case _ => None
  }

  // ----- Counters

  datatype Counter = Counter(name: string, bytes: nat)

  /** The counter an object is, if it is one. */
  function CounterOf(fields: seq<Field>): (r: Option<Counter>)
    ensures r.Some? ==> r.value.bytes <= U64_MAX
  {
    match (Get(fields, "name"), Get(fields, "value"))
    case (Some(Text(name)), Some(value)) =>
      (match JsonU64(value)
       case Some(bytes) => Some(Counter(name, bytes))
       case None => None)
    case _ => None
  }

  function Strip(name: string, prefix: string, suffix: string): (r: Option<string>)
    ensures r.Some? <==> exists rest :: name == prefix + rest + suffix
    ensures r.Some? ==> name == prefix + r.value + suffix
  {
    if |prefix| + |suffix| <= |name| && prefix <= name && EndsWith(name, suffix) then
      var rest := name[|prefix|..|name| - |suffix|];
      assert name == prefix + rest + suffix;
      Some(rest)
    else
      assert forall rest :: name == prefix + rest + suffix ==> prefix <= name && |name| == |prefix| + |rest| + |suffix|;
      assert forall rest :: name == prefix + rest + suffix ==> name[|name| - |suffix|..] == suffix;
      None
  }

  const UPLINK := ">>>uplink"
  const DOWNLINK := ">>>downlink"

  /** The user a traffic counter belongs to. */
  function UserOf(name: string): Option<string> {
    var up := Strip(name, "user>>>", ">>>traffic>>>uplink");
    if up.Some? then up else Strip(name, "user>>>", ">>>traffic>>>downlink")
  }

  predicate IsTraffic(name: string) { EndsWith(name, UPLINK) || EndsWith(name, DOWNLINK) }

  /** `Others` is all traffic that is not the user's. */
  datatype Measure = Sent | Received | User(email: string) | Others(email: string)

  /** What one counter adds to a measure. */
  function Share(c: Counter, m: Measure): nat {
    match m
    case Sent => if EndsWith(c.name, UPLINK) then c.bytes else 0
    case Received => if EndsWith(c.name, DOWNLINK) then c.bytes else 0
    case User(email) => if UserOf(c.name) == Some(email) then c.bytes else 0
    case Others(email) => if IsTraffic(c.name) && UserOf(c.name) != Some(email) then c.bytes else 0
  }

  /** A user's traffic counter is named after the user and the direction. */
  lemma UserMeans(name: string, user: string)
    ensures UserOf(name) == Some(user) <==>
            || name == "user>>>" + user + ">>>traffic>>>uplink"
            || name == "user>>>" + user + ">>>traffic>>>downlink"
  {
    var up, down := ">>>traffic>>>uplink", ">>>traffic>>>downlink";
    StripMeans(name, "user>>>", up, user);
    StripMeans(name, "user>>>", down, user);
    assert Strip(name, "user>>>", up).Some? ==> name[|name| - 6] == name[|name| - |up|..][|up| - 6] == 'u';
    assert Strip(name, "user>>>", down).Some? ==> name[|name| - 6] == name[|name| - |down|..][|down| - 6] == 'w';
  }

  lemma StripMeans(name: string, prefix: string, suffix: string, rest: string)
    ensures Strip(name, prefix, suffix) == Some(rest) <==> name == prefix + rest + suffix
    ensures Strip(name, prefix, suffix).Some? ==> |suffix| <= |name| && name[|name| - |suffix|..] == suffix
  {
    if name == prefix + rest + suffix {
      assert name[|prefix|..|name| - |suffix|] == rest;
    }
  }

  /** What is sent is counted by the counters of uplinks, and what is received by those of downlinks. */
  lemma DirectionMeans(c: Counter, path: string)
    ensures c.name == path + ">>>uplink" ==> Share(c, Sent) == c.bytes && Share(c, Received) == 0
    ensures c.name == path + ">>>downlink" ==> Share(c, Received) == c.bytes && Share(c, Sent) == 0
    ensures Share(c, Sent) != 0 ==> exists path :: c.name == path + ">>>uplink"
    ensures Share(c, Received) != 0 ==> exists path :: c.name == path + ">>>downlink"
  {
    SuffixesDiffer(c.name);
    if EndsWith(c.name, UPLINK) {
      assert c.name == c.name[..|c.name| - 9] + ">>>uplink";
    }
    if EndsWith(c.name, DOWNLINK) {
      assert c.name == c.name[..|c.name| - 11] + ">>>downlink";
    }
  }

  // ----- The reference: every counter in the answer, however deep

  function Own(fields: seq<Field>, m: Measure): nat {
    match CounterOf(fields)
    case Some(c) => Share(c, m)
    case None => 0
  }

  function Total(v: Json, m: Measure): nat
    decreases v
  {
    match v
    case List(items) => TotalOfItems(items, m)
    case Object(fields) => Own(fields, m) + TotalOfFields(fields, m)
    case _ => 0
  }

  function TotalOfItems(items: seq<Json>, m: Measure): nat
    decreases items
  {
    if items == [] then 0 else TotalOfItems(items[..|items| - 1], m) + Total(items[|items| - 1], m)
  }

  function TotalOfFields(fields: seq<Field>, m: Measure): nat
    decreases fields
  {
    if fields == [] then 0 else TotalOfFields(fields[..|fields| - 1], m) + Total(fields[|fields| - 1].value, m)
  }

  /** Whether some counter in the answer belongs to the user. */
  predicate Names(v: Json, user: string)
    decreases v
  {
    match v
    case List(items) => ItemsName(items, user)
    case Object(fields) => OwnNames(fields, user) || FieldsName(fields, user)
    case _ => false
  }

  predicate OwnNames(fields: seq<Field>, user: string) {
    match CounterOf(fields)
    case Some(c) => UserOf(c.name) == Some(user)
    case None => false
  }

  predicate ItemsName(items: seq<Json>, user: string)
    decreases items
  {
    items != [] && (ItemsName(items[..|items| - 1], user) || Names(items[|items| - 1], user))
  }

  predicate FieldsName(fields: seq<Field>, user: string)
    decreases fields
  {
    fields != [] && (FieldsName(fields[..|fields| - 1], user) || Names(fields[|fields| - 1].value, user))
  }

  // ----- Sent and received

  /** Adds every counter of the answer to the two accumulators, which stop at the largest 64-bit
      number. */
  method CollectStats(v: Json, sent: nat, received: nat) returns (s: nat, r: nat)
    requires sent <= U64_MAX && received <= U64_MAX
    ensures s == Min(U64_MAX, sent + Total(v, Sent))
    ensures r == Min(U64_MAX, received + Total(v, Received))
    decreases v
  {
    hide CounterOf, Share, Own;
    match v {
      case Object(fields) =>
        s, r := AddCounter(fields, sent, received);
        s, r := CollectFields(fields, s, r);
      case List(items) =>
        s, r := CollectItems(items, sent, received);
      case _ =>
        s, r := sent, received;
    }
  }

  method AddCounter(fields: seq<Field>, sent: nat, received: nat) returns (s: nat, r: nat)
    requires sent <= U64_MAX && received <= U64_MAX
    ensures s == Min(U64_MAX, sent + Own(fields, Sent))
    ensures r == Min(U64_MAX, received + Own(fields, Received))
  {
    hide CounterOf, EndsWith, UserOf;
    s, r := sent, received;
    var counter := CounterOf(fields);
    if counter.Some? {
      SuffixesDiffer(counter.value.name);
      if EndsWith(counter.value.name, UPLINK) {
        s := SaturatingAdd(s, counter.value.bytes);
      } else if EndsWith(counter.value.name, DOWNLINK) {
        r := SaturatingAdd(r, counter.value.bytes);
      }
    }
  }

  method CollectFields(fields: seq<Field>, sent: nat, received: nat) returns (s: nat, r: nat)
    requires sent <= U64_MAX && received <= U64_MAX
    ensures s == Min(U64_MAX, sent + TotalOfFields(fields, Sent))
    ensures r == Min(U64_MAX, received + TotalOfFields(fields, Received))
    decreases fields
  {
    hide Total;
    s, r := sent, received;
    for k := 0 to |fields|
      invariant s == Min(U64_MAX, sent + TotalOfFields(fields[..k], Sent))
      invariant r == Min(U64_MAX, received + TotalOfFields(fields[..k], Received))
    {
      assert fields[..k + 1][..k] == fields[..k];
      s, r := CollectStats(fields[k].value, s, r);
    }
    assert fields[..|fields|] == fields;
  }

  method CollectItems(items: seq<Json>, sent: nat, received: nat) returns (s: nat, r: nat)
    requires sent <= U64_MAX && received <= U64_MAX
    ensures s == Min(U64_MAX, sent + TotalOfItems(items, Sent))
    ensures r == Min(U64_MAX, received + TotalOfItems(items, Received))
    decreases items
  {
    hide Total;
    s, r := sent, received;
    for k := 0 to |items|
      invariant s == Min(U64_MAX, sent + TotalOfItems(items[..k], Sent))
      invariant r == Min(U64_MAX, received + TotalOfItems(items[..k], Received))
    {
      assert items[..k + 1][..k] == items[..k];
      s, r := CollectStats(items[k], s, r);
    }
    assert items[..|items|] == items;
  }

  /** No name ends both ways. */
  lemma SuffixesDiffer(name: string)
    ensures EndsWith(name, UPLINK) ==> !EndsWith(name, DOWNLINK)
  {
    if EndsWith(name, UPLINK) {
      assert name[|name| - 6] == name[|name| - 9..][3];
      assert |name| >= 11 ==> name[|name| - 6] == name[|name| - 11..][5];
      assert UPLINK[3] != DOWNLINK[5];
    }
  }

  // ----- Each user

  function At(totals: map<string, nat>, user: string): nat {
    if user in totals then totals[user] else 0
  }

  ghost predicate InRange(totals: map<string, nat>) {
    forall u :: u in totals ==> totals[u] <= U64_MAX
  }

  /** Each user's total has grown by its counters in the answer, and the users with a total are those
      that had one and those the answer names. */
  ghost predicate Credited(before: map<string, nat>, v: Json, after: map<string, nat>) {
    forall u :: At(after, u) == Min(U64_MAX, At(before, u) + Total(v, User(u)))
                && (u in after <==> u in before || Names(v, u))
  }

  ghost predicate OwnCredited(before: map<string, nat>, fields: seq<Field>, after: map<string, nat>) {
    forall u :: At(after, u) == Min(U64_MAX, At(before, u) + Own(fields, User(u)))
                && (u in after <==> u in before || OwnNames(fields, u))
  }

  ghost predicate ItemsCredited(before: map<string, nat>, items: seq<Json>, after: map<string, nat>) {
    forall u :: At(after, u) == Min(U64_MAX, At(before, u) + TotalOfItems(items, User(u)))
                && (u in after <==> u in before || ItemsName(items, u))
  }

  ghost predicate FieldsCredited(before: map<string, nat>, fields: seq<Field>, after: map<string, nat>) {
    forall u :: At(after, u) == Min(U64_MAX, At(before, u) + TotalOfFields(fields, User(u)))
                && (u in after <==> u in before || FieldsName(fields, u))
  }

  lemma CreditedInRange(before: map<string, nat>, v: Json, after: map<string, nat>)
    requires Credited(before, v, after)
    ensures InRange(after)
  {
    hide Total, Names;
    forall u | u in after ensures after[u] <= U64_MAX {
      assert At(after, u) == after[u];
    }
  }

  lemma ItemsStep(before: map<string, nat>, items: seq<Json>, k: nat, mid: map<string, nat>, after: map<string, nat>)
    requires k < |items| && ItemsCredited(before, items[..k], mid) && Credited(mid, items[k], after)
    ensures ItemsCredited(before, items[..k + 1], after)
  {
    hide Total, Names;
    assert items[..k + 1][..k] == items[..k];
  }

  lemma FieldsStep(before: map<string, nat>, fields: seq<Field>, k: nat, mid: map<string, nat>, after: map<string, nat>)
    requires k < |fields| && FieldsCredited(before, fields[..k], mid) && Credited(mid, fields[k].value, after)
    ensures FieldsCredited(before, fields[..k + 1], after)
  {
    hide Total, Names;
    assert fields[..k + 1][..k] == fields[..k];
  }

  lemma ObjectStep(before: map<string, nat>, fields: seq<Field>, mid: map<string, nat>, after: map<string, nat>)
    requires OwnCredited(before, fields, mid) && FieldsCredited(mid, fields, after)
    ensures Credited(before, Object(fields), after)
  {
    hide Own, OwnNames, TotalOfFields, FieldsName, At;
  }

  method CollectUserTotals(v: Json, totals: map<string, nat>) returns (t: map<string, nat>)
    requires InRange(totals)
    ensures Credited(totals, v, t) && InRange(t)
    decreases v
  {
    hide Own, OwnNames, TotalOfFields, FieldsName, TotalOfItems, ItemsName, At, OwnCredited, FieldsCredited;
    match v {
      case Object(fields) =>
        var mid := AddUserCounter(fields, totals);
        t := CollectUserFields(fields, mid);
        ObjectStep(totals, fields, mid, t);
      case List(items) =>
        t := CollectUserItems(items, totals);
      case _ =>
        t := totals;
        assert Credited(totals, v, t) by {
          forall u ensures At(t, u) == Min(U64_MAX, At(totals, u)) {
            AtInRange(totals, u);
          }
        }
    }
    CreditedInRange(totals, v, t);
  }

  lemma AtInRange(totals: map<string, nat>, u: string)
    requires InRange(totals)
    ensures At(totals, u) <= U64_MAX
  {
  }

  method AddUserCounter(fields: seq<Field>, totals: map<string, nat>) returns (t: map<string, nat>)
    requires InRange(totals)
    ensures OwnCredited(totals, fields, t) && InRange(t)
  {
    hide CounterOf, UserOf;
    t := totals;
    var counter := CounterOf(fields);
    if counter.Some? {
      var email := UserOf(counter.value.name);
      if email.Some? {
        t := t[email.value := SaturatingAdd(At(t, email.value), counter.value.bytes)];
      }
    }
  }

  method CollectUserFields(fields: seq<Field>, totals: map<string, nat>) returns (t: map<string, nat>)
    requires InRange(totals)
    ensures FieldsCredited(totals, fields, t) && InRange(t)
    decreases fields
  {
    hide Total, Names, Credited;
    t := totals;
    for k := 0 to |fields|
      invariant FieldsCredited(totals, fields[..k], t) && InRange(t)
    {
      hide FieldsCredited, InRange;
      var mid := t;
      t := CollectUserTotals(fields[k].value, mid);
      FieldsStep(totals, fields, k, mid, t);
    }
    assert fields[..|fields|] == fields;
  }

  method CollectUserItems(items: seq<Json>, totals: map<string, nat>) returns (t: map<string, nat>)
    requires InRange(totals)
    ensures ItemsCredited(totals, items, t) && InRange(t)
    decreases items
  {
    hide Total, Names, Credited;
    t := totals;
    for k := 0 to |items|
      invariant ItemsCredited(totals, items[..k], t) && InRange(t)
    {
      hide ItemsCredited, InRange;
      var mid := t;
      t := CollectUserTotals(items[k], mid);
      ItemsStep(totals, items, k, mid, t);
    }
    assert items[..|items|] == items;
  }

  // ----- The two passes against each other

  /** A user's counter is a traffic counter. */
  lemma UsersHaveTraffic(name: string)
    ensures UserOf(name).Some? ==> IsTraffic(name)
  {
    if UserOf(name).Some? {
      var u := UserOf(name).value;
      if Strip(name, "user>>>", ">>>traffic>>>uplink").Some? {
        assert name == "user>>>" + u + ">>>traffic>>>uplink";
        assert name[|name| - 9..] == UPLINK;
      } else {
        assert name == "user>>>" + u + ">>>traffic>>>downlink";
        assert name[|name| - 11..] == DOWNLINK;
      }
    }
  }

  lemma ShareSplits(c: Counter, user: string)
    ensures Share(c, Sent) + Share(c, Received) == Share(c, User(user)) + Share(c, Others(user))
  {
    hide EndsWith, UserOf;
    SuffixesDiffer(c.name);
    UsersHaveTraffic(c.name);
  }

  /** Whatever the answer, the bytes sent and received are a user's bytes and everybody else's: no
      traffic counter is lost or counted twice between the two passes. */
  lemma {:induction false} TrafficSplits(v: Json, user: string)
    ensures Total(v, Sent) + Total(v, Received) == Total(v, User(user)) + Total(v, Others(user))
    decreases v
  {
    hide CounterOf, Share;
    match v {
      case List(items) => ItemsSplit(items, user);
      case Object(fields) =>
        if CounterOf(fields).Some? {
          ShareSplits(CounterOf(fields).value, user);
        }
        FieldsSplit(fields, user);
      case _ =>
    }
  }

  lemma {:induction false} ItemsSplit(items: seq<Json>, user: string)
    ensures TotalOfItems(items, Sent) + TotalOfItems(items, Received)
         == TotalOfItems(items, User(user)) + TotalOfItems(items, Others(user))
    decreases items
  {
    hide Total;
    if items != [] {
      ItemsSplit(items[..|items| - 1], user);
      TrafficSplits(items[|items| - 1], user);
    }
  }

  lemma {:induction false} FieldsSplit(fields: seq<Field>, user: string)
    ensures TotalOfFields(fields, Sent) + TotalOfFields(fields, Received)
         == TotalOfFields(fields, User(user)) + TotalOfFields(fields, Others(user))
    decreases fields
  {
    hide Total;
    if fields != [] {
      FieldsSplit(fields[..|fields| - 1], user);
      TrafficSplits(fields[|fields| - 1].value, user);
    }
  }

  /** One user's answer, read both ways: adding up sent and received gives the user's total, however
      the accumulators saturated, exactly when nobody else's traffic would show. */
  lemma ReadingsAgree(v: Json, user: string, totals: map<string, nat>)
    requires Credited(map[], v, totals)
    ensures SaturatingAdd(Min(U64_MAX, Total(v, Sent)), Min(U64_MAX, Total(v, Received))) == At(totals, user)
       <==> Total(v, Others(user)) == 0 || Total(v, User(user)) >= U64_MAX
  {
    hide Total, Names;
    TrafficSplits(v, user);
    assert At(totals, user) == Min(U64_MAX, At(map[], user) + Total(v, User(user)));
  }

  // ----- The order of an object's fields does not matter

  ghost predicate DistinctNames(fields: seq<Field>) {
    forall i, j :: 0 <= i < j < |fields| ==> fields[i].name != fields[j].name
  }

  lemma {:induction false} GetIs(fields: seq<Field>, i: nat)
    requires DistinctNames(fields) && i < |fields|
    ensures Get(fields, fields[i].name) == Some(fields[i].value)
  {
    if i > 0 {
      GetIs(fields[1..], i - 1);
    }
  }

  lemma {:induction false} GetFinds(fields: seq<Field>, name: string)
    ensures Get(fields, name).Some? ==> Field(name, Get(fields, name).value) in fields
    ensures Get(fields, name).None? ==> forall f :: f in fields ==> f.name != name
  {
    if fields != [] {
      GetFinds(fields[1..], name);
      assert fields == [fields[0]] + fields[1..];
    }
  }

  lemma GetIgnoresOrder(fields: seq<Field>, other: seq<Field>, name: string)
    requires multiset(fields) == multiset(other) && DistinctNames(other)
    ensures Get(fields, name) == Get(other, name)
  {
    hide Get;
    GetFinds(fields, name);
    GetFinds(other, name);
    match Get(fields, name) {
      case Some(value) =>
        assert Field(name, value) in multiset(fields);
        var i :| 0 <= i < |other| && other[i] == Field(name, value);
        GetIs(other, i);
      case None =>
        assert Get(other, name).Some? ==> Field(name, Get(other, name).value) in multiset(other);
    }
  }

  /** A counter is an object with a text for its name, and for its value a number in 64 bits, or one as
      text. */
  lemma CounterMeans(fields: seq<Field>, c: Counter)
    requires DistinctNames(fields)
    ensures CounterOf(fields) == Some(c) <==>
            && Field("name", Text(c.name)) in fields
            && exists value :: Field("value", value) in fields
                               && ((value == Number(c.bytes) && c.bytes <= U64_MAX)
                                   || (value.Text? && ParseU64(value.text) == Some(c.bytes)))
  {
    hide Get, ParseU64;
    GetMeans(fields, "name");
    GetMeans(fields, "value");
  }

  lemma GetMeans(fields: seq<Field>, name: string)
    requires DistinctNames(fields)
    ensures forall value :: Get(fields, name) == Some(value) <==> Field(name, value) in fields
  {
    hide Get;
    GetFinds(fields, name);
    forall value | Field(name, value) in fields ensures Get(fields, name) == Some(value) {
      var i :| 0 <= i < |fields| && fields[i] == Field(name, value);
      GetIs(fields, i);
    }
  }

  lemma TotalAppend(fields: seq<Field>, f: Field, m: Measure)
    ensures TotalOfFields(fields + [f], m) == TotalOfFields(fields, m) + Total(f.value, m)
  {
    hide Total;
    assert (fields + [f])[..|fields|] == fields;
  }

  lemma {:induction false} TotalConcat(a: seq<Field>, b: seq<Field>, m: Measure)
    ensures TotalOfFields(a + b, m) == TotalOfFields(a, m) + TotalOfFields(b, m)
    decreases b
  {
    hide Total;
    if b == [] {
      assert a + b == a;
    } else {
      var last := |b| - 1;
      TotalConcat(a, b[..last], m);
      TotalAppend(a + b[..last], b[last], m);
      assert a + b == a + b[..last] + [b[last]];
    }
  }

  lemma TotalWithout(fields: seq<Field>, i: nat, m: Measure)
    requires i < |fields|
    ensures TotalOfFields(fields, m) == TotalOfFields(fields[..i] + fields[i + 1..], m) + Total(fields[i].value, m)
  {
    hide Total, TotalOfFields;
    TotalAppend(fields[..i], fields[i], m);
    TotalConcat(fields[..i] + [fields[i]], fields[i + 1..], m);
    TotalConcat(fields[..i], fields[i + 1..], m);
    assert fields == fields[..i] + [fields[i]] + fields[i + 1..];
  }

  lemma Without(fields: seq<Field>, i: nat)
    requires i < |fields|
    ensures multiset(fields[..i] + fields[i + 1..]) == multiset(fields) - multiset{fields[i]}
  {
    assert fields == fields[..i] + ([fields[i]] + fields[i + 1..]);
  }

  lemma {:induction false} FieldsIgnoreOrder(fields: seq<Field>, other: seq<Field>, m: Measure)
    requires multiset(fields) == multiset(other)
    ensures TotalOfFields(fields, m) == TotalOfFields(other, m)
    decreases fields
  {
    hide Total;
    if fields == [] {
      assert |multiset(other)| == 0;
    } else {
      var last := fields[|fields| - 1];
      assert fields == fields[..|fields| - 1] + [last];
      assert last in multiset(other);
      var i :| 0 <= i < |other| && other[i] == last;
      Without(other, i);
      FieldsIgnoreOrder(fields[..|fields| - 1], other[..i] + other[i + 1..], m);
      TotalWithout(other, i, m);
    }
  }

  /** However an object's fields are visited, the totals are the same. */
  lemma ObjectIgnoresOrder(fields: seq<Field>, other: seq<Field>, m: Measure)
    requires multiset(fields) == multiset(other) && DistinctNames(other)
    ensures Total(Object(fields), m) == Total(Object(other), m)
  {
    hide Share, TotalOfFields;
    GetIgnoresOrder(fields, other, "name");
    GetIgnoresOrder(fields, other, "value");
    FieldsIgnoreOrder(fields, other, m);
  }

  // ----- Nor does the order of any object at any depth

  /** The same answer up to the order of fields: lists agree item by item, objects name by name. */
  ghost predicate Same(v: Json, w: Json)
    decreases v
  {
    match (v, w)
    case (List(a), List(b)) => |a| == |b| && forall i :: 0 <= i < |a| ==> Same(a[i], b[i])
    case (Object(a), Object(b)) => SameFields(a, b)
    case _ => v == w && !v.List? && !v.Object?
  }

  ghost predicate SameFields(a: seq<Field>, b: seq<Field>)
    decreases a
  {
    && DistinctNames(a) && DistinctNames(b)
    && (forall i :: 0 <= i < |a| ==> Get(b, a[i].name).Some? && Same(a[i].value, Get(b, a[i].name).value))
    && forall j :: 0 <= j < |b| ==> Get(a, b[j].name).Some?
  }

  /** No object in the answer has two fields of one name, as no parsed object has. */
  ghost predicate NamesDiffer(v: Json)
    decreases v
  {
    match v
    case List(items) => forall i :: 0 <= i < |items| ==> NamesDiffer(items[i])
    case Object(fields) => DistinctNames(fields) && forall i :: 0 <= i < |fields| ==> NamesDiffer(fields[i].value)
    case _ => true
  }

  lemma {:induction false} SameIsReflexive(v: Json)
    requires NamesDiffer(v)
    ensures Same(v, v)
    decreases v
  {
    match v {
      case List(items) =>
        forall i | 0 <= i < |items| ensures Same(items[i], items[i]) {
          SameIsReflexive(items[i]);
        }
      case Object(fields) =>
        hide Get;
        forall i | 0 <= i < |fields|
          ensures Get(fields, fields[i].name).Some? && Same(fields[i].value, Get(fields, fields[i].name).value)
        {
          GetIs(fields, i);
          SameIsReflexive(fields[i].value);
        }
        assert SameFields(fields, fields);
      case _ =>
    }
  }

  lemma {:induction false} PermutedNames(fields: seq<Field>, other: seq<Field>)
    requires multiset(fields) == multiset(other) && DistinctNames(fields)
    ensures DistinctNames(other)
  {
    forall i, j | 0 <= i < j < |other| ensures other[i].name != other[j].name {
      assert other[i] in multiset(other) && other[j] in multiset(other);
      var k :| 0 <= k < |fields| && fields[k] == other[i];
      var l :| 0 <= l < |fields| && fields[l] == other[j];
      if k == l {
        TwoPlaces(other, i, j);
        OnePlace(fields, k);
      }
    }
  }

  lemma OnePlace(fields: seq<Field>, k: nat)
    requires k < |fields| && DistinctNames(fields)
    ensures multiset(fields)[fields[k]] == 1
  {
    assert fields == fields[..k] + [fields[k]] + fields[k + 1..];
    assert fields[k] !in fields[..k] && fields[k] !in fields[k + 1..];
  }

  /** An object with its fields in another order is the same answer. */
  lemma {:induction false} PermutedIsSame(fields: seq<Field>, other: seq<Field>)
    requires multiset(fields) == multiset(other) && NamesDiffer(Object(fields))
    ensures Same(Object(fields), Object(other))
  {
    hide Get;
    PermutedNames(fields, other);
    forall i | 0 <= i < |fields| ensures Same(fields[i].value, fields[i].value) {
      SameIsReflexive(fields[i].value);
    }
    forall i | 0 <= i < |fields|
      ensures Get(other, fields[i].name).Some? && Same(fields[i].value, Get(other, fields[i].name).value)
    {
      GetIs(fields, i);
      GetIgnoresOrder(fields, other, fields[i].name);
    }
    forall j | 0 <= j < |other| ensures Get(fields, other[j].name).Some? {
      GetIs(other, j);
      GetIgnoresOrder(fields, other, other[j].name);
    }
    assert SameFields(fields, other);
  }

  /** Where the field of `b` stands that belongs to the one at `i` of `a`. */
  lemma Partner(a: seq<Field>, b: seq<Field>, i: nat) returns (j: nat)
    requires SameFields(a, b) && i < |a|
    ensures j < |b| && b[j].name == a[i].name && Same(a[i].value, b[j].value)
  {
    hide Get, Same;
    GetFinds(b, a[i].name);
    j :| 0 <= j < |b| && b[j] == Field(a[i].name, Get(b, a[i].name).value);
  }

  lemma {:induction false} GetWithout(fields: seq<Field>, j: nat, name: string)
    requires DistinctNames(fields) && j < |fields| && name != fields[j].name
    ensures DistinctNames(fields[..j] + fields[j + 1..])
    ensures Get(fields[..j] + fields[j + 1..], name) == Get(fields, name)
  {
    hide Get;
    var rest := fields[..j] + fields[j + 1..];
    GetFinds(fields, name);
    GetFinds(rest, name);
    if Get(fields, name).Some? {
      var k :| 0 <= k < |fields| && fields[k] == Field(name, Get(fields, name).value);
      assert rest[if k < j then k else k - 1] == fields[k];
      GetIs(rest, if k < j then k else k - 1);
    } else {
      assert forall k :: 0 <= k < |rest| ==> rest[k] in fields;
    }
  }

  lemma {:induction false} WithoutPartner(a: seq<Field>, b: seq<Field>, j: nat)
    requires SameFields(a, b) && a != [] && j < |b| && b[j].name == a[|a| - 1].name
    ensures SameFields(a[..|a| - 1], b[..j] + b[j + 1..])
  {
    hide Get, Same;
    var last := |a| - 1;
    var front, rest := a[..last], b[..j] + b[j + 1..];
    assert front == a[..last] + a[last + 1..];
    forall i | 0 <= i < |front|
      ensures Get(rest, front[i].name).Some? && Same(front[i].value, Get(rest, front[i].name).value)
    {
      assert front[i] == a[i];
      GetWithout(b, j, a[i].name);
    }
    forall k | 0 <= k < |rest| ensures Get(front, rest[k].name).Some? {
      assert rest[k] == b[if k < j then k else k + 1];
      GetWithout(a, last, rest[k].name);
    }
  }

  /** The lookups agree where a counter is read from them: on texts and numbers. */
  lemma SameGet(a: seq<Field>, b: seq<Field>, name: string)
    requires SameFields(a, b)
    ensures Get(a, name).Some? <==> Get(b, name).Some?
    ensures Get(a, name).Some? ==> Same(Get(a, name).value, Get(b, name).value)
  {
    hide Get, Same;
    GetFinds(a, name);
    GetFinds(b, name);
    if Get(a, name).Some? {
      var i :| 0 <= i < |a| && a[i] == Field(name, Get(a, name).value);
    } else {
      assert forall i :: 0 <= i < |b| && b[i].name == name ==> Get(a, b[i].name).Some?;
    }
  }

  lemma SameCounter(a: seq<Field>, b: seq<Field>)
    requires SameFields(a, b)
    ensures CounterOf(a) == CounterOf(b)
  {
    hide Get, SameFields, ParseU64;
    SameGet(a, b, "name");
    SameGet(a, b, "value");
  }

  lemma NamesAppend(fields: seq<Field>, f: Field, user: string)
    ensures FieldsName(fields + [f], user) <==> FieldsName(fields, user) || Names(f.value, user)
  {
    hide Names;
    assert (fields + [f])[..|fields|] == fields;
  }

  lemma {:induction false} NamesConcat(a: seq<Field>, b: seq<Field>, user: string)
    ensures FieldsName(a + b, user) <==> FieldsName(a, user) || FieldsName(b, user)
    decreases b
  {
    hide Names;
    if b == [] {
      assert a + b == a;
    } else {
      var last := |b| - 1;
      NamesConcat(a, b[..last], user);
      NamesAppend(a + b[..last], b[last], user);
      assert a + b == a + b[..last] + [b[last]];
    }
  }

  lemma NamesWithout(fields: seq<Field>, i: nat, user: string)
    requires i < |fields|
    ensures FieldsName(fields, user) <==>
            FieldsName(fields[..i] + fields[i + 1..], user) || Names(fields[i].value, user)
  {
    hide Names, FieldsName;
    NamesAppend(fields[..i], fields[i], user);
    NamesConcat(fields[..i] + [fields[i]], fields[i + 1..], user);
    NamesConcat(fields[..i], fields[i + 1..], user);
    assert fields == fields[..i] + [fields[i]] + fields[i + 1..];
  }

  /** However the fields of the objects in an answer are ordered, at whatever depth, every measure has
      the same total and the same users are named. */
  lemma {:induction false} OrderIsIrrelevant(v: Json, w: Json, m: Measure, user: string)
    requires Same(v, w)
    ensures Total(v, m) == Total(w, m) && (Names(v, user) <==> Names(w, user))
    decreases v
  {
    match v {
      case List(a) =>
        ItemsAgree(a, w.items, m, user);
      case Object(a) =>
        hide CounterOf, Share, UserOf, SameFields;
        SameCounter(a, w.fields);
        FieldsAgree(a, w.fields, m, user);
      case _ =>
    }
  }

  lemma {:induction false} ItemsAgree(a: seq<Json>, b: seq<Json>, m: Measure, user: string)
    requires |a| == |b| && forall i :: 0 <= i < |a| ==> Same(a[i], b[i])
    ensures TotalOfItems(a, m) == TotalOfItems(b, m) && (ItemsName(a, user) <==> ItemsName(b, user))
    decreases a
  {
    hide Total, Names, Same;
    if a != [] {
      var last := |a| - 1;
      ItemsAgree(a[..last], b[..last], m, user);
      OrderIsIrrelevant(a[last], b[last], m, user);
    }
  }

  lemma NothingSame(b: seq<Field>)
    requires SameFields([], b)
    ensures b == []
  {
    assert b != [] ==> Get([], b[0].name).Some?;
  }

  lemma {:induction false} FieldsAgree(a: seq<Field>, b: seq<Field>, m: Measure, user: string)
    requires SameFields(a, b)
    ensures TotalOfFields(a, m) == TotalOfFields(b, m) && (FieldsName(a, user) <==> FieldsName(b, user))
    decreases a
  {
    hide Total, Names, Same, SameFields;
    if a == [] {
      NothingSame(b);
    } else {
      var last := |a| - 1;
      var j := Partner(a, b, last);
      WithoutPartner(a, b, j);
      FieldsAgree(a[..last], b[..j] + b[j + 1..], m, user);
      OrderIsIrrelevant(a[last].value, b[j].value, m, user);
      TotalWithout(b, j, m);
      NamesWithout(b, j, user);
    }
  }

  /** Hence the totals of the users are the same map. */
  lemma SameTotals(v: Json, w: Json, before: map<string, nat>, afterV: map<string, nat>, afterW: map<string, nat>)
    requires Same(v, w) && Credited(before, v, afterV) && Credited(before, w, afterW)
    ensures afterV == afterW
  {
    hide Total, Names, Same;
    forall u ensures At(afterV, u) == At(afterW, u) && (u in afterV <==> u in afterW) {
      OrderIsIrrelevant(v, w, User(u), u);
      assert At(afterV, u) == Min(U64_MAX, At(before, u) + Total(v, User(u)));
      assert At(afterW, u) == Min(U64_MAX, At(before, u) + Total(w, User(u)));
    }
    forall u | u in afterV ensures u in afterW && afterV[u] == afterW[u] {
      assert At(afterV, u) == At(afterW, u);
    }
    assert forall u :: u in afterW ==> u in afterV;
    assert afterV.Keys == afterW.Keys;
  }
}
