/** Signed invites: an authenticated capsule, its canonical payload and its canonical binary form.

    The profile is any application's, with access codes as its capability. The Ed25519 checks are
    the profile's predicates `goodKey`, `goodOnion` and `verifies`, about which nothing is assumed. */
module Invite {
  import opened Arithmetic
  import opened Wrappers
  import opened AccessCodes
  import opened Cbor
  import opened Locators

  const FORMAT_VERSION: U64 := 1
  const MAX_APPLICATION_ID_BYTES := 64
  const PAYLOAD_FIELDS: U64 := 10
  const FLAGS: U64 := 0

  datatype Profile = Profile(
    applicationId: seq<Byte>,
    domain: seq<Byte>,
    capabilityType: U64,
    kinds: LocatorKinds,
    goodKey: seq<Byte> -> bool,
    goodOnion: seq<Byte> -> bool,
    verifies: (seq<Byte>, seq<Byte>, seq<Byte>) -> bool)

  /** An application ID is a text of at most 64 bytes. */
  predicate ValidProfile(p: Profile) {
    |p.applicationId| <= MAX_APPLICATION_ID_BYTES && IsUtf8(p.applicationId)
  }

  datatype Capsule = Capsule(
    key: seq<Byte>,
    locators: seq<Locator>,
    accessCode: seq<Byte>,
    protocolMin: nat,
    protocolMax: nat,
    expiresAt: Option<U64>)

  predicate IsNodeKey(p: Profile, key: seq<Byte>) {
    |key| == 32 && key != ZEROS && p.goodKey(key)
  }

  /** What a capsule's own types guarantee: node keys and access codes are checked when made. */
  ghost predicate WellFormed(p: Profile, c: Capsule) {
    && IsNodeKey(p, c.key)
    && |c.locators| <= U64_MAX
    && (forall i :: 0 <= i < |c.locators| ==> WellTyped(c.locators[i]))
    && IsAccessCode(c.accessCode)
    && c.protocolMin <= U16_MAX && c.protocolMax <= U16_MAX
  }

  predicate IsExpired(c: Capsule, now: nat) {
    c.expiresAt.Some? && c.expiresAt.value <= now
  }

  /** A time is given only where the lifetime matters; it is checked last. */
  function Validate(p: Profile, c: Capsule, now: Option<nat>): Result<()> {
    if c.protocolMin == 0 || c.protocolMax < c.protocolMin then Err(Invalid)
    else
      var locators := ValidateSet(c.locators, p.kinds, p.goodOnion);
      if locators.Err? then locators
      else if now.Some? && IsExpired(c, now.value) then Err(Expired)
      else Ok(())
  }

  /** A capsule is valid when its protocol range starts at one or more and does not end before that, its
      locators are valid, and, where the time matters, it has not expired. */
  lemma ValidateMeans(p: Profile, c: Capsule, now: Option<nat>)
    ensures Validate(p, c, now).Ok? <==>
            && 1 <= c.protocolMin <= c.protocolMax && ValidateSet(c.locators, p.kinds, p.goodOnion).Ok?
            && (now.Some? && c.expiresAt.Some? ==> now.value < c.expiresAt.value)
    ensures c.protocolMin == 0 || c.protocolMax < c.protocolMin ==> Validate(p, c, now) == Err(Invalid)
    ensures 1 <= c.protocolMin <= c.protocolMax && ValidateSet(c.locators, p.kinds, p.goodOnion).Err? ==>
              Validate(p, c, now) == ValidateSet(c.locators, p.kinds, p.goodOnion)
    ensures Validate(p, c, now) == Err(Expired) <==>
            && Validate(p, c, None).Ok? && now.Some? && c.expiresAt.Some? && c.expiresAt.value <= now.value
  {
    StructureNeverExpires(c.locators, 0, p);
    hide ValidateFrom;
  }

  lemma {:induction false} StructureNeverExpires(ls: seq<Locator>, i: nat, p: Profile)
    requires i <= |ls|
    ensures ValidateFrom(ls, i, p.kinds, p.goodOnion) != Err(Expired)
    decreases |ls| - i
  {
    if i < |ls| {
      StructureNeverExpires(ls, i + 1, p);
    }
  }

  // ----- The canonical payload

  function Header(p: Profile): seq<Byte>
    requires ValidProfile(p)
  {
    (EncodeArray(PAYLOAD_FIELDS) + EncodeUint(FORMAT_VERSION))
    + (EncodeText(p.applicationId) + EncodeUint(p.capabilityType))
  }

  ghost function EncodeLocators(ls: seq<Locator>): seq<Byte>
    requires forall i :: 0 <= i < |ls| ==> WellTyped(ls[i])
  {
    if ls == [] then [] else EncodeLocators(ls[..|ls| - 1]) + Locators.Encode(ls[|ls| - 1])
  }

  ghost function Target(key: seq<Byte>, ls: seq<Locator>): seq<Byte>
    requires |key| == 32 && |ls| <= U64_MAX && forall i :: 0 <= i < |ls| ==> WellTyped(ls[i])
  {
    EncodeBytes(key) + (EncodeArray(|ls|) + EncodeLocators(ls))
  }

  function Versions(min: nat, max: nat): seq<Byte>
    requires min <= U16_MAX && max <= U16_MAX
  {
    EncodeUint(min) + EncodeUint(max)
  }

  function Lifetime(expiresAt: Option<U64>): seq<Byte> {
    EncodeUint(FLAGS) + EncodeOptionalUint(expiresAt)
  }

  ghost function Access(p: Profile, c: Capsule): seq<Byte>
    requires WellFormed(p, c)
  {
    EncodeText(c.accessCode) + (Versions(c.protocolMin, c.protocolMax) + Lifetime(c.expiresAt))
  }

  ghost function Payload(p: Profile, c: Capsule): seq<Byte>
    requires ValidProfile(p) && WellFormed(p, c)
  {
    Header(p) + (Target(c.key, c.locators) + Access(p, c))
  }

  /** A payload is an array of ten: the format version 1, the application, the capability type, the node key,
      the locators, the access code, the protocol range, no flags, and the expiry if there is one. */
  lemma PayloadFormat(p: Profile, c: Capsule)
    requires ValidProfile(p) && WellFormed(p, c)
    ensures Payload(p, c) ==
            ([0x8a, 1] + (EncodeText(p.applicationId) + EncodeUint(p.capabilityType)))
            + ((EncodeBytes(c.key) + (EncodeArray(|c.locators|) + EncodeLocators(c.locators)))
               + (EncodeText(c.accessCode)
                  + ((EncodeUint(c.protocolMin) + EncodeUint(c.protocolMax))
                     + ([0] + (if c.expiresAt.Some? then EncodeUint(c.expiresAt.value) else [0xf6])))))
  {
    HeadFormat(4, 10);
    HeadFormat(0, 1);
    HeadFormat(0, 0);
    assert EncodeArray(10) + EncodeUint(1) == [0x8a, 1] && EncodeUint(0) == [0];
    hide Head, EncodeText, EncodeBytes, EncodeArray, EncodeUint, EncodeLocators, WellTyped, IsUtf8;
  }

  /** Every locator's bytes follow those of the one before it. */
  lemma {:induction false} LocatorsInOrder(a: seq<Locator>, b: seq<Locator>)
    requires forall i :: 0 <= i < |a| ==> WellTyped(a[i])
    requires forall i :: 0 <= i < |b| ==> WellTyped(b[i])
    ensures EncodeLocators(a + b) == EncodeLocators(a) + EncodeLocators(b)
    ensures |a| == 1 ==> EncodeLocators(a) == Locators.Encode(a[0])
  {
    hide Locators.Encode, WellTyped;
    if |a| == 1 {
      assert a[..0] == [];
    }
    if b == [] {
      assert a + b == a;
    } else {
      var front := b[..|b| - 1];
      LocatorsInOrder(a, front);
      assert (a + b)[..|a + b| - 1] == a + front;
    }
  }

  method EncodeTarget(e: Encoder, key: seq<Byte>, ls: seq<Locator>)
    requires |key| == 32 && |ls| <= U64_MAX && forall i :: 0 <= i < |ls| ==> WellTyped(ls[i])
    modifies e
    ensures e.output == old(e.output) + Target(key, ls)
  {
    hide EncodeBytes, EncodeArray, Locators.Encode, WellTyped;
    e.Bytes(key);
    e.Array(|ls|);
    ghost var before := e.output;
    for i := 0 to |ls|
      invariant e.output == before + EncodeLocators(ls[..i])
    {
      EncodeInto(ls[i], e);
      assert ls[..i + 1][..i] == ls[..i];
    }
    assert ls[..|ls|] == ls;
  }

  method EncodeAccess(e: Encoder, p: Profile, c: Capsule)
    requires WellFormed(p, c)
    modifies e
    ensures e.output == old(e.output) + Access(p, c)
  {
    hide EncodeText, EncodeUint, EncodeOptionalUint;
    e.Text(c.accessCode);
    e.Uint(c.protocolMin);
    e.Uint(c.protocolMax);
    e.Uint(FLAGS);
    e.OptionalUint(c.expiresAt);
  }

  method CanonicalPayload(p: Profile, c: Capsule) returns (r: Result<seq<Byte>>)
    requires ValidProfile(p) && WellFormed(p, c)
    ensures r == if Validate(p, c, None).Ok? then Ok(Payload(p, c)) else Err(Validate(p, c, None).error)
  {
    hide EncodeArray, EncodeText, EncodeUint, Target, Access, Validate;
    var valid := Validate(p, c, None);
    if valid.Err? {
      return Err(valid.error);
    }
    var e := new Encoder();
    e.Array(PAYLOAD_FIELDS);
    e.Uint(FORMAT_VERSION);
    e.Text(p.applicationId);
    e.Uint(p.capabilityType);
    assert e.output == Header(p);
    EncodeTarget(e, c.key, c.locators);
    EncodeAccess(e, p, c);
    assert e.output == Payload(p, c);
    r := Ok(e.output);
  }

  // ----- Reading a payload

  /** Reads the fields every payload of the profile starts with. A payload that another
      application's header starts is refused as that application's. */
  method ReadHeader(d: Decoder, p: Profile) returns (r: Result<()>)
    requires d.Valid() && ValidProfile(p)
    modifies d
    ensures d.Valid()
    ensures r.Ok? <==> At(d.input, old(d.offset), Header(p))
    ensures r.Ok? ==> d.offset == old(d.offset) + |Header(p)|
    ensures forall q: Profile :: ValidProfile(q) && q.applicationId != p.applicationId
              && At(d.input, old(d.offset), Header(q))
              ==> r == Err(WrongApplication)
  {
    hide At, EncodeArray, EncodeUint, EncodeText, IsUtf8;
    var v := ReadVersion(d);
    if v.Err? {
      r := Err(v.error);
    } else {
      r := ReadApplication(d, p);
    }
    forall q: Profile | ValidProfile(q)
      ensures At(d.input, old(d.offset), Header(q)) <==>
              v.Ok? && At(d.input, old(d.offset) + |Opening()|, Application(q))
    {
      AtConcat(d.input, old(d.offset), Opening(), Application(q));
    }
  }

  function Opening(): seq<Byte> { EncodeArray(PAYLOAD_FIELDS) + EncodeUint(FORMAT_VERSION) }

  function Application(p: Profile): seq<Byte>
    requires ValidProfile(p)
  {
    EncodeText(p.applicationId) + EncodeUint(p.capabilityType)
  }

  method ReadVersion(d: Decoder) returns (r: Result<()>)
    requires d.Valid()
    modifies d
    ensures d.Valid()
    ensures r.Ok? <==> At(d.input, old(d.offset), Opening())
    ensures r.Ok? ==> d.offset == old(d.offset) + |Opening()|
  {
    hide EncodeArray, EncodeUint, At;
    AtConcat(d.input, d.offset, EncodeArray(PAYLOAD_FIELDS), EncodeUint(FORMAT_VERSION));
    var fields := d.Array(PAYLOAD_FIELDS);
    if fields.Err? {
      return Err(fields.error);
    }
    var version := d.Uint();
    r := if version.Err? then Err(version.error)
         else if version.value != FORMAT_VERSION then Err(UnsupportedVersion)
         else Ok(());
  }

  method ReadApplication(d: Decoder, p: Profile) returns (r: Result<()>)
    requires d.Valid() && ValidProfile(p)
    modifies d
    ensures d.Valid()
    ensures r.Ok? <==> At(d.input, old(d.offset), Application(p))
    ensures r.Ok? ==> d.offset == old(d.offset) + |Application(p)|
    ensures forall q: Profile :: ValidProfile(q) && q.applicationId != p.applicationId
              && At(d.input, old(d.offset), Application(q))
              ==> r == Err(WrongApplication)
  {
    hide EncodeText, EncodeUint, At, IsUtf8;
    forall q: Profile | ValidProfile(q)
      ensures At(d.input, d.offset, Application(q)) <==>
              At(d.input, d.offset, EncodeText(q.applicationId))
              && At(d.input, d.offset + |EncodeText(q.applicationId)|, EncodeUint(q.capabilityType))
    {
      AtConcat(d.input, d.offset, EncodeText(q.applicationId), EncodeUint(q.capabilityType));
    }
    var id := d.Text(MAX_APPLICATION_ID_BYTES);
    if id.Err? {
      return Err(id.error);
    }
    if id.value != p.applicationId {
      return Err(WrongApplication);
    }
    var kind := d.Uint();
    r := if kind.Err? then Err(kind.error)
         else if kind.value != p.capabilityType then Err(UnsupportedCapability)
         else Ok(());
  }

  method ReadKey(d: Decoder, p: Profile) returns (r: Result<seq<Byte>>)
    requires d.Valid()
    modifies d
    ensures d.Valid()
    ensures r.Ok? ==> IsNodeKey(p, r.value) && Consumed(d.input, old(d.offset), d.offset, EncodeBytes(r.value))
    ensures forall key: seq<Byte> :: IsNodeKey(p, key) && At(d.input, old(d.offset), EncodeBytes(key)) ==> r == Ok(key)
  {
    hide EncodeBytes, At;
    r := Exact32(d);
    if r.Ok? && !(r.value != ZEROS && p.goodKey(r.value)) {
      r := Err(InvalidNodeKey);
    }
  }

  ghost predicate AllAcceptable(p: Profile, ls: seq<Locator>) {
    forall i :: 0 <= i < |ls| ==> Acceptable(ls[i], p.kinds, p.goodOnion)
  }

  lemma {:induction false} LocatorAt(input: seq<Byte>, offset: nat, ls: seq<Locator>, i: nat)
    requires forall j :: 0 <= j < |ls| ==> WellTyped(ls[j])
    requires i < |ls| && At(input, offset, EncodeLocators(ls))
    ensures At(input, offset + |EncodeLocators(ls[..i])|, Locators.Encode(ls[i]))
  {
    hide At, Locators.Encode, WellTyped;
    var front := ls[..|ls| - 1];
    AtConcat(input, offset, EncodeLocators(front), Locators.Encode(ls[|ls| - 1]));
    if i < |front| {
      LocatorAt(input, offset, front, i);
      assert front[..i] == ls[..i];
    }
  }

  /** Reads `count` locators; `want` are any acceptable locators whose encodings may stand here. */
  method ReadLocators(d: Decoder, p: Profile, count: nat, ghost want: Option<seq<Locator>>)
    returns (r: Result<seq<Locator>>)
    requires d.Valid()
    modifies d
    ensures d.Valid()
    ensures r.Ok? ==> |r.value| == count && AllAcceptable(p, r.value)
                      && Consumed(d.input, old(d.offset), d.offset, EncodeLocators(r.value))
    ensures want.Some? && |want.value| == count && AllAcceptable(p, want.value)
            && At(d.input, old(d.offset), EncodeLocators(want.value))
            ==> r == Ok(want.value)
  {
    hide Acceptable, Locators.Encode;
    AcceptableIsTyped(p);
    ghost var expected := want.Some? && |want.value| == count && AllAcceptable(p, want.value)
                          && At(d.input, d.offset, EncodeLocators(want.value));
    ghost var start := d.offset;
    var ls: seq<Locator> := [];
    while |ls| < count
      invariant d.Valid() && |ls| <= count && AllAcceptable(p, ls)
      invariant Consumed(d.input, start, d.offset, EncodeLocators(ls))
      invariant expected ==> ls == want.value[..|ls|]
    {
      if expected { LocatorAt(d.input, start, want.value, |ls|); }
      ghost var from := d.offset;
      var l := Locators.Decode(d, p.kinds, p.goodOnion, if expected then Some(want.value[|ls|]) else None);
      if l.Err? {
        return Err(l.error);
      }
      AtConcat(d.input, start, EncodeLocators(ls), Locators.Encode(l.value));
      assert (ls + [l.value])[..|ls|] == ls;
      ls := ls + [l.value];
    }
    assert expected ==> want.value[..count] == want.value;
    r := Ok(ls);
  }

  lemma AcceptableIsTyped(p: Profile)
    ensures forall l: Locator :: Acceptable(l, p.kinds, p.goodOnion) ==> WellTyped(l)
  {
  }

  ghost predicate GoodTarget(p: Profile, key: seq<Byte>, ls: seq<Locator>) {
    IsNodeKey(p, key) && 1 <= |ls| <= MAX_LOCATORS && AllAcceptable(p, ls)
  }

  method ReadTarget(d: Decoder, p: Profile, ghost want: Option<Capsule>)
    returns (r: Result<(seq<Byte>, seq<Locator>)>)
    requires d.Valid()
    modifies d
    ensures d.Valid()
    ensures r.Ok? ==> GoodTarget(p, r.value.0, r.value.1)
                      && Consumed(d.input, old(d.offset), d.offset, Target(r.value.0, r.value.1))
    ensures want.Some? && GoodTarget(p, want.value.key, want.value.locators)
            && At(d.input, old(d.offset), Target(want.value.key, want.value.locators))
            ==> r == Ok((want.value.key, want.value.locators))
  {
    hide Acceptable, At, EncodeBytes, EncodeArray, EncodeLocators;
    AcceptableIsTyped(p);
    ghost var o := d.offset;
    if want.Some? && GoodTarget(p, want.value.key, want.value.locators) {
      TargetAt(d.input, o, want.value.key, want.value.locators);
    }
    var key := ReadKey(d, p);
    if key.Err? {
      return Err(key.error);
    }
    var count := d.ArrayLen();
    if count.Err? {
      return Err(count.error);
    }
    if count.value == 0 || count.value > MAX_LOCATORS {
      return Err(Invalid);
    }
    var ls := ReadLocators(d, p, count.value, if want.Some? then Some(want.value.locators) else None);
    if ls.Err? {
      return Err(ls.error);
    }
    TargetAt(d.input, o, key.value, ls.value);
    r := Ok((key.value, ls.value));
  }

  lemma TargetAt(input: seq<Byte>, offset: nat, key: seq<Byte>, ls: seq<Locator>)
    requires |key| == 32 && |ls| <= U64_MAX && forall i :: 0 <= i < |ls| ==> WellTyped(ls[i])
    ensures var o1 := offset + |EncodeBytes(key)|;
            var o2 := o1 + |EncodeArray(|ls|)|;
            && (At(input, offset, Target(key, ls)) <==>
                At(input, offset, EncodeBytes(key)) && At(input, o1, EncodeArray(|ls|))
                && At(input, o2, EncodeLocators(ls)))
            && offset + |Target(key, ls)| == o2 + |EncodeLocators(ls)|
  {
    hide At, EncodeBytes, EncodeArray, EncodeLocators;
    AtConcat(input, offset, EncodeBytes(key), EncodeArray(|ls|) + EncodeLocators(ls));
    AtConcat(input, offset + |EncodeBytes(key)|, EncodeArray(|ls|), EncodeLocators(ls));
  }

  method ReadAccessCode(d: Decoder) returns (r: Result<seq<Byte>>)
    requires d.Valid()
    modifies d
    ensures d.Valid()
    ensures r.Ok? ==> IsAccessCode(r.value) && Consumed(d.input, old(d.offset), d.offset, EncodeText(r.value))
    ensures forall code: seq<Byte> :: IsAccessCode(code) && At(d.input, old(d.offset), EncodeText(code)) ==>
            r == Ok(code)
  {
    hide EncodeText, At, IsUtf8;
    r := d.Text(ACCESS_CODE_BYTES);
    forall code: seq<Byte> | IsAccessCode(code) ensures IsUtf8(code) { AsciiIsUtf8(code); }
    if r.Ok? && !IsAccessCode(r.value) {
      r := Err(Invalid);
    }
  }

  method ReadProtocolVersion(d: Decoder) returns (r: Result<nat>)
    requires d.Valid()
    modifies d
    ensures d.Valid()
    ensures r.Ok? ==> r.value <= U16_MAX && Consumed(d.input, old(d.offset), d.offset, EncodeUint(r.value))
    ensures forall v: U64 :: v <= U16_MAX && At(d.input, old(d.offset), EncodeUint(v)) ==> r == Ok(v)
  {
    hide EncodeUint, At;
    var version := d.Uint();
    r := if version.Err? then Err(version.error)
         else if version.value > U16_MAX then Err(Invalid)
         else Ok(version.value);
  }

  method ReadVersions(d: Decoder) returns (r: Result<(nat, nat)>)
    requires d.Valid()
    modifies d
    ensures d.Valid()
    ensures r.Ok? ==> r.value.0 <= U16_MAX && r.value.1 <= U16_MAX
                      && Consumed(d.input, old(d.offset), d.offset, Versions(r.value.0, r.value.1))
    ensures forall a: U64, b: U64 :: a <= U16_MAX && b <= U16_MAX && At(d.input, old(d.offset), Versions(a, b))
              ==> r == Ok((a, b))
  {
    hide EncodeUint, At;
    forall a: U64, b: U64 | a <= U16_MAX && b <= U16_MAX
      ensures At(d.input, d.offset, Versions(a, b)) <==>
              At(d.input, d.offset, EncodeUint(a)) && At(d.input, d.offset + |EncodeUint(a)|, EncodeUint(b))
    {
      AtConcat(d.input, d.offset, EncodeUint(a), EncodeUint(b));
    }
    var min := ReadProtocolVersion(d);
    if min.Err? {
      return Err(min.error);
    }
    var max := ReadProtocolVersion(d);
    r := if max.Err? then Err(max.error) else Ok((min.value, max.value));
  }

  method ReadLifetime(d: Decoder) returns (r: Result<Option<U64>>)
    requires d.Valid()
    modifies d
    ensures d.Valid()
    ensures r.Ok? ==> Consumed(d.input, old(d.offset), d.offset, Lifetime(r.value))
    ensures forall e: Option<U64> :: At(d.input, old(d.offset), Lifetime(e)) ==> r == Ok(e)
  {
    hide EncodeUint, EncodeOptionalUint, At;
    forall e: Option<U64>
      ensures At(d.input, d.offset, Lifetime(e)) <==>
              At(d.input, d.offset, EncodeUint(FLAGS))
              && At(d.input, d.offset + |EncodeUint(FLAGS)|, EncodeOptionalUint(e))
    {
      AtConcat(d.input, d.offset, EncodeUint(FLAGS), EncodeOptionalUint(e));
    }
    var flags := d.Uint();
    if flags.Err? {
      return Err(flags.error);
    }
    if flags.value != FLAGS {
      return Err(Invalid);
    }
    r := d.OptionalUint();
  }

  lemma AccessAt(p: Profile, c: Capsule, input: seq<Byte>, offset: nat)
    requires WellFormed(p, c)
    ensures var o1 := offset + |EncodeText(c.accessCode)|;
            var o2 := o1 + |Versions(c.protocolMin, c.protocolMax)|;
            && (At(input, offset, Access(p, c)) <==>
                At(input, offset, EncodeText(c.accessCode)) && At(input, o1, Versions(c.protocolMin, c.protocolMax))
                && At(input, o2, Lifetime(c.expiresAt)))
            && offset + |Access(p, c)| == o2 + |Lifetime(c.expiresAt)|
  {
    hide At, EncodeText, Versions, Lifetime, WellTyped;
    var versions, lifetime := Versions(c.protocolMin, c.protocolMax), Lifetime(c.expiresAt);
    AtConcat(input, offset, EncodeText(c.accessCode), versions + lifetime);
    AtConcat(input, offset + |EncodeText(c.accessCode)|, versions, lifetime);
  }

  /** Reads the fields behind the locators into a capsule for the given target. */
  method ReadAccess(d: Decoder, p: Profile, key: seq<Byte>, ls: seq<Locator>, ghost want: Option<Capsule>)
    returns (r: Result<Capsule>)
    requires d.Valid() && GoodTarget(p, key, ls)
    modifies d
    ensures d.Valid()
    ensures r.Ok? ==> r.value.key == key && r.value.locators == ls && WellFormed(p, r.value)
                      && Consumed(d.input, old(d.offset), d.offset, Access(p, r.value))
    ensures want.Some? && WellFormed(p, want.value) && want.value.key == key && want.value.locators == ls
            && At(d.input, old(d.offset), Access(p, want.value))
            ==> r == Ok(want.value)
  {
    AcceptableIsTyped(p);
    hide At, EncodeText, Versions, Lifetime, Acceptable, WellTyped, Access;
    ghost var o := d.offset;
    if want.Some? && WellFormed(p, want.value) { AccessAt(p, want.value, d.input, o); }
    var code := ReadAccessCode(d);
    if code.Err? {
      return Err(code.error);
    }
    var versions := ReadVersions(d);
    if versions.Err? {
      return Err(versions.error);
    }
    var expiresAt := ReadLifetime(d);
    if expiresAt.Err? {
      return Err(expiresAt.error);
    }
    var c := Capsule(key, ls, code.value, versions.value.0, versions.value.1, expiresAt.value);
    AccessAt(p, c, d.input, o);
    r := Ok(c);
  }

  lemma PayloadAt(p: Profile, c: Capsule, input: seq<Byte>)
    requires ValidProfile(p) && WellFormed(p, c)
    ensures var o1 := |Header(p)|;
            var o2 := o1 + |Target(c.key, c.locators)|;
            && (At(input, 0, Payload(p, c)) <==>
                At(input, 0, Header(p)) && At(input, o1, Target(c.key, c.locators)) && At(input, o2, Access(p, c)))
            && |Payload(p, c)| == o2 + |Access(p, c)|
  {
    hide At, Header, Target, Access, WellTyped;
    AtConcat(input, 0, Header(p), Target(c.key, c.locators) + Access(p, c));
    AtConcat(input, |Header(p)|, Target(c.key, c.locators), Access(p, c));
  }

  lemma WholeInput(input: seq<Byte>, encoding: seq<Byte>)
    ensures input == encoding <==> At(input, 0, encoding) && |encoding| == |input|
  {
  }

  /** A valid capsule's locators are acceptable to the reader. */
  lemma ValidTarget(p: Profile, c: Capsule)
    requires WellFormed(p, c) && Validate(p, c, None).Ok?
    ensures GoodTarget(p, c.key, c.locators)
  {
    hide ValidLocator, AcceptsTag, WellTyped;
    ValidSetMeaning(c.locators, 0, p.kinds, p.goodOnion);
  }

  /** Reads a whole payload field by field, before it is validated. */
  method ReadFields(payload: seq<Byte>, p: Profile, ghost want: Option<Capsule>) returns (r: Result<Capsule>)
    requires ValidProfile(p)
    ensures r.Ok? ==> WellFormed(p, r.value) && payload == Payload(p, r.value)
    ensures want.Some? && WellFormed(p, want.value) && GoodTarget(p, want.value.key, want.value.locators)
            && payload == Payload(p, want.value)
            ==> r == Ok(want.value)
    ensures forall q: Profile :: ValidProfile(q) && q.applicationId != p.applicationId
              && At(payload, 0, Header(q))
              ==> r == Err(WrongApplication)
  {
    hide At, Header, Target, Access, WellTyped, Payload, ValidProfile;
    if want.Some? && WellFormed(p, want.value) {
      PayloadAt(p, want.value, payload);
      WholeInput(payload, Payload(p, want.value));
    }
    var d := new Decoder(payload);
    var header := ReadHeader(d, p);
    if header.Err? {
      return Err(header.error);
    }
    HeaderUnique(p, payload);
    var target := ReadTarget(d, p, want);
    if target.Err? {
      return Err(target.error);
    }
    r := ReadAccess(d, p, target.value.0, target.value.1, want);
    if r.Ok? {
      PayloadAt(p, r.value, payload);
      WholeInput(payload, Payload(p, r.value));
      var finished := d.Finish();
      if finished.Err? {
        r := Err(finished.error);
      }
    }
  }

  lemma HeaderUnique(p: Profile, input: seq<Byte>)
    requires ValidProfile(p) && At(input, 0, Header(p))
    ensures forall q: Profile :: ValidProfile(q) && At(input, 0, Header(q)) ==> q.applicationId == p.applicationId
  {
    hide Head, At, IsUtf8;
    var o := |Opening()|;
    AtConcat(input, 0, Opening(), Application(p));
    AtConcat(input, o, EncodeText(p.applicationId), EncodeUint(p.capabilityType));
    forall q: Profile | ValidProfile(q) && At(input, 0, Header(q)) ensures q.applicationId == p.applicationId {
      AtConcat(input, 0, Opening(), Application(q));
      AtConcat(input, o, EncodeText(q.applicationId), EncodeUint(q.capabilityType));
      StringUnique(input, o, TEXT, p.applicationId, q.applicationId);
    }
  }

  /** The capsule a payload encodes. */
  ghost predicate Decodes(p: Profile, payload: seq<Byte>, c: Capsule)
    requires ValidProfile(p)
  {
    WellFormed(p, c) && Validate(p, c, None).Ok? && payload == Payload(p, c)
  }

  /** Decoding a payload succeeds exactly on the canonical payload of a valid capsule and returns
      that capsule. `fields` is what the field-by-field read gave: it already is the payload of
      what it returns, so the final comparison with the re-encoding never refuses anything. */
  method DecodePayload(payload: seq<Byte>, p: Profile) returns (r: Result<Capsule>, ghost fields: Result<Capsule>)
    requires ValidProfile(p)
    ensures r.Ok? ==> Decodes(p, payload, r.value)
    ensures forall c: Capsule :: Decodes(p, payload, c) ==> r == Ok(c)
    ensures fields.Ok? ==> WellFormed(p, fields.value) && payload == Payload(p, fields.value)
    ensures r == if fields.Ok? && Validate(p, fields.value, None).Err?
                 then Err(Validate(p, fields.value, None).error) else fields
    ensures forall q: Profile :: ValidProfile(q) && q.applicationId != p.applicationId
              && At(payload, 0, Header(q))
              ==> r == Err(WrongApplication)
  {
    hide WellFormed, Validate, Payload, At, Header, ValidProfile;
    ghost var want: Option<Capsule> := None;
    if c: Capsule :| Decodes(p, payload, c) {
      want := Some(c);
      ValidTarget(p, c);
    }
    r := ReadFields(payload, p, want);
    fields := r;
    if r.Ok? {
      var again := CanonicalPayload(p, r.value);
      if again.Err? {
        r := Err(again.error);
      } else if again.value != payload {
        r := Err(Invalid);
      }
    }
    forall c: Capsule | Decodes(p, payload, c) ensures r == Ok(c) {
      PayloadUnique(p, c, want.value);
    }
  }

  /** Two capsules never share a payload. */
  lemma PayloadUnique(p: Profile, a: Capsule, b: Capsule)
    requires ValidProfile(p) && WellFormed(p, a) && WellFormed(p, b) && Payload(p, a) == Payload(p, b)
    ensures a == b
  {
    hide At, Head, Header, Access, Target, EncodeLocators, Versions, Lifetime;
    var s, o := Payload(p, a), |Header(p)|;
    PayloadAt(p, a, s);
    PayloadAt(p, b, s);
    WholeInput(s, Payload(p, a));
    TargetUnique(s, o, a.key, a.locators, b.key, b.locators);
    var o1 := o + |Target(a.key, a.locators)|;
    AccessAt(p, a, s, o1);
    AccessAt(p, b, s, o1);
    var o2 := o1 + |EncodeText(a.accessCode)|;
    StringUnique(s, o1, TEXT, a.accessCode, b.accessCode);
    VersionsUnique(s, o2, a, b);
    LifetimeUnique(s, o2 + |Versions(a.protocolMin, a.protocolMax)|, a.expiresAt, b.expiresAt);
  }

  lemma TargetUnique(s: seq<Byte>, o: nat, key: seq<Byte>, ls: seq<Locator>, key': seq<Byte>, ls': seq<Locator>)
    requires |key| == 32 && |ls| <= U64_MAX && forall i :: 0 <= i < |ls| ==> WellTyped(ls[i])
    requires |key'| == 32 && |ls'| <= U64_MAX && forall i :: 0 <= i < |ls'| ==> WellTyped(ls'[i])
    requires At(s, o, Target(key, ls)) && At(s, o, Target(key', ls'))
    ensures key == key' && ls == ls'
  {
    hide At, Head, Target, EncodeLocators, WellTyped;
    TargetAt(s, o, key, ls);
    TargetAt(s, o, key', ls');
    StringUnique(s, o, BYTES, key, key');
    var o1 := o + |EncodeBytes(key)|;
    HeadUnique(s, o1, ARRAY, |ls|, ARRAY, |ls'|);
    LocatorsUnique(s, o1 + |EncodeArray(|ls|)|, ls, ls');
  }

  lemma {:induction false} LocatorsUnique(s: seq<Byte>, o: nat, a: seq<Locator>, b: seq<Locator>)
    requires |a| == |b|
    requires forall i :: 0 <= i < |a| ==> WellTyped(a[i])
    requires forall i :: 0 <= i < |b| ==> WellTyped(b[i])
    requires At(s, o, EncodeLocators(a)) && At(s, o, EncodeLocators(b))
    ensures a == b
  {
    hide At, Locators.Encode, WellTyped, EncodeLocators;
    if a != [] {
      var n := |a| - 1;
      LastLocator(s, o, a);
      LastLocator(s, o, b);
      LocatorsUnique(s, o, a[..n], b[..n]);
      EncodingUnique(s, o + |EncodeLocators(a[..n])|, a[n], b[n]);
      assert a == a[..n] + [a[n]] && b == b[..n] + [b[n]];
    }
  }

  lemma LastLocator(s: seq<Byte>, o: nat, ls: seq<Locator>)
    requires ls != [] && forall i :: 0 <= i < |ls| ==> WellTyped(ls[i])
    requires At(s, o, EncodeLocators(ls))
    ensures var front, last := ls[..|ls| - 1], ls[|ls| - 1];
            At(s, o, EncodeLocators(front)) && At(s, o + |EncodeLocators(front)|, Locators.Encode(last))
  {
    hide At, Locators.Encode, WellTyped;
    AtConcat(s, o, EncodeLocators(ls[..|ls| - 1]), Locators.Encode(ls[|ls| - 1]));
  }

  lemma VersionsUnique(s: seq<Byte>, o: nat, a: Capsule, b: Capsule)
    requires a.protocolMin <= U16_MAX && a.protocolMax <= U16_MAX && b.protocolMin <= U16_MAX
             && b.protocolMax <= U16_MAX
    requires At(s, o, Versions(a.protocolMin, a.protocolMax)) && At(s, o, Versions(b.protocolMin, b.protocolMax))
    ensures a.protocolMin == b.protocolMin && a.protocolMax == b.protocolMax
  {
    hide At, Head;
    AtConcat(s, o, EncodeUint(a.protocolMin), EncodeUint(a.protocolMax));
    AtConcat(s, o, EncodeUint(b.protocolMin), EncodeUint(b.protocolMax));
    HeadUnique(s, o, UINT, a.protocolMin, UINT, b.protocolMin);
    HeadUnique(s, o + |EncodeUint(a.protocolMin)|, UINT, a.protocolMax, UINT, b.protocolMax);
  }

  lemma LifetimeUnique(s: seq<Byte>, o: nat, a: Option<U64>, b: Option<U64>)
    requires At(s, o, Lifetime(a)) && At(s, o, Lifetime(b))
    ensures a == b
  {
    hide At, Head;
    AtConcat(s, o, EncodeUint(FLAGS), EncodeOptionalUint(a));
    AtConcat(s, o, EncodeUint(FLAGS), EncodeOptionalUint(b));
    var item := (e: Option<U64>) => if e.Some? then Uint(e.value) else Null;
    ItemUnique(s, o + |EncodeUint(FLAGS)|, item(a), item(b));
  }
}
