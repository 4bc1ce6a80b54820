/** Locators: the addresses an invite carries, their validity and their encoding. */
module Locators {
  import opened Arithmetic
  import opened Wrappers
  import opened Cbor
  import opened Sequences

  const MAX_LOCATORS := 4
  const MAX_HOST_BYTES := 253
  const FIELDS: U64 := 3

  datatype LoopbackHost = Localhost | Ipv4 | Ipv6 | AndroidEmulator

  function HostTag(host: LoopbackHost): U64 {
    match host case Localhost => 1 case Ipv4 => 2 case Ipv6 => 3 case AndroidEmulator => 4
  }

  function HostFromTag(tag: U64): Result<LoopbackHost> {
    match tag
    case 1 => Ok(Localhost)
    case 2 => Ok(Ipv4)
    case 3 => Ok(Ipv6)
    case 4 => Ok(AndroidEmulator)
    case _ => Err(UnsafeLocator)
  }

  datatype Locator =
    | Https(host: seq<Byte>, port: nat)
    | Loopback(loopback: LoopbackHost, port: nat)
    | OnionV3(identity: seq<Byte>, port: nat)
    | I2pB32(destination: seq<Byte>, port: nat)

  function Tag(l: Locator): U64 {
    match l case Https(_, _) => 1 case Loopback(_, _) => 2 case OnionV3(_, _) => 3 case I2pB32(_, _) => 4
  }

  datatype LocatorKinds = LocatorKinds(https: bool, loopback: bool, onion: bool, i2p: bool)

  predicate AcceptsTag(kinds: LocatorKinds, tag: U64) {
    match tag case 1 => kinds.https case 2 => kinds.loopback case 3 => kinds.onion case 4 => kinds.i2p case _ => false
  }

  // ----- Public DNS names

  function Split(s: seq<Byte>, separator: Byte): (labels: seq<seq<Byte>>)
    ensures |labels| >= 1
  {
    if s == [] then [[]]
    else
      var rest := Split(s[1..], separator);
      if s[0] == separator then [[]] + rest else [[s[0]] + rest[0]] + rest[1..]
  }

  const DOT: Byte := 0x2e
  const HYPHEN: Byte := 0x2d

  predicate IsLower(b: Byte) { 0x61 <= b <= 0x7a }

  predicate IsDigit(b: Byte) { 0x30 <= b <= 0x39 }

  predicate ValidLabel(name: seq<Byte>) {
    && 1 <= |name| <= 63
    && name[0] != HYPHEN && name[|name| - 1] != HYPHEN
    && forall i :: 0 <= i < |name| ==> IsLower(name[i]) || IsDigit(name[i]) || name[i] == HYPHEN
  }

  predicate HasLower(name: seq<Byte>) {
    exists i :: 0 <= i < |name| && IsLower(name[i])
  }

  function Ascii(s: string): seq<Byte> {
    seq(|s|, i requires 0 <= i < |s| => if (s[i] as int) < 0x80 then s[i] as int else 0)
  }

  /** Names that end in one of these are not public. */
  function NonPublicSuffixes(): seq<seq<Byte>> {
    [Ascii("local"), Ascii("localhost"), Ascii("internal"), Ascii("onion"), Ascii("i2p"),
     Ascii("home.arpa"), Ascii("test"), Ascii("example"), Ascii("invalid")]
  }

  predicate ValidPublicDnsName(host: seq<Byte>) {
    var labels := Split(host, DOT);
    && 1 <= |host| <= MAX_HOST_BYTES
    && |labels| >= 2
    && (forall i :: 0 <= i < |labels| ==> ValidLabel(labels[i]))
    && HasLower(labels[|labels| - 1]) && HasPublicEnding(host)
  }

  predicate HasPublicEnding(host: seq<Byte>) {
    forall suffix :: suffix in NonPublicSuffixes() ==> host != suffix && !EndsWith(host, [DOT] + suffix)
  }

  function Join(labels: seq<seq<Byte>>, separator: Byte): seq<Byte>
    requires labels != []
  {
    if |labels| == 1 then labels[0] else labels[0] + [separator] + Join(labels[1..], separator)
  }

  /** Splitting undoes joining, and joining undoes splitting. */
  lemma {:induction false} SplitInvertsJoin(labels: seq<seq<Byte>>, separator: Byte)
    requires labels != [] && forall i :: 0 <= i < |labels| ==> separator !in labels[i]
    ensures Split(Join(labels, separator), separator) == labels
    decreases |labels|, |labels[0]|
  {
    var first, s := labels[0], Join(labels, separator);
    if first == [] {
      if |labels| > 1 {
        SplitInvertsJoin(labels[1..], separator);
        assert s == [separator] + Join(labels[1..], separator) && s[1..] == Join(labels[1..], separator);
        assert labels == [[]] + labels[1..];
      }
    } else {
      var shorter := [first[1..]] + labels[1..];
      assert forall i :: 0 <= i < |labels| ==> separator !in shorter[i] by {
        assert forall i :: 1 <= i < |labels| ==> shorter[i] == labels[i];
        assert separator !in labels[0];
      }
      SplitInvertsJoin(shorter, separator);
      assert shorter[1..] == labels[1..];
      assert s[0] == first[0] && s[1..] == Join(shorter, separator);
      assert [first[0]] + shorter[0] == first && labels == [first] + labels[1..];
    }
  }

  lemma {:induction false} JoinInvertsSplit(s: seq<Byte>, separator: Byte)
    ensures Join(Split(s, separator), separator) == s
    ensures forall i :: 0 <= i < |Split(s, separator)| ==> separator !in Split(s, separator)[i]
  {
    if s != [] {
      var rest := Split(s[1..], separator);
      JoinInvertsSplit(s[1..], separator);
      assert s == [s[0]] + s[1..];
      if s[0] == separator {
        assert ([[]] + rest)[1..] == rest;
      } else {
        var labels := [[s[0]] + rest[0]] + rest[1..];
        assert labels[1..] == rest[1..];
      }
    }
  }

  /** One to 63 letters, digits and inner hyphens. */
  predicate IsDnsLabel(name: seq<Byte>) {
    && 1 <= |name| <= 63 && name[0] as char != '-' && name[|name| - 1] as char != '-'
    && forall j :: 0 <= j < |name| ==>
         var c := name[j] as char; 'a' <= c <= 'z' || '0' <= c <= '9' || c == '-'
  }

  predicate HasLetter(name: seq<Byte>) {
    exists j :: 0 <= j < |name| && 'a' <= name[j] as char <= 'z'
  }

  lemma LabelMeans(name: seq<Byte>)
    ensures ValidLabel(name) <==> IsDnsLabel(name)
    ensures HasLower(name) <==> HasLetter(name)
  {
  }

  predicate IsOrBelow(host: seq<Byte>, domain: string) {
    host == Ascii(domain) || EndsWith(host, [0x2e] + Ascii(domain))
  }

  predicate IsNonPublic(host: seq<Byte>) {
    || IsOrBelow(host, "local") || IsOrBelow(host, "localhost") || IsOrBelow(host, "internal")
    || IsOrBelow(host, "onion") || IsOrBelow(host, "i2p") || IsOrBelow(host, "home.arpa")
    || IsOrBelow(host, "test") || IsOrBelow(host, "example") || IsOrBelow(host, "invalid")
  }

  lemma NonPublicMeans(host: seq<Byte>)
    ensures IsNonPublic(host) <==> !HasPublicEnding(host)
  {
    hide EndsWith, Ascii;
    var all := NonPublicSuffixes();
    assert all[0] == Ascii("local") && all[1] == Ascii("localhost") && all[2] == Ascii("internal");
    assert all[3] == Ascii("onion") && all[4] == Ascii("i2p") && all[5] == Ascii("home.arpa");
    assert all[6] == Ascii("test") && all[7] == Ascii("example") && all[8] == Ascii("invalid");
    hide NonPublicSuffixes;
    assert forall i :: 0 <= i < |all| ==> all[i] in all;
  }

  /** Public names, label by label: at most 253 bytes, two or more labels between dots, the last with a
      letter; and none of the names that are not public, or below one. Every name is its labels, joined
      by dots. */
  lemma PublicDnsNameMeans(labels: seq<seq<Byte>>)
    requires labels != [] && forall i :: 0 <= i < |labels| ==> DOT !in labels[i]
    ensures var host := Join(labels, 0x2e);
            ValidPublicDnsName(host) <==>
            && 1 <= |host| <= 253 && |labels| >= 2
            && (forall i :: 0 <= i < |labels| ==> IsDnsLabel(labels[i])) && HasLetter(labels[|labels| - 1])
            && !IsNonPublic(host)
  {
    hide Split, Join, ValidLabel, IsDnsLabel, HasLower, HasLetter, IsNonPublic, HasPublicEnding;
    var host := Join(labels, DOT);
    SplitInvertsJoin(labels, DOT);
    NonPublicMeans(host);
    forall i | 0 <= i < |labels|
      ensures ValidLabel(labels[i]) <==> IsDnsLabel(labels[i])
      ensures HasLower(labels[i]) <==> HasLetter(labels[i])
    {
      LabelMeans(labels[i]);
    }
  }

  lemma {:induction false} SplitCovers(s: seq<Byte>, separator: Byte, b: Byte)
    requires b in s && b != separator
    ensures exists i :: 0 <= i < |Split(s, separator)| && b in Split(s, separator)[i]
  {
    var labels, rest := Split(s, separator), Split(s[1..], separator);
    if s[0] == b {
      assert b in labels[0];
    } else {
      SplitCovers(s[1..], separator, b);
      var i :| 0 <= i < |rest| && b in rest[i];
      if s[0] == separator {
        assert b in labels[i + 1];
      } else {
        assert b in labels[i];
      }
    }
  }

  lemma PublicDnsNameIsText(host: seq<Byte>)
    requires ValidPublicDnsName(host)
    ensures IsUtf8(host)
  {
    forall i | 0 <= i < |host| ensures host[i] < 0x80 {
      if host[i] != DOT { SplitCovers(host, DOT, host[i]); }
    }
    AsciiIsUtf8(host);
  }

  // ----- Validation

  const ZEROS: seq<Byte> := seq(32, _ => 0)

  /** What the fields' own types guarantee. */
  predicate WellTyped(l: Locator) {
    && l.port <= U16_MAX
    && match l
       case Https(host, _) => Fits(host)
       case Loopback(_, _) => true
       case OnionV3(key, _) => |key| == 32
       case I2pB32(hash, _) => |hash| == 32
  }

  /** `goodOnion` stands for the Ed25519 check of an onion identity. */
  predicate ValidLocator(l: Locator, goodOnion: seq<Byte> -> bool) {
    && l.port != 0
    && match l
       case Https(host, _) => ValidPublicDnsName(host)
       case Loopback(_, _) => true
       case OnionV3(key, _) => goodOnion(key)
       case I2pB32(hash, _) => hash != ZEROS
  }

  /** The first rule a locator set breaks, in the order of the set. */
  function ValidateSet(ls: seq<Locator>, kinds: LocatorKinds, goodOnion: seq<Byte> -> bool): Result<()> {
    if |ls| == 0 || |ls| > MAX_LOCATORS then Err(Invalid) else ValidateFrom(ls, 0, kinds, goodOnion)
  }

  function ValidateFrom(ls: seq<Locator>, i: nat, kinds: LocatorKinds, goodOnion: seq<Byte> -> bool): Result<()>
    requires i <= |ls|
    decreases |ls| - i
  {
    if i == |ls| then Ok(())
    else if !AcceptsTag(kinds, Tag(ls[i])) then Err(UnsupportedLocator)
    else if !ValidLocator(ls[i], goodOnion) then Err(UnsafeLocator)
    else if ls[i] in ls[..i] then Err(Invalid)
    else ValidateFrom(ls, i + 1, kinds, goodOnion)
  }

  ghost predicate Acceptable(l: Locator, kinds: LocatorKinds, goodOnion: seq<Byte> -> bool) {
    WellTyped(l) && AcceptsTag(kinds, Tag(l)) && ValidLocator(l, goodOnion)
  }

  lemma {:induction false} ValidSetMeaning(ls: seq<Locator>, i: nat, kinds: LocatorKinds, goodOnion: seq<Byte> -> bool)
    requires i <= |ls|
    ensures ValidateFrom(ls, i, kinds, goodOnion).Ok?
            <==> forall j :: i <= j < |ls| ==>
                   AcceptsTag(kinds, Tag(ls[j])) && ValidLocator(ls[j], goodOnion) && ls[j] !in ls[..j]
    decreases |ls| - i
  {
    hide ValidLocator, AcceptsTag;
    if i < |ls| {
      ValidSetMeaning(ls, i + 1, kinds, goodOnion);
    }
  }

  /** A set is valid when it has one to four different locators, each of an accepted kind, with a port, and
      with a place that is safe. */
  lemma ValidateSetMeans(ls: seq<Locator>, kinds: LocatorKinds, goodOnion: seq<Byte> -> bool)
    ensures ValidateSet(ls, kinds, goodOnion).Ok? <==>
            && 1 <= |ls| <= 4
            && (forall i, j :: 0 <= i < j < |ls| ==> ls[i] != ls[j])
            && forall i :: 0 <= i < |ls| ==>
                 && ls[i].port > 0
                 && match ls[i]
                    case Https(host, _) => kinds.https && ValidPublicDnsName(host)
                    case Loopback(_, _) => kinds.loopback
                    case OnionV3(identity, _) => kinds.onion && goodOnion(identity)
                    case I2pB32(destination, _) => kinds.i2p && destination != seq(32, _ => 0)
  {
    hide ValidPublicDnsName, ValidateFrom;
    if 1 <= |ls| <= 4 {
      ValidSetMeaning(ls, 0, kinds, goodOnion);
    }
  }

  /** A set is refused for the first of its locators that breaks a rule: for its kind, or for its port or
      place, or as a repetition. */
  lemma {:induction false} FirstBroken(ls: seq<Locator>, kinds: LocatorKinds, goodOnion: seq<Byte> -> bool, i: nat)
    requires 1 <= |ls| <= 4 && i < |ls|
    requires ValidateFrom(ls[..i], 0, kinds, goodOnion).Ok?
    ensures var l := ls[i];
            var accepted := match l
                            case Https(_, _) => kinds.https
                            case Loopback(_, _) => kinds.loopback
                            case OnionV3(_, _) => kinds.onion
                            case I2pB32(_, _) => kinds.i2p;
            && (!accepted ==> ValidateSet(ls, kinds, goodOnion) == Err(UnsupportedLocator))
            && (accepted && !ValidLocator(l, goodOnion) ==> ValidateSet(ls, kinds, goodOnion) == Err(UnsafeLocator))
            && (accepted && ValidLocator(l, goodOnion) && l in ls[..i] ==>
                  ValidateSet(ls, kinds, goodOnion) == Err(Invalid))
  {
    hide ValidLocator;
    ValidSetMeaning(ls[..i], 0, kinds, goodOnion);
    SkipValid(ls, 0, i, kinds, goodOnion);
  }

  lemma {:induction false} SkipValid(ls: seq<Locator>, j: nat, i: nat, kinds: LocatorKinds,
                                     goodOnion: seq<Byte> -> bool)
    requires j <= i <= |ls|
    requires forall k :: 0 <= k < i ==>
               AcceptsTag(kinds, Tag(ls[..i][k])) && ValidLocator(ls[..i][k], goodOnion) && ls[..i][k] !in ls[..i][..k]
    ensures ValidateFrom(ls, j, kinds, goodOnion) == ValidateFrom(ls, i, kinds, goodOnion)
    decreases i - j
  {
    hide ValidLocator, AcceptsTag;
    if j < i {
      assert ls[..i][j] == ls[j] && ls[..i][..j] == ls[..j];
      SkipValid(ls, j + 1, i, kinds, goodOnion);
    }
  }

  // ----- Encoding

  function EncodePlace(l: Locator): seq<Byte>
    requires WellTyped(l)
  {
    match l
    case Https(host, _) => EncodeText(host)
    case Loopback(host, _) => EncodeUint(HostTag(host))
    case OnionV3(key, _) => EncodeBytes(key)
    case I2pB32(hash, _) => EncodeBytes(hash)
  }

  function EncodeTag(tag: U64): seq<Byte> { EncodeArray(FIELDS) + EncodeUint(tag) }

  function EncodeBody(l: Locator): seq<Byte>
    requires WellTyped(l)
  {
    EncodePlace(l) + EncodeUint(l.port)
  }

  function Encode(l: Locator): seq<Byte>
    requires WellTyped(l)
  {
    EncodeTag(Tag(l)) + EncodeBody(l)
  }

  /** A locator is an array of three: the number of its kind, its place and its port. */
  lemma LocatorFormat(l: Locator)
    requires WellTyped(l)
    ensures Encode(l) == [0x83, KindNumber(l)] + (PlaceBytes(l) + EncodeUint(l.port))
  {
    HeadFormat(4, 3);
    HeadFormat(0, Tag(l));
    if l.Loopback? {
      HeadFormat(0, HostTag(l.loopback));
    }
    hide Head;
  }

  function KindNumber(l: Locator): Byte {
    if l.Https? then 1 else if l.Loopback? then 2 else if l.OnionV3? then 3 else 4
  }

  function PlaceBytes(l: Locator): seq<Byte>
    requires WellTyped(l)
  {
    match l
    case Https(host, _) => EncodeText(host)
    case Loopback(Localhost, _) => [1]
    case Loopback(Ipv4, _) => [2]
    case Loopback(Ipv6, _) => [3]
    case Loopback(AndroidEmulator, _) => [4]
    case OnionV3(identity, _) => EncodeBytes(identity)
    case I2pB32(destination, _) => EncodeBytes(destination)
  }

  method EncodeInto(l: Locator, e: Encoder)
    requires WellTyped(l)
    modifies e
    ensures e.output == old(e.output) + Encode(l)
  {
    hide EncodeArray, EncodeUint, EncodeText, EncodeBytes;
    e.Array(FIELDS);
    e.Uint(Tag(l));
    match l {
      case Https(host, _) => e.Text(host);
      case Loopback(host, _) => e.Uint(HostTag(host));
      case OnionV3(key, _) => e.Bytes(key);
      case I2pB32(hash, _) => e.Bytes(hash);
    }
    e.Uint(l.port);
  }

  /** One place in one input holds at most one locator. */
  lemma EncodingUnique(input: seq<Byte>, offset: nat, a: Locator, b: Locator)
    requires WellTyped(a) && WellTyped(b)
    requires At(input, offset, Encode(a)) && At(input, offset, Encode(b))
    ensures a == b
  {
    hide Head, At;
    var o1 := offset + |EncodeArray(FIELDS)|;
    var o2 := o1 + |EncodeUint(Tag(a))|;
    AtConcat(input, offset, EncodeTag(Tag(a)), EncodeBody(a));
    AtConcat(input, offset, EncodeTag(Tag(b)), EncodeBody(b));
    AtConcat(input, offset, EncodeArray(FIELDS), EncodeUint(Tag(a)));
    AtConcat(input, offset, EncodeArray(FIELDS), EncodeUint(Tag(b)));
    HeadUnique(input, o1, UINT, Tag(a), UINT, Tag(b));
    AtConcat(input, o2, EncodePlace(a), EncodeUint(a.port));
    AtConcat(input, o2, EncodePlace(b), EncodeUint(b.port));
    match a {
      case Https(host, _) => StringUnique(input, o2, TEXT, host, b.host);
      case Loopback(host, _) => HeadUnique(input, o2, UINT, HostTag(host), UINT, HostTag(b.loopback));
      case OnionV3(key, _) => StringUnique(input, o2, BYTES, key, b.identity);
      case I2pB32(hash, _) => StringUnique(input, o2, BYTES, hash, b.destination);
    }
    HeadUnique(input, o2 + |EncodePlace(a)|, UINT, a.port, UINT, b.port);
  }

  // ----- Decoding

  method DecodePort(d: Decoder) returns (r: Result<nat>)
    requires d.Valid()
    modifies d
    ensures d.Valid()
    ensures r.Ok? ==> r.value <= U16_MAX && Consumed(d.input, old(d.offset), d.offset, EncodeUint(r.value))
    ensures forall v: U64 :: v <= U16_MAX && At(d.input, old(d.offset), EncodeUint(v)) ==> r == Ok(v)
  {
    hide EncodeUint, At;
    var port := d.Uint();
    r := if port.Err? then Err(port.error)
         else if port.value > U16_MAX then Err(UnsafeLocator)
         else Ok(port.value);
  }

  method Exact32(d: Decoder) returns (r: Result<seq<Byte>>)
    requires d.Valid()
    modifies d
    ensures d.Valid()
    ensures r.Ok? ==> |r.value| == 32 && Consumed(d.input, old(d.offset), d.offset, EncodeBytes(r.value))
    ensures forall v: seq<Byte> :: |v| == 32 && At(d.input, old(d.offset), EncodeBytes(v)) ==> r == Ok(v)
  {
    hide EncodeBytes, At;
    r := d.Bytes(32);
    if r.Ok? && |r.value| != 32 {
      r := Err(Invalid);
    }
  }

  /** Reads the part of a locator between its tag and its port; the result has port 0. */
  method DecodePlace(d: Decoder, tag: U64) returns (r: Result<Locator>)
    requires d.Valid()
    modifies d
    ensures d.Valid()
    ensures r.Ok? ==> WellTyped(r.value) && Tag(r.value) == tag && r.value.port == 0
                      && Consumed(d.input, old(d.offset), d.offset, EncodePlace(r.value))
    ensures forall l: Locator :: WellTyped(l) && Tag(l) == tag && At(d.input, old(d.offset), EncodePlace(l))
              && (l.Https? ==> |l.host| <= MAX_HOST_BYTES && IsUtf8(l.host))
              ==> r == Ok(l.(port := 0))
  {
    hide EncodeUint, EncodeBytes, EncodeText, At, IsUtf8;
    match tag {
      case 1 =>
        var host := d.Text(MAX_HOST_BYTES);
        r := if host.Ok? then Ok(Https(host.value, 0)) else Err(host.error);
      case 2 =>
        var hostTag := d.Uint();
        if hostTag.Err? {
          return Err(hostTag.error);
        }
        var host := HostFromTag(hostTag.value);
        r := if host.Ok? then Ok(Loopback(host.value, 0)) else Err(host.error);
      case 3 =>
        var key := Exact32(d);
        r := if key.Ok? then Ok(OnionV3(key.value, 0)) else Err(key.error);
      case 4 =>
        var hash := Exact32(d);
        r := if hash.Ok? then Ok(I2pB32(hash.value, 0)) else Err(hash.error);
      case _ =>
        r := Err(UnsupportedLocator);
    }
  }

  /** Reads a locator's array head and tag. */
  method DecodeTag(d: Decoder) returns (r: Result<U64>)
    requires d.Valid()
    modifies d
    ensures d.Valid()
    ensures r.Ok? ==> Consumed(d.input, old(d.offset), d.offset, EncodeTag(r.value))
    ensures forall tag: U64 :: At(d.input, old(d.offset), EncodeTag(tag)) ==> r == Ok(tag)
  {
    hide EncodeArray, EncodeUint, At;
    forall tag: U64 ensures At(d.input, d.offset, EncodeTag(tag)) <==>
        At(d.input, d.offset, EncodeArray(FIELDS)) && At(d.input, d.offset + |EncodeArray(FIELDS)|, EncodeUint(tag))
    {
      AtConcat(d.input, d.offset, EncodeArray(FIELDS), EncodeUint(tag));
    }
    var fields := d.Array(FIELDS);
    if fields.Err? {
      return Err(fields.error);
    }
    r := d.Uint();
  }

  /** Reads a locator behind its tag, before it is validated. */
  method DecodeBody(d: Decoder, tag: U64, ghost want: Option<Locator>) returns (r: Result<Locator>)
    requires d.Valid()
    modifies d
    ensures d.Valid()
    ensures r.Ok? ==> WellTyped(r.value) && Tag(r.value) == tag
                      && Consumed(d.input, old(d.offset), d.offset, EncodeBody(r.value))
    ensures want.Some? && Readable(want.value) && Tag(want.value) == tag
            && At(d.input, old(d.offset), EncodeBody(want.value))
            ==> r == Ok(want.value)
  {
    hide EncodePlace, EncodeUint, At, Tag, IsUtf8;
    if want.Some? && WellTyped(want.value) {
      AtConcat(d.input, d.offset, EncodePlace(want.value), EncodeUint(want.value.port));
      SamePlace(want.value, 0);
    }
    var place := DecodePlace(d, tag);
    if place.Err? {
      return Err(place.error);
    }
    var port := DecodePort(d);
    if port.Err? {
      return Err(port.error);
    }
    r := Ok(place.value.(port := port.value));
    SamePlace(place.value, port.value);
    AtConcat(d.input, old(d.offset), EncodePlace(place.value), EncodeUint(port.value));
  }

  ghost predicate Readable(l: Locator) {
    WellTyped(l) && (l.Https? ==> |l.host| <= MAX_HOST_BYTES && IsUtf8(l.host))
  }

  lemma AcceptableIsReadable(l: Locator, kinds: LocatorKinds, goodOnion: seq<Byte> -> bool)
    requires Acceptable(l, kinds, goodOnion)
    ensures Readable(l)
  {
    if l.Https? { PublicDnsNameIsText(l.host); }
  }

  /** Reads a locator and refuses it if it is not valid. `want` is any acceptable locator that may stand at the
      offset: if it does, it is what is read. */
  method Decode(d: Decoder, kinds: LocatorKinds, goodOnion: seq<Byte> -> bool, ghost want: Option<Locator>)
    returns (r: Result<Locator>)
    requires d.Valid()
    modifies d
    ensures d.Valid()
    ensures r.Ok? ==> Acceptable(r.value, kinds, goodOnion)
                      && Consumed(d.input, old(d.offset), d.offset, Encode(r.value))
    ensures want.Some? && Acceptable(want.value, kinds, goodOnion) && At(d.input, old(d.offset), Encode(want.value))
            ==> r == Ok(want.value)
  {
    hide EncodeTag, EncodeBody, At, Tag, AcceptsTag, ValidLocator, Readable, WellTyped;
    if want.Some? && Acceptable(want.value, kinds, goodOnion) {
      AcceptableIsReadable(want.value, kinds, goodOnion);
      AtConcat(d.input, d.offset, EncodeTag(Tag(want.value)), EncodeBody(want.value));
    }
    var tag := DecodeTag(d);
    if tag.Err? {
      return Err(tag.error);
    }
    if !AcceptsTag(kinds, tag.value) {
      return Err(UnsupportedLocator);
    }
    r := DecodeBody(d, tag.value, want);
    if r.Ok? {
      AtConcat(d.input, old(d.offset), EncodeTag(tag.value), EncodeBody(r.value));
      if !ValidLocator(r.value, goodOnion) {
        r := Err(UnsafeLocator);
      }
    }
  }

  lemma SamePlace(l: Locator, port: nat)
    requires WellTyped(l) && port <= U16_MAX
    ensures WellTyped(l.(port := port)) && EncodePlace(l.(port := port)) == EncodePlace(l)
    ensures Tag(l.(port := port)) == Tag(l)
  {
  }
}
