/** The CBOR items invites are made of, each in the shortest form of section 4.2.1 of RFC 8949, with
    heads as in section 3.

    The decoder's contracts speak only of the encoder: a read succeeds exactly when the encoding
    of a value stands at the offset, returns that value and consumes exactly its encoding. */
module Cbor {
  import opened Arithmetic
  import opened Wrappers

  type U64 = x: int | 0 <= x <= U64_MAX

  datatype CapsuleError =
    | Invalid | TooLarge | UnsupportedVersion | WrongApplication | UnsupportedCapability
    | InvalidSignature | Expired | UnsupportedLocator | UnsafeLocator | InvalidNodeKey

  datatype Result<+T> = Ok(value: T) | Err(error: CapsuleError)

  const UINT := 0
  const BYTES := 2
  const TEXT := 3
  const ARRAY := 4
  const NULL: Byte := 0xf6

  // ----- Encodings

  function BigEndian(n: nat, value: nat): (s: seq<Byte>)
    ensures |s| == n
  {
    if n == 0 then [] else BigEndian(n - 1, value / 256) + [value % 256]
  }

  function FromBigEndian(s: seq<Byte>): nat {
    if s == [] then 0 else 256 * FromBigEndian(s[..|s| - 1]) + s[|s| - 1]
  }

  /** The low five bits of a head's first byte: the value itself, or the width that follows. */
  function Info(value: U64): (i: nat)
    ensures i <= 27
  {
    if value <= 23 then value
    else if value <= 0xff then 24
    else if value <= 0xffff then 25
    else if value <= 0xffff_ffff then 26
    else 27
  }

  function Width(info: nat): nat
    requires info <= 27
  {
    match info case 24 => 1 case 25 => 2 case 26 => 4 case 27 => 8 case _ => 0
  }

  function Head(major: nat, value: U64): (s: seq<Byte>)
    requires major < 8
    ensures |s| >= 1
  {
    [32 * major + Info(value)] + BigEndian(Width(Info(value)), value)
  }

  function EncodeUint(value: U64): seq<Byte> { Head(UINT, value) }

  function EncodeOptionalUint(value: Option<U64>): seq<Byte> {
    if value.Some? then EncodeUint(value.value) else [NULL]
  }

  predicate Fits(value: seq<Byte>) { |value| <= U64_MAX }

  function EncodeBytes(value: seq<Byte>): seq<Byte>
    requires Fits(value)
  {
    Head(BYTES, |value|) + value
  }

  function EncodeText(value: seq<Byte>): seq<Byte>
    requires Fits(value)
  {
    Head(TEXT, |value|) + value
  }

  function EncodeArray(length: U64): seq<Byte> { Head(ARRAY, length) }

  lemma {:induction false} BigEndianOf(s: seq<Byte>)
    ensures BigEndian(|s|, FromBigEndian(s)) == s
  {
    if s != [] {
      var front, last := s[..|s| - 1], s[|s| - 1];
      BigEndianOf(front);
      DivModUnique(FromBigEndian(s), 256, FromBigEndian(front), last);
      assert front + [last] == s;
    }
  }

  lemma BigEndianInverse(value: U64)
    ensures value > 23 ==> FromBigEndian(BigEndian(Width(Info(value)), value)) == value
  {
    hide FromBigEndian, BigEndian;
    FromBigEndianOf(Width(Info(value)), value);
    Powers();
  }

  function Power(n: nat): nat { if n == 0 then 1 else 256 * Power(n - 1) }

  lemma Powers()
    ensures Power(1) == 0x100 && Power(2) == 0x1_0000 && Power(4) == 0x1_0000_0000
    ensures Power(8) == U64_MAX + 1
  {
    assert Power(4) == 0x1_0000_0000;
  }

  lemma {:induction false} FromBigEndianOf(n: nat, value: nat)
    ensures value < Power(n) ==> FromBigEndian(BigEndian(n, value)) == value
  {
    if n > 0 {
      var s := BigEndian(n, value);
      assert s[..|s| - 1] == BigEndian(n - 1, value / 256);
      FromBigEndianOf(n - 1, value / 256);
    }
  }

  /** Heads as the RFC lays them out: the major type in the top three bits of the first byte, and the value
      in the other five or, most significant byte first, in the fewest of one, two, four or eight bytes
      behind it. */
  lemma HeadFormat(major: nat, value: U64)
    requires major < 8
    ensures var s: seq<int> := Head(major, value);
            if value <= 23 then s == [32 * major + value]
            else if value <= 0xff then s == [32 * major + 24, value]
            else if value <= 0xffff then |s| == 3 && s[0] == 32 * major + 25 && value == 256 * s[1] + s[2]
            else if value <= 0xffff_ffff then
              && |s| == 5 && s[0] == 32 * major + 26
              && value == 0x100_0000 * s[1] + 0x1_0000 * s[2] + 0x100 * s[3] + s[4]
            else
              && |s| == 9 && s[0] == 32 * major + 27
              && value == 0x1_0000_0000 * (0x100_0000 * s[1] + 0x1_0000 * s[2] + 0x100 * s[3] + s[4])
                          + (0x100_0000 * s[5] + 0x1_0000 * s[6] + 0x100 * s[7] + s[8])
  {
    var s := Head(major, value);
    var tail := s[1..];
    assert tail == BigEndian(Width(Info(value)), value);
    BigEndianInverse(value);
    assert s[0] == 32 * major + Info(value) && |s| == 1 + Width(Info(value));
    hide BigEndian, FromBigEndian, Head;
    if value <= 0xff {
      OneByte(tail);
    } else if value <= 0xffff {
      TwoBytes(tail);
    } else if value <= 0xffff_ffff {
      FourBytes(tail);
    } else {
      EightBytes(tail);
    }
  }

  lemma OneByte(s: seq<Byte>)
    ensures |s| == 1 ==> FromBigEndian(s) == s[0]
  {
    if |s| == 1 {
      assert FromBigEndian(s) == 256 * FromBigEndian(s[..0]) + s[0] && s[..0] == [];
    }
  }

  lemma TwoBytes(s: seq<Byte>)
    requires |s| == 2
    ensures var b: seq<int> := s; FromBigEndian(s) == 0x100 * b[0] + b[1]
  {
    OneByte(s[..1]);
  }

  lemma FourBytes(s: seq<Byte>)
    requires |s| == 4
    ensures var b: seq<int> := s;
            FromBigEndian(s) == 0x100_0000 * b[0] + 0x1_0000 * b[1] + 0x100 * b[2] + b[3]
  {
    TwoBytes(s[..2]);
    assert s[..3][..2] == s[..2];
  }

  lemma EightBytes(s: seq<Byte>)
    requires |s| == 8
    ensures var b: seq<int> := s;
            FromBigEndian(s) == 0x1_0000_0000 * (0x100_0000 * b[0] + 0x1_0000 * b[1] + 0x100 * b[2] + b[3])
                                + (0x100_0000 * b[4] + 0x1_0000 * b[5] + 0x100 * b[6] + b[7])
  {
    FourBytes(s[..4]);
    assert s[..5][..4] == s[..4] && s[..6][..5] == s[..5] && s[..7][..6] == s[..6];
    var five, six, seven := FromBigEndian(s[..5]), FromBigEndian(s[..6]), FromBigEndian(s[..7]);
    assert five == 256 * FromBigEndian(s[..4]) + s[4];
    assert six == 256 * five + s[5];
    assert seven == 256 * six + s[6];
  }

  // ----- Encodings found in an input

  ghost predicate At(input: seq<Byte>, offset: nat, encoding: seq<Byte>) {
    offset + |encoding| <= |input| && input[offset..offset + |encoding|] == encoding
  }

  /** What a successful read did: `encoding` stood at `from` and `to` is just behind it. */
  ghost predicate Consumed(input: seq<Byte>, from: nat, to: nat, encoding: seq<Byte>) {
    At(input, from, encoding) && to == from + |encoding|
  }

  lemma AtConcat(input: seq<Byte>, offset: nat, a: seq<Byte>, b: seq<Byte>)
    ensures At(input, offset, a + b) <==> At(input, offset, a) && At(input, offset + |a|, b)
  {
    if At(input, offset, a + b) {
      var w := input[offset..offset + |a + b|];
      assert input[offset..offset + |a|] == w[..|a|] == a;
      assert input[offset + |a|..offset + |a| + |b|] == w[|a|..] == b;
    }
    if At(input, offset, a) && At(input, offset + |a|, b) {
      assert input[offset..offset + |a + b|]
          == input[offset..offset + |a|] + input[offset + |a|..offset + |a| + |b|];
    }
  }

  lemma SliceAt(input: seq<Byte>, offset: nat, length: nat)
    ensures offset + length <= |input| ==> At(input, offset, input[offset..offset + length])
    ensures forall v: seq<Byte> :: |v| == length && At(input, offset, v)
              ==> offset + length <= |input| && v == input[offset..offset + length]
  {
  }

  lemma AtSame(input: seq<Byte>, offset: nat, a: seq<Byte>, b: seq<Byte>)
    requires At(input, offset, a) && At(input, offset, b) && |a| == |b|
    ensures a == b
  {
  }

  /** Heads are a prefix code: one place in one input holds at most one of them. */
  lemma HeadUnique(input: seq<Byte>, offset: nat, m: nat, v: U64, n: nat, w: U64)
    requires m < 8 && n < 8
    requires At(input, offset, Head(m, v)) && At(input, offset, Head(n, w))
    ensures m == n && v == w
  {
    var i, j := Info(v), Info(w);
    assert input[offset] == Head(m, v)[0] == Head(n, w)[0];
    assert m == n && i == j;
    AtSame(input, offset, Head(m, v), Head(n, w));
    assert BigEndian(Width(i), v) == Head(m, v)[1..] == Head(n, w)[1..] == BigEndian(Width(j), w);
    BigEndianInverse(v);
    BigEndianInverse(w);
  }

  lemma StringUnique(input: seq<Byte>, offset: nat, major: nat, a: seq<Byte>, b: seq<Byte>)
    requires major < 8 && Fits(a) && Fits(b)
    requires At(input, offset, Head(major, |a|) + a) && At(input, offset, Head(major, |b|) + b)
    ensures a == b
  {
    AtConcat(input, offset, Head(major, |a|), a);
    AtConcat(input, offset, Head(major, |b|), b);
    HeadUnique(input, offset, major, |a|, major, |b|);
  }

  // ----- Items

  datatype Item =
    | Uint(value: U64)
    | Null
    | Bytes(bytes: seq<Byte>)
    | Text(text: seq<Byte>)
    | Array(length: U64)

  predicate ItemFits(item: Item) {
    match item
    case Bytes(b) => Fits(b)
    case Text(t) => Fits(t)
    case _ => true
  }

  function EncodeItem(item: Item): (s: seq<Byte>)
    requires ItemFits(item)
    ensures |s| >= 1
  {
    match item
    case Uint(v) => EncodeUint(v)
    case Null => [NULL]
    case Bytes(b) => EncodeBytes(b)
    case Text(t) => EncodeText(t)
    case Array(n) => EncodeArray(n)
  }

  function ItemHead(item: Item): (h: (nat, U64))
    requires ItemFits(item) && !item.Null?
    ensures h.0 < 5
  {
    match item
    case Uint(v) => (UINT, v)
    case Bytes(b) => (BYTES, |b|)
    case Text(t) => (TEXT, |t|)
    case Array(n) => (ARRAY, n)
  }

  /** The major types of the items, and the byte that stands for a missing number. */
  lemma ItemFormat(item: Item)
    requires ItemFits(item)
    ensures match item
            case Uint(v) => EncodeItem(item) == Head(0, v)
            case Bytes(b) => EncodeItem(item) == Head(2, |b|) + b
            case Text(t) => EncodeItem(item) == Head(3, |t|) + t
            case Array(n) => EncodeItem(item) == Head(4, n)
            case Null => EncodeItem(item) == [0xf6] == EncodeOptionalUint(None)
  {
  }

  lemma ItemUnique(input: seq<Byte>, offset: nat, a: Item, b: Item)
    requires ItemFits(a) && ItemFits(b)
    requires At(input, offset, EncodeItem(a)) && At(input, offset, EncodeItem(b))
    ensures a == b
  {
    assert input[offset] == EncodeItem(a)[0] == EncodeItem(b)[0];
    if !a.Null? && !b.Null? {
      var (m, v) := ItemHead(a);
      var (n, w) := ItemHead(b);
      AtConcat(input, offset, Head(m, v), EncodeItem(a)[|Head(m, v)|..]);
      AtConcat(input, offset, Head(n, w), EncodeItem(b)[|Head(n, w)|..]);
      assert EncodeItem(a) == Head(m, v) + EncodeItem(a)[|Head(m, v)|..];
      assert EncodeItem(b) == Head(n, w) + EncodeItem(b)[|Head(n, w)|..];
      HeadUnique(input, offset, m, v, n, w);
      if a.Bytes? { StringUnique(input, offset, BYTES, a.bytes, b.bytes); }
      if a.Text? { StringUnique(input, offset, TEXT, a.text, b.text); }
    }
  }

  function EncodeItems(items: seq<Item>): seq<Byte>
    requires forall i :: 0 <= i < |items| ==> ItemFits(items[i])
  {
    if items == [] then [] else EncodeItem(items[0]) + EncodeItems(items[1..])
  }

  /** Two sequences of items never share a byte string, whatever their items. */
  lemma {:induction false} EncodingsDiffer(a: seq<Item>, b: seq<Item>)
    requires forall i :: 0 <= i < |a| ==> ItemFits(a[i])
    requires forall i :: 0 <= i < |b| ==> ItemFits(b[i])
    requires EncodeItems(a) == EncodeItems(b)
    ensures a == b
  {
    hide EncodeItem, ItemFits;
    if a != [] && b != [] {
      SameFirst(a, b);
      hide EncodeItems;
      EncodingsDiffer(a[1..], b[1..]);
      assert a == [a[0]] + a[1..] && b == [b[0]] + b[1..];
    }
  }

  lemma SameFirst(a: seq<Item>, b: seq<Item>)
    requires a != [] && forall i :: 0 <= i < |a| ==> ItemFits(a[i])
    requires b != [] && forall i :: 0 <= i < |b| ==> ItemFits(b[i])
    requires EncodeItems(a) == EncodeItems(b)
    ensures a[0] == b[0] && EncodeItems(a[1..]) == EncodeItems(b[1..])
  {
    hide EncodeItem, ItemFits, EncodeItems, At;
    FirstItem(a);
    FirstItem(b);
    ItemUnique(EncodeItems(a), 0, a[0], b[0]);
  }

  lemma FirstItem(items: seq<Item>)
    requires items != [] && forall i :: 0 <= i < |items| ==> ItemFits(items[i])
    ensures var first := EncodeItem(items[0]);
            At(EncodeItems(items), 0, first) && EncodeItems(items)[|first|..] == EncodeItems(items[1..])
  {
    hide EncodeItem, ItemFits;
  }

  // ----- UTF-8, as the text reader accepts it (table 3-7 of the Unicode Standard)

  predicate Continues(s: seq<Byte>, from: nat, to: nat) {
    to <= |s| && forall i :: from <= i < to ==> 0x80 <= s[i] <= 0xbf
  }

  /** The length of the well-formed sequence `s` starts with, or 0. */
  function Utf8Length(s: seq<Byte>): (n: nat)
    requires s != []
    ensures n <= |s|
  {
    var b := s[0];
    if b <= 0x7f then 1
    else if 0xc2 <= b <= 0xdf && Continues(s, 1, 2) then 2
    else if 0xe0 <= b <= 0xef && Continues(s, 1, 3)
            && (b == 0xe0 ==> s[1] >= 0xa0) && (b == 0xed ==> s[1] <= 0x9f) then 3
    else if 0xf0 <= b <= 0xf4 && Continues(s, 1, 4)
            && (b == 0xf0 ==> s[1] >= 0x90) && (b == 0xf4 ==> s[1] <= 0x8f) then 4
    else 0
  }

  predicate IsUtf8(s: seq<Byte>) {
    s == [] || (Utf8Length(s) > 0 && IsUtf8(s[Utf8Length(s)..]))
  }

  lemma {:induction false} AsciiIsUtf8(s: seq<Byte>)
    requires forall i :: 0 <= i < |s| ==> s[i] < 0x80
    ensures IsUtf8(s)
  {
    if s != [] {
      AsciiIsUtf8(s[1..]);
    }
  }

  /** The code points a text is made of. */
  predicate IsScalar(c: nat) { c < 0xd800 || 0xe000 <= c <= 0x10_ffff }

  /** A code point in UTF-8: six bits in each byte behind the first. */
  function Utf8Of(c: nat): seq<Byte>
    requires IsScalar(c)
  {
    if c < 0x80 then [c]
    else if c < 0x800 then [0xc0 + c / 64, 0x80 + c % 64]
    else if c < 0x1_0000 then [0xe0 + c / 64 / 64, 0x80 + c / 64 % 64, 0x80 + c % 64]
    else [0xf0 + c / 64 / 64 / 64, 0x80 + c / 64 / 64 % 64, 0x80 + c / 64 % 64, 0x80 + c % 64]
  }

  ghost predicate AreScalars(cs: seq<nat>) { forall i :: 0 <= i < |cs| ==> IsScalar(cs[i]) }

  function TextOf(cs: seq<nat>): seq<Byte>
    requires forall i :: 0 <= i < |cs| ==> IsScalar(cs[i])
  {
    if cs == [] then [] else Utf8Of(cs[0]) + TextOf(cs[1..])
  }

  lemma ScalarLength(c: nat, rest: seq<Byte>)
    requires IsScalar(c)
    ensures Utf8Length(Utf8Of(c) + rest) == |Utf8Of(c)|
  {
    var s := Utf8Of(c) + rest;
    assert Continues(s, 1, |Utf8Of(c)|);
    assert 0x800 <= c < 0x1_0000 && s[0] == 0xe0 ==> s[1] == 0x80 + c / 64;
    assert c >= 0x1_0000 && s[0] == 0xf0 ==> s[1] == 0x80 + c / 64 / 64;
  }

  lemma ScalarAt(s: seq<Byte>) returns (c: nat)
    requires s != [] && Utf8Length(s) > 0
    ensures IsScalar(c) && s[..Utf8Length(s)] == Utf8Of(c)
  {
    var n := Utf8Length(s);
    var b: seq<int> := s[..n];
    c := if n == 1 then b[0]
    else if n == 2 then 64 * (b[0] - 0xc0) + (b[1] - 0x80)
    else if n == 3 then 64 * (64 * (b[0] - 0xe0) + (b[1] - 0x80)) + (b[2] - 0x80)
    else 64 * (64 * (64 * (b[0] - 0xf0) + (b[1] - 0x80)) + (b[2] - 0x80)) + (b[3] - 0x80);
    hide Utf8Of;
    ScalarOf(b, c);
  }

  lemma ScalarOf(b: seq<int>, c: nat)
    requires match |b|
             case 1 => 0 <= b[0] < 0x80 && c == b[0]
             case 2 => 0xc2 <= b[0] <= 0xdf && 0x80 <= b[1] <= 0xbf && c == 64 * (b[0] - 0xc0) + (b[1] - 0x80)
             case 3 =>
               && 0xe0 <= b[0] <= 0xef && 0x80 <= b[1] <= 0xbf && 0x80 <= b[2] <= 0xbf
               && (b[0] == 0xe0 ==> b[1] >= 0xa0) && (b[0] == 0xed ==> b[1] <= 0x9f)
               && c == 64 * (64 * (b[0] - 0xe0) + (b[1] - 0x80)) + (b[2] - 0x80)
             case 4 =>
               && 0xf0 <= b[0] <= 0xf4 && 0x80 <= b[1] <= 0xbf && 0x80 <= b[2] <= 0xbf && 0x80 <= b[3] <= 0xbf
               && (b[0] == 0xf0 ==> b[1] >= 0x90) && (b[0] == 0xf4 ==> b[1] <= 0x8f)
               && c == 64 * (64 * (64 * (b[0] - 0xf0) + (b[1] - 0x80)) + (b[2] - 0x80)) + (b[3] - 0x80)
             case _ => false
    ensures IsScalar(c) && Utf8Of(c) == b
  {
    match |b|
    case 1 =>
    case 2 => SixBits(b[0] - 0xc0, b[1] - 0x80);
    case 3 =>
      SixBits(b[0] - 0xe0, b[1] - 0x80);
      SixBits(64 * (b[0] - 0xe0) + (b[1] - 0x80), b[2] - 0x80);
    case _ =>
      var high := 64 * (b[0] - 0xf0) + (b[1] - 0x80);
      SixBits(b[0] - 0xf0, b[1] - 0x80);
      SixBits(high, b[2] - 0x80);
      SixBits(64 * high + (b[2] - 0x80), b[3] - 0x80);
  }

  lemma SixBits(high: nat, low: nat)
    requires low < 64
    ensures (64 * high + low) / 64 == high && (64 * high + low) % 64 == low
  {
  }

  /** The text reader accepts the UTF-8 of every sequence of code points. */
  lemma {:induction false} ScalarsAreText(cs: seq<nat>)
    requires AreScalars(cs)
    ensures IsUtf8(TextOf(cs))
  {
    if cs != [] {
      ScalarsAreText(cs[1..]);
      ScalarLength(cs[0], TextOf(cs[1..]));
      assert TextOf(cs)[|Utf8Of(cs[0])|..] == TextOf(cs[1..]);
    }
  }

  /** And nothing else. */
  lemma {:induction false} TextIsScalars(s: seq<Byte>) returns (cs: seq<nat>)
    requires IsUtf8(s)
    ensures AreScalars(cs) && s == TextOf(cs)
  {
    hide Utf8Length, Utf8Of, IsScalar;
    if s == [] {
      cs := [];
    } else {
      var n := Utf8Length(s);
      var c := ScalarAt(s);
      var rest := TextIsScalars(s[n..]);
      cs := [c] + rest;
      assert s == s[..n] + s[n..] && cs[1..] == rest;
    }
  }

  // ----- Encoder and decoder

  class Encoder {
    var output: seq<Byte>

    constructor ()
      ensures output == []
    {
      output := [];
    }

    method EncodeHead(major: nat, value: U64)
      requires major < 8
      modifies this
      ensures output == old(output) + Head(major, value)
    {
      var prefix := 32 * major;
      if value <= 23 {
        output := output + [prefix + value];
      } else if value <= 0xff {
        output := output + [prefix + 24, value];
        assert BigEndian(1, value) == [value];
      } else if value <= 0xffff {
        output := output + [prefix + 25];
        output := output + BigEndian(2, value);
      } else if value <= 0xffff_ffff {
        output := output + [prefix + 26];
        output := output + BigEndian(4, value);
      } else {
        output := output + [prefix + 27];
        output := output + BigEndian(8, value);
      }
    }

    method Array(length: U64)
      modifies this
      ensures output == old(output) + EncodeArray(length)
    {
      EncodeHead(ARRAY, length);
    }

    method Uint(value: U64)
      modifies this
      ensures output == old(output) + EncodeUint(value)
    {
      EncodeHead(UINT, value);
    }

    method OptionalUint(value: Option<U64>)
      modifies this
      ensures output == old(output) + EncodeOptionalUint(value)
    {
      match value {
        case Some(v) => Uint(v);
        case None => output := output + [NULL];
      }
    }

    method Bytes(value: seq<Byte>)
      requires Fits(value)
      modifies this
      ensures output == old(output) + EncodeBytes(value)
    {
      EncodeHead(BYTES, |value|);
      output := output + value;
    }

    method Text(value: seq<Byte>)
      requires Fits(value)
      modifies this
      ensures output == old(output) + EncodeText(value)
    {
      EncodeHead(TEXT, |value|);
      output := output + value;
    }
  }

  /** A place in an input; each read moves it behind one item or fails. */
  class Decoder {
    const input: seq<Byte>
    var offset: nat

    ghost predicate Valid()
      reads this
    {
      offset <= |input|
    }

    constructor (input: seq<Byte>)
      ensures Valid() && this.input == input && offset == 0
    {
      this.input := input;
      offset := 0;
    }

    /** Nothing may stand behind the last item. */
    method Finish() returns (r: Result<()>)
      requires Valid()
      ensures r == if offset == |input| then Ok(()) else Err(Invalid)
    {
      r := if offset == |input| then Ok(()) else Err(Invalid);
    }

    method NextByte() returns (r: Result<Byte>)
      requires Valid()
      modifies this
      ensures Valid()
      ensures r == if old(offset) < |input| then Ok(input[old(offset)]) else Err(Invalid)
      ensures offset == if r.Ok? then old(offset) + 1 else old(offset)
    {
      if offset < |input| {
        r := Ok(input[offset]);
        offset := offset + 1;
      } else {
        r := Err(Invalid);
      }
    }

    method Take(length: nat, max: nat) returns (r: Result<seq<Byte>>)
      requires Valid()
      modifies this
      ensures Valid()
      ensures r == if length > max then Err(TooLarge)
                   else if old(offset) + length > |input| then Err(Invalid)
                   else Ok(input[old(offset)..old(offset) + length])
      ensures offset == if r.Ok? then old(offset) + length else old(offset)
    {
      if length > max {
        return Err(TooLarge);
      }
      var end := offset + length;
      if end > |input| {
        return Err(Invalid);
      }
      r := Ok(input[offset..end]);
      offset := end;
    }

    /** Decodes the argument behind a head's first byte, in its shortest form only. */
    method Argument(additional: nat) returns (r: Result<U64>)
      requires Valid()
      modifies this
      ensures Valid() && (r.Err? ==> r.error == Invalid)
      ensures r.Ok? ==> additional == Info(r.value)
                        && Consumed(input, old(offset), offset, BigEndian(Width(additional), r.value))
      ensures forall v: U64 ::
                Info(v) == additional && At(input, old(offset), BigEndian(Width(Info(v)), v)) ==> r == Ok(v)
    {
      hide BigEndian, FromBigEndian, Power;
      if additional <= 23 {
        assert BigEndian(0, additional) == [];
        return Ok(additional);
      }
      if additional > 27 {
        return Err(Invalid);
      }
      var width := Width(additional);
      var taken := Take(width, width);
      if taken.Err? {
        return Err(taken.error);
      }
      var value := FromBigEndian(taken.value);
      BigEndianOf(taken.value);
      FromBigEndianBound(taken.value);
      Powers();
      var minimum :=
        if width == 1 then 24 else if width == 2 then 0x100 else if width == 4 then 0x1_0000 else 0x1_0000_0000;
      r := if value >= minimum then Ok(value) else Err(Invalid);
      forall v: U64 | Info(v) == additional && At(input, old(offset), BigEndian(Width(Info(v)), v))
        ensures r == Ok(v)
      {
        AtSame(input, old(offset), taken.value, BigEndian(width, v));
        BigEndianInverse(v);
      }
    }

    /** Reads a head of the given major type. */
    method ReadHead(major: nat) returns (r: Result<U64>)
      requires Valid() && major < 8
      modifies this
      ensures Valid() && (r.Err? ==> r.error == Invalid)
      ensures r.Ok? ==> Consumed(input, old(offset), offset, Head(major, r.value))
      ensures forall v: U64 :: At(input, old(offset), Head(major, v)) ==> r == Ok(v)
    {
      hide BigEndian, Info;
      var first := NextByte();
      if first.Err? {
        return Err(first.error);
      }
      var b := first.value;
      if b / 32 != major {
        return Err(Invalid);
      }
      r := Argument(b % 32);
      if r.Ok? {
        AtConcat(input, old(offset), [b], BigEndian(Width(Info(r.value)), r.value));
      }
      forall v: U64 | At(input, old(offset), Head(major, v))
        ensures r == Ok(v)
      {
        AtConcat(input, old(offset), [32 * major + Info(v)], BigEndian(Width(Info(v)), v));
      }
    }

    method Uint() returns (r: Result<U64>)
      requires Valid()
      modifies this
      ensures Valid() && (r.Err? ==> r.error == Invalid)
      ensures r.Ok? ==> Consumed(input, old(offset), offset, EncodeUint(r.value))
      ensures forall v: U64 :: At(input, old(offset), EncodeUint(v)) ==> r == Ok(v)
    {
      hide Head;
      r := ReadHead(UINT);
      assert forall v: U64 :: EncodeUint(v) == Head(UINT, v);
    }

    /** A missing number is written as null. */
    method OptionalUint() returns (r: Result<Option<U64>>)
      requires Valid()
      modifies this
      ensures Valid() && (r.Err? ==> r.error == Invalid)
      ensures r.Ok? ==> Consumed(input, old(offset), offset, EncodeOptionalUint(r.value))
      ensures forall v: Option<U64> :: At(input, old(offset), EncodeOptionalUint(v)) ==> r == Ok(v)
    {
      assert forall v: U64 :: EncodeUint(v)[0] < NULL;
      hide EncodeUint;
      if offset < |input| && input[offset] == NULL {
        offset := offset + 1;
        r := Ok(None);
      } else {
        var value := Uint();
        r := if value.Ok? then Ok(Some(value.value)) else Err(value.error);
      }
    }

    method ArrayLen() returns (r: Result<U64>)
      requires Valid()
      modifies this
      ensures Valid() && (r.Err? ==> r.error == Invalid)
      ensures r.Ok? ==> Consumed(input, old(offset), offset, EncodeArray(r.value))
      ensures forall v: U64 :: At(input, old(offset), EncodeArray(v)) ==> r == Ok(v)
    {
      hide Head;
      r := ReadHead(ARRAY);
      assert forall v: U64 :: EncodeArray(v) == Head(ARRAY, v);
    }

    /** Reads an array head of exactly `expected` items. */
    method Array(expected: U64) returns (r: Result<()>)
      requires Valid()
      modifies this
      ensures Valid() && (r.Err? ==> r.error == Invalid)
      ensures r.Ok? <==> At(input, old(offset), EncodeArray(expected))
      ensures r.Ok? ==> offset == old(offset) + |EncodeArray(expected)|
    {
      var length := ArrayLen();
      if length.Err? {
        return Err(length.error);
      }
      r := if length.value == expected then Ok(()) else Err(Invalid);
    }

    /** Text and byte strings differ only in their major type. */
    method ReadString(major: nat, max: nat) returns (r: Result<seq<Byte>>)
      requires Valid() && major < 8
      modifies this
      ensures Valid() && (r.Err? ==> r.error in {Invalid, TooLarge})
      ensures r.Ok? ==> Fits(r.value) && |r.value| <= max
                        && Consumed(input, old(offset), offset, Head(major, |r.value|) + r.value)
      ensures forall v: seq<Byte> :: Fits(v) && At(input, old(offset), Head(major, |v|) + v)
                ==> r == if |v| <= max then Ok(v) else Err(TooLarge)
    {
      hide Head, At;
      forall v: seq<Byte> | Fits(v)
        ensures At(input, offset, Head(major, |v|) + v)
                <==> At(input, offset, Head(major, |v|)) && At(input, offset + |Head(major, |v|)|, v)
      {
        AtConcat(input, offset, Head(major, |v|), v);
      }
      var length := ReadHead(major);
      if length.Err? {
        return Err(length.error);
      }
      SliceAt(input, offset, length.value);
      r := Take(length.value, max);
    }

    method Bytes(max: nat) returns (r: Result<seq<Byte>>)
      requires Valid()
      modifies this
      ensures Valid() && (r.Err? ==> r.error in {Invalid, TooLarge})
      ensures r.Ok? ==> Fits(r.value) && |r.value| <= max
                        && Consumed(input, old(offset), offset, EncodeBytes(r.value))
      ensures forall v: seq<Byte> :: Fits(v) && At(input, old(offset), EncodeBytes(v))
                ==> r == if |v| <= max then Ok(v) else Err(TooLarge)
    {
      hide Head;
      r := ReadString(BYTES, max);
      assert forall v: seq<Byte> :: Fits(v) ==> EncodeBytes(v) == Head(BYTES, |v|) + v;
    }

    /** The length is checked before the contents. */
    method Text(max: nat) returns (r: Result<seq<Byte>>)
      requires Valid()
      modifies this
      ensures Valid() && (r.Err? ==> r.error in {Invalid, TooLarge})
      ensures r.Ok? ==> Fits(r.value) && |r.value| <= max && IsUtf8(r.value)
                        && Consumed(input, old(offset), offset, EncodeText(r.value))
      ensures forall v: seq<Byte> :: Fits(v) && At(input, old(offset), EncodeText(v))
                ==> r == if |v| > max then Err(TooLarge) else if IsUtf8(v) then Ok(v) else Err(Invalid)
    {
      hide Head, IsUtf8;
      r := ReadString(TEXT, max);
      assert forall v: seq<Byte> :: Fits(v) ==> EncodeText(v) == Head(TEXT, |v|) + v;
      if r.Ok? && !IsUtf8(r.value) {
        r := Err(Invalid);
      }
    }
  }

  lemma {:induction false} FromBigEndianBound(s: seq<Byte>)
    ensures FromBigEndian(s) < Power(|s|)
  {
    if s != [] {
      FromBigEndianBound(s[..|s| - 1]);
    }
  }
}
