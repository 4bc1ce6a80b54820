/** The diagnostic picked from a route bridge's error output.

    The output is read in chunks and only its last 128 bytes are carried over, so the whole of it is
    never seen at once; and each piece is decoded on its own, so a character split between two reads
    is decoded differently. The main result: the pick is the one the whole output would give. Bytes
    are characters below 256; every needle is ASCII. */
module BridgeDiagnostic {
  import opened Wrappers

  const TAIL := 128

  datatype Diagnostic =
    | Permission | Wintun | TunDevice | DnsSetup | RouteSetup
    | AddressConflict | ResourceBusy | NetworkUnavailable | MissingComponent

  function Priority(d: Diagnostic): nat {
    match d
    case Permission => 9
    case Wintun => 8
    case TunDevice => 7
    case DnsSetup => 6
    case RouteSetup => 5
    case AddressConflict => 4
    case ResourceBusy => 3
    case NetworkUnavailable => 2
    case MissingComponent => 1
  }

  predicate IsAscii(c: char) { (c as int) < 0x80 }

  /** What a needle is made of: no capitals, and nothing beyond ASCII. */
  type Small = c: char | IsAscii(c) && !('A' <= c <= 'Z') witness 'a'

  function Needles(d: Diagnostic): seq<seq<Small>> {
    match d
    case Permission => RefusalNeedles()
    case Wintun => ["wintun", "wireguardnt"]
    case TunDevice => DeviceNeedles()
    case DnsSetup => ["dns", "resolv.conf", "systemd-resolved"]
    case RouteSetup => RouteNeedles()
    case AddressConflict => ["address already in use"]
    case ResourceBusy => ["device or resource busy", "resource busy"]
    case NetworkUnavailable => NetworkNeedles()
    case MissingComponent => AbsenceNeedles()
  }

  function DeviceNeedles(): seq<seq<Small>> {
    ["create tun", "open tun", "tun device", "tun interface", "tap device", "utun"]
  }

  function RouteNeedles(): seq<seq<Small>> {
    ["ip route", "ip rule", "netsh", "routing table", "add route"]
  }

  function NetworkNeedles(): seq<seq<Small>> {
    ["network is unreachable", "no route to host", "network is down"]
  }

  function AbsenceNeedles(): seq<seq<Small>> {
    ["no such file or directory", "system cannot find the file specified", "module could not be found"]
  }

  function RefusalNeedles(): seq<seq<Small>> {
    ["permission denied", "operation not permitted", "access is denied", "requires elevation",
     "administrator privileges"]
  }

  function LowerChar(c: char): char {
    if 'A' <= c <= 'Z' then ((c as int) + 32) as char else c
  }

  function Lower(s: string): string {
    seq(|s|, i requires 0 <= i < |s| => LowerChar(s[i]))
  }

  predicate StandsAt(s: string, needle: string, i: nat) {
    i + |needle| <= |s| && s[i..i + |needle|] == needle
  }

  predicate Contains(s: string, needle: string) {
    exists i :: 0 <= i <= |s| && StandsAt(s, needle, i)
  }

  predicate ContainsAny(s: string, needles: seq<string>) {
    exists k :: 0 <= k < |needles| && Contains(s, needles[k])
  }

  /** Whether the output mentions `d`, in any case. */
  predicate Mentions(output: string, d: Diagnostic) {
    ContainsAny(Lower(output), Needles(d))
  }

  function Classify(output: string): Option<Diagnostic> {
    if Mentions(output, Permission) then Some(Permission)
    else if Mentions(output, Wintun) then Some(Wintun)
    else if Mentions(output, TunDevice) then Some(TunDevice)
    else if Mentions(output, DnsSetup) then Some(DnsSetup)
    else if Mentions(output, RouteSetup) then Some(RouteSetup)
    else if Mentions(output, AddressConflict) then Some(AddressConflict)
    else if Mentions(output, ResourceBusy) then Some(ResourceBusy)
    else if Mentions(output, NetworkUnavailable) then Some(NetworkUnavailable)
    else if Mentions(output, MissingComponent) then Some(MissingComponent)
    else None
  }

  // ----- Letters of either case

  const SMALL: string := "abcdefghijklmnopqrstuvwxyz"
  const CAPITALS: string := "ABCDEFGHIJKLMNOPQRSTUVWXYZ"

  ghost predicate IsCapitalOf(capital: char, small: char) {
    exists x :: 0 <= x < 26 && CAPITALS[x] == capital && SMALL[x] == small
  }

  lemma LetterAt(x: nat)
    requires x < 26
    ensures CAPITALS[x] as int == 65 + x && SMALL[x] as int == 97 + x
  {
  }

  lemma LowerCharMeans(c: char, small: char)
    requires !('A' <= small <= 'Z')
    ensures LowerChar(c) == small <==> c == small || IsCapitalOf(c, small)
  {
    if 'A' <= c <= 'Z' {
      LetterAt(c as int - 65);
    }
    forall x: nat | x < 26 ensures CAPITALS[x] as int == 65 + x && SMALL[x] as int == 97 + x {
      LetterAt(x);
    }
    hide CAPITALS, SMALL;
  }

  /** `needle` is spelled at `i`, each letter small or capital. */
  ghost predicate SpelledAt(s: string, needle: string, i: nat) {
    i + |needle| <= |s| && forall j :: 0 <= j < |needle| ==> s[i + j] == needle[j] || IsCapitalOf(s[i + j], needle[j])
  }

  ghost predicate IsSmall(needle: string) {
    forall j :: 0 <= j < |needle| ==> !('A' <= needle[j] <= 'Z')
  }

  lemma SpelledIffStands(s: string, needle: string, i: nat)
    requires IsSmall(needle)
    ensures SpelledAt(s, needle, i) <==> StandsAt(Lower(s), needle, i)
  {
    hide LowerChar, IsCapitalOf;
    if i + |needle| <= |s| {
      forall j | 0 <= j < |needle|
        ensures Lower(s)[i + j] == needle[j] <==> s[i + j] == needle[j] || IsCapitalOf(s[i + j], needle[j])
      {
        LowerCharMeans(s[i + j], needle[j]);
      }
      var part := Lower(s)[i..i + |needle|];
      assert forall j :: 0 <= j < |needle| ==> part[j] == Lower(s)[i + j];
    }
  }

  /** An output mentions a diagnostic exactly when it spells one of its needles, in any case. */
  lemma MentionsInAnyCase(output: string, d: Diagnostic)
    ensures Mentions(output, d) <==>
            exists k, i :: 0 <= k < |Needles(d)| && 0 <= i <= |output| && SpelledAt(output, Needles(d)[k], i)
  {
    hide StandsAt, SpelledAt;
    forall k, i: nat | 0 <= k < |Needles(d)|
      ensures SpelledAt(output, Needles(d)[k], i) <==> StandsAt(Lower(output), Needles(d)[k], i)
    {
      NeedlesAreSmall(d, k);
      SpelledIffStands(output, Needles(d)[k], i);
    }
    hide Needles;
    if Mentions(output, d) {
      var k :| 0 <= k < |Needles(d)| && Contains(Lower(output), Needles(d)[k]);
      var i :| 0 <= i <= |Lower(output)| && StandsAt(Lower(output), Needles(d)[k], i);
      assert SpelledAt(output, Needles(d)[k], i);
    }
    if k, i :| 0 <= k < |Needles(d)| && 0 <= i <= |output| && SpelledAt(output, Needles(d)[k], i) {
      assert StandsAt(Lower(output), Needles(d)[k], i) && Contains(Lower(output), Needles(d)[k]);
    }
  }

  lemma NeedlesAreSmall(d: Diagnostic, k: nat)
    requires k < |Needles(d)|
    ensures IsSmall(Needles(d)[k])
  {
    var needle: seq<Small> := Needles(d)[k];
    hide Needles;
    assert forall j :: 0 <= j < |needle| ==> !('A' <= needle[j] <= 'Z');
  }

  /** Whatever else an output says, "Permission denied" in any case makes it a permission problem. */
  lemma PermissionDenied(output: string, i: nat)
    requires i + 17 <= |output|
    requires forall j :: 0 <= j < 17 ==>
               output[i + j] == "permission denied"[j] || output[i + j] == "PERMISSION DENIED"[j]
    ensures Classify(output) == Some(Permission)
  {
    MentionsInAnyCase(output, Permission);
    var needle, capitals := "permission denied", "PERMISSION DENIED";
    assert Needles(Permission)[0] == needle;
    forall j | 0 <= j < 17 && output[i + j] != needle[j] ensures IsCapitalOf(output[i + j], needle[j]) {
      LetterAt(capitals[j] as int - 65);
    }
    hide Classify, Needles;
    assert SpelledAt(output, needle, i);
  }

  /** `pick` is the mentioned diagnostic of the highest priority. */
  ghost predicate IsPick(pick: Option<Diagnostic>, output: string) {
    && (pick.Some? ==> Mentions(output, pick.value))
    && forall d :: Mentions(output, d) ==> pick.Some? && Priority(d) <= Priority(pick.value)
  }

  /** The order of the classification is the order of the priorities. */
  lemma ClassifyIsPick(output: string)
    ensures IsPick(Classify(output), output)
  {
    hide Mentions;
    forall d | Mentions(output, d) ensures Classify(output).Some? && Priority(d) <= Priority(Classify(output).value) {
      match d { case Permission => case _ => }
    }
  }

  /** The pick is the first diagnostic mentioned, in this order. */
  lemma ClassifyIsFirst(output: string, i: nat)
    requires i < 9
    ensures var order := [Permission, Wintun, TunDevice, DnsSetup, RouteSetup, AddressConflict, ResourceBusy,
                          NetworkUnavailable, MissingComponent];
            Classify(output) == Some(order[i]) <==>
            Mentions(output, order[i]) && forall j :: 0 <= j < i ==> !Mentions(output, order[j])
  {
    hide Mentions;
    var order := [Permission, Wintun, TunDevice, DnsSetup, RouteSetup, AddressConflict, ResourceBusy,
                  NetworkUnavailable, MissingComponent];
    assert order[0].Permission? && order[1].Wintun? && order[2].TunDevice? && order[3].DnsSetup?;
    assert order[4].RouteSetup? && order[5].AddressConflict? && order[6].ResourceBusy?;
    assert order[7].NetworkUnavailable? && order[8].MissingComponent?;
    if forall j :: 0 <= j < i ==> !Mentions(output, order[j]) {
      assert forall j: nat :: j < 9 && Classify(output) == Some(order[j]) ==> j >= i;
    }
  }

  lemma PickIsUnique(output: string, a: Option<Diagnostic>, b: Option<Diagnostic>)
    requires IsPick(a, output) && IsPick(b, output)
    ensures a == b
  {
    hide Mentions;
    if a.Some? && b.Some? { PrioritiesDiffer(a.value, b.value); }
  }

  lemma PrioritiesDiffer(a: Diagnostic, b: Diagnostic)
    ensures Priority(a) == Priority(b) ==> a == b
  {
  }

  // ----- The carried tail is enough

  lemma NeedlesFitTail(d: Diagnostic, k: nat)
    requires k < |Needles(d)|
    ensures 1 <= |Needles(d)[k]| <= TAIL
  {
  }

  /** The last bytes of `s`, at most `TAIL` of them. */
  function Tail(s: string): string {
    s[if |s| > TAIL then |s| - TAIL else 0..]
  }

  /** A needle stands in `seen + chunk` exactly when it stands in `seen` or in the carried tail of
      `seen` followed by `chunk`. */
  lemma ContainsAcross(seen: string, chunk: string, needle: string)
    requires |needle| <= TAIL
    ensures Contains(Lower(seen + chunk), needle)
            <==> Contains(Lower(seen), needle) || Contains(Lower(Tail(seen) + chunk), needle)
  {
    var whole := Lower(seen + chunk);
    var cut := |seen| - |Tail(seen)|;
    assert Lower(Tail(seen) + chunk) == whole[cut..];
    assert Lower(seen) == whole[..|seen|];
    hide Lower, Tail, Contains;
    ContainsInSlices(whole, |seen|, cut, needle);
  }

  /** Two slices that overlap by enough hold everything the whole holds. */
  lemma ContainsInSlices(s: string, end: nat, start: nat, needle: string)
    requires start <= end <= |s| && (start == 0 || end - start >= |needle|)
    ensures Contains(s, needle) <==> Contains(s[..end], needle) || Contains(s[start..], needle)
  {
    hide StandsAt;
    if i :| 0 <= i <= |s| && StandsAt(s, needle, i) {
      if i + |needle| <= end {
        StandsInSlice(s, 0, end, needle, i);
        assert s[0..end] == s[..end];
      } else {
        StandsInSlice(s, start, |s|, needle, i);
        StandsIn(s, needle, i);
        assert s[start..|s|] == s[start..] && StandsAt(s[start..], needle, i - start);
      }
    }
    if i :| 0 <= i <= end && StandsAt(s[..end], needle, i) {
      StandsInSlice(s, 0, end, needle, i);
      assert s[0..end] == s[..end];
    }
    if i :| 0 <= i <= |s| - start && StandsAt(s[start..], needle, i) {
      StandsInSlice(s, start, |s|, needle, start + i);
      assert s[start..|s|] == s[start..];
      assert StandsAt(s, needle, start + i);
    }
  }

  lemma StandsIn(s: string, needle: string, i: nat)
    requires StandsAt(s, needle, i)
    ensures i + |needle| <= |s|
  {
  }

  lemma StandsInSlice(s: string, from: nat, to: nat, needle: string, i: nat)
    requires from <= i && from <= to <= |s|
    ensures StandsAt(s[from..to], needle, i - from) <==> StandsAt(s, needle, i) && i + |needle| <= to
  {
    if i + |needle| <= to {
      var a, b := s[from..to][i - from..i - from + |needle|], s[i..i + |needle|];
      assert forall k :: 0 <= k < |needle| ==> a[k] == b[k];
      assert a == b;
    }
  }

  lemma MentionsAcross(seen: string, chunk: string, d: Diagnostic)
    ensures Mentions(seen + chunk, d) <==> Mentions(seen, d) || Mentions(Tail(seen) + chunk, d)
  {
    hide Contains, Lower, Needles;
    forall k | 0 <= k < |Needles(d)|
      ensures Contains(Lower(seen + chunk), Needles(d)[k])
              <==> Contains(Lower(seen), Needles(d)[k]) || Contains(Lower(Tail(seen) + chunk), Needles(d)[k])
    {
      NeedlesFitTail(d, k);
      ContainsAcross(seen, chunk, Needles(d)[k]);
    }
  }

  // ----- Decoding keeps every needle

  predicate NoAscii(s: string) { forall i :: 0 <= i < |s| ==> !IsAscii(s[i]) }

  /** How many bytes stand before the first ASCII byte. */
  function RunLength(s: string): (n: nat)
    ensures n <= |s| && NoAscii(s[..n]) && (n < |s| ==> IsAscii(s[n]))
    ensures s != "" && !IsAscii(s[0]) ==> n > 0
  {
    if s == "" || IsAscii(s[0]) then 0
    else
      assert s[..1 + RunLength(s[1..])] == [s[0]] + s[1..][..RunLength(s[1..])];
      1 + RunLength(s[1..])
  }

  /** Other bytes become other characters, or replacement characters, but never nothing. */
  ghost predicate IsLossy(decode: string -> string) {
    forall run: string :: run != "" && NoAscii(run) ==> decode(run) != "" && NoAscii(decode(run))
  }

  /** Lossy decoding of UTF-8: an ASCII byte is its own character and belongs to no other one. */
  function Decoded(s: string, decode: string -> string): string {
    if s == "" then ""
    else if IsAscii(s[0]) then [s[0]] + Decoded(s[1..], decode)
    else decode(s[..RunLength(s)]) + Decoded(s[RunLength(s)..], decode)
  }

  predicate Starts(s: string, needle: string) { StandsAt(Lower(s), needle, 0) }

  ghost predicate IsNeedle(needle: string) {
    needle != "" && forall i :: 0 <= i < |needle| ==> IsAscii(needle[i])
  }

  lemma {:induction false} StartsDecoded(s: string, decode: string -> string, needle: string)
    requires IsLossy(decode) && forall i :: 0 <= i < |needle| ==> IsAscii(needle[i])
    ensures Starts(Decoded(s, decode), needle) <==> Starts(s, needle)
    decreases |needle|
  {
    if needle == "" {
    } else if s == "" {
    } else if IsAscii(s[0]) {
      hide Starts;
      StartsDecoded(s[1..], decode, needle[1..]);
      StartsWithOne(s[0], Decoded(s[1..], decode), needle);
      StartsWithOne(s[0], s[1..], needle);
      assert s == [s[0]] + s[1..];
    } else {
      hide RunLength, Starts, Decoded;
      RunDecoded(s, decode);
      NotInRun(decode(s[..RunLength(s)]), Decoded(s[RunLength(s)..], decode), needle);
      NotInRun(s[..RunLength(s)], s[RunLength(s)..], needle);
    }
  }

  lemma RunDecoded(s: string, decode: string -> string)
    requires IsLossy(decode) && s != "" && !IsAscii(s[0])
    ensures var n := RunLength(s);
            && s == s[..n] + s[n..] && s[..n] != "" && NoAscii(s[..n])
            && Decoded(s, decode) == decode(s[..n]) + Decoded(s[n..], decode)
            && decode(s[..n]) != "" && NoAscii(decode(s[..n]))
  {
  }

  lemma StartsWithOne(c: char, rest: string, needle: string)
    requires needle != ""
    ensures Starts([c] + rest, needle) <==> LowerChar(c) == needle[0] && Starts(rest, needle[1..])
  {
    assert Lower([c] + rest) == [LowerChar(c)] + Lower(rest);
    hide Lower;
    var s := [LowerChar(c)] + Lower(rest);
    if |needle| <= |s| {
      assert s[0..|needle|] == [LowerChar(c)] + Lower(rest)[0..|needle| - 1];
      assert needle == [needle[0]] + needle[1..];
    }
  }

  /** No needle stands where there is no ASCII. */
  lemma NotInRun(run: string, rest: string, needle: string)
    requires NoAscii(run) && run != "" && needle != "" && IsAscii(needle[0])
    ensures !Starts(run + rest, needle)
    ensures forall i :: 0 <= i < |run| ==> !StandsAt(Lower(run + rest), needle, i)
  {
    var s := Lower(run + rest);
    forall i | 0 <= i < |run| ensures !StandsAt(s, needle, i) {
      assert s[i] == LowerChar(run[i]);
      assert i + |needle| <= |s| ==> s[i..i + |needle|][0] == s[i];
    }
  }

  lemma SkipsRun(run: string, rest: string, needle: string)
    requires NoAscii(run) && IsNeedle(needle)
    ensures Contains(Lower(run + rest), needle) <==> Contains(Lower(rest), needle)
  {
    var s := Lower(run + rest);
    assert s[|run|..|s|] == Lower(rest);
    if run != "" {
      NotInRun(run, rest, needle);
    }
    hide Lower, StandsAt;
    forall i | |run| <= i <= |s| ensures StandsAt(s, needle, i) <==> StandsAt(Lower(rest), needle, i - |run|) {
      StandsInSlice(s, |run|, |s|, needle, i);
      StandsIfFits(s, needle, i);
    }
    if i :| 0 <= i <= |Lower(rest)| && StandsAt(Lower(rest), needle, i) {
      assert StandsAt(s, needle, i + |run|);
    }
  }

  lemma StandsIfFits(s: string, needle: string, i: nat)
    ensures StandsAt(s, needle, i) ==> i + |needle| <= |s|
  {
  }

  lemma ContainsOneMore(c: char, rest: string, needle: string)
    requires needle != ""
    ensures Contains(Lower([c] + rest), needle) <==> Starts([c] + rest, needle) || Contains(Lower(rest), needle)
  {
    var s := Lower([c] + rest);
    assert s[1..|s|] == Lower(rest);
    hide Lower, StandsAt;
    forall i | 1 <= i <= |s| ensures StandsAt(s, needle, i) <==> StandsAt(Lower(rest), needle, i - 1) {
      StandsInSlice(s, 1, |s|, needle, i);
      StandsIfFits(s, needle, i);
    }
    if i :| 0 <= i <= |Lower(rest)| && StandsAt(Lower(rest), needle, i) {
      assert StandsAt(s, needle, i + 1);
    }
  }

  /** Decoding, lossy as it is, neither hides a needle nor makes one up. */
  lemma {:induction false} ContainsDecoded(s: string, decode: string -> string, needle: string)
    requires IsLossy(decode) && IsNeedle(needle)
    ensures Contains(Lower(Decoded(s, decode)), needle) <==> Contains(Lower(s), needle)
    decreases |s|
  {
    if s == "" {
    } else if IsAscii(s[0]) {
      hide Contains, Starts, Lower;
      ContainsDecoded(s[1..], decode, needle);
      StartsDecoded(s, decode, needle);
      ContainsOneMore(s[0], Decoded(s[1..], decode), needle);
      ContainsOneMore(s[0], s[1..], needle);
      assert s == [s[0]] + s[1..];
    } else {
      hide Contains, Lower, RunLength, Decoded;
      RunDecoded(s, decode);
      var n := RunLength(s);
      ContainsDecoded(s[n..], decode, needle);
      SkipsRun(decode(s[..n]), Decoded(s[n..], decode), needle);
      SkipsRun(s[..n], s[n..], needle);
    }
  }

  lemma NeedlesAreAscii(d: Diagnostic, k: nat)
    requires k < |Needles(d)|
    ensures IsNeedle(Needles(d)[k])
  {
    NeedlesFitTail(d, k);
    hide Needles;
    var needle: seq<Small> := Needles(d)[k];
    assert forall i :: 0 <= i < |needle| ==> IsAscii(needle[i]);
  }

  lemma MentionsDecoded(s: string, decode: string -> string, d: Diagnostic)
    requires IsLossy(decode)
    ensures Mentions(Decoded(s, decode), d) <==> Mentions(s, d)
  {
    hide Contains, Lower, Needles, Decoded, IsLossy;
    forall k | 0 <= k < |Needles(d)|
      ensures Contains(Lower(Decoded(s, decode)), Needles(d)[k]) <==> Contains(Lower(s), Needles(d)[k])
    {
      NeedlesAreAscii(d, k);
      ContainsDecoded(s, decode, Needles(d)[k]);
    }
  }

  lemma ClassifyDecoded(s: string, decode: string -> string)
    requires IsLossy(decode)
    ensures Classify(Decoded(s, decode)) == Classify(s)
  {
    hide Mentions, Classify, Decoded, IsLossy;
    ClassifyIsPick(s);
    ClassifyIsPick(Decoded(s, decode));
    forall d ensures Mentions(Decoded(s, decode), d) <==> Mentions(s, d) {
      MentionsDecoded(s, decode, d);
    }
    PickIsUnique(s, Classify(s), Classify(Decoded(s, decode)));
  }

  // ----- Reading the output

  /** What one read of the pipe gives; an empty chunk is its end. */
  datatype Read = Chunk(text: string) | Failed

  /** Everything read before the end or the first failure. */
  function Output(answers: seq<Read>): string {
    if answers == [] || answers[0].Failed? || answers[0].text == "" then ""
    else answers[0].text + Output(answers[1..])
  }

  function Better(selected: Option<Diagnostic>, candidate: Option<Diagnostic>): Option<Diagnostic> {
    if candidate.Some? && (selected.None? || Priority(candidate.value) > Priority(selected.value)) then candidate
    else selected
  }

  lemma NothingInNothing()
    ensures Classify("") == None
  {
    forall d ensures !Mentions("", d) {
      forall k | 0 <= k < |Needles(d)| ensures !Contains(Lower(""), Needles(d)[k]) { NeedlesFitTail(d, k); }
    }
  }

  /** The better of what was seen and what the tail and the next chunk show is the pick of both. */
  lemma ClassifyAcross(seen: string, chunk: string)
    ensures Classify(seen + chunk) == Better(Classify(seen), Classify(Tail(seen) + chunk))
  {
    hide Mentions, Tail, Classify;
    ClassifyIsPick(seen);
    ClassifyIsPick(Tail(seen) + chunk);
    ClassifyIsPick(seen + chunk);
    forall d ensures Mentions(seen + chunk, d) <==> Mentions(seen, d) || Mentions(Tail(seen) + chunk, d) {
      MentionsAcross(seen, chunk, d);
    }
    PickIsUnique(seen + chunk, Classify(seen + chunk), Better(Classify(seen), Classify(Tail(seen) + chunk)));
  }

  /** The chunked scan gives the diagnostic of the whole output, however it is split, and whether or
      not a character is split with it. */
  method Collect(answers: seq<Read>, decode: string -> string) returns (selected: Option<Diagnostic>)
    requires IsLossy(decode)
    ensures selected == Classify(Decoded(Output(answers), decode))
  {
    hide Classify, IsLossy, Decoded, Tail;
    var tail := "";
    ghost var seen := "";
    selected := None;
    NothingInNothing();
    TailOfScan("", "");
    var i := 0;
    while i < |answers| && answers[i].Chunk? && answers[i].text != ""
      invariant i <= |answers| && Output(answers) == seen + Output(answers[i..])
      invariant tail == Tail(seen) && selected == Classify(seen)
    {
      var chunk := answers[i].text;
      var scan := tail + chunk;
      var candidate := Classify(Decoded(scan, decode));
      ClassifyDecoded(scan, decode);
      if candidate.Some? && (selected.None? || Priority(candidate.value) > Priority(selected.value)) {
        selected := candidate;
      }
      ClassifyAcross(seen, chunk);
      TailOfScan(seen, chunk);
      seen := seen + chunk;
      tail := Tail(scan);
      assert answers[i..][1..] == answers[i + 1..];
      i := i + 1;
    }
    assert seen + "" == seen;
    ClassifyDecoded(seen, decode);
  }

  lemma TailOfScan(seen: string, chunk: string)
    ensures Tail(Tail(seen) + chunk) == Tail(seen + chunk) && Tail("") == ""
  {
  }
}
