/** Invites signed by their node: the signed bytes, and the envelope of payload and signature. */
module SignedInvites {
  import opened Arithmetic
  import opened Wrappers
  import opened Cbor
  import opened Locators
  import opened Invite

  const MAX_BINARY_INVITE_BYTES := 1_024
  const SIGNED_FIELDS: U64 := 2
  const SIGNATURE_BYTES := 64

  datatype Signed = Signed(capsule: Capsule, signature: seq<Byte>)

  ghost predicate WellFormedSigned(p: Profile, s: Signed) {
    WellFormed(p, s.capsule) && |s.signature| == SIGNATURE_BYTES
  }

  // ----- The signed bytes

  function SignatureInput(domain: seq<Byte>, applicationId: seq<Byte>, payload: seq<Byte>): seq<Byte> {
    domain + (BigEndian(2, Min(|applicationId|, U16_MAX)) + (applicationId + payload))
  }

  method BuildSignatureInput(domain: seq<Byte>, applicationId: seq<Byte>, payload: seq<Byte>)
    returns (input: seq<Byte>)
    ensures input == SignatureInput(domain, applicationId, payload)
  {
    var length := if |applicationId| <= U16_MAX then |applicationId| else U16_MAX;
    input := domain;
    input := input + BigEndian(2, length);
    input := input + applicationId;
    input := input + payload;
  }

  /** The signed bytes are the domain, the length of the application ID in two bytes, the most significant
      first, the ID and the payload. */
  lemma SignatureInputFormat(domain: seq<Byte>, id: seq<Byte>, payload: seq<Byte>)
    requires |id| < 65_536
    ensures SignatureInput(domain, id, payload) == domain + [|id| / 256, |id| % 256] + id + payload
  {
    assert BigEndian(2, |id|) == BigEndian(1, |id| / 256) + [|id| % 256];
    assert BigEndian(1, |id| / 256) == BigEndian(0, |id| / 256 / 256) + [|id| / 256 % 256];
    hide BigEndian;
  }

  /** Within one domain the signed bytes determine the application and the payload, for every
      application ID of less than 65536 bytes. */
  lemma SignedBytesDetermineFields(domain: seq<Byte>, id: seq<Byte>, payload: seq<Byte>, id': seq<Byte>,
                                   payload': seq<Byte>)
    requires |id| <= U16_MAX && |id'| <= U16_MAX
    requires SignatureInput(domain, id, payload) == SignatureInput(domain, id', payload')
    ensures id == id' && payload == payload'
  {
    var n := |domain|;
    var a, b := SignatureInput(domain, id, payload), SignatureInput(domain, id', payload');
    assert a[n..] == BigEndian(2, |id|) + (id + payload) && b[n..] == BigEndian(2, |id'|) + (id' + payload');
    assert a[n..][..2] == a[n..n + 2] && b[n..][..2] == b[n..n + 2];
    assert BigEndian(2, |id|) == a[n..n + 2] == b[n..n + 2] == BigEndian(2, |id'|);
    hide FromBigEndian, BigEndian;
    FromBigEndianOf(2, |id|);
    FromBigEndianOf(2, |id'|);
    Powers();
    assert id == a[n + 2..n + 2 + |id|] && id' == b[n + 2..n + 2 + |id'|];
    assert payload == a[n + 2 + |id|..] && payload' == b[n + 2 + |id'|..];
  }

  /** From 65535 bytes on the length is the same for every ID, so a byte can move over. */
  lemma LongIdsShift(domain: seq<Byte>, id: seq<Byte>, moved: seq<Byte>, payload: seq<Byte>)
    requires |id| >= U16_MAX
    ensures SignatureInput(domain, id, moved + payload) == SignatureInput(domain, id + moved, payload)
  {
    assert id + (moved + payload) == (id + moved) + payload;
  }

  // ----- Verification

  /** The first of three checks to fail gives the reason; the lifetime is the last. */
  ghost function Verified(p: Profile, s: Signed, now: Option<nat>): Result<()>
    requires ValidProfile(p) && WellFormedSigned(p, s)
  {
    var structure := Validate(p, s.capsule, None);
    if structure.Err? then structure
    else if !p.verifies(s.capsule.key, SignatureInput(p.domain, p.applicationId, Payload(p, s.capsule)), s.signature)
    then Err(InvalidSignature)
    else Validate(p, s.capsule, now)
  }

  method Verify(p: Profile, s: Signed, now: Option<nat>) returns (r: Result<()>)
    requires ValidProfile(p) && WellFormedSigned(p, s)
    ensures r == Verified(p, s, now)
  {
    hide Validate, Payload, WellFormed, SignatureInput;
    var payload := CanonicalPayload(p, s.capsule);
    if payload.Err? {
      return Err(payload.error);
    }
    var input := BuildSignatureInput(p.domain, p.applicationId, payload.value);
    r := if !p.verifies(s.capsule.key, input, s.signature) then Err(InvalidSignature) else Validate(p, s.capsule, now);
  }

  /** A forgery is reported as one even when it has expired, and an invite whose signature holds
      is refused for its lifetime exactly when it has expired. */
  lemma ExpiryComesLast(p: Profile, s: Signed, now: Option<nat>)
    requires ValidProfile(p) && WellFormedSigned(p, s)
    ensures Verified(p, s, now) == Err(Expired)
            <==> Verified(p, s, None).Ok? && now.Some? && IsExpired(s.capsule, now.value)
    ensures Verified(p, s, None).Err? ==> Verified(p, s, now) == Verified(p, s, None)
  {
    hide Payload, SignatureInput, IsExpired;
    Invite.StructureNeverExpires(s.capsule.locators, 0, p);
  }

  /** An invite verifies when its protocol range and locators are valid, its signature is the node's for
      exactly its payload, application and domain, and it has not expired. */
  lemma VerifiedMeans(p: Profile, s: Signed, now: Option<nat>)
    requires ValidProfile(p) && WellFormedSigned(p, s)
    ensures var valid := && 1 <= s.capsule.protocolMin <= s.capsule.protocolMax
                         && ValidateSet(s.capsule.locators, p.kinds, p.goodOnion).Ok?;
            var signed := p.verifies(s.capsule.key, SignatureInput(p.domain, p.applicationId, Payload(p, s.capsule)),
                                     s.signature);
            var expired := now.Some? && s.capsule.expiresAt.Some? && s.capsule.expiresAt.value <= now.value;
            && (Verified(p, s, now).Ok? <==> valid && signed && !expired)
            && (valid && !signed ==> Verified(p, s, now) == Err(InvalidSignature))
            && (valid && signed && expired ==> Verified(p, s, now) == Err(Expired))
  {
    hide Payload, SignatureInput, Validate, ValidateSet;
    ValidateMeans(p, s.capsule, None);
    ValidateMeans(p, s.capsule, now);
  }

  lemma VerifiedInTime(p: Profile, s: Signed, now: Option<nat>)
    requires ValidProfile(p) && WellFormedSigned(p, s)
    ensures var expired := now.Some? && s.capsule.expiresAt.Some? && s.capsule.expiresAt.value <= now.value;
            && (Verified(p, s, now).Ok? ==> !expired)
            && (Verified(p, s, None).Ok? && expired ==> Verified(p, s, now) == Err(Expired))
  {
    hide Payload, SignatureInput, Validate;
    ValidateMeans(p, s.capsule, now);
  }

  // ----- The binary form

  ghost function Envelope(payload: seq<Byte>, signature: seq<Byte>): seq<Byte>
    requires Fits(payload) && Fits(signature)
  {
    EncodeArray(SIGNED_FIELDS) + (EncodeBytes(payload) + EncodeBytes(signature))
  }

  ghost function Binary(p: Profile, s: Signed): seq<Byte>
    requires ValidProfile(p) && WellFormedSigned(p, s) && Fits(Payload(p, s.capsule))
  {
    Envelope(Payload(p, s.capsule), s.signature)
  }

  /** The bytes of a signed invite that is structurally valid and small enough to be sent. */
  ghost predicate Encodes(p: Profile, s: Signed, binary: seq<Byte>)
    requires ValidProfile(p)
  {
    && WellFormedSigned(p, s) && Validate(p, s.capsule, None).Ok?
    && Fits(Payload(p, s.capsule)) && binary == Binary(p, s) && |binary| <= MAX_BINARY_INVITE_BYTES
  }

  /** An envelope is an array of two byte strings: the payload and the 64 bytes of the signature. */
  lemma EnvelopeFormat(payload: seq<Byte>, signature: seq<Byte>)
    requires Fits(payload) && |signature| == 64
    ensures Envelope(payload, signature) == [0x82] + (EncodeBytes(payload) + ([0x58, 64] + signature))
  {
    HeadFormat(4, 2);
    HeadFormat(2, 64);
    hide Head;
  }

  method CanonicalBinary(p: Profile, s: Signed) returns (r: Result<seq<Byte>>)
    requires ValidProfile(p) && WellFormedSigned(p, s) && Fits(Payload(p, s.capsule))
    ensures r == if Validate(p, s.capsule, None).Err? then Err(Validate(p, s.capsule, None).error)
                 else if |Binary(p, s)| > MAX_BINARY_INVITE_BYTES then Err(TooLarge)
                 else Ok(Binary(p, s))
  {
    hide Validate, Payload, WellFormed, EncodeArray, EncodeBytes;
    var payload := CanonicalPayload(p, s.capsule);
    if payload.Err? {
      return Err(payload.error);
    }
    var e := new Encoder();
    e.Array(SIGNED_FIELDS);
    e.Bytes(payload.value);
    e.Bytes(s.signature);
    assert e.output == Binary(p, s);
    r := if |e.output| > MAX_BINARY_INVITE_BYTES then Err(TooLarge) else Ok(e.output);
  }

  lemma EnvelopeAt(input: seq<Byte>, payload: seq<Byte>, signature: seq<Byte>)
    requires Fits(payload) && Fits(signature)
    ensures var o1 := |EncodeArray(SIGNED_FIELDS)|;
            var o2 := o1 + |EncodeBytes(payload)|;
            input == Envelope(payload, signature) <==>
            && At(input, 0, EncodeArray(SIGNED_FIELDS)) && At(input, o1, EncodeBytes(payload))
            && At(input, o2, EncodeBytes(signature)) && |input| == o2 + |EncodeBytes(signature)|
  {
    hide At, EncodeArray, EncodeBytes;
    WholeInput(input, Envelope(payload, signature));
    AtConcat(input, 0, EncodeArray(SIGNED_FIELDS), EncodeBytes(payload) + EncodeBytes(signature));
    AtConcat(input, |EncodeArray(SIGNED_FIELDS)|, EncodeBytes(payload), EncodeBytes(signature));
  }

  lemma PayloadFits(payload: seq<Byte>, signature: seq<Byte>)
    requires Fits(payload) && Fits(signature)
    ensures |payload| <= |Envelope(payload, signature)|
  {
  }

  /** Takes the two byte strings out of a binary invite. */
  method OpenEnvelope(binary: seq<Byte>) returns (r: Result<(seq<Byte>, seq<Byte>)>)
    requires |binary| <= MAX_BINARY_INVITE_BYTES
    ensures r.Ok? ==> Fits(r.value.0) && |r.value.1| == SIGNATURE_BYTES && binary == Envelope(r.value.0, r.value.1)
    ensures forall payload: seq<Byte>, signature: seq<Byte> ::
              Fits(payload) && |signature| == SIGNATURE_BYTES && binary == Envelope(payload, signature)
              ==> r == Ok((payload, signature))
  {
    hide At, EncodeArray, EncodeBytes, Envelope;
    forall payload: seq<Byte>, signature: seq<Byte> |
      Fits(payload) && |signature| == SIGNATURE_BYTES && binary == Envelope(payload, signature)
      ensures var o1 := |EncodeArray(SIGNED_FIELDS)|;
              var o2 := o1 + |EncodeBytes(payload)|;
              && At(binary, 0, EncodeArray(SIGNED_FIELDS)) && At(binary, o1, EncodeBytes(payload))
              && At(binary, o2, EncodeBytes(signature)) && |binary| == o2 + |EncodeBytes(signature)|
              && |payload| <= |binary|
    {
      EnvelopeAt(binary, payload, signature);
      PayloadFits(payload, signature);
    }
    var d := new Decoder(binary);
    var fields := d.Array(SIGNED_FIELDS);
    if fields.Err? {
      return Err(fields.error);
    }
    var payload := d.Bytes(MAX_BINARY_INVITE_BYTES);
    if payload.Err? {
      return Err(payload.error);
    }
    var signature := d.Bytes(SIGNATURE_BYTES);
    if signature.Err? {
      return Err(signature.error);
    }
    if |signature.value| != SIGNATURE_BYTES {
      return Err(Invalid);
    }
    EnvelopeAt(binary, payload.value, signature.value);
    var finished := d.Finish();
    r := if finished.Err? then Err(finished.error) else Ok((payload.value, signature.value));
  }

  /** Decoding accepts exactly the canonical bytes of a signed invite that verifies at `now`, and
      returns that invite; bytes of a structurally valid invite that does not verify are refused
      with the reason verification gives. */
  method Decode(binary: seq<Byte>, p: Profile, now: Option<nat>) returns (r: Result<Signed>)
    requires ValidProfile(p)
    ensures r.Ok? ==> Encodes(p, r.value, binary) && Verified(p, r.value, now).Ok?
    ensures forall s: Signed :: Encodes(p, s, binary)
              ==> r == if Verified(p, s, now).Ok? then Ok(s) else Err(Verified(p, s, now).error)
    ensures binary == [] || |binary| > 1024 ==> r == Err(TooLarge)
    ensures r.Ok? && now.Some? ==> r.value.capsule.expiresAt.None? || now.value < r.value.capsule.expiresAt.value
    ensures forall s: Signed :: Encodes(p, s, binary) && Verified(p, s, None).Ok? && now.Some?
              && s.capsule.expiresAt.Some? && s.capsule.expiresAt.value <= now.value
              ==> r == Err(Expired)
  {
    assert |EncodeArray(SIGNED_FIELDS)| >= 1;
    hide Payload, WellFormed, Validate, Verified, EncodeArray, EncodeBytes;
    if binary == [] || |binary| > MAX_BINARY_INVITE_BYTES {
      return Err(TooLarge);
    }
    var parts := OpenEnvelope(binary);
    if parts.Err? {
      return Err(parts.error);
    }
    forall s: Signed | Encodes(p, s, binary)
      ensures parts.value == (Payload(p, s.capsule), s.signature) && Decodes(p, parts.value.0, s.capsule)
    {
    }
    hide Envelope;
    var capsule, _ := DecodePayload(parts.value.0, p);
    if capsule.Err? {
      return Err(capsule.error);
    }
    var signed := Signed(capsule.value, parts.value.1);
    forall s: Signed | Encodes(p, s, binary) ensures s == signed {
    }
    VerifiedInTime(p, signed, now);
    var verified := Verify(p, signed, now);
    if verified.Err? {
      return Err(verified.error);
    }
    var again := CanonicalBinary(p, signed);
    r := match again
         case Err(error) => Err(error)
         case Ok(bytes) => if bytes != binary then Err(Invalid) else Ok(signed);
  }

  /** Every invite that verifies at `now` and is small enough survives encoding and decoding. */
  method RoundTrip(p: Profile, s: Signed, now: Option<nat>) returns (r: Result<Signed>)
    requires ValidProfile(p) && WellFormedSigned(p, s) && Fits(Payload(p, s.capsule))
    requires Verified(p, s, now).Ok? && |Binary(p, s)| <= MAX_BINARY_INVITE_BYTES
    ensures r == Ok(s)
  {
    hide Payload, WellFormed, Binary, SignatureInput;
    var binary := CanonicalBinary(p, s);
    assert Encodes(p, s, binary.value);
    r := Decode(binary.value, p, now);
  }
}
