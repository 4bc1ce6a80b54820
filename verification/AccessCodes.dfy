/** The codes that enroll a device, as the server, the invite and the client check them. */
module AccessCodes {
  import opened Arithmetic

  const ACCESS_CODE_BYTES := 32

  predicate IsAlphanumeric(b: Byte) {
    0x30 <= b <= 0x39 || 0x41 <= b <= 0x5a || 0x61 <= b <= 0x7a
  }

  predicate IsAccessCode(code: seq<Byte>) {
    |code| == ACCESS_CODE_BYTES && forall i :: 0 <= i < |code| ==> IsAlphanumeric(code[i])
  }

  /** A code is 32 letters and digits of ASCII. */
  lemma AccessCodeMeans(code: seq<Byte>)
    ensures IsAccessCode(code) <==>
            && |code| == 32
            && forall i :: 0 <= i < |code| ==>
                 var c := code[i] as char; '0' <= c <= '9' || 'A' <= c <= 'Z' || 'a' <= c <= 'z'
  {
  }
}
