/** DSSE signing of interchange output: the pre-authentication encoding, the
    envelope, and the consumer-side verification it must satisfy. */
module Dsse {
  import opened Bytes
  import opened Text
  import opened Verdicts
  import B64 = Base64

  const SPACE: Byte := 32

  function LengthField(n: nat): seq<Byte> {
    DecimalIsAscii(n);
    Ascii(Decimal(n))
  }

  lemma DecimalIsAscii(n: nat)
    ensures IsAscii(Decimal(n))
  {
  }

  /** `DSSEv1 <len(type)> <type> <len(payload)> <payload>` */
  function Pae(payloadType: seq<Byte>, payload: seq<Byte>): seq<Byte> {
    Ascii("DSSEv1 ") + LengthField(|payloadType|) + [SPACE] + payloadType + [SPACE]
    + LengthField(|payload|) + [SPACE] + payload
  }

  method DssePae(payloadType: seq<Byte>, payload: seq<Byte>) returns (out: seq<Byte>)
    ensures out == Pae(payloadType, payload)
  {
    out := [];
    out := out + Ascii("DSSEv1 ");
    out := out + LengthField(|payloadType|);
    out := out + [SPACE];
    out := out + payloadType;
    out := out + [SPACE];
    out := out + LengthField(|payload|);
    out := out + [SPACE];
    out := out + payload;
  }

  lemma LengthFieldHasNoSpace(n: nat)
    ensures SPACE !in LengthField(n)
  {
    var s := Decimal(n);
    DecimalIsAscii(n);
    forall i | 0 <= i < |s| ensures LengthField(n)[i] != SPACE {
      assert '0' <= s[i];
    }
  }

  lemma LengthFieldInjective(m: nat, n: nat)
    requires LengthField(m) == LengthField(n)
    ensures m == n
  {
    DecimalIsAscii(m);
    DecimalIsAscii(n);
    AsciiInjective(Decimal(m), Decimal(n));
    DecimalInjective(m, n);
  }

  /** A decimal length, a space, and the rest. */
  function Sized(b: seq<Byte>, rest: seq<Byte>): seq<Byte> {
    LengthField(|b|) + [SPACE] + (b + rest)
  }

  lemma SizedInjective(a: seq<Byte>, r: seq<Byte>, b: seq<Byte>, t: seq<Byte>)
    requires Sized(a, r) == Sized(b, t)
    ensures a == b && r == t
  {
    LengthFieldHasNoSpace(|a|);
    LengthFieldHasNoSpace(|b|);
    SplitAtFirst(LengthField(|a|), a + r, LengthField(|b|), b + t, SPACE);
    LengthFieldInjective(|a|, |b|);
    assert a == (a + r)[..|a|] && b == (b + t)[..|a|];
    assert r == (a + r)[|a|..] && t == (b + t)[|a|..];
  }

  lemma PaeShape(payloadType: seq<Byte>, payload: seq<Byte>)
    ensures Pae(payloadType, payload) == Ascii("DSSEv1 ") + Sized(payloadType, [SPACE] + Sized(payload, []))
  {
    var (h, l, m) := (Ascii("DSSEv1 "), LengthField(|payloadType|), LengthField(|payload|));
    assert payload + [] == payload;
    assert h + l + [SPACE] + payloadType + [SPACE] + m + [SPACE] + payload
        == h + (l + [SPACE] + (payloadType + ([SPACE] + (m + [SPACE] + payload))));
  }

  /** No two (type, payload) pairs are signed as the same bytes. */
  lemma PaeInjective(type1: seq<Byte>, payload1: seq<Byte>, type2: seq<Byte>, payload2: seq<Byte>)
    ensures Pae(type1, payload1) == Pae(type2, payload2) <==> type1 == type2 && payload1 == payload2
  {
    if Pae(type1, payload1) == Pae(type2, payload2) {
      PaeShape(type1, payload1);
      PaeShape(type2, payload2);
      var h := Ascii("DSSEv1 ");
      var (s1, s2) := (Sized(type1, [SPACE] + Sized(payload1, [])), Sized(type2, [SPACE] + Sized(payload2, [])));
      assert s1 == (h + s1)[7..] && s2 == (h + s2)[7..];
      SizedInjective(type1, [SPACE] + Sized(payload1, []), type2, [SPACE] + Sized(payload2, []));
      assert ([SPACE] + Sized(payload1, []))[1..] == Sized(payload1, []);
      assert ([SPACE] + Sized(payload2, []))[1..] == Sized(payload2, []);
      SizedInjective(payload1, [], payload2, []);
    }
  }

  // ------------------------------------------------------------------
  // Envelopes
  // ------------------------------------------------------------------

  datatype Signature = Signature(sig: seq<Byte>, keyid: string)

  /** The fields of the serialised envelope, with its single signature. */
  datatype Envelope = Envelope(payload: string, payloadType: seq<Byte>, keyid: string, sig: string)

  /** A signing identity; `None` is a signing failure. */
  type Signer = seq<Byte> -> Option<Signature>
  /** The public-key check of a 64-byte signature over a message. */
  type Verifier = (seq<Byte>, seq<Byte>) -> bool

  function SignInterchange(payload: seq<Byte>, payloadType: seq<Byte>, sign: Signer): Option<Envelope> {
    match sign(Pae(payloadType, payload))
    case None => None
    case Some(s) => Some(Envelope(B64.Encode(payload), payloadType, s.keyid, B64.Encode(s.sig)))
  }

  /** What a consumer does: rebuild the message from the envelope and check it. */
  predicate VerifyEnvelope(e: Envelope, verify: Verifier) {
    match (B64.Decode(e.payload), B64.Decode(e.sig))
    case (Some(payload), Some(sig)) => |sig| == 64 && verify(Pae(e.payloadType, payload), sig)
    case _ => false
  }

  ghost predicate Correct(sign: Signer, verify: Verifier) {
    forall m :: sign(m).Some? ==> |sign(m).value.sig| == 64 && verify(m, sign(m).value.sig)
  }

  /** Signing fails only when the signer does; otherwise the envelope carries the
      payload and verifies, for every payload and type. */
  lemma SignedEnvelopeVerifies(payload: seq<Byte>, payloadType: seq<Byte>, sign: Signer, verify: Verifier)
    requires Correct(sign, verify)
    ensures SignInterchange(payload, payloadType, sign).None? <==> sign(Pae(payloadType, payload)).None?
    ensures SignInterchange(payload, payloadType, sign).Some? ==>
              var e := SignInterchange(payload, payloadType, sign).value;
              B64.Decode(e.payload) == Some(payload) && e.payloadType == payloadType && VerifyEnvelope(e, verify)
  {
    var m := Pae(payloadType, payload);
    B64.DecodeEncode(payload);
    if sign(m).Some? {
      B64.DecodeEncode(sign(m).value.sig);
    }
  }

  /** An envelope accepted with the same signature but another payload or type is a
      signature over a different message; so if a signature fits one message only,
      nothing but the original fields is accepted. */
  lemma TamperedEnvelopeIsAnotherMessage(
      payload: seq<Byte>, payloadType: seq<Byte>, sign: Signer, verify: Verifier, e: Envelope)
    requires Correct(sign, verify) && SignInterchange(payload, payloadType, sign).Some?
    requires e.sig == SignInterchange(payload, payloadType, sign).value.sig && VerifyEnvelope(e, verify)
    ensures var sig := sign(Pae(payloadType, payload)).value.sig;
            var payload' := B64.Decode(e.payload).value;
            && verify(Pae(e.payloadType, payload'), sig)
            && (Pae(e.payloadType, payload') != Pae(payloadType, payload)
                <==> (e.payload, e.payloadType) != (B64.Encode(payload), payloadType))
  {
    B64.DecodeEncode(sign(Pae(payloadType, payload)).value.sig);
    var payload' := B64.Decode(e.payload).value;
    B64.DecodeIsInverse(e.payload, payload');
    B64.DecodeIsInverse(e.payload, payload);
    PaeInjective(e.payloadType, payload', payloadType, payload);
  }

  // ------------------------------------------------------------------
  // Key identifiers
  // ------------------------------------------------------------------

  /** Lower-case hex of the hash of the raw public key. */
  method Ed25519KeyId(sha256: seq<Byte> -> seq<Byte>, publicKey: seq<Byte>) returns (id: string)
    ensures id == Hex(sha256(publicKey))
  {
    var digest := sha256(publicKey);
    id := "";
    for i := 0 to |digest|
      invariant id + Hex(digest[i..]) == Hex(digest)
    {
      assert digest[i..][1..] == digest[i + 1..];
      var two := [HexDigit(digest[i] / 16), HexDigit(digest[i] % 16)];
      assert (id + two) + Hex(digest[i + 1..]) == id + (two + Hex(digest[i + 1..]));
      id := id + two;
    }
    assert id + "" == id;
  }
}
