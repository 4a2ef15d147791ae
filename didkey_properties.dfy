/** What the did:key codec promises across its operations: the grammar checks
    and their order, building then parsing an identifier, and packing then
    reading a signature. */
module DidKeyProperties {
  import opened Wrappers
  import opened Positional
  import opened GoStrings
  import opened Multicodec
  import opened Codecs
  import opened Ecdsa
  import opened DidKey

  // ---------------------------------------------------------------------------
  // The grammar

  /** Every input with exactly two colons is three colon-free segments, so
      DidKey.ParseSegments covers every input that gets past the format check. */
  lemma TwoColonsAreThreeSegments(did: string)
    requires multiset(did)[':'] == 2
    ensures did == Split(did, ':')[0] + [':'] + Split(did, ':')[1] + [':'] + Split(did, ':')[2]
    ensures forall i :: 0 <= i < 3 ==> ':' !in Split(did, ':')[i]
  {
    JoinSplit(did, ':');
    JoinOfThree(Split(did, ':'), ':');
  }

  /** Only the text after "did:key:z" reaches base58 decoding. */
  lemma OnlyTailIsDecoded(c: Codecs, t: string)
    requires ':' !in t
    ensures DecodeKeyBytes(c, DIDPrefix + t) == UnwrapKey(c.parseMulticodec(c.base58Decode(t)))
  {
    ParseCanonical(t);
  }

  /** A grammar error is what the caller of NewDIDKeyFromDID gets. */
  lemma GrammarErrorReturned(c: Codecs, ops: CurveOps, did: string)
    ensures ParseIdentifier(did).Failure? ==> NewDIDKeyFromDID(c, ops, did) == Failure(ParseIdentifier(did).error)
  {
  }

  /** Sign on a parsed key reports the missing private key. */
  method SignParsed(c: Codecs, ops: CurveOps, did: string, digest: Digest, signer: Result<Signature, string>)
    returns (result: Result<seq<byte>, SignError>)
    requires NewDIDKeyFromDID(c, ops, did).Success?
    requires signer.Success? ==> Fits(signer.value)
    ensures result == Failure(PrivateKeyNotFound)
  {
    result := Sign(NewDIDKeyFromDID(c, ops, did).value, digest, signer);
  }

  // ---------------------------------------------------------------------------
  // Building then parsing

  /** The base58 text DID() puts after the prefix. */
  function Encoded(c: Codecs, p: Point): string
    requires p.x < Pow(256, FieldBytes)
  {
    c.base58Encode(c.encodeMulticodec(P256Pub, MarshalCompressed(p)))
  }

  /** Parsing DID() recovers the 33 compressed bytes it encoded. */
  lemma DIDKeyBytesRoundTrip(c: Codecs, key: DIDKey)
    requires CodecLaws(c)
    requires key.publicKey.point.Some? && key.publicKey.point.value.x < Pow(256, FieldBytes)
    ensures DecodeKeyBytes(c, DID(c, key)) == Success(MarshalCompressed(key.publicKey.point.value))
  {
    var bytes := MarshalCompressed(key.publicKey.point.value);
    OnlyTailIsDecoded(c, Encoded(c, key.publicKey.point.value));
    assert c.parseMulticodec(c.encodeMulticodec(P256Pub, bytes)) == Success(Envelope(P256Pub, Some(bytes)));
  }

  /** For a point on the curve, parsing DID() gives the public key back, on
      P-256 and without a private key. */
  lemma DIDRoundTrip(c: Codecs, ops: CurveOps, key: DIDKey)
    requires CodecLaws(c) && CurveLaws(ops)
    requires key.publicKey.point.Some? && ops.isOnCurve(key.publicKey.point.value)
    ensures NewDIDKeyFromDID(c, ops, DID(c, key)) ==
      Success(DIDKey(PublicKey(P256, key.publicKey.point), None))
  {
    DIDKeyBytesRoundTrip(c, key);
  }

  /** A key built from a scalar whose public point is on the curve survives
      DID() and parsing with its public key intact and its private key gone. */
  lemma PrivateKeyRoundTrip(c: Codecs, ops: CurveOps, privateKey: seq<byte>)
    requires CodecLaws(c) && CurveLaws(ops)
    requires ops.isOnCurve(ops.scalarBaseMult(privateKey))
    ensures NewDIDKeyFromDID(c, ops, DID(c, NewDIDKeyFromPrivateKey(ops, privateKey).value)) ==
      Success(DIDKey(NewDIDKeyFromPrivateKey(ops, privateKey).value.publicKey, None))
  {
    DIDRoundTrip(c, ops, NewDIDKeyFromPrivateKey(ops, privateKey).value);
  }

  /** The identifier of an envelope reaches the envelope checks with exactly
      the code and payload it was built from. */
  lemma EnvelopeReachesChecks(c: Codecs, code: nat, payload: seq<byte>)
    requires CodecLaws(c) && |payload| > 0
    ensures DecodeKeyBytes(c, DIDPrefix + c.base58Encode(c.encodeMulticodec(code, payload))) ==
      UnwrapKey(Success(Envelope(code, Some(payload))))
  {
    var envelope := c.encodeMulticodec(code, payload);
    OnlyTailIsDecoded(c, c.base58Encode(envelope));
    assert c.base58Decode(c.base58Encode(envelope)) == envelope;
  }

  /** The identifier of any envelope other than a P-256 key is rejected for
      its code. */
  lemma UnsupportedCodeRejected(c: Codecs, ops: CurveOps, code: nat, payload: seq<byte>)
    requires CodecLaws(c) && code != P256Pub && |payload| > 0
    ensures NewDIDKeyFromDID(c, ops, DIDPrefix + c.base58Encode(c.encodeMulticodec(code, payload))) ==
      Failure(UnsupportedCode(code))
  {
    EnvelopeReachesChecks(c, code, payload);
  }

  /** The identifier of a P-256 envelope whose payload is not 33 bytes is
      rejected for its length. */
  lemma WrongLengthRejected(c: Codecs, ops: CurveOps, payload: seq<byte>)
    requires CodecLaws(c) && |payload| > 0 && |payload| != CompressedBytes
    ensures NewDIDKeyFromDID(c, ops, DIDPrefix + c.base58Encode(c.encodeMulticodec(P256Pub, payload))) ==
      Failure(InvalidKeyLength)
  {
    EnvelopeReachesChecks(c, P256Pub, payload);
  }

  // ---------------------------------------------------------------------------
  // Signatures

  /** The 64 bytes hold r in the first half and s in the second, and reading
      the halves back as numbers recovers them. */
  lemma SignatureLayout(sig: Signature)
    requires Fits(sig)
    ensures SignatureBytes(sig)[..FieldBytes] == Fixed(sig.r, 256, FieldBytes)
    ensures SignatureBytes(sig)[FieldBytes..] == Fixed(sig.s, 256, FieldBytes)
    ensures Value(SignatureBytes(sig)[..FieldBytes], 256) == sig.r
    ensures Value(SignatureBytes(sig)[FieldBytes..], 256) == sig.s
  {
    ValueOfFixed(sig.r, 256, FieldBytes);
    ValueOfFixed(sig.s, 256, FieldBytes);
  }

  /** Verify on the bytes Sign produces hands the ECDSA check the very r and
      s that were signed, and refuses any curve but P-256. */
  lemma VerifySigned(ops: CurveOps, key: DIDKey, digest: Digest, sig: Signature)
    requires Fits(sig)
    ensures Verify(ops, key, digest, SignatureBytes(sig)) ==
      (key.publicKey.curve == P256 && ops.verify(key.publicKey, digest, sig.r, sig.s))
  {
    SignatureLayout(sig);
  }
}
