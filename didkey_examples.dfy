/** Worked identifiers: which check rejects each malformed input, and what the
    standard codecs make of text that is not base58btc. */
module DidKeyExamples {
  import opened Wrappers
  import opened Positional
  import opened Multicodec
  import opened Codecs
  import opened Ecdsa
  import opened DidKey
  import opened DidKeyProperties
  import Base58

  lemma WrongScheme(did: string)
    requires did == "notadid:key:zABC"
    ensures ParseIdentifier(did) == Failure(InvalidScheme)
  {
    var scheme, kind, t := "notadid", "key", "zABC";
    assert did == scheme + [':'] + kind + [':'] + t;
    ParseSegments(scheme, kind, t);
  }

  lemma WrongSchemeReturned(c: Codecs, ops: CurveOps, did: string)
    requires did == "notadid:key:zABC"
    ensures NewDIDKeyFromDID(c, ops, did) == Failure(InvalidScheme)
  {
    WrongScheme(did);
    GrammarErrorReturned(c, ops, did);
  }

  lemma WrongMethod(did: string)
    requires did == "did:notkey:zABC"
    ensures ParseIdentifier(did) == Failure(InvalidMethod)
  {
    var scheme, kind, t := "did", "notkey", "zABC";
    assert did == scheme + [':'] + kind + [':'] + t;
    ParseSegments(scheme, kind, t);
  }

  lemma WrongMethodReturned(c: Codecs, ops: CurveOps, did: string)
    requires did == "did:notkey:zABC"
    ensures NewDIDKeyFromDID(c, ops, did) == Failure(InvalidMethod)
  {
    WrongMethod(did);
    GrammarErrorReturned(c, ops, did);
  }

  lemma EmptyId(did: string)
    requires did == "did:key:"
    ensures ParseIdentifier(did) == Failure(EmptyKey)
  {
    var scheme, kind, t := "did", "key", "";
    assert did == scheme + [':'] + kind + [':'] + t;
    ParseSegments(scheme, kind, t);
  }

  lemma EmptyIdReturned(c: Codecs, ops: CurveOps, did: string)
    requires did == "did:key:"
    ensures NewDIDKeyFromDID(c, ops, did) == Failure(EmptyKey)
  {
    EmptyId(did);
    GrammarErrorReturned(c, ops, did);
  }

  lemma NoMultibasePrefix(did: string)
    requires did == "did:key:ABC"
    ensures ParseIdentifier(did) == Failure(MissingZPrefix)
  {
    var scheme, kind, t := "did", "key", "ABC";
    assert t[0] == 'A';
    assert did == scheme + [':'] + kind + [':'] + t;
    ParseSegments(scheme, kind, t);
  }

  lemma NoMultibasePrefixReturned(c: Codecs, ops: CurveOps, did: string)
    requires did == "did:key:ABC"
    ensures NewDIDKeyFromDID(c, ops, did) == Failure(MissingZPrefix)
  {
    NoMultibasePrefix(did);
    GrammarErrorReturned(c, ops, did);
  }

  /** A character outside the alphabet is not reported by a check of its own:
      base58 decoding yields no bytes and the envelope parse rejects them. */
  lemma NotBase58(ops: CurveOps, did: string)
    requires did == "did:key:z!!!invalid!!!"
    ensures NewDIDKeyFromDID(Standard(), ops, did) ==
      Failure(EnvelopeError(MulticodecError("truncated varint")))
  {
    var t := "!!!invalid!!!";
    assert did == DIDPrefix + t;
    assert Base58.CharDigit(t[0]) == None;
    assert Base58.DigitsOf(t) == None;
    assert Parse([]) == Failure(MulticodecError("truncated varint"));
    OnlyTailIsDecoded(Standard(), t);
  }

  /** With the varint envelope, every P-256 identifier encodes the 35 bytes
      0x80 0x24, then the compressed point. */
  lemma StandardEnvelopeLayout(p: Point)
    requires p.x < Pow(256, FieldBytes)
    ensures Standard().encodeMulticodec(P256Pub, MarshalCompressed(p)) == [0x80, 0x24] + MarshalCompressed(p)
    ensures |Standard().encodeMulticodec(P256Pub, MarshalCompressed(p))| == 35
  {
    P256PubTag();
  }
}
