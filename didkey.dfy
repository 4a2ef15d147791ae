/** The did:key codec for P-256 keys: parsing an identifier into a public key,
    building the identifier of a key, and the fixed-width r||s signature
    format used by signing and verification. */
module DidKey {
  import opened Wrappers
  import opened Positional
  import opened GoStrings
  import opened Multicodec
  import opened Codecs
  import opened Ecdsa

  /** A SHA-256-sized digest ([32]byte). */
  type Digest = d: seq<byte> | |d| == 32 witness seq(32, _ => 0)

  /** A public key and, for a key built from a scalar, the private key. */
  datatype DIDKey = DIDKey(publicKey: PublicKey, privateKey: Option<PrivateKey>)

  /** One constructor per error return of NewDIDKeyFromDID. */
  datatype DIDError =
    | InvalidFormat                       // not exactly three ':'-separated segments
    | InvalidScheme                       // first segment is not "did"
    | InvalidMethod                       // second segment is not "key"
    | EmptyKey                            // third segment is empty
    | MissingZPrefix                      // third segment does not start with 'z'
    | EnvelopeError(cause: MulticodecError) // ParseMulticodec failed; its error is passed on
    | UnsupportedCode(code: nat)          // the envelope does not hold a P-256 public key
    | NilPayload                          // the envelope payload is nil
    | InvalidKeyLength                    // the payload is not 33 bytes

  /** The error returns of Sign. */
  datatype SignError = PrivateKeyNotFound | CurveNotP256 | SignerFailed(cause: string)

  /** What every did:key identifier for a base58btc key starts with. */
  const DIDPrefix: string := "did:key:z"

  /** Bytes of a compressed P-256 point. */
  const CompressedBytes: nat := 33

  /** curveByteSize in Sign and Verify: BitSize/8, plus one when (BitSize/8)%8 > 0. */
  function CurveByteSize(bitSize: nat): (n: nat)
    ensures bitSize % 64 == 0 ==> n * 8 == bitSize
  {
    var n := bitSize / 8;
    WholeBytes(bitSize);
    if n % 8 > 0 then n + 1 else n
  }

  /** A multiple of 64 bits is a whole number of 8-byte words. */
  lemma WholeBytes(bitSize: nat)
    ensures bitSize % 64 == 0 ==> (bitSize / 8) % 8 == 0 && (bitSize / 8) * 8 == bitSize
  {
    if bitSize % 64 == 0 {
      var k := bitSize / 64;
      assert bitSize == 64 * k;
      assert bitSize / 8 == 8 * k;
    }
  }

  // ---------------------------------------------------------------------------
  // Parsing an identifier

  /** The grammar checks of NewDIDKeyFromDID, in the order the code makes them;
      on success, the method-specific id without its leading 'z'. */
  function ParseIdentifier(did: string): (r: Result<string, DIDError>)
    ensures r == Failure(InvalidFormat) <==> multiset(did)[':'] != 2
    ensures r.Success? ==> did == DIDPrefix + r.value && ':' !in r.value
  {
    var parts := Split(did, ':');
    if |parts| != 3 then Failure(InvalidFormat)
    else if parts[0] != "did" then Failure(InvalidScheme)
    else if parts[1] != "key" then Failure(InvalidMethod)
    else if parts[2] == "" then Failure(EmptyKey)
    else if parts[2][0] != 'z' then Failure(MissingZPrefix)
    else
      var id := parts[2][1..];
      assert parts[2] == "z" + id;
      assert parts == ["did", "key", parts[2]];
      IdentifierShape(did, id);
      Success(id)
  }

  /** An identifier that passes the grammar checks is the prefix followed by
      the colon-free id. */
  lemma IdentifierShape(did: string, id: string)
    requires Split(did, ':') == ["did", "key", "z" + id]
    ensures did == DIDPrefix + id && ':' !in id
  {
    assert did == Join(["did", "key", "z" + id], ':') by { JoinSplit(did, ':'); }
    JoinedPrefix(id);
    var tail := Split(did, ':')[2];
    assert ':' !in tail;
    assert tail[1..] == id;
  }

  /** Joining the three grammar segments spells out the prefix. */
  lemma JoinedPrefix(id: string)
    ensures Join(["did", "key", "z" + id], ':') == DIDPrefix + id
  {
    JoinThree("did", "key", "z" + id, ':');
    assert DIDPrefix == "did" + [':'] + "key" + [':'] + "z";
  }

  /** For three colon-free segments the checks run in order: scheme, method,
      empty id, missing 'z'; an identifier passing all four yields the id
      after the 'z'. */
  lemma ParseSegments(a: string, b: string, t: string)
    requires ':' !in a && ':' !in b && ':' !in t
    ensures ParseIdentifier(a + [':'] + b + [':'] + t) ==
      if a != "did" then Failure(InvalidScheme)
      else if b != "key" then Failure(InvalidMethod)
      else if t == "" then Failure(EmptyKey)
      else if t[0] != 'z' then Failure(MissingZPrefix)
      else Success(t[1..])
  {
    JoinThree(a, b, t, ':');
    SplitJoin([a, b, t], ':');
  }

  /** The prefix followed by any colon-free text parses to that text. */
  lemma ParseCanonical(t: string)
    requires ':' !in t
    ensures ParseIdentifier(DIDPrefix + t) == Success(t)
  {
    ParseSegments("did", "key", "z" + t);
    JoinedPrefix(t);
    assert ("z" + t)[1..] == t;
  }

  /** The envelope checks of NewDIDKeyFromDID, in order; on success, the
      33-byte compressed point. */
  function UnwrapKey(envelope: Result<Envelope, MulticodecError>): (r: Result<seq<byte>, DIDError>)
    ensures envelope.Failure? ==> r == Failure(EnvelopeError(envelope.error))
    ensures envelope.Success? && envelope.value.code != P256Pub ==>
      r == Failure(UnsupportedCode(envelope.value.code))
    ensures envelope == Success(Envelope(P256Pub, None)) ==> r == Failure(NilPayload)
    ensures envelope.Success? && envelope.value.code == P256Pub && envelope.value.payload.Some? ==>
      r == if |envelope.value.payload.value| == CompressedBytes then Success(envelope.value.payload.value)
           else Failure(InvalidKeyLength)
    ensures r.Success? ==> |r.value| == CompressedBytes
    ensures r.Success? ==> envelope == Success(Envelope(P256Pub, Some(r.value)))
    ensures r != Failure(InvalidFormat)
  {
    match envelope
    case Failure(e) => Failure(EnvelopeError(e))
    case Success(Envelope(code, payload)) =>
      if code != P256Pub then Failure(UnsupportedCode(code))
      else if payload.None? then Failure(NilPayload)
      else if |payload.value| != CompressedBytes then Failure(InvalidKeyLength)
      else Success(payload.value)
  }

  /** The validated compressed point an identifier carries. */
  function DecodeKeyBytes(c: Codecs, did: string): (r: Result<seq<byte>, DIDError>)
    ensures ParseIdentifier(did).Failure? ==> r == Failure(ParseIdentifier(did).error)
    ensures ParseIdentifier(did).Success? ==>
      r == UnwrapKey(c.parseMulticodec(c.base58Decode(ParseIdentifier(did).value)))
    ensures r == Failure(InvalidFormat) <==> ParseIdentifier(did) == Failure(InvalidFormat)
    ensures r.Success? ==> |r.value| == CompressedBytes
  {
    var parsed := ParseIdentifier(did);
    if parsed.Failure? then Failure(parsed.error)
    else UnwrapKey(c.parseMulticodec(c.base58Decode(parsed.value)))
  }

  /** NewDIDKeyFromDID: a public-only P-256 key whose point is whatever
      UnmarshalCompressed makes of the 33 bytes (None when it rejects them). */
  function NewDIDKeyFromDID(c: Codecs, ops: CurveOps, did: string): (r: Result<DIDKey, DIDError>)
    ensures r.Success? ==> r.value.privateKey.None? && r.value.publicKey.curve == P256
    ensures r == Failure(InvalidFormat) <==> multiset(did)[':'] != 2
    ensures DecodeKeyBytes(c, did).Failure? ==> r == Failure(DecodeKeyBytes(c, did).error)
    ensures DecodeKeyBytes(c, did).Success? ==>
      r == Success(DIDKey(PublicKey(P256, ops.unmarshalCompressed(DecodeKeyBytes(c, did).value)), None))
  {
    match DecodeKeyBytes(c, did)
    case Failure(e) => Failure(e)
    case Success(bytes) =>
      Success(DIDKey(PublicKey(P256, ops.unmarshalCompressed(bytes)), None))
  }

  // ---------------------------------------------------------------------------
  // Building a key and its identifier

  /** A key that carries a private key on P-256, which Sign accepts. */
  predicate CanSign(key: DIDKey) {
    key.privateKey.Some? && key.privateKey.value.publicKey.curve == P256
  }

  /** NewDIDKeyFromPrivateKey: D is the big-endian number of the bytes and the
      public point is ScalarBaseMult of them; the scalar is not range-checked
      and the error is always nil. */
  function NewDIDKeyFromPrivateKey(ops: CurveOps, privateKey: seq<byte>): (r: Result<DIDKey, DIDError>)
    ensures r.Success? && CanSign(r.value)
    ensures r.value.privateKey.value.publicKey == r.value.publicKey
    ensures r.value.publicKey.point == Some(ops.scalarBaseMult(privateKey))
    ensures r.value.privateKey.value.d == Value(privateKey, 256)
  {
    var pub := PublicKey(P256, Some(ops.scalarBaseMult(privateKey)));
    Success(DIDKey(pub, Some(PrivateKey(pub, Value(privateKey, 256)))))
  }

  /** DID(): "did:key:z" followed by the base58 text of the P-256 envelope of
      the compressed point.  The key must have coordinates and X must fit in
      32 bytes, or MarshalCompressed panics. */
  function DID(c: Codecs, key: DIDKey): (did: string)
    requires key.publicKey.point.Some? && key.publicKey.point.value.x < Pow(256, FieldBytes)
    ensures |did| >= |DIDPrefix| && did[..|DIDPrefix|] == DIDPrefix
    ensures CodecLaws(c) ==> ParseIdentifier(did) == Success(did[|DIDPrefix|..])
    ensures CodecLaws(c) ==> multiset(did)[':'] == 2
  {
    var envelope := c.encodeMulticodec(P256Pub, MarshalCompressed(key.publicKey.point.value));
    EncodedParses(c, envelope);
    var did := DIDPrefix + c.base58Encode(envelope);
    assert did[|DIDPrefix|..] == c.base58Encode(envelope);
    did
  }

  /** Under the codec laws, the prefix followed by base58 text passes the
      grammar and yields that text. */
  lemma EncodedParses(c: Codecs, bytes: seq<byte>)
    ensures CodecLaws(c) ==> ParseIdentifier(DIDPrefix + c.base58Encode(bytes)) == Success(c.base58Encode(bytes))
  {
    if CodecLaws(c) {
      ParseCanonical(c.base58Encode(bytes));
    }
  }

  // ---------------------------------------------------------------------------
  // Signatures

  /** r and s each fit in a field element's 32 bytes. */
  predicate Fits(sig: Signature) {
    sig.r < Pow(256, FieldBytes) && sig.s < Pow(256, FieldBytes)
  }

  /** The raw r||s form (section 3.4 of RFC 7518): r, then s, each as 32
      zero-padded big-endian bytes. */
  function SignatureBytes(sig: Signature): (bytes: seq<byte>)
    ensures |bytes| == 2 * FieldBytes
  {
    var bytes := Fixed(sig.r, 256, FieldBytes) + Fixed(sig.s, 256, FieldBytes);
    assert forall i :: 0 <= i < |bytes| ==> bytes[i] < 256;
    bytes
  }

  /** Verify: false for a curve other than P-256 or a signature of the wrong
      length; otherwise the ECDSA check on the two halves read as numbers. */
  function Verify(ops: CurveOps, key: DIDKey, digest: Digest, signature: seq<byte>): (ok: bool)
    ensures ok ==> key.publicKey.curve == P256 && |signature| == 2 * FieldBytes
    ensures key.publicKey.curve == P256 && |signature| == 2 * FieldBytes ==>
      ok == ops.verify(key.publicKey, digest, Value(signature[..FieldBytes], 256), Value(signature[FieldBytes..], 256))
  {
    if key.publicKey.curve != P256 then false
    else
      var size := CurveByteSize(BitSize(key.publicKey.curve));
      if |signature| != size * 2 then false
      else
        var r := Value(signature[..size], 256);
        var s := Value(signature[size..], 256);
        ops.verify(key.publicKey, digest, r, s)
  }

  /** big.Int.FillBytes on buf[lo..hi]: v as hi - lo zero-padded big-endian
      bytes; the rest of buf is untouched.  v must fit, or FillBytes panics. */
  method FillBytes(v: nat, buf: array<byte>, lo: nat, hi: nat)
    requires lo <= hi <= buf.Length && v < Pow(256, hi - lo)
    modifies buf
    ensures buf[..lo] == old(buf[..lo]) && buf[hi..] == old(buf[hi..])
    ensures buf[lo..hi] == Fixed(v, 256, hi - lo)
  {
    var x, i := v, hi;
    while i > lo
      invariant lo <= i <= hi
      invariant Fixed(v, 256, hi - lo) == Fixed(x, 256, i - lo) + buf[i..hi]
      invariant buf[..lo] == old(buf[..lo]) && buf[hi..] == old(buf[hi..])
    {
      ghost var done := buf[i..hi];
      buf[i - 1] := x % 256;
      assert buf[i - 1..hi] == [x % 256] + done;
      x, i := x / 256, i - 1;
    }
  }

  /** Sign.  The outcome of ecdsa.Sign (which draws from crypto/rand) is the
      parameter signer; its r and s are below the group order, so they fit. */
  method Sign(key: DIDKey, digest: Digest, signer: Result<Signature, string>)
    returns (result: Result<seq<byte>, SignError>)
    requires signer.Success? ==> Fits(signer.value)
    ensures key.privateKey.None? ==> result == Failure(PrivateKeyNotFound)
    ensures key.privateKey.Some? && key.privateKey.value.publicKey.curve != P256 ==>
      result == Failure(CurveNotP256)
    ensures CanSign(key) && signer.Failure? ==> result == Failure(SignerFailed(signer.error))
    ensures CanSign(key) && signer.Success? ==> result == Success(SignatureBytes(signer.value))
  {
    if key.privateKey.None? {
      return Failure(PrivateKeyNotFound);
    }
    var priv := key.privateKey.value;
    if priv.publicKey.curve != P256 {
      return Failure(CurveNotP256);
    }
    if signer.Failure? {
      return Failure(SignerFailed(signer.error));
    }
    var size := CurveByteSize(BitSize(priv.publicKey.curve));
    assert size == FieldBytes;
    var sig := new byte[size * 2];
    FillBytes(signer.value.r, sig, 0, size);
    ghost var first := sig[..size];
    FillBytes(signer.value.s, sig, size, size * 2);
    assert sig[..size] == first;
    assert sig[..] == sig[..size] + sig[size..size * 2];
    return Success(sig[..]);
  }
}
