# did:key for P-256 keys, in Dafny

A model of the Go package `didkey`, which converts between ECDSA P-256 public
keys and `did:key` identifiers and signs and verifies 32-byte digests.

- **Parsing** (`NewDIDKeyFromDID`) runs its checks in a fixed order:
  1. split on `:` and require exactly three segments;
  2. require the segments `did` and `key`;
  3. require a non-empty third segment starting with the multibase marker `z`;
  4. base58btc-decode the rest of that segment;
  5. unwrap the multicodec envelope, which must carry the `p256-pub` code
     (0x1200) and a non-nil payload of exactly 33 bytes;
  6. decompress that payload into a public-only key.
- **Building** (`DID`) does the reverse: it compresses the point, wraps it in
  the envelope, base58-encodes it and prepends `did:key:z`. The identifier
  grammar is `did:<method>:<method-specific-id>` from section 3.1 of W3C DID
  Core.
- **Signing and verifying** use the raw `r‖s` signature form of section 3.4
  of RFC 7518. It is 2 × 32 zero-padded big-endian bytes, where 32 comes from
  the code's `curveByteSize` formula.

Modules:

- `Wrappers`: Go's nil and its `(value, error)` pairs, as `Option` and
  `Result`.
- `Positional`: big-endian numbers in any base. `Value` is
  `big.Int.SetBytes`, `Minimal` is `Bytes` and `Fixed` is `FillBytes`. The
  module also proves the round trips between them.
- `GoStrings`: `strings.Split` and `strings.Join` for a one-character
  separator.
- `Base58` and `Multicodec`: one concrete base58btc codec and one
  unsigned-varint envelope.
- `Codecs`: the four codec functions the package calls, passed to it as a
  record. Their laws are the predicate `CodecLaws`, and
  `StandardObeysLaws` shows that the concrete `Base58` and `Multicodec`
  satisfy them.
- `Ecdsa`: curves, keys, signatures and the compressed-point layout of
  section 2.3.3 of SEC 1 v2. The curve arithmetic is passed in as the record
  `CurveOps`, whose law is the predicate `CurveLaws`.
- `DidKey`: the package's operations. `Sign` is a method that fills a fresh
  byte array in place, and `FillBytes` is a loop over a slice of it.
- `DidKeyProperties`: the round trips, the order of the checks and the
  signature layout.
- `DidKeyExamples`: concrete malformed identifiers.

The code has no error of its own for text that is not base58btc.
`base58.Decode` returns an empty slice for such text, and that slice goes
straight into `ParseMulticodec` (didkey.go:42-48). Whatever `ParseMulticodec`
makes of the empty slice decides the result. With the model's own varint
envelope, that result is a "truncated varint" error
(`DidKeyExamples.NotBase58`).

Nor does the code check what `UnmarshalCompressed` returns (didkey.go:59).
If a 33-byte payload does not decompress, the parsed key holds whatever the
function returned, which the model writes as `None`.

## Model

| member | source | states |
|---|---|---|
| GoStrings.Split | didkey.go:21 | there is one piece more than there are separators, and no piece contains the separator |
| GoStrings.JoinSplit | didkey.go:21 | joining the pieces with the separator gives back the original string |
| GoStrings.SplitJoin | didkey.go:21 | joining separator-free pieces and splitting again gives back the pieces |
| GoStrings.JoinThree | didkey.go:21-24 | three pieces joined are the first, a separator, the second, a separator, the third |
| GoStrings.JoinOfThree | didkey.go:21-24 | the same for any sequence of exactly three pieces |
| GoStrings.JoinAfterEmpty | didkey.go:21 | an empty first piece contributes only the separator to the join |
| GoStrings.JoinPrepend | didkey.go:21 | a character in front of the first piece ends up in front of the join |
| Base58.CharOfDigit | didkey.go:42 | decoding the alphabet character of any digit below 58 gives that digit |
| Base58.DecodeEncode | didkey.go:42 | decoding the encoding of any byte string, leading zero bytes included, gives it back |
| Base58.EncodeHasNoColon | didkey.go:89-96 | base58btc text never contains ':' |
| Base58.DecodePadded | didkey.go:42 | padding '1's followed by digits without a leading zero decode to as many zero bytes followed by the bytes of the number |
| Base58.EncodeNonEmpty | didkey.go:89-94 | non-empty bytes encode to non-empty text |
| Multicodec.ReadUvarintOf | didkey.go:45 | reading a varint off its encoding followed by anything returns the number and exactly what followed |
| Multicodec.ParseEncode | didkey.go:45-48 | parsing an envelope returns the code and the non-nil payload it was built from |
| Multicodec.P256PubTag | didkey.go:49 | the p256-pub code 0x1200 is the two varint bytes 0x80 0x24 |
| Codecs.StandardObeysLaws | didkey.go:42-45 | the concrete base58btc codec and varint envelope satisfy every law the parser relies on, so the laws are consistent |
| Positional.ValueOfFixed | didkey.go:113-114 | reading a FillBytes result back with SetBytes gives back any number that fits the width |
| Positional.ValueOfMinimal | didkey.go:42 | SetBytes of the minimal big-endian bytes of n is n |
| Positional.MinimalOfValue | didkey.go:42 | the minimal bytes of the number denoted by digits without a leading zero are those digits |
| Ecdsa.MarshalCompressed | didkey.go:92 | 33 bytes: the prefix is 0x02 exactly when Y is even and 0x03 exactly when Y is odd, and the next 32 bytes read back as X |
| DidKey.CurveByteSize | didkey.go:104-107 | for a bit size that is a multiple of 64, such as P-256's 256, the size is exactly bitSize/8 bytes |
| DidKey.WholeBytes | didkey.go:104-107 | a bit size that is a multiple of 64 gives a byte count that is a multiple of 8, so the "+1" branch is not taken |
| DidKey.ParseIdentifier | didkey.go:21-41 | the format error occurs exactly when the input does not have two colons; success means the input is "did:key:z" followed by a colon-free id |
| DidKey.IdentifierShape | didkey.go:36-42 | segments did, key and z+id can only come from "did:key:z" followed by id, and id has no colon |
| DidKey.JoinedPrefix | didkey.go:36-42 | the segments did, key and z+id joined by ':' are "did:key:z" followed by id |
| DidKey.UnwrapKey | didkey.go:45-57 | in order: a multicodec error is passed on; a code other than P256Pub, then a nil payload, then a length other than 33 are each rejected; otherwise the 33 bytes come out of a P256Pub envelope; it never reports a format error |
| DidKey.DecodeKeyBytes | didkey.go:20-57 | a grammar error is returned unchanged; an identifier that passes the grammar gives the envelope checks' verdict on the base58-decoded id without its 'z'; a success is 33 bytes |
| DidKey.NewDIDKeyFromDID | didkey.go:20-68 | every error of the grammar and envelope checks reaches the caller unchanged; on success the key is on P-256, has no private key, and its point is whatever UnmarshalCompressed makes of the 33 bytes, even when that is nothing; the format error happens exactly without two colons |
| DidKey.DID | didkey.go:88-97 | the identifier starts with "did:key:z"; under the codec laws it has exactly two colons and passes every grammar check, yielding the text after the prefix |
| DidKey.EncodedParses | didkey.go:88-97 | under the codec laws, "did:key:z" followed by base58 text passes the grammar and yields that text |
| DidKey.NewDIDKeyFromPrivateKey | didkey.go:70-86 | never fails; the key can sign; the embedded public key equals the outer one; the point is ScalarBaseMult of the bytes; D is their big-endian value |
| DidKey.SignatureBytes | didkey.go:139-142 | the r‖s form is 64 bytes |
| DidKey.Verify | didkey.go:99-116 | only a P-256 key and a 64-byte signature can verify; when both hold, the result is the ECDSA check on the two halves read as numbers |
| DidKey.FillBytes | didkey.go:141-142 | the slice receives the fixed-width big-endian bytes of v, and the rest of the buffer is unchanged |
| DidKey.Sign | didkey.go:119-145 | a missing private key, then a curve other than P-256, then a failed ecdsa.Sign are reported in that order; otherwise the result is the 64-byte r‖s form of the signature |
| DidKey.ParseSegments | didkey.go:21-42 | for three colon-free segments the scheme, method, empty-id and z checks decide in that order, and the id handed on is the text after the z |
| DidKeyProperties.TwoColonsAreThreeSegments | didkey.go:21-24 | every input with exactly two colons is three colon-free segments joined by ':' |
| DidKey.ParseCanonical | didkey.go:36-42 | "did:key:z" followed by any colon-free text passes the grammar and yields that text |
| DidKeyProperties.OnlyTailIsDecoded | didkey.go:42-57 | for "did:key:z" followed by t, only t reaches base58 decoding, and its envelope alone decides the result |
| DidKeyProperties.GrammarErrorReturned | didkey.go:20-41 | any grammar error is exactly what NewDIDKeyFromDID returns |
| DidKeyProperties.SignParsed | didkey.go:120-122 | Sign on a key obtained by parsing reports the missing private key |
| DidKeyProperties.DIDKeyBytesRoundTrip | didkey.go:88-97 | parsing DID() recovers exactly the 33 compressed bytes it encoded |
| DidKeyProperties.DIDRoundTrip | didkey.go:59-67 | for a point on the curve, parsing DID() gives the same point on P-256 and no private key |
| DidKeyProperties.PrivateKeyRoundTrip | didkey.go:70-97 | a key built from a scalar keeps its public key through DID() and parsing, while the private key is gone |
| DidKeyProperties.EnvelopeReachesChecks | didkey.go:42-57 | the identifier of an envelope reaches the code, nil and length checks with exactly the code and payload it was built from |
| DidKeyProperties.UnsupportedCodeRejected | didkey.go:49-51 | the identifier of an envelope with any other code is rejected with that code |
| DidKeyProperties.WrongLengthRejected | didkey.go:55-57 | the identifier of a P-256 envelope whose payload is not 33 bytes is rejected for its length |
| DidKeyProperties.SignatureLayout | didkey.go:139-142 | r fills bytes 0-31 and s fills bytes 32-63, each zero-padded big-endian, and reading the halves recovers r and s |
| DidKeyProperties.VerifySigned | didkey.go:109-116 | Verify on Sign's bytes hands the ECDSA check exactly the signed r and s, and it refuses every curve except P-256 |
| DidKeyExamples.WrongScheme | didkey.go:26-28 | "notadid:key:zABC" gets the scheme error from the grammar |
| DidKeyExamples.WrongSchemeReturned | didkey.go:26-28 | NewDIDKeyFromDID("notadid:key:zABC") fails with the scheme error, whatever the codecs |
| DidKeyExamples.WrongMethod | didkey.go:29-31 | "did:notkey:zABC" gets the method error from the grammar |
| DidKeyExamples.WrongMethodReturned | didkey.go:29-31 | NewDIDKeyFromDID("did:notkey:zABC") fails with the method error |
| DidKeyExamples.EmptyId | didkey.go:32-34 | "did:key:" gets the empty-key error from the grammar |
| DidKeyExamples.EmptyIdReturned | didkey.go:32-34 | NewDIDKeyFromDID("did:key:") fails with the empty-key error |
| DidKeyExamples.NoMultibasePrefix | didkey.go:39-41 | "did:key:ABC" gets the missing-z error from the grammar |
| DidKeyExamples.NoMultibasePrefixReturned | didkey.go:39-41 | NewDIDKeyFromDID("did:key:ABC") fails with the missing-z error |
| DidKeyExamples.NotBase58 | didkey.go:42-48 | with the model codecs, "did:key:z!!!invalid!!!" decodes to no bytes, and the envelope parser's "truncated varint" error comes back |
| DidKeyExamples.StandardEnvelopeLayout | didkey.go:89-93 | with the varint envelope, the bytes behind every P-256 identifier are 0x80 0x24 followed by the 33-byte compressed point |

## Left out

- Curve arithmetic is left out: `UnmarshalCompressed`'s square-root recovery of Y, `ScalarBaseMult` and the `ecdsa.Verify` equation. It is arithmetic inside Go's standard library. These appear only as the `CurveOps` functions, and `CurveLaws` assumes two properties of every on-curve point: its X is below 2^256, and decompressing its compressed form gives the point back.
- `ecdsa.Sign` and `crypto/rand` are left out. They are randomised I/O, so their outcome is the parameter `signer` of `Sign`. Its r and s are assumed to fit in 32 bytes, as values below the group order do.
- The internals of the `base58` and `multicodec` packages are left out, because those packages are not part of this model. The model relies only on the laws in `CodecLaws`. `Base58` and `Multicodec` show that the laws are consistent. They are not a claim about those packages' exact behaviour, for example which error `ParseMulticodec` reports.
- CodecLaws: the envelope round trip is assumed only for non-empty payloads. The round-trip lemmas need nothing more, because a compressed point has 33 bytes.
- DID: requires that the key has coordinates and that X is below 2^256. With nil coordinates, or with an off-curve point, `MarshalCompressed` in Go panics or has unspecified behaviour, and that is not modelled.
- CurveByteSize: states only the multiple-of-64 case. The formula gives 29 for a 224-bit curve, for instance, but both `Sign` and `Verify` reject every curve except P-256 before computing it, so only the value 32 is ever used.
- Error messages are left out: each `fmt.Errorf` branch is one `DIDError` or `SignError` constructor, and the text is not modelled.
- Pointers and interfaces are left out. `*DIDKey` and `*ecdsa.PrivateKey` are values, with `Option` standing for nil. Comparing `elliptic.Curve` values becomes equality on the `Curve` datatype.
- Verify: takes the digest as a 32-byte sequence, the `[32]byte` array of the source.
- Strings are sequences of Unicode characters, while Go strings are byte strings that may hold invalid UTF-8. Results agree on every input the model can represent, because ':', 'z' and the whole base58 alphabet are ASCII. Inputs that are not valid UTF-8 are not modelled.
