/** The two text and binary codecs the identifier format is built from, seen
    only through the laws the identifier code relies on. */
module Codecs {
  import opened Wrappers
  import opened Positional
  import opened Multicodec
  import Base58

  /** base58.Encode, base58.Decode, multicodec.EncodeMulticodec and
      multicodec.ParseMulticodec. */
  datatype Codecs = Codecs(
    base58Encode: seq<byte> -> string,
    base58Decode: string -> seq<byte>,
    encodeMulticodec: (nat, seq<byte>) -> seq<byte>,
    parseMulticodec: seq<byte> -> Result<Envelope, MulticodecError>)

  /** Base58 decoding undoes encoding, and encoded text never holds a colon
      and is non-empty for non-empty input;
      parsing an envelope gives back the code and the (non-nil) payload it was
      built from. */
  ghost predicate CodecLaws(c: Codecs) {
    && (forall b :: c.base58Decode(c.base58Encode(b)) == b)
    && (forall b :: ':' !in c.base58Encode(b))
    && (forall b :: |b| > 0 ==> |c.base58Encode(b)| > 0)
    && (forall code, p :: |p| > 0 ==>
          c.parseMulticodec(c.encodeMulticodec(code, p)) == Success(Envelope(code, Some(p))))
  }

  /** The base58btc alphabet with the unsigned-varint envelope. */
  function Standard(): Codecs {
    Codecs(Base58.Encode, Base58.Decode, Multicodec.Encode, Multicodec.Parse)
  }

  /** The laws are consistent: the standard codecs satisfy them. */
  lemma StandardObeysLaws()
    ensures CodecLaws(Standard())
  {
    forall b: seq<byte> ensures Base58.Decode(Base58.Encode(b)) == b && ':' !in Base58.Encode(b)
                                && (|b| > 0 ==> |Base58.Encode(b)| > 0) {
      Base58.DecodeEncode(b);
      Base58.EncodeHasNoColon(b);
      Base58.EncodeNonEmpty(b);
    }
    forall code: nat, p: seq<byte> ensures Multicodec.Parse(Multicodec.Encode(code, p)) == Success(Envelope(code, Some(p))) {
      ParseEncode(code, p);
    }
  }
}
