/** The multicodec envelope: a self-describing byte string that starts with an
    unsigned varint (LEB128, seven bits per byte, low group first, high bit set
    on every byte but the last) naming the content type, followed by the
    payload. */
module Multicodec {
  import opened Wrappers
  import opened Positional

  /** The registered code of a compressed P-256 public key (p256-pub). */
  const P256Pub: nat := 0x1200

  /** A parsed envelope; a payload of None is a nil byte slice. */
  datatype Envelope = Envelope(code: nat, payload: Option<seq<byte>>)

  datatype MulticodecError = MulticodecError(reason: string)

  /** The unsigned-varint encoding of n. */
  function Uvarint(n: nat): (bs: seq<byte>)
    ensures |bs| > 0
    decreases n
  {
    if n < 128 then [n] else [n % 128 + 128] + Uvarint(n / 128)
  }

  /** Reads one unsigned varint from the front of bs; None when bs ends
      before a byte without the continuation bit. */
  function ReadUvarint(bs: seq<byte>): (r: Option<(nat, seq<byte>)>)
    ensures r.Some? ==> |r.value.1| < |bs| && r.value.1 == bs[|bs| - |r.value.1|..]
  {
    if bs == [] then None
    else if bs[0] < 128 then Some((bs[0] as nat, bs[1..]))
    else
      match ReadUvarint(bs[1..])
      case None => None
      case Some((high, rest)) => Some((bs[0] - 128 + 128 * high, rest))
  }

  /** Encoding a code in front of a payload (the envelope writer). */
  function Encode(code: nat, payload: seq<byte>): seq<byte> {
    Uvarint(code) + payload
  }

  /** Splits an envelope into its code and payload. */
  function Parse(data: seq<byte>): Result<Envelope, MulticodecError> {
    match ReadUvarint(data)
    case None => Failure(MulticodecError("truncated varint"))
    case Some((code, payload)) => Success(Envelope(code, Some(payload)))
  }

  /** Reading back a varint gives the number and leaves what followed it. */
  lemma {:induction false} ReadUvarintOf(n: nat, rest: seq<byte>)
    ensures ReadUvarint(Uvarint(n) + rest) == Some((n, rest))
    decreases n
  {
    var bs := Uvarint(n) + rest;
    if n >= 128 {
      assert bs[1..] == Uvarint(n / 128) + rest;
      ReadUvarintOf(n / 128, rest);
    } else {
      assert bs[1..] == rest;
    }
  }

  /** Parsing undoes encoding. */
  lemma ParseEncode(code: nat, payload: seq<byte>)
    ensures Parse(Encode(code, payload)) == Success(Envelope(code, Some(payload)))
  {
    ReadUvarintOf(code, payload);
  }

  /** The P-256 public-key tag occupies the two bytes 0x80 0x24. */
  lemma P256PubTag()
    ensures Uvarint(P256Pub) == [0x80, 0x24]
  {
  }
}
