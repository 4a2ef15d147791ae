/** The pieces of crypto/elliptic and crypto/ecdsa the key code touches.  Curve
    arithmetic (point validation, Y recovery, base-point multiplication) and the
    ECDSA verification equation are collaborators passed in as functions. */
module Ecdsa {
  import opened Wrappers
  import opened Positional

  /** A curve value: P-256, or any other elliptic.Curve with its bit size. */
  datatype Curve = P256 | OtherCurve(name: string, bitSize: nat)

  /** Params().BitSize. */
  function BitSize(c: Curve): nat {
    match c
    case P256 => 256
    case OtherCurve(_, bits) => bits
  }

  /** Bytes of a P-256 field element. */
  const FieldBytes: nat := 32

  datatype Point = Point(x: nat, y: nat)

  /** ecdsa.PublicKey; a point of None stands for nil X and Y. */
  datatype PublicKey = PublicKey(curve: Curve, point: Option<Point>)

  /** ecdsa.PrivateKey: the public key it embeds and the scalar D. */
  datatype PrivateKey = PrivateKey(publicKey: PublicKey, d: nat)

  /** An ECDSA signature as the two numbers the primitive produces. */
  datatype Signature = Signature(r: nat, s: nat)

  /** elliptic.MarshalCompressed on P-256 (section 2.3.3 of SEC 1 v2): the
      prefix 0x02 for an even Y and 0x03 for an odd one, then X as 32
      big-endian bytes. */
  function MarshalCompressed(p: Point): (data: seq<byte>)
    requires p.x < Pow(256, FieldBytes)
    ensures |data| == 1 + FieldBytes
    ensures data[0] == 2 <==> p.y % 2 == 0
    ensures data[0] == 3 <==> p.y % 2 == 1
    ensures Value(data[1..], 256) == p.x
  {
    var xs := Fixed(p.x, 256, FieldBytes);
    var data: seq<byte> := [if p.y % 2 == 0 then 2 else 3] + xs;
    assert data[1..] == xs;
    ValueOfFixed(p.x, 256, FieldBytes);
    data
  }

  /** The curve and signature collaborators. */
  datatype CurveOps = CurveOps(
    isOnCurve: Point -> bool,
    unmarshalCompressed: seq<byte> -> Option<Point>,
    scalarBaseMult: seq<byte> -> Point,
    verify: (PublicKey, seq<byte>, nat, nat) -> bool)

  /** Points on the curve have X below 2^256, and decompressing the compressed
      form of such a point gives the point back. */
  ghost predicate CurveLaws(ops: CurveOps) {
    forall p :: ops.isOnCurve(p) ==>
      p.x < Pow(256, FieldBytes) && ops.unmarshalCompressed(MarshalCompressed(p)) == Some(p)
  }
}
