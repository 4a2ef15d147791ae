/** Base58btc text encoding (the Bitcoin alphabet), in the form of the
    btcutil/base58 package: leading zero bytes become leading '1's and the rest
    is the big-endian number written in base 58. */
module Base58 {
  import opened Wrappers
  import opened Positional

  /** The character of base-58 digit d: the alphabet is
      123456789ABCDEFGHJKLMNPQRSTUVWXYZabcdefghijkmnopqrstuvwxyz,
      the digits and the letters without 0, O, I and l. */
  function DigitChar(d: nat): (c: char)
    requires d < 58
    ensures c != ':'
    ensures c == '1' <==> d == 0
  {
    if d < 9 then ('1' as int + d) as char
    else if d < 17 then ('A' as int + d - 9) as char
    else if d < 22 then ('J' as int + d - 17) as char
    else if d < 33 then ('P' as int + d - 22) as char
    else if d < 44 then ('a' as int + d - 33) as char
    else ('m' as int + d - 44) as char
  }

  /** The digit a character stands for, or None for a character outside the alphabet. */
  function CharDigit(c: char): (d: Option<nat>)
    ensures d.Some? ==> d.value < 58 && DigitChar(d.value) == c
  {
    if '1' <= c <= '9' then Some(c as int - '1' as int)
    else if 'A' <= c <= 'H' then Some(c as int - 'A' as int + 9)
    else if 'J' <= c <= 'N' then Some(c as int - 'J' as int + 17)
    else if 'P' <= c <= 'Z' then Some(c as int - 'P' as int + 22)
    else if 'a' <= c <= 'k' then Some(c as int - 'a' as int + 33)
    else if 'm' <= c <= 'z' then Some(c as int - 'm' as int + 44)
    else None
  }

  lemma CharOfDigit(d: nat)
    requires d < 58
    ensures CharDigit(DigitChar(d)) == Some(d)
  {
  }

  /** The number of leading elements of s equal to x. */
  function LeadingCount<T(==)>(s: seq<T>, x: T): (k: nat)
    ensures k <= |s|
    ensures forall i :: 0 <= i < k ==> s[i] == x
    ensures k < |s| ==> s[k] != x
  {
    if s == [] || s[0] != x then 0 else 1 + LeadingCount(s[1..], x)
  }

  /** The characters of base-58 digits. */
  function Chars(ds: seq<nat>): (s: string)
    requires IsDigits(ds, 58)
    ensures |s| == |ds|
  {
    seq(|ds|, i requires 0 <= i < |ds| => DigitChar(ds[i]))
  }

  /** The digits of s, or None if some character is outside the alphabet. */
  function DigitsOf(s: string): (ds: Option<seq<nat>>)
    ensures ds.Some? <==> forall i :: 0 <= i < |s| ==> CharDigit(s[i]).Some?
    ensures ds.Some? ==> |ds.value| == |s| && IsDigits(ds.value, 58)
    ensures ds.Some? ==> forall i :: 0 <= i < |s| ==> CharDigit(s[i]) == Some(ds.value[i])
  {
    if forall i :: 0 <= i < |s| ==> CharDigit(s[i]).Some? then
      Some(seq(|s|, i requires 0 <= i < |s| => CharDigit(s[i]).value))
    else None
  }

  /** base58.Encode. */
  function Encode(b: seq<byte>): string {
    var z := LeadingCount(b, 0);
    seq(z, _ => '1') + Chars(Minimal(Value(b[z..], 256), 58))
  }

  /** base58.Decode: the empty byte string when a character is outside the
      alphabet; otherwise one zero byte per leading '1' followed by the
      minimal big-endian bytes of the number the string denotes. */
  function Decode(s: string): seq<byte> {
    match DigitsOf(s)
    case None => []
    case Some(ds) =>
      var bytes := Zeros(LeadingCount(s, '1')) + Minimal(Value(ds, 58), 256);
      assert forall i :: 0 <= i < |bytes| ==> bytes[i] < 256;
      bytes
  }

  /** No base58btc text contains a colon. */
  lemma EncodeHasNoColon(b: seq<byte>)
    ensures ':' !in Encode(b)
  {
    var z := LeadingCount(b, 0);
    var e := Encode(b);
    forall i | 0 <= i < |e| ensures e[i] != ':' {
    }
  }

  /** Non-empty bytes give non-empty text. */
  lemma EncodeNonEmpty(b: seq<byte>)
    ensures |b| > 0 ==> |Encode(b)| > 0
  {
    var z := LeadingCount(b, 0);
    if |b| > 0 && z == 0 {
      ValuePositive(b[z..], 256);
    }
  }

  /** The digits of z '1's followed by the characters of ds are z zeros and ds. */
  lemma DigitsOfPadded(z: nat, ds: seq<nat>)
    requires IsDigits(ds, 58)
    ensures DigitsOf(seq(z, _ => '1') + Chars(ds)) == Some(Zeros(z) + ds)
  {
    var e := seq(z, _ => '1') + Chars(ds);
    forall i | 0 <= i < |e| ensures CharDigit(e[i]) == Some((Zeros(z) + ds)[i]) {
      if i >= z { CharOfDigit(ds[i - z]); }
    }
    assert DigitsOf(e).value == Zeros(z) + ds;
  }

  /** Without a leading zero digit, the leading '1's are exactly the padding. */
  lemma LeadingOnesOfPadded(z: nat, ds: seq<nat>)
    requires IsDigits(ds, 58) && (ds == [] || ds[0] != 0)
    ensures LeadingCount(seq(z, _ => '1') + Chars(ds), '1') == z
  {
    LeadingCountExact(seq(z, _ => '1') + Chars(ds), '1', z);
  }

  /** Text of padding '1's and the characters of digits without a leading
      zero decodes to as many zero bytes and the bytes of the number. */
  lemma DecodePadded(z: nat, ds: seq<nat>)
    requires IsDigits(ds, 58) && (ds == [] || ds[0] != 0)
    ensures Decode(seq(z, _ => '1') + Chars(ds)) == Zeros(z) + Minimal(Value(ds, 58), 256)
  {
    DigitsOfPadded(z, ds);
    LeadingOnesOfPadded(z, ds);
    ValueOfZerosPrefix(z, ds, 58);
  }

  /** Decoding undoes encoding. */
  lemma DecodeEncode(b: seq<byte>)
    ensures Decode(Encode(b)) == b
  {
    var z := LeadingCount(b, 0);
    var rest: seq<nat> := b[z..];
    var n := Value(rest, 256);
    var ds := Minimal(n, 58);
    assert Decode(Encode(b)) == Zeros(z) + Minimal(Value(ds, 58), 256) by {
      DecodePadded(z, ds);
    }
    assert Minimal(Value(ds, 58), 256) == rest by {
      ValueOfMinimal(n, 58);
      MinimalOfValue(rest, 256);
    }
    assert b == Zeros(z) + rest by {
      assert forall i :: 0 <= i < z ==> b[i] == Zeros(z)[i];
      assert b == b[..z] + b[z..];
    }
  }

  lemma {:induction false} LeadingCountExact<T>(s: seq<T>, x: T, k: nat)
    requires k <= |s|
    requires forall i :: 0 <= i < k ==> s[i] == x
    requires k < |s| ==> s[k] != x
    ensures LeadingCount(s, x) == k
  {
    if k > 0 {
      LeadingCountExact(s[1..], x, k - 1);
    }
  }
}
