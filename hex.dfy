/** Base16 as the `hex` crate implements it (section 8 of RFC 4648): `encode` writes two
    lower-case digits per byte, high nibble first; `decode` accepts either case and fails on an
    odd number of digits or on any other character. */
module Hex {
  import opened Bytes

  predicate IsLowerDigit(c: byte) {
    0x30 <= c <= 0x39 || 0x61 <= c <= 0x66
  }

  /** The lower-case digit for a nibble. */
  function Digit(v: nat): (c: byte)
    requires v < 16
    ensures IsLowerDigit(c)
  {
    if v < 10 then (0x30 + v) as byte else (0x61 + v - 10) as byte
  }

  /** The value of one digit, in either case. */
  function DigitValue(c: byte): (v: Option<nat>)
    ensures v.Some? ==> v.value < 16
  {
    if 0x30 <= c <= 0x39 then Some(c as int - 0x30)
    else if 0x61 <= c <= 0x66 then Some(c as int - 0x61 + 10)
    else if 0x41 <= c <= 0x46 then Some(c as int - 0x41 + 10)
    else None
  }

  /** `hex::encode`. */
  function Encode(b: bytes): (h: bytes)
    ensures |h| == 2 * |b|
    ensures forall i :: 0 <= i < |h| ==> IsLowerDigit(h[i])
  {
    if b == [] then [] else [Digit(b[0] as int / 16), Digit(b[0] as int % 16)] + Encode(b[1..])
  }

  /** `hex::decode`. */
  function Decode(h: bytes): (r: Option<bytes>)
    ensures r.Some? ==> |h| == 2 * |r.value|
  {
    if |h| % 2 != 0 then None else DecodePairs(h)
  }

  function DecodePairs(h: bytes): (r: Option<bytes>)
    requires |h| % 2 == 0
    ensures r.Some? ==> |h| == 2 * |r.value|
    decreases |h|
  {
    if h == [] then Some([])
    else
      match (DigitValue(h[0]), DigitValue(h[1]), DecodePairs(h[2..]))
      case (Some(hi), Some(lo), Some(rest)) => Some([(hi * 16 + lo) as byte] + rest)
      case _ => None
  }

  /** Every byte string survives a trip through its hex encoding. */
  lemma {:induction false} DecodeEncode(b: bytes)
    ensures Decode(Encode(b)) == Some(b)
  {
    if b != [] {
      var h := Encode(b);
      assert h[2..] == Encode(b[1..]);
      DecodeEncode(b[1..]);
      var x := b[0] as int;
      assert DigitValue(Digit(x / 16)) == Some(x / 16);
      assert DigitValue(Digit(x % 16)) == Some(x % 16);
      assert [b[0]] + b[1..] == b;
    }
  }

  /** A lower-case digit string is the encoding of what it decodes to, so the lower-case
      encoding is the only one `Encode` produces. */
  lemma {:induction false} EncodeDecode(h: bytes, b: bytes)
    requires forall i :: 0 <= i < |h| ==> IsLowerDigit(h[i])
    requires Decode(h) == Some(b)
    ensures Encode(b) == h
    decreases |h|
  {
    if h != [] {
      var hi, lo := DigitValue(h[0]).value, DigitValue(h[1]).value;
      var rest := DecodePairs(h[2..]).value;
      assert b == [(hi * 16 + lo) as byte] + rest;
      EncodeDecode(h[2..], rest);
      assert b[1..] == rest;
      var x := b[0] as int;
      assert x / 16 == hi && x % 16 == lo;
      assert Digit(hi) == h[0] && Digit(lo) == h[1];
      assert h == [h[0], h[1]] + h[2..];
    }
  }

  /** `decode` fails exactly on an odd length or a character that is not a digit. */
  lemma {:induction false} DecodeSucceedsIff(h: bytes)
    ensures Decode(h).Some? <==> |h| % 2 == 0 && forall i :: 0 <= i < |h| ==> DigitValue(h[i]).Some?
  {
    if |h| % 2 == 0 {
      PairsSucceedIff(h);
    }
  }

  lemma {:induction false} PairsSucceedIff(h: bytes)
    requires |h| % 2 == 0
    ensures DecodePairs(h).Some? <==> forall i :: 0 <= i < |h| ==> DigitValue(h[i]).Some?
    decreases |h|
  {
    if h != [] {
      PairsSucceedIff(h[2..]);
      if forall i :: 0 <= i < |h[2..]| ==> DigitValue(h[2..][i]).Some? {
        if DigitValue(h[0]).Some? && DigitValue(h[1]).Some? {
          forall i | 0 <= i < |h| ensures DigitValue(h[i]).Some? {
            if i >= 2 { assert h[i] == h[2..][i - 2]; }
          }
        }
      } else {
        var j :| 0 <= j < |h[2..]| && DigitValue(h[2..][j]).None?;
        assert h[j + 2] == h[2..][j];
      }
    }
  }
}
