/** Bytes, optional values and the big-endian `u32` codec that every frame on the wire uses.
    Rust's `String` and `&str` are modelled throughout as the sequence of their UTF-8 bytes,
    which is how Rust stores them; an ASCII literal becomes its bytes through `Ascii`. */
module Bytes {

  newtype byte = x: int | 0 <= x < 256

  type bytes = seq<byte>

  datatype Option<+T> = None | Some(value: T)

  /** One more than the largest `u32`. */
  const U32Limit: int := 0x1_0000_0000

  /** Rust's `n as u32` for a `usize` n: the low 32 bits, so lengths of 2^32 bytes or more wrap. */
  function AsU32(n: nat): (r: nat)
    ensures r < U32Limit
    ensures n < U32Limit ==> r == n
    ensures n >= U32Limit ==> r != n
  {
    n % U32Limit
  }

  /** `u32::to_be_bytes`: most significant byte first. */
  function ToBeBytes(x: nat): (b: bytes)
    requires x < U32Limit
    ensures |b| == 4
  {
    BigEndian(x, 4)
  }

  /** The low `n` bytes of `x` in base 256, most significant first. */
  function BigEndian(x: nat, n: nat): (b: bytes)
    ensures |b| == n
  {
    if n == 0 then [] else BigEndian(x / 0x100, n - 1) + [(x % 0x100) as byte]
  }

  /** The four bytes of `ToBeBytes`, digit by digit. */
  lemma ToBeBytesDigits(x: nat)
    requires x < U32Limit
    ensures var q1 := x / 0x100; var q2 := q1 / 0x100; var q3 := q2 / 0x100;
            ToBeBytes(x) == [(q3 % 0x100) as byte, (q2 % 0x100) as byte, (q1 % 0x100) as byte, (x % 0x100) as byte]
  {
    var q1 := x / 0x100;
    var q2 := q1 / 0x100;
    var q3 := q2 / 0x100;
    assert BigEndian(q3, 1) == [] + [(q3 % 0x100) as byte];
    assert BigEndian(q2, 2) == BigEndian(q3, 1) + [(q2 % 0x100) as byte];
    assert BigEndian(q1, 3) == BigEndian(q2, 2) + [(q1 % 0x100) as byte];
    assert BigEndian(x, 4) == BigEndian(q1, 3) + [(x % 0x100) as byte];
  }

  /** `u32::from_be_bytes`. */
  function FromBeBytes(b: bytes): (x: nat)
    requires |b| == 4
    ensures x < U32Limit
  {
    b[0] as int * 0x100_0000 + b[1] as int * 0x1_0000 + b[2] as int * 0x100 + b[3] as int
  }

  /** Decoding a big-endian `u32` inverts encoding it. */
  lemma FromBeToBe(x: nat)
    requires x < U32Limit
    ensures FromBeBytes(ToBeBytes(x)) == x
  {
    var q1, r1 := x / 0x100, x % 0x100;
    var q2, r2 := q1 / 0x100, q1 % 0x100;
    var q3, r3 := q2 / 0x100, q2 % 0x100;
    assert x == q1 * 0x100 + r1;
    assert q1 == q2 * 0x100 + r2;
    assert q2 == q3 * 0x100 + r3;
    assert q3 < 0x100 by {
      ShiftTwice(x);
    }
    ToBeBytesDigits(x);
    assert ToBeBytes(x) == [q3 as byte, r3 as byte, r2 as byte, r1 as byte];
  }

  /** Encoding the decoded value gives back the same four bytes. */
  lemma ToBeFromBe(b: bytes)
    requires |b| == 4
    ensures ToBeBytes(FromBeBytes(b)) == b
  {
    var x := FromBeBytes(b);
    var q1 := b[0] as int * 0x1_0000 + b[1] as int * 0x100 + b[2] as int;
    var q2 := b[0] as int * 0x100 + b[1] as int;
    assert x == q1 * 0x100 + b[3] as int;
    assert q1 == q2 * 0x100 + b[2] as int;
    assert x / 0x100 == q1 && x % 0x100 == b[3] as int;
    assert q1 / 0x100 == q2 && q1 % 0x100 == b[2] as int;
    assert q2 / 0x100 == b[0] as int && q2 % 0x100 == b[1] as int;
    assert b[0] as int % 0x100 == b[0] as int;
    ToBeBytesDigits(x);
  }

  /** Dividing by 2^8 twice divides by 2^16; by 2^16 and then 2^8 divides by 2^24. */
  lemma ShiftTwice(x: nat)
    ensures x / 0x100 / 0x100 == x / 0x1_0000
    ensures x / 0x1_0000 / 0x100 == x / 0x100_0000
  {
    var q := x / 0x1_0000;
    assert x == q * 0x1_0000 + x % 0x1_0000;
    assert x / 0x100 == q * 0x100 + (x % 0x1_0000) / 0x100;
    var p := x / 0x100_0000;
    assert x == p * 0x100_0000 + x % 0x100_0000;
    assert q == p * 0x100 + (x % 0x100_0000) / 0x1_0000;
  }

  predicate IsAscii(s: string) {
    forall i :: 0 <= i < |s| ==> s[i] as int < 0x80
  }

  /** The UTF-8 bytes of an ASCII string: one byte per character, with the same code. */
  function Ascii(s: string): (b: bytes)
    requires IsAscii(s)
    ensures |b| == |s|
    ensures forall i :: 0 <= i < |s| ==> b[i] as int == s[i] as int
  {
    seq(|s|, i requires 0 <= i < |s| => s[i] as int as byte)
  }

  predicate StartsWith(s: bytes, prefix: bytes) {
    |prefix| <= |s| && s[..|prefix|] == prefix
  }

  lemma AppendNothing<T>(x: seq<T>)
    ensures x + [] == x
  {
  }

  lemma PrependNothing<T>(x: seq<T>)
    ensures [] + x == x
  {
  }

  lemma DropAppend<T>(x: seq<T>, y: seq<T>)
    ensures (x + y)[|x|..] == y
  {
  }

  lemma AppendAssoc<T>(x: seq<T>, y: seq<T>, z: seq<T>)
    ensures (x + y) + z == x + (y + z)
  {
  }
}
