/** UTF-8 well-formedness as Rust's `String::from_utf8` checks it, and the replacement that
    `String::from_utf8_lossy` performs: each maximal ill-formed subpart becomes U+FFFD
    (the "substitution of maximal subparts" of section 3.9 of the Unicode Standard). */
module Utf8 {
  import opened Bytes

  /** The range every continuation byte after the first one falls in. */
  const Tail: (byte, byte) := (0x80, 0xBF)

  /** For a lead byte, the ranges its continuation bytes must fall in, in order (table 3-7 of
      the Unicode Standard, section 4 of RFC 3629); None for a byte that cannot start a character. */
  function Continuations(lead: byte): Option<seq<(byte, byte)>>
  {
    if lead < 0x80 then Some([])
    else if 0xC2 <= lead <= 0xDF then Some([Tail])
    else if lead == 0xE0 then Some([(0xA0, 0xBF), Tail])
    else if 0xE1 <= lead <= 0xEC || 0xEE <= lead <= 0xEF then Some([Tail, Tail])
    else if lead == 0xED then Some([(0x80, 0x9F), Tail])
    else if lead == 0xF0 then Some([(0x90, 0xBF), Tail, Tail])
    else if 0xF1 <= lead <= 0xF3 then Some([Tail, Tail, Tail])
    else if lead == 0xF4 then Some([(0x80, 0x8F), Tail, Tail])
    else None
  }

  /** How many leading bytes of `b` fall, one by one, in the successive `ranges`. */
  function Matching(b: bytes, ranges: seq<(byte, byte)>): (k: nat)
    ensures k <= |b| && k <= |ranges|
    ensures forall i :: 0 <= i < k ==> ranges[i].0 <= b[i] <= ranges[i].1
    ensures k < |b| && k < |ranges| ==> !(ranges[k].0 <= b[k] <= ranges[k].1)
  {
    if b == [] || ranges == [] || !(ranges[0].0 <= b[0] <= ranges[0].1) then 0
    else 1 + Matching(b[1..], ranges[1..])
  }

  /** The first piece of a non-empty byte sequence: a whole character (`complete`), or else
      the longest start of one that the input does not finish (at least one byte). */
  datatype Chunk = Chunk(complete: bool, len: nat)

  function FirstChunk(b: bytes): (c: Chunk)
    requires b != []
    ensures 1 <= c.len <= |b|
    ensures c.complete ==> Continuations(b[0]).Some? && c.len == 1 + |Continuations(b[0]).value|
  {
    match Continuations(b[0])
    case None => Chunk(false, 1)
    case Some(ranges) =>
      var k := Matching(b[1..], ranges);
      Chunk(k == |ranges|, 1 + k)
  }

  /** `String::from_utf8(b)` succeeds. */
  predicate Valid(b: bytes)
    decreases |b|
  {
    b == [] || (FirstChunk(b).complete && Valid(b[FirstChunk(b).len..]))
  }

  /** U+FFFD REPLACEMENT CHARACTER in UTF-8. */
  const Replacement: bytes := [0xEF, 0xBF, 0xBD]

  /** `String::from_utf8_lossy(b)`, as bytes. */
  function Lossy(b: bytes): (r: bytes)
    decreases |b|
  {
    if b == [] then []
    else
      var c := FirstChunk(b);
      (if c.complete then b[..c.len] else Replacement) + Lossy(b[c.len..])
  }

  /** Whether a character is complete depends only on its own bytes, not on what follows. */
  lemma {:induction false} MatchingOfPrefix(b: bytes, ranges: seq<(byte, byte)>, y: bytes)
    requires Matching(b, ranges) == |ranges|
    ensures Matching(b[..|ranges|] + y, ranges) == |ranges|
  {
    if ranges != [] {
      assert (b[..|ranges|] + y)[1..] == b[1..][..|ranges| - 1] + y;
      MatchingOfPrefix(b[1..], ranges[1..], y);
    }
  }

  lemma ChunkOfPrefix(b: bytes, y: bytes)
    requires b != [] && FirstChunk(b).complete
    ensures FirstChunk(b[..FirstChunk(b).len] + y) == FirstChunk(b)
  {
    var n := FirstChunk(b).len;
    var ranges := Continuations(b[0]).value;
    assert (b[..n] + y)[1..] == b[1..][..|ranges|] + y;
    MatchingOfPrefix(b[1..], ranges, y);
  }

  /** A whole character followed by well-formed bytes is well-formed. */
  lemma ValidAfterChunk(b: bytes, y: bytes)
    requires b != [] && FirstChunk(b).complete && Valid(y)
    ensures Valid(b[..FirstChunk(b).len] + y)
  {
    var n := FirstChunk(b).len;
    ChunkOfPrefix(b, y);
    assert (b[..n] + y)[n..] == y;
  }

  lemma ReplacementIsChunk(y: bytes)
    ensures FirstChunk(Replacement + y) == Chunk(true, 3)
    ensures (Replacement + y)[..3] == Replacement
  {
    var b := Replacement + y;
    assert b[1..][0] == 0xBF && b[1..][1] == 0xBD;
    assert Matching(b[1..][2..], []) == 0;
    assert Matching(b[1..][1..], [Tail]) == 1;
  }

  /** `from_utf8_lossy` always produces a well-formed `String`. */
  lemma {:induction false} LossyIsValid(b: bytes)
    ensures Valid(Lossy(b))
    decreases |b|
  {
    if b != [] {
      var c := FirstChunk(b);
      LossyIsValid(b[c.len..]);
      if c.complete {
        ValidAfterChunk(b, Lossy(b[c.len..]));
      } else {
        var y := Lossy(b[c.len..]);
        ReplacementIsChunk(y);
        ValidAfterChunk(Replacement + y, y);
      }
    }
  }

  /** `from_utf8_lossy` is the identity exactly on the inputs `from_utf8` accepts. */
  lemma {:induction false} LossyIdentityIffValid(b: bytes)
    ensures Lossy(b) == b <==> Valid(b)
    decreases |b|
  {
    if b != [] {
      var c := FirstChunk(b);
      LossyIdentityIffValid(b[c.len..]);
      if c.complete {
        LossyKeepsChunk(b);
      } else {
        assert !Valid(b);
        LossyDiffers(b);
      }
    }
  }

  /** After a whole first character, `from_utf8_lossy` is the identity on the input exactly
      when it is the identity on the rest. */
  lemma LossyKeepsChunk(b: bytes)
    requires b != [] && FirstChunk(b).complete
    ensures Lossy(b) == b <==> Lossy(b[FirstChunk(b).len..]) == b[FirstChunk(b).len..]
  {
    var n := FirstChunk(b).len;
    SplitIff(b, n, Lossy(b[n..]));
  }

  /** A sequence is its first `n` elements followed by `y` exactly when `y` is the rest. */
  lemma SplitIff(b: bytes, n: nat, y: bytes)
    requires n <= |b|
    ensures b[..n] + y == b <==> y == b[n..]
  {
    if b[..n] + y == b {
      assert y == (b[..n] + y)[n..];
    } else {
      assert b[..n] + b[n..] == b;
    }
  }

  /** Where a character is broken, the replacement never reproduces the input. */
  lemma LossyDiffers(b: bytes)
    requires b != [] && !FirstChunk(b).complete
    ensures Lossy(b) != b
  {
    var c := FirstChunk(b);
    var tail := Lossy(b[c.len..]);
    assert Lossy(b) == Replacement + tail;
    if |b| >= 3 && b[..3] == Replacement {
      assert b == Replacement + b[3..];
      ReplacementIsChunk(b[3..]);
      assert false;
    }
    if |b| >= 3 {
      assert Lossy(b)[..3] == Replacement;
    } else {
      assert |Lossy(b)| >= 3;
    }
  }

  /** Every ASCII byte is a whole character. */
  lemma {:induction false} AsciiIsValid(b: bytes)
    requires forall i :: 0 <= i < |b| ==> b[i] < 0x80
    ensures Valid(b)
  {
    if b != [] {
      assert FirstChunk(b) == Chunk(true, 1);
      AsciiIsValid(b[1..]);
    }
  }

  /** Well-formed UTF-8 followed by well-formed UTF-8 is well-formed. */
  lemma {:induction false} ValidConcat(x: bytes, y: bytes)
    requires Valid(x) && Valid(y)
    ensures Valid(x + y)
    decreases |x|
  {
    if x == [] {
      assert x + y == y;
    } else {
      var n := FirstChunk(x).len;
      ValidConcat(x[n..], y);
      ValidAfterChunk(x, x[n..] + y);
      Regroup(x, n, y);
    }
  }

  lemma Regroup(x: bytes, n: nat, y: bytes)
    requires n <= |x|
    ensures x + y == x[..n] + (x[n..] + y)
  {
    assert x == x[..n] + x[n..];
  }
}
