/** Length-prefixed framing over a TCP stream: a frame is the payload length as a big-endian
    `u32`, then the payload bytes. */
module Net {
  import opened Bytes

  /** One end of a TCP connection. `incoming` holds the bytes the peer sends before the stream
      ends (EOF, reset, or a read deadline passing); `outgoing` holds the bytes written so far.
      Writes all succeed or all fail, according to `writable`. */
  class Stream {
    var incoming: bytes
    var outgoing: bytes
    const writable: bool

    constructor (incoming: bytes, writable: bool)
      ensures this.incoming == incoming && this.outgoing == [] && this.writable == writable
    {
      this.incoming := incoming;
      this.outgoing := [];
      this.writable := writable;
    }

    /** `read_exact`: fills `buf` from the stream, or fails once the stream ends first, having
        consumed everything that was left. */
    method ReadExact(buf: array<byte>) returns (ok: bool)
      modifies this, buf
      ensures ok == (buf.Length <= |old(incoming)|)
      ensures ok ==> buf[..] == old(incoming)[..buf.Length] && incoming == old(incoming)[buf.Length..]
      ensures !ok ==> incoming == []
      ensures outgoing == old(outgoing)
    {
      var i := 0;
      while i < buf.Length && incoming != []
        invariant 0 <= i <= buf.Length
        invariant i <= |old(incoming)|
        invariant buf[..i] == old(incoming)[..i]
        invariant incoming == old(incoming)[i..]
        invariant outgoing == old(outgoing)
      {
        buf[i] := incoming[0];
        incoming := incoming[1..];
        i := i + 1;
      }
      ok := i == buf.Length;
      if ok {
        assert buf[..] == buf[..i];
      }
    }

    /** `write_all`. */
    method WriteAll(data: bytes) returns (ok: bool)
      modifies this
      ensures ok == writable
      ensures outgoing == old(outgoing) + (if ok then data else [])
      ensures incoming == old(incoming)
    {
      ok := writable;
      if ok {
        outgoing := outgoing + data;
      }
    }
  }

  /** The bytes `write_plain` puts on the wire for `data`. */
  function Frame(data: bytes): (f: bytes)
    ensures |f| == 4 + |data|
  {
    ToBeBytes(AsU32(|data|)) + data
  }

  /** What `read_plain` returns from a stream holding `input`, and what it leaves unread. */
  function ReadFrame(input: bytes): (r: (Option<bytes>, bytes))
    ensures r.0.Some? ==> |r.1| + 4 + |r.0.value| == |input|
    ensures r.0.Some? ==> |r.1| < |input|
    ensures r.0.Some? <==> 4 <= |input| && FromBeBytes(input[..4]) <= |input| - 4
    ensures r.0.None? ==> r.1 == []
  {
    if |input| < 4 then (None, [])
    else
      var n := FromBeBytes(input[..4]);
      if |input| - 4 < n then (None, [])
      else (Some(input[4..4 + n]), input[4 + n..])
  }

  /** `write_plain`: the length prefix, then the payload (`flush` on a TCP stream does nothing). */
  method WritePlain(s: Stream, data: bytes) returns (ok: bool)
    modifies s
    ensures ok == s.writable
    ensures s.outgoing == old(s.outgoing) + (if ok then Frame(data) else [])
    ensures s.incoming == old(s.incoming)
  {
    var lenBytes := ToBeBytes(AsU32(|data|));
    ok := s.WriteAll(lenBytes);
    if ok {
      ok := s.WriteAll(data);
      AppendAssoc(old(s.outgoing), lenBytes, data);
    } else {
      AppendNothing(old(s.outgoing));
    }
  }

  /** `read_plain`: four length bytes into `len_buf`, then exactly that many into `buffer`. */
  method ReadPlain(s: Stream) returns (r: Option<bytes>)
    modifies s
    ensures (r, s.incoming) == ReadFrame(old(s.incoming))
    ensures s.outgoing == old(s.outgoing)
  {
    ghost var input := s.incoming;
    var lenBuf := new byte[4];
    var ok := s.ReadExact(lenBuf);
    if !ok {
      return None;
    }
    var msgLen := FromBeBytes(lenBuf[..]);
    assert msgLen == FromBeBytes(input[..4]);
    var buffer := new byte[msgLen];
    ok := s.ReadExact(buffer);
    if !ok {
      return None;
    }
    r := Some(buffer[..]);
    assert input[4..][..msgLen] == input[4..4 + msgLen];
    assert input[4..][msgLen..] == input[4 + msgLen..];
  }

  /** Reading back what `write_plain` wrote gives the payload and leaves what follows unread. */
  lemma FrameRoundTrip(data: bytes, rest: bytes)
    requires |data| < U32Limit
    ensures ReadFrame(Frame(data) + rest) == (Some(data), rest)
  {
    var input := Frame(data) + rest;
    assert input[..4] == ToBeBytes(|data|);
    FromBeToBe(|data|);
    assert input[4..4 + |data|] == data;
    assert input[4 + |data|..] == rest;
  }

  /** Conversely, every frame `read_plain` accepts is one `write_plain` could have written. */
  lemma FrameOfRead(input: bytes)
    requires ReadFrame(input).0.Some?
    ensures input == Frame(ReadFrame(input).0.value) + ReadFrame(input).1
  {
    var (p, rest) := ReadFrame(input);
    ToBeFromBe(input[..4]);
    assert input == input[..4] + p.value + rest;
  }

  /** A payload of 2^32 bytes or more gets a wrapped length prefix and does not come back. */
  lemma OversizedFrameIsLost(data: bytes)
    requires |data| >= U32Limit
    ensures ReadFrame(Frame(data)).0 != Some(data)
  {
    var input := Frame(data);
    assert input[..4] == ToBeBytes(AsU32(|data|));
    FromBeToBe(AsU32(|data|));
  }
}
