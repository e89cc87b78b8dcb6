/** The handshake both sides run before any chat traffic (HELLO, challenge, encrypted echo),
    the texts of the System notices, and what a reader loop takes from a stream. */
module Protocol {
  import opened Bytes
  import Utf8
  import Hex
  import Net
  import Crypto

  /** The token a client sends first, in a plaintext frame: "HELLO-ANTIMPEU". */
  const Hello: bytes := [0x48, 0x45, 0x4C, 0x4C, 0x4F, 0x2D, 0x41, 0x4E, 0x54, 0x49, 0x4D, 0x50, 0x45, 0x55]
  /** What the server's plaintext challenge frame starts with: "CHAL:". */
  const ChalPrefix: bytes := [0x43, 0x48, 0x41, 0x4C, 0x3A]

  /** The 12 random bytes a challenge is made of. */
  type ChallengeBytes = b: bytes | |b| == 12 witness [0, 0, 0, 0, 0, 0, 0, 0, 0, 0, 0, 0]

  /** A line of the chat log (`tui::Message` without its timestamp). */
  datatype Message = Message(sender: bytes, text: bytes)

  const System: bytes := Ascii("System")
  const ServerName: bytes := Ascii("Server")
  const ShutdownText: bytes := Ascii("Server has shut down")

  function NewConnectionText(peer: bytes): bytes { Ascii("New connection from ") + peer }
  function DisconnectedText(peer: bytes): bytes { Ascii("Disconnected from ") + peer }

  /** Why the server refused a connection. */
  datatype Refusal =
    | CloneFailed  // `try_clone` failed: dropped without a notice
    | NoHello      // "Refused connection from {peer}."
    | WriteFailed  // "... (handshake write failed)"
    | NoReply      // "... (no handshake reply)"
    | Mismatch     // "... (handshake mismatch)"

  datatype Verdict = Established | Refused(reason: Refusal)

  const RefusedFrom: bytes := Ascii("Refused connection from ")
  const NoHelloEnd: bytes := Ascii(".")
  const WriteFailedEnd: bytes := Ascii(" (handshake write failed)")
  const NoReplyEnd: bytes := Ascii(" (no handshake reply)")
  const MismatchEnd: bytes := Ascii(" (handshake mismatch)")

  /** The System notice for a verdict, if it has one. */
  function RefusalNotice(peer: bytes, v: Verdict): (notice: seq<bytes>)
    ensures |notice| <= 1
    ensures notice == [] <==> v == Established || v == Refused(CloneFailed)
  {
    match v
    case Established => []
    case Refused(CloneFailed) => []
    case Refused(NoHello) => [RefusedFrom + peer + NoHelloEnd]
    case Refused(WriteFailed) => [RefusedFrom + peer + WriteFailedEnd]
    case Refused(NoReply) => [RefusedFrom + peer + NoReplyEnd]
    case Refused(Mismatch) => [RefusedFrom + peer + MismatchEnd]
  }

  /** `hello_ok`: the first frame was read, is UTF-8, and is exactly the HELLO token. */
  function HelloOk(frame: Option<bytes>): (ok: bool)
    ensures ok <==> frame == Some(Hello)
  {
    HelloIsValid();
    frame.Some? && Utf8.Valid(frame.value) && frame.value == Hello
  }

  lemma ChalPrefixIsValid()
    ensures Utf8.Valid(ChalPrefix)
  {
    var b := ChalPrefix;
    assert forall i :: 0 <= i < |b| ==> b[i] < 0x80;
    Utf8.AsciiIsValid(b);
  }

  lemma HelloIsValid()
    ensures Utf8.Valid(Hello)
  {
    var b := Hello;
    assert forall i :: 0 <= i < |b| ==> b[i] < 0x80;
    Utf8.AsciiIsValid(b);
  }

  /** The challenge string: the random bytes in lower-case hex. */
  function ChallengeText(rand: ChallengeBytes): bytes
  {
    Hex.Encode(rand)
  }

  /** The plaintext challenge frame's payload, `format!("CHAL:{}", challenge)`. */
  function ChallengeMessage(rand: ChallengeBytes): bytes
  {
    ChalPrefix + ChallengeText(rand)
  }

  /** The server side of the handshake on a connection whose incoming bytes are `input` and
      whose writes succeed when `writable`: the verdict, and what is left unread. */
  function ServerHandshake(c: Crypto.Cipher, j: Crypto.Json, cloneOk: bool, writable: bool,
                           input: bytes, rand: ChallengeBytes): (r: (Verdict, bytes))
    ensures r.0 == Established <==>
              && cloneOk && writable
              && Net.ReadFrame(input).0 == Some(Hello)
              && Crypto.Receive(c, j, Net.ReadFrame(input).1).0.Some?
              && Crypto.Receive(c, j, Net.ReadFrame(input).1).0.value.1 == ChallengeText(rand)
    ensures !cloneOk ==> r == (Refused(CloneFailed), input)
    ensures cloneOk && Net.ReadFrame(input).0 != Some(Hello) ==> r.0 == Refused(NoHello)
    ensures cloneOk && Net.ReadFrame(input).0 == Some(Hello) && !writable ==> r.0 == Refused(WriteFailed)
    ensures (cloneOk && Net.ReadFrame(input).0 == Some(Hello) && writable
             && Crypto.Receive(c, j, Net.ReadFrame(input).1).0.None?) ==> r.0 == Refused(NoReply)
    ensures (cloneOk && Net.ReadFrame(input).0 == Some(Hello) && writable
             && Crypto.Receive(c, j, Net.ReadFrame(input).1).0.Some?
             && Crypto.Receive(c, j, Net.ReadFrame(input).1).0.value.1 != ChallengeText(rand)) ==> r.0 == Refused(Mismatch)
    ensures r.0 == Established ==> r.1 == Crypto.Receive(c, j, Net.ReadFrame(input).1).1
  {
    if !cloneOk then (Refused(CloneFailed), input)
    else
      var (hello, afterHello) := Net.ReadFrame(input);
      if !HelloOk(hello) then (Refused(NoHello), afterHello)
      else if !writable then (Refused(WriteFailed), afterHello)
      else
        var (reply, afterReply) := Crypto.Receive(c, j, afterHello);
        if reply.None? then (Refused(NoReply), afterReply)
        else if reply.value.1 != ChallengeText(rand) then (Refused(Mismatch), afterReply)
        else (Established, afterReply)
  }

  /** What the server writes during the handshake: the challenge frame, once HELLO has
      arrived and only if the connection takes writes. */
  function ChallengeSent(cloneOk: bool, writable: bool, input: bytes, rand: ChallengeBytes): (out: bytes)
    ensures out != [] <==> cloneOk && writable && Net.ReadFrame(input).0 == Some(Hello)
  {
    if cloneOk && Net.ReadFrame(input).0 == Some(Hello) && writable then Net.Frame(ChallengeMessage(rand)) else []
  }

  /** `trim_start_matches(p)`: removes every leading repetition of `p`, not just one. */
  function TrimStartMatches(s: bytes, p: bytes): (r: bytes)
    requires p != []
    decreases |s|
  {
    if StartsWith(s, p) then TrimStartMatches(s[|p|..], p) else s
  }

  function Repeat(p: bytes, k: nat): bytes
  {
    if k == 0 then [] else p + Repeat(p, k - 1)
  }

  /** What `trim_start_matches` leaves does not start with `p`, and is what follows some
      number of copies of `p`. */
  lemma {:induction false} TrimStartMatchesStrips(s: bytes, p: bytes) returns (k: nat)
    requires p != []
    ensures s == Repeat(p, k) + TrimStartMatches(s, p)
    ensures !StartsWith(TrimStartMatches(s, p), p)
    decreases |s|
  {
    if StartsWith(s, p) {
      var k' := TrimStartMatchesStrips(s[|p|..], p);
      k := k' + 1;
      assert s == p + s[|p|..];
    } else {
      k := 0;
    }
  }

  /** The client's reading of the server's first frame: the challenge to echo, when the frame
      was read, is UTF-8 and starts with "CHAL:". */
  function ClientChallenge(frame: Option<bytes>): (r: Option<bytes>)
    ensures r.Some? <==> frame.Some? && Utf8.Valid(frame.value) && StartsWith(frame.value, ChalPrefix)
  {
    if frame.Some? && Utf8.Valid(frame.value) && StartsWith(frame.value, ChalPrefix)
    then Some(TrimStartMatches(frame.value, ChalPrefix))
    else None
  }

  /** The bytes the client writes after HELLO, having read `frame`: the challenge sealed under
      the shared key with the local user's name, or nothing when there is no challenge. */
  function ClientReply(c: Crypto.Cipher, j: Crypto.Json, frame: Option<bytes>, nonce: Crypto.Nonce, username: bytes)
    : (reply: bytes)
    requires c.aead.Correct()
    ensures ClientChallenge(frame).None? <==> reply == []
  {
    match ClientChallenge(frame)
    case None => []
    case Some(challenge) => Crypto.SealedFrame(c, j, nonce, challenge, username)
  }

  /** The server's challenge frame is 29 bytes of UTF-8 (its hex part 24 lower-case digits),
      and the client reads back exactly the challenge string from it. */
  lemma ClientReadsChallenge(rand: ChallengeBytes)
    ensures |ChallengeText(rand)| == 24 && |ChallengeMessage(rand)| == 29
    ensures Utf8.Valid(ChallengeText(rand)) && Utf8.Valid(ChallengeMessage(rand))
    ensures ClientChallenge(Some(ChallengeMessage(rand))) == Some(ChallengeText(rand))
  {
    var text := ChallengeText(rand);
    var m := ChallengeMessage(rand);
    assert forall i :: 0 <= i < |m| ==> m[i] < 0x80 by {
      forall i | 0 <= i < |m| ensures m[i] < 0x80 {
        if i >= 5 { assert m[i] == text[i - 5]; }
      }
    }
    Utf8.AsciiIsValid(m);
    Utf8.AsciiIsValid(text);
    assert m[..5] == ChalPrefix;
    assert m[5..] == text;
    assert Hex.IsLowerDigit(text[0]) && ChalPrefix[0] == 0x43;
    assert text[..5][0] != ChalPrefix[0];
    assert !StartsWith(text, ChalPrefix);
    assert StartsWith(m, ChalPrefix);
    assert TrimStartMatches(m, ChalPrefix) == TrimStartMatches(text, ChalPrefix) == text;
  }

  /** A UTF-8 frame that starts with "CHAL:" is answered with what follows the prefix, itself
      stripped of any further leading "CHAL:". */
  lemma ChallengeAfterPrefix(x: bytes)
    requires Utf8.Valid(x)
    ensures ClientChallenge(Some(ChalPrefix + x)) == Some(TrimStartMatches(x, ChalPrefix))
  {
    ChalPrefixIsValid();
    Utf8.ValidConcat(ChalPrefix, x);
    TrimOnce(ChalPrefix, x);
  }

  /** A string made of `p` and then `x` starts with `p`, and trimming copies of `p` from it
      goes on with `x`. */
  lemma TrimOnce(p: bytes, x: bytes)
    requires p != []
    ensures StartsWith(p + x, p)
    ensures TrimStartMatches(p + x, p) == TrimStartMatches(x, p)
  {
    assert (p + x)[..|p|] == p;
    assert (p + x)[|p|..] == x;
  }

  /** `trim_start_matches` removes a doubled prefix entirely, as "CHAL:CHAL:x" becomes "x". */
  lemma RepeatedPrefixStripped(p: bytes, x: bytes)
    requires p != [] && !StartsWith(x, p)
    ensures TrimStartMatches(p + p + x, p) == x
  {
    assert p + p + x == p + (p + x);
    TrimOnce(p, p + x);
    TrimOnce(p, x);
  }

  /** A client that sends HELLO and then echoes the challenge it read, encrypted under the
      shared key, is established, and what follows its reply is left for the reader loop. */
  lemma HonestClientIsEstablished(c: Crypto.Cipher, j: Crypto.Json, rand: ChallengeBytes,
                                  nonce: Crypto.Nonce, username: bytes, rest: bytes)
    requires c.aead.Correct() && j.RoundTrips()
    requires |j.serialize(Crypto.Seal(c, nonce, ChallengeText(rand), username))| < U32Limit
    ensures ClientReply(c, j, Some(ChallengeMessage(rand)), nonce, username)
            == Crypto.SealedFrame(c, j, nonce, ChallengeText(rand), username)
    ensures ServerHandshake(c, j, true, true,
              Net.Frame(Hello) + ClientReply(c, j, Some(ChallengeMessage(rand)), nonce, username) + rest, rand)
            == (Established, rest)
  {
    ClientReadsChallenge(rand);
    var text := ChallengeText(rand);
    var reply := Crypto.SealedFrame(c, j, nonce, text, username);
    var input := Net.Frame(Hello) + reply + rest;
    assert input == Net.Frame(Hello) + (reply + rest);
    Net.FrameRoundTrip(Hello, reply + rest);
    assert Net.ReadFrame(input) == (Some(Hello), reply + rest);
    Crypto.SendThenReceive(c, j, nonce, text, username, rest);
    assert Crypto.Receive(c, j, reply + rest) == (Some((username, text)), rest);
  }

  /** A connection whose first frame is "WRONG-TOKEN" is refused for want of a HELLO. */
  lemma WrongTokenIsRefused(c: Crypto.Cipher, j: Crypto.Json, writable: bool, rest: bytes, rand: ChallengeBytes)
    ensures ServerHandshake(c, j, true, writable, Net.Frame(Ascii("WRONG-TOKEN")) + rest, rand).0 == Refused(NoHello)
  {
    Net.FrameRoundTrip(Ascii("WRONG-TOKEN"), rest);
    assert Ascii("WRONG-TOKEN")[0] != Hello[0];
  }

  /** The keyless envelope of `Crypto.ShortNonceEnvelope`, sent as the handshake reply after
      HELLO, reaches `read_one_encrypted` on the accept thread, where the code as written
      panics; here the connection is refused for want of a reply, and what follows is left. */
  lemma ShortNonceReplyIsRefused(c: Crypto.Cipher, j: Crypto.Json, rand: ChallengeBytes, rest: bytes)
    requires j.RoundTrips()
    requires |j.serialize(Crypto.ShortNonceEnvelope)| < U32Limit
    ensures var reply := j.serialize(Crypto.ShortNonceEnvelope);
            && Crypto.OpenAsWritten(c, j, reply) == Crypto.Panics
            && ServerHandshake(c, j, true, true, Net.Frame(Hello) + Net.Frame(reply) + rest, rand) == (Refused(NoReply), rest)
  {
    var reply := j.serialize(Crypto.ShortNonceEnvelope);
    Crypto.ShortNoncePanics(c, j);
    var input := Net.Frame(Hello) + Net.Frame(reply) + rest;
    assert input == Net.Frame(Hello) + (Net.Frame(reply) + rest);
    Net.FrameRoundTrip(Hello, Net.Frame(reply) + rest);
    Net.FrameRoundTrip(reply, rest);
    HelloIsValid();
  }

  /** What a reader loop logs from a stream holding `input` before its first failed read, and
      what that failed read leaves unread. */
  function Session(c: Crypto.Cipher, j: Crypto.Json, input: bytes): (r: (seq<Message>, bytes))
    decreases |input|
  {
    var (got, rest) := Crypto.Receive(c, j, input);
    match got
    case None => ([], rest)
    case Some((sender, text)) =>
      var (later, left) := Session(c, j, rest);
      ([Message(sender, text)] + later, left)
  }

  /** One read of a reader loop that has logged `got` from a stream that held `start` and now
      holds `input`: a successful read moves one message from what is still to be logged to
      what was logged, and a failed read ends the session where it stands. */
  lemma SessionStep(c: Crypto.Cipher, j: Crypto.Json, start: bytes, got: seq<Message>, input: bytes)
    requires Session(c, j, start) == (got + Session(c, j, input).0, Session(c, j, input).1)
    ensures var (r, rest) := Crypto.Receive(c, j, input);
            && (r.None? ==> Session(c, j, start) == (got, rest))
            && (r.Some? ==> Session(c, j, start)
                            == ((got + [Message(r.value.0, r.value.1)]) + Session(c, j, rest).0, Session(c, j, rest).1))
  {
    var received := Crypto.Receive(c, j, input);
    if received.0.None? {
      AppendNothing(got);
    } else {
      AppendAssoc(got, [Message(received.0.value.0, received.0.value.1)], Session(c, j, received.1).0);
    }
  }

  /** A reader loop logs, in order, every message sent to it as long as the frames are intact. */
  lemma {:induction false} SessionOfSent(c: Crypto.Cipher, j: Crypto.Json, nonces: seq<Crypto.Nonce>,
                                         sent: seq<Message>, tail: bytes)
    requires c.aead.Correct() && j.RoundTrips()
    requires |nonces| == |sent|
    requires forall k :: 0 <= k < |sent| ==> Utf8.Valid(sent[k].text)
    requires forall k :: 0 <= k < |sent| ==>
               |j.serialize(Crypto.Seal(c, nonces[k], sent[k].text, sent[k].sender))| < U32Limit
    requires Crypto.Receive(c, j, tail).0.None?
    ensures Session(c, j, SentFrames(c, j, nonces, sent) + tail) == (sent, Crypto.Receive(c, j, tail).1)
  {
    if sent == [] {
      PrependNothing(tail);
    } else {
      RestIsIntact(c, j, nonces, sent);
      SessionOfSent(c, j, nonces[1..], sent[1..], tail);
      SessionOfSentCons(c, j, nonces, sent, tail, Crypto.Receive(c, j, tail).1);
    }
  }

  /** What holds of every message of a series holds of the series after its first message. */
  lemma RestIsIntact(c: Crypto.Cipher, j: Crypto.Json, nonces: seq<Crypto.Nonce>, sent: seq<Message>)
    requires c.aead.Correct() && |nonces| == |sent| && sent != []
    requires forall k :: 0 <= k < |sent| ==> Utf8.Valid(sent[k].text)
    requires forall k :: 0 <= k < |sent| ==>
               |j.serialize(Crypto.Seal(c, nonces[k], sent[k].text, sent[k].sender))| < U32Limit
    ensures forall k :: 0 <= k < |sent| - 1 ==> Utf8.Valid(sent[1..][k].text)
    ensures forall k :: 0 <= k < |sent| - 1 ==>
              |j.serialize(Crypto.Seal(c, nonces[1..][k], sent[1..][k].text, sent[1..][k].sender))| < U32Limit
  {
    forall k | 0 <= k < |sent| - 1
      ensures Utf8.Valid(sent[1..][k].text)
      ensures |j.serialize(Crypto.Seal(c, nonces[1..][k], sent[1..][k].text, sent[1..][k].sender))| < U32Limit
    {
      assert sent[1..][k] == sent[k + 1] && nonces[1..][k] == nonces[k + 1];
    }
  }

  /** The first frame of a series is read first, then the rest of the series. */
  lemma SessionOfSentCons(c: Crypto.Cipher, j: Crypto.Json, nonces: seq<Crypto.Nonce>, sent: seq<Message>, tail: bytes,
                          left: bytes)
    requires c.aead.Correct() && j.RoundTrips()
    requires |nonces| == |sent| && sent != []
    requires Utf8.Valid(sent[0].text)
    requires |j.serialize(Crypto.Seal(c, nonces[0], sent[0].text, sent[0].sender))| < U32Limit
    requires Session(c, j, SentFrames(c, j, nonces[1..], sent[1..]) + tail) == (sent[1..], left)
    ensures Session(c, j, SentFrames(c, j, nonces, sent) + tail) == (sent, left)
  {
    var more := SentFrames(c, j, nonces[1..], sent[1..]);
    var first := Crypto.SealedFrame(c, j, nonces[0], sent[0].text, sent[0].sender);
    AppendAssoc(first, more, tail);
    SessionOfSentFrame(c, j, nonces[0], sent[0], more + tail);
    assert [sent[0]] + sent[1..] == sent;
  }

  /** A reader loop logs the message of an intact frame, then goes on with what follows it. */
  lemma SessionOfSentFrame(c: Crypto.Cipher, j: Crypto.Json, nonce: Crypto.Nonce, m: Message, rest: bytes)
    requires c.aead.Correct() && j.RoundTrips()
    requires Utf8.Valid(m.text)
    requires |j.serialize(Crypto.Seal(c, nonce, m.text, m.sender))| < U32Limit
    ensures Session(c, j, Crypto.SealedFrame(c, j, nonce, m.text, m.sender) + rest)
            == ([m] + Session(c, j, rest).0, Session(c, j, rest).1)
  {
    Crypto.SendThenReceive(c, j, nonce, m.text, m.sender, rest);
  }

  /** The frames `send_encrypted` writes for a series of messages, one nonce each. */
  function SentFrames(c: Crypto.Cipher, j: Crypto.Json, nonces: seq<Crypto.Nonce>, sent: seq<Message>): bytes
    requires c.aead.Correct() && |nonces| == |sent|
  {
    if sent == [] then []
    else Crypto.SealedFrame(c, j, nonces[0], sent[0].text, sent[0].sender) + SentFrames(c, j, nonces[1..], sent[1..])
  }

  lemma {:induction false} SentFramesSnoc(c: Crypto.Cipher, j: Crypto.Json, nonces: seq<Crypto.Nonce>, sent: seq<Message>,
                                          n: Crypto.Nonce, m: Message)
    requires c.aead.Correct() && |nonces| == |sent|
    ensures SentFrames(c, j, nonces + [n], sent + [m])
            == SentFrames(c, j, nonces, sent) + Crypto.SealedFrame(c, j, n, m.text, m.sender)
  {
    if sent == [] {
      assert nonces + [n] == [n] && sent + [m] == [m];
    } else {
      assert (nonces + [n])[1..] == nonces[1..] + [n];
      assert (sent + [m])[1..] == sent[1..] + [m];
      SentFramesSnoc(c, j, nonces[1..], sent[1..], n, m);
    }
  }
}
