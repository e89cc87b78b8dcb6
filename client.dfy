/** The client: the handshake it runs right after connecting, the reader thread that logs
    what the server relays until the connection ends, and the send path of the chat window. */
module Client {
  import opened Bytes
  import Net
  import Crypto
  import opened Protocol

  /** The handshake of `run_client_with_tui` on a fresh connection `s`: HELLO in a plaintext
      frame, then one read of the server's challenge frame and, when that frame is UTF-8 and
      starts with "CHAL:", the echo of the challenge sealed under `nonce` with the local
      user's name. `proceed` says whether the client goes on to the chat; it does so even
      when no challenge came, and gives up only when a write fails. */
  method Handshake(s: Net.Stream, c: Crypto.Cipher, j: Crypto.Json, username: bytes, nonce: Crypto.Nonce)
    returns (proceed: bool)
    requires c.aead.Correct()
    modifies s
    ensures proceed == s.writable
    ensures !proceed ==> s.incoming == old(s.incoming) && s.outgoing == old(s.outgoing)
    ensures proceed ==>
              var (frame, rest) := Net.ReadFrame(old(s.incoming));
              && s.incoming == rest
              && s.outgoing == old(s.outgoing) + Net.Frame(Hello) + ClientReply(c, j, frame, nonce, username)
  {
    var ok := Net.WritePlain(s, Hello);
    if !ok {
      return false;
    }
    ghost var written := s.outgoing;
    var frame := Net.ReadPlain(s);
    var challenge := ClientChallenge(frame);
    if challenge.Some? {
      proceed := Crypto.SendEncrypted(s, challenge.value, c, username, nonce, j);
    } else {
      proceed := true;
      AppendNothing(written);
    }
  }

  /** Both ends of the handshake agree: when the server's challenge frame reaches the client
      and the client's answer reaches the server, the server establishes the connection and
      leaves the bytes after the answer to its reader loop. */
  lemma HandshakesAgree(c: Crypto.Cipher, j: Crypto.Json, rand: ChallengeBytes, nonce: Crypto.Nonce,
                        username: bytes, later: bytes, rest: bytes)
    requires c.aead.Correct() && j.RoundTrips()
    requires |j.serialize(Crypto.Seal(c, nonce, ChallengeText(rand), username))| < U32Limit
    ensures var challengeFrame := Net.ReadFrame(Net.Frame(ChallengeMessage(rand)) + later).0;
            var serverIn := Net.Frame(Hello) + ClientReply(c, j, challengeFrame, nonce, username) + rest;
            && ChallengeSent(true, true, serverIn, rand) == Net.Frame(ChallengeMessage(rand))
            && ServerHandshake(c, j, true, true, serverIn, rand) == (Established, rest)
  {
    ClientReadsChallenge(rand);
    Net.FrameRoundTrip(ChallengeMessage(rand), later);
    HonestClientIsEstablished(c, j, rand, nonce, username, rest);
  }

  /** The state the client's threads share: the chat log, the flag the reader raises when
      the server goes away, and the connection (read by the reader thread, written by the
      chat window's send closure). */
  class ChatClient {
    var messages: seq<Message>
    var shutdown: bool
    const conn: Net.Stream
    const cipher: Crypto.Cipher
    const json: Crypto.Json
    const username: bytes

    constructor (conn: Net.Stream, cipher: Crypto.Cipher, json: Crypto.Json, username: bytes)
      ensures messages == [] && !shutdown
      ensures this.conn == conn && this.cipher == cipher && this.json == json && this.username == username
    {
      this.conn := conn;
      this.cipher := cipher;
      this.json := json;
      this.username := username;
      messages := [];
      shutdown := false;
    }

    /** The reader thread: every message read is logged in order; the first failed read logs
        that the server has shut down, raises `shutdown` and ends the thread. */
    method RunReader()
      modifies this, conn
      ensures var (got, left) := Session(cipher, json, old(conn.incoming));
              && messages == old(messages) + got + [Message(System, ShutdownText)]
              && conn.incoming == left
      ensures shutdown
      ensures conn.outgoing == old(conn.outgoing)
    {
      ghost var got: seq<Message> := [];
      PrependNothing(Session(cipher, json, conn.incoming).0);
      while true
        invariant Session(cipher, json, old(conn.incoming))
                  == (got + Session(cipher, json, conn.incoming).0, Session(cipher, json, conn.incoming).1)
        invariant messages == old(messages) + got
        invariant conn.outgoing == old(conn.outgoing)
        decreases |conn.incoming|
      {
        var r := ReadNext(old(conn.incoming), got);
        if r.None? {
          break;
        }
        got := got + [Message(r.value.0, r.value.1)];
      }
      messages := messages + [Message(System, ShutdownText)];
      shutdown := true;
    }

    /** One pass of the reader loop, which has logged `got` since the stream held `start`:
        one `read_one_encrypted`, and the message read is logged. */
    method ReadNext(ghost start: bytes, ghost got: seq<Message>) returns (r: Option<(bytes, bytes)>)
      requires Session(cipher, json, start) == (got + Session(cipher, json, conn.incoming).0, Session(cipher, json, conn.incoming).1)
      modifies this`messages, conn
      ensures (r, conn.incoming) == Crypto.Receive(cipher, json, old(conn.incoming))
      ensures r.None? ==> messages == old(messages) && Session(cipher, json, start) == (got, conn.incoming)
      ensures r.Some? ==>
                && messages == old(messages) + [Message(r.value.0, r.value.1)]
                && Session(cipher, json, start)
                   == ((got + [Message(r.value.0, r.value.1)]) + Session(cipher, json, conn.incoming).0,
                       Session(cipher, json, conn.incoming).1)
      ensures conn.outgoing == old(conn.outgoing)
    {
      SessionStep(cipher, json, start, got, conn.incoming);
      r := Crypto.ReadOneEncrypted(conn, cipher, json);
      if r.Some? {
        messages := messages + [Message(r.value.0, r.value.1)];
      }
    }

    /** The send closure the chat window calls with a typed line: the line sealed under
        `nonce` with the local user's name; a failed send is ignored and nothing is logged. */
    method Send(text: bytes, nonce: Crypto.Nonce)
      requires cipher.aead.Correct()
      modifies conn
      ensures conn.outgoing == old(conn.outgoing)
                               + (if conn.writable then Crypto.SealedFrame(cipher, json, nonce, text, username) else [])
      ensures conn.incoming == old(conn.incoming)
    {
      var _ := Crypto.SendEncrypted(conn, text, cipher, username, nonce, json);
    }
  }
}
