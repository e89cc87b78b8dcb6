/** The server: the registry of established connections, the accept step with its handshake,
    the per-connection reader loop that relays and disconnects, and the broadcast of messages
    typed locally. Threads run one step at a time here. */
module Server {
  import opened Bytes
  import Net
  import Crypto
  import Utf8
  import opened Protocol

  /** A peer's address as `peer_addr().to_string()` prints it: the registry key. */
  type Addr = bytes

  /** What one `send_encrypted` writes for a message under a nonce. */
  type Sealer = (Crypto.Nonce, Message) -> bytes

  /** `seal` writes what `send_encrypted` writes under the shared key `c` and the JSON codec
      `j`: the frame of the encrypted envelope. */
  ghost predicate Seals(seal: Sealer, c: Crypto.Cipher, j: Crypto.Json)
  {
    && c.aead.Correct()
    && forall n: Crypto.Nonce, text: bytes, sender: bytes {:trigger Crypto.SealedFrame(c, j, n, text, sender)} ::
         seal(n, Message(sender, text)) == Crypto.SealedFrame(c, j, n, text, sender)
  }

  /** The sealer of the shared key and the JSON codec. */
  function SealWith(c: Crypto.Cipher, j: Crypto.Json): (seal: Sealer)
    requires c.aead.Correct()
    ensures Seals(seal, c, j)
  {
    (n: Crypto.Nonce, m: Message) => Crypto.SealedFrame(c, j, n, m.text, m.sender)
  }

  /** The nonces drawn for peer `a` in steps `step` .. `step + n - 1`. */
  function NonceRun(nonces: (nat, Addr) -> Crypto.Nonce, a: Addr, step: nat, n: nat): (r: seq<Crypto.Nonce>)
    ensures |r| == n
  {
    seq(n, i requires 0 <= i => nonces(step + i, a))
  }

  /** The outgoing bytes of every registered writer after one `send_encrypted` of `m` to each
      address of `targets`: a send reaches the writers that accept writes (`live`), and the
      others keep what they had. */
  function Appended(seal: Sealer, out: map<Addr, bytes>, live: set<Addr>, targets: set<Addr>,
                    nonces: (nat, Addr) -> Crypto.Nonce, step: nat, m: Message): map<Addr, bytes>
  {
    map a | a in out :: if a in targets && a in live then out[a] + seal(nonces(step, a), m) else out[a]
  }

  /** The frames the writer of `a` receives for `msgs` sent to it in turn, the k-th in step
      `step + k` under the nonce `nonces(step + k, a)`. */
  function FramesTo(seal: Sealer, nonces: (nat, Addr) -> Crypto.Nonce, a: Addr, step: nat, msgs: seq<Message>): bytes
    decreases |msgs|
  {
    if msgs == [] then []
    else FramesTo(seal, nonces, a, step, msgs[..|msgs| - 1]) + seal(nonces(step + |msgs| - 1, a), msgs[|msgs| - 1])
  }

  lemma FramesToSnoc(seal: Sealer, nonces: (nat, Addr) -> Crypto.Nonce, a: Addr, step: nat, msgs: seq<Message>, m: Message)
    ensures FramesTo(seal, nonces, a, step, msgs + [m]) == FramesTo(seal, nonces, a, step, msgs) + seal(nonces(step + |msgs|, a), m)
  {
    assert (msgs + [m])[..|msgs|] == msgs;
  }

  /** Those frames are the ones `SentFrames` gives for the nonces drawn for `a`, so a client
      reads them back with `Session`. */
  lemma {:induction false} FramesToSent(seal: Sealer, c: Crypto.Cipher, j: Crypto.Json, nonces: (nat, Addr) -> Crypto.Nonce,
                                        a: Addr, step: nat, msgs: seq<Message>)
    requires Seals(seal, c, j)
    ensures FramesTo(seal, nonces, a, step, msgs) == SentFrames(c, j, NonceRun(nonces, a, step, |msgs|), msgs)
    decreases |msgs|
  {
    if msgs != [] {
      var init := msgs[..|msgs| - 1];
      FramesToSent(seal, c, j, nonces, a, step, init);
      SentFramesLast(seal, c, j, nonces, a, step, msgs);
    }
  }

  /** The last step of `FramesToSent`: both sides end with the frame of the last message. */
  lemma SentFramesLast(seal: Sealer, c: Crypto.Cipher, j: Crypto.Json, nonces: (nat, Addr) -> Crypto.Nonce, a: Addr,
                       step: nat, msgs: seq<Message>)
    requires Seals(seal, c, j) && msgs != []
    ensures var init, last := msgs[..|msgs| - 1], msgs[|msgs| - 1];
            && FramesTo(seal, nonces, a, step, msgs)
               == FramesTo(seal, nonces, a, step, init) + Crypto.SealedFrame(c, j, nonces(step + |init|, a), last.text, last.sender)
            && SentFrames(c, j, NonceRun(nonces, a, step, |msgs|), msgs)
               == SentFrames(c, j, NonceRun(nonces, a, step, |init|), init) + Crypto.SealedFrame(c, j, nonces(step + |init|, a), last.text, last.sender)
  {
    var init, last := msgs[..|msgs| - 1], msgs[|msgs| - 1];
    var n := nonces(step + |init|, a);
    assert init + [last] == msgs;
    FramesToSnoc(seal, nonces, a, step, init, last);
    assert seal(n, last) == Crypto.SealedFrame(c, j, n, last.text, last.sender);
    NonceRunSnoc(nonces, a, step, |init|);
    SentFramesSnoc(c, j, NonceRun(nonces, a, step, |init|), init, n, last);
  }

  lemma NonceRunSnoc(nonces: (nat, Addr) -> Crypto.Nonce, a: Addr, step: nat, n: nat)
    ensures NonceRun(nonces, a, step, n + 1) == NonceRun(nonces, a, step, n) + [nonces(step + n, a)]
  {
  }

  /** The outgoing bytes of every registered writer after a series of messages was sent in
      turn: a writer that accepts writes and is a target receives the frames of all the
      messages, in order, each under its own nonce; any other writer receives nothing. */
  function Delivered(seal: Sealer, out: map<Addr, bytes>, live: set<Addr>, targets: set<Addr>,
                     nonces: (nat, Addr) -> Crypto.Nonce, step: nat, msgs: seq<Message>): map<Addr, bytes>
  {
    map a | a in out :: if a in targets && a in live then out[a] + FramesTo(seal, nonces, a, step, msgs) else out[a]
  }

  /** Sending nothing changes nothing. */
  lemma DeliveredNothing(seal: Sealer, out: map<Addr, bytes>, live: set<Addr>, targets: set<Addr>,
                         nonces: (nat, Addr) -> Crypto.Nonce, step: nat)
    ensures Delivered(seal, out, live, targets, nonces, step, []) == out
  {
    var none := Delivered(seal, out, live, targets, nonces, step, []);
    forall a | a in out
      ensures none[a] == out[a]
    {
      AppendNothing(out[a]);
    }
  }

  /** Sending one message is one send. */
  lemma DeliveredOne(seal: Sealer, out: map<Addr, bytes>, live: set<Addr>, targets: set<Addr>,
                     nonces: (nat, Addr) -> Crypto.Nonce, step: nat, m: Message)
    ensures Delivered(seal, out, live, targets, nonces, step, [m]) == Appended(seal, out, live, targets, nonces, step, m)
  {
    forall a | a in out
      ensures FramesTo(seal, nonces, a, step, [m]) == seal(nonces(step, a), m)
    {
      assert [m][..0] == [];
      PrependNothing(seal(nonces(step, a), m));
    }
  }

  /** Sending one more message in the next step appends its frame to what each live target
      was sent: the series is the sends one after the other. */
  lemma DeliveredSnoc(seal: Sealer, out: map<Addr, bytes>, live: set<Addr>, targets: set<Addr>,
                      nonces: (nat, Addr) -> Crypto.Nonce, step: nat, msgs: seq<Message>, m: Message)
    ensures Delivered(seal, out, live, targets, nonces, step, msgs + [m])
            == Appended(seal, Delivered(seal, out, live, targets, nonces, step, msgs), live, targets, nonces, step + |msgs|, m)
  {
    var after := Delivered(seal, out, live, targets, nonces, step, msgs + [m]);
    var stepped := Appended(seal, Delivered(seal, out, live, targets, nonces, step, msgs), live, targets, nonces, step + |msgs|, m);
    forall a | a in out
      ensures after[a] == stepped[a]
    {
      if a in targets && a in live {
        FramesToSnoc(seal, nonces, a, step, msgs, m);
        AppendAssoc(out[a], FramesTo(seal, nonces, a, step, msgs), seal(nonces(step + |msgs|, a), m));
      }
    }
  }

  /** The step of a loop that keeps `Delivered` as its invariant: one more send extends the
      series by one message. */
  lemma DeliveredStep(seal: Sealer, base: map<Addr, bytes>, live: set<Addr>, targets: set<Addr>,
                      nonces: (nat, Addr) -> Crypto.Nonce, msgs: seq<Message>, m: Message,
                      before: map<Addr, bytes>, after: map<Addr, bytes>)
    requires before == Delivered(seal, base, live, targets, nonces, 0, msgs)
    requires after == Appended(seal, before, live, targets, nonces, |msgs|, m)
    ensures after == Delivered(seal, base, live, targets, nonces, 0, msgs + [m])
  {
    DeliveredSnoc(seal, base, live, targets, nonces, 0, msgs, m);
  }

  /** A send to no one changes nothing. */
  lemma AppendedToNone(seal: Sealer, out: map<Addr, bytes>, live: set<Addr>,
                       nonces: (nat, Addr) -> Crypto.Nonce, step: nat, m: Message)
    ensures Appended(seal, out, live, {}, nonces, step, m) == out
  {
  }

  /** Sending to one more address `a` adds its frame, if it accepts writes, to what it holds. */
  lemma AppendedGrow(seal: Sealer, out: map<Addr, bytes>, live: set<Addr>, done: set<Addr>,
                     nonces: (nat, Addr) -> Crypto.Nonce, step: nat, m: Message, a: Addr,
                     before: map<Addr, bytes>, after: map<Addr, bytes>)
    requires a in out && a !in done
    requires before == Appended(seal, out, live, done, nonces, step, m)
    requires after == before[a := before[a] + if a in live then seal(nonces(step, a), m) else []]
    ensures after == Appended(seal, out, live, done + {a}, nonces, step, m)
  {
    AppendNothing(out[a]);
  }

  /** At most one more message after a first one: the second send follows the first. */
  lemma DeliveredAfterFirst(seal: Sealer, out: map<Addr, bytes>, live: set<Addr>, targets: set<Addr>,
                            nonces: (nat, Addr) -> Crypto.Nonce, first: Message, rest: seq<Message>)
    requires |rest| <= 1
    ensures var announced := Delivered(seal, out, live, targets, nonces, 0, [first]);
            Delivered(seal, out, live, targets, nonces, 0, [first] + rest)
            == if rest == [] then announced else Appended(seal, announced, live, targets, nonces, 1, rest[0])
  {
    if rest == [] {
      AppendNothing([first]);
    } else {
      assert [first] + rest == [first] + [rest[0]];
      DeliveredSnoc(seal, out, live, targets, nonces, 0, [first], rest[0]);
    }
  }

  /** Removing a writer that is not a target commutes with a send to the others. */
  lemma AppendedWithout(seal: Sealer, out: map<Addr, bytes>, live: set<Addr>, targets: set<Addr>,
                        nonces: (nat, Addr) -> Crypto.Nonce, step: nat, m: Message, peer: Addr)
    requires peer !in targets
    ensures Appended(seal, out - {peer}, live - {peer}, targets, nonces, step, m)
            == Appended(seal, out, live, targets, nonces, step, m) - {peer}
  {
  }

  /** End to end: a registered client whose writer was sent a series of messages, and which
      reads them after what it had already been sent, logs exactly those messages in order. */
  lemma RegisteredClientLogs(seal: Sealer, c: Crypto.Cipher, j: Crypto.Json, out: map<Addr, bytes>, live: set<Addr>,
                             targets: set<Addr>, nonces: (nat, Addr) -> Crypto.Nonce, step: nat,
                             msgs: seq<Message>, a: Addr, tail: bytes)
    requires Seals(seal, c, j) && j.RoundTrips()
    requires a in out && a in targets && a in live
    requires forall k :: 0 <= k < |msgs| ==> Utf8.Valid(msgs[k].text)
    requires forall k :: 0 <= k < |msgs| ==>
               |j.serialize(Crypto.Seal(c, nonces(step + k, a), msgs[k].text, msgs[k].sender))| < U32Limit
    requires Crypto.Receive(c, j, tail).0.None?
    ensures var sent := Delivered(seal, out, live, targets, nonces, step, msgs)[a];
            && |out[a]| <= |sent|
            && Session(c, j, sent[|out[a]|..] + tail) == (msgs, Crypto.Receive(c, j, tail).1)
  {
    var run := NonceRun(nonces, a, step, |msgs|);
    DeliveredAt(seal, out, live, targets, nonces, step, msgs, a);
    FramesToSent(seal, c, j, nonces, a, step, msgs);
    DropAppend(out[a], SentFrames(c, j, run, msgs));
    RunFits(c, j, nonces, a, step, msgs);
    SessionOfSent(c, j, run, msgs, tail);
  }

  /** What one live target of a series of sends holds afterwards. */
  lemma DeliveredAt(seal: Sealer, out: map<Addr, bytes>, live: set<Addr>, targets: set<Addr>,
                    nonces: (nat, Addr) -> Crypto.Nonce, step: nat, msgs: seq<Message>, a: Addr)
    requires a in out && a in targets && a in live
    ensures Delivered(seal, out, live, targets, nonces, step, msgs)[a] == out[a] + FramesTo(seal, nonces, a, step, msgs)
  {
  }

  lemma RunFits(c: Crypto.Cipher, j: Crypto.Json, nonces: (nat, Addr) -> Crypto.Nonce, a: Addr, step: nat, msgs: seq<Message>)
    requires c.aead.Correct()
    requires forall k :: 0 <= k < |msgs| ==>
               |j.serialize(Crypto.Seal(c, nonces(step + k, a), msgs[k].text, msgs[k].sender))| < U32Limit
    ensures var run := NonceRun(nonces, a, step, |msgs|);
            forall k :: 0 <= k < |msgs| ==> |j.serialize(Crypto.Seal(c, run[k], msgs[k].text, msgs[k].sender))| < U32Limit
  {
  }

  lemma ServerNoticesAppend(a: seq<bytes>, b: seq<bytes>)
    ensures ServerNotices(a + b) == ServerNotices(a) + ServerNotices(b)
  {
  }

  /** The System notices the accept step logs and sends for a connection from `peer`. */
  function AcceptNotices(peer: Addr, v: Verdict): (notices: seq<bytes>)
    ensures 1 <= |notices| <= 2 && notices[0] == NewConnectionText(peer)
    ensures |notices| == 2 <==> v != Established && v != Refused(CloneFailed)
  {
    [NewConnectionText(peer)] + RefusalNotice(peer, v)
  }

  lemma SplitAcceptNotices(peer: Addr, v: Verdict)
    ensures SystemLog(AcceptNotices(peer, v)) == [Message(System, NewConnectionText(peer))] + SystemLog(RefusalNotice(peer, v))
  {
  }

  /** The log entries for a list of System notices. */
  function SystemLog(notices: seq<bytes>): (log: seq<Message>)
    ensures |log| == |notices|
    ensures forall k :: 0 <= k < |log| ==> log[k] == Message(System, notices[k])
  {
    seq(|notices|, k requires 0 <= k < |notices| => Message(System, notices[k]))
  }

  /** The same notices as the connected clients receive them, from "Server". */
  function ServerNotices(notices: seq<bytes>): (sent: seq<Message>)
    ensures |sent| == |notices|
    ensures forall k :: 0 <= k < |sent| ==> sent[k] == Message(ServerName, notices[k])
  {
    seq(|notices|, k requires 0 <= k < |notices| => Message(ServerName, notices[k]))
  }

  /** Distinct addresses hold distinct connections. */
  ghost predicate Injective(m: map<Addr, Net.Stream>)
  {
    forall a, b :: a in m && b in m && a != b ==> m[a] != m[b]
  }

  /** Registering a connection not yet in the registry keeps addresses and connections one-to-one. */
  lemma RegisterKeepsInjective(m: map<Addr, Net.Stream>, peer: Addr, conn: Net.Stream)
    requires Injective(m) && conn !in m.Values
    ensures Injective(m[peer := conn])
  {
    var m' := m[peer := conn];
    forall a, b | a in m' && b in m' && a != b
      ensures m'[a] != m'[b]
    {
      if a != peer && b != peer {
        assert m[a] in m.Values;
      } else if a == peer {
        assert m[b] in m.Values;
      } else {
        assert m[a] in m.Values;
      }
    }
  }

  class ChatServer {
    /** `SharedClients`: the writer of each established connection, by peer address. */
    var clients: map<Addr, Net.Stream>
    /** The server's own chat log (`SharedMessages`). */
    var messages: seq<Message>
    const cipher: Crypto.Cipher
    const json: Crypto.Json
    /** `whoami::username()`: the sender of messages typed at the server. */
    const localUser: bytes
    /** What one `send_encrypted` with the server's key writes. */
    ghost const seal: Sealer

    /** Each registered address has a connection of its own, the cipher is a working AEAD, and
        `seal` is its sealer. */
    ghost predicate Valid()
      reads this`clients
    {
      Seals(seal, cipher, json) && Injective(clients)
    }

    /** What has been written so far to each registered writer. */
    ghost function Outbox(): map<Addr, bytes>
      reads this`clients, clients.Values`outgoing
    {
      map a | a in clients :: clients[a].outgoing
    }

    /** What each registered connection has not read yet. */
    ghost function Inbox(): map<Addr, bytes>
      reads this`clients, clients.Values`incoming
    {
      map a | a in clients :: clients[a].incoming
    }

    /** The registered addresses whose writers accept writes. */
    ghost function Live(): set<Addr>
      reads this`clients
    {
      set a | a in clients && clients[a].writable
    }

    constructor (cipher: Crypto.Cipher, json: Crypto.Json, localUser: bytes)
      requires cipher.aead.Correct()
      ensures Valid()
      ensures clients == map[] && messages == []
      ensures this.cipher == cipher && this.json == json && this.localUser == localUser
      ensures seal == SealWith(cipher, json)
    {
      seal := SealWith(cipher, json);
      this.cipher := cipher;
      this.json := json;
      this.localUser := localUser;
      clients := map[];
      messages := [];
    }

    /** The loop `for (addr, client) in conns.iter()` sending `m` to the addresses in `targets`,
        in any order, with the nonce `nonces(step, addr)`; a failed send is ignored. */
    method Fanout(targets: set<Addr>, m: Message, nonces: (nat, Addr) -> Crypto.Nonce, step: nat)
      requires Valid() && targets <= clients.Keys
      modifies clients.Values
      ensures Outbox() == Appended(seal, old(Outbox()), Live(), targets, nonces, step, m)
      ensures Inbox() == old(Inbox())
    {
      var remaining := targets;
      ghost var done: set<Addr> := {};
      AppendedToNone(seal, Outbox(), Live(), nonces, step, m);
      while remaining != {}
        invariant done + remaining == targets && done !! remaining
        invariant Outbox() == Appended(seal, old(Outbox()), Live(), done, nonces, step, m)
        invariant Inbox() == old(Inbox())
        decreases remaining
      {
        var a :| a in remaining;
        SendNext(a, m, nonces, step, old(Outbox()), done);
        done, remaining := done + {a}, remaining - {a};
      }
    }

    /** One pass of that loop: the send to `a` extends the sends already done. */
    method SendNext(a: Addr, m: Message, nonces: (nat, Addr) -> Crypto.Nonce, step: nat,
                    ghost base: map<Addr, bytes>, ghost done: set<Addr>)
      requires Valid() && a in clients && a !in done && base.Keys == clients.Keys
      requires Outbox() == Appended(seal, base, Live(), done, nonces, step, m)
      modifies clients[a]
      ensures Outbox() == Appended(seal, base, Live(), done + {a}, nonces, step, m)
      ensures Inbox() == old(Inbox())
    {
      ghost var before := Outbox();
      SendTo(a, m, nonces(step, a));
      AppendedGrow(seal, base, Live(), done, nonces, step, m, a, before, Outbox());
    }

    /** One `send_encrypted` of `m` to the writer of `a` under `nonce`: that writer alone
        changes, and only if it accepts writes. */
    method SendTo(a: Addr, m: Message, nonce: Crypto.Nonce)
      requires Valid() && a in clients
      modifies clients[a]
      ensures Outbox() == old(Outbox())[a := old(Outbox())[a] + if a in Live() then seal(nonce, m) else []]
      ensures Inbox() == old(Inbox())
    {
      var s := clients[a];
      var _ := Crypto.SendEncrypted(s, m.text, cipher, m.sender, nonce, json);
      forall b | b in clients && b != a
        ensures clients[b] != s
      {
      }
    }

    /** Logs a System notice and sends it, from "Server", to every registered client. */
    method Notify(text: bytes, nonces: (nat, Addr) -> Crypto.Nonce, step: nat)
      requires Valid()
      modifies this, clients.Values
      ensures Valid() && clients == old(clients)
      ensures messages == old(messages) + [Message(System, text)]
      ensures Outbox() == Appended(seal, old(Outbox()), Live(), clients.Keys, nonces, step, Message(ServerName, text))
      ensures Inbox() == old(Inbox())
    {
      messages := messages + [Message(System, text)];
      Fanout(clients.Keys, Message(ServerName, text), nonces, step);
    }

    /** The handshake part of the accept loop on a new connection `conn`: HELLO, the
        challenge, and the encrypted echo; `cloneOk` is whether `try_clone` succeeded. */
    method Handshake(conn: Net.Stream, cloneOk: bool, rand: ChallengeBytes) returns (verdict: Verdict)
      requires cipher.aead.Correct()
      modifies conn
      ensures (verdict, conn.incoming) == ServerHandshake(cipher, json, cloneOk, conn.writable, old(conn.incoming), rand)
      ensures conn.outgoing == old(conn.outgoing) + ChallengeSent(cloneOk, conn.writable, old(conn.incoming), rand)
    {
      if !cloneOk {
        return Refused(CloneFailed);
      }
      var hello := Net.ReadPlain(conn);
      if !HelloOk(hello) {
        return Refused(NoHello);
      }
      var challenge := ChallengeText(rand);
      var challengeMsg := ChalPrefix + challenge;
      var written := Net.WritePlain(conn, challengeMsg);
      if !written {
        return Refused(WriteFailed);
      }
      var reply := Crypto.ReadOneEncrypted(conn, cipher, json);
      if reply.None? {
        verdict := Refused(NoReply);
      } else if reply.value.1 != challenge {
        verdict := Refused(Mismatch);
      } else {
        verdict := Established;
      }
    }

    /** The handshake on a connection that is not registered: the registered writers are
        untouched. */
    method HandshakeAside(conn: Net.Stream, cloneOk: bool, rand: ChallengeBytes) returns (verdict: Verdict)
      requires Valid() && conn !in clients.Values
      modifies conn
      ensures (verdict, conn.incoming) == ServerHandshake(cipher, json, cloneOk, conn.writable, old(conn.incoming), rand)
      ensures conn.outgoing == old(conn.outgoing) + ChallengeSent(cloneOk, conn.writable, old(conn.incoming), rand)
      ensures Outbox() == old(Outbox()) && Inbox() == old(Inbox())
    {
      verdict := Handshake(conn, cloneOk, rand);
      forall a | a in clients
        ensures clients[a] != conn
      {
        assert clients[a] in clients.Values;
      }
    }

    /** The accept step up to its decision: the "New connection" notice, the handshake, and
        the refusal notice if there is one; `nonces(0, a)` and `nonces(1, a)` seal the two
        notices to client `a`. */
    method Admit(peer: Addr, conn: Net.Stream, cloneOk: bool, rand: ChallengeBytes,
                 nonces: (nat, Addr) -> Crypto.Nonce)
      returns (verdict: Verdict)
      requires Valid() && conn !in clients.Values
      modifies this, clients.Values, conn
      ensures Valid() && clients == old(clients)
      ensures (verdict, conn.incoming) == ServerHandshake(cipher, json, cloneOk, conn.writable, old(conn.incoming), rand)
      ensures conn.outgoing == old(conn.outgoing) + ChallengeSent(cloneOk, conn.writable, old(conn.incoming), rand)
      ensures messages == old(messages) + SystemLog(AcceptNotices(peer, verdict))
      ensures Outbox() == Delivered(seal, old(Outbox()), Live(), clients.Keys, nonces, 0,
                                    ServerNotices(AcceptNotices(peer, verdict)))
      ensures Inbox() == old(Inbox())
    {
      Announce(peer, nonces);
      verdict := HandshakeAside(conn, cloneOk, rand);
      Refuse(peer, verdict, nonces, old(Outbox()));
      SplitAcceptNotices(peer, verdict);
      AppendAssoc(old(messages), [Message(System, NewConnectionText(peer))], SystemLog(RefusalNotice(peer, verdict)));
    }

    /** The "New connection" notice, logged and sent to every registered client in step 0. */
    method Announce(peer: Addr, nonces: (nat, Addr) -> Crypto.Nonce)
      requires Valid()
      modifies this, clients.Values
      ensures Valid() && clients == old(clients)
      ensures messages == old(messages) + [Message(System, NewConnectionText(peer))]
      ensures Outbox() == Delivered(seal, old(Outbox()), Live(), clients.Keys, nonces, 0,
                                    [Message(ServerName, NewConnectionText(peer))])
      ensures Inbox() == old(Inbox())
    {
      var first := Message(ServerName, NewConnectionText(peer));
      Notify(first.text, nonces, 0);
      DeliveredOne(seal, old(Outbox()), Live(), clients.Keys, nonces, 0, first);
    }

    /** The refusal notice for `verdict`, if there is one, logged and sent to every registered
        client in step 1, after the "New connection" notice sent from `base`. */
    method Refuse(peer: Addr, verdict: Verdict, nonces: (nat, Addr) -> Crypto.Nonce, ghost base: map<Addr, bytes>)
      requires Valid()
      requires Outbox() == Delivered(seal, base, Live(), clients.Keys, nonces, 0,
                                     [Message(ServerName, NewConnectionText(peer))])
      modifies this, clients.Values
      ensures Valid() && clients == old(clients)
      ensures messages == old(messages) + SystemLog(RefusalNotice(peer, verdict))
      ensures Outbox() == Delivered(seal, base, Live(), clients.Keys, nonces, 0,
                                    ServerNotices(AcceptNotices(peer, verdict)))
      ensures Inbox() == old(Inbox())
    {
      var first := Message(ServerName, NewConnectionText(peer));
      var refusal := RefusalNotice(peer, verdict);
      ServerNoticesAppend([first.text], refusal);
      assert ServerNotices([first.text]) == [first];
      DeliveredAfterFirst(seal, base, Live(), clients.Keys, nonces, first, ServerNotices(refusal));
      if refusal != [] {
        Notify(refusal[0], nonces, 1);
        assert SystemLog(refusal) == [Message(System, refusal[0])];
      } else {
        assert SystemLog(refusal) == [];
      }
    }

    /** `clients.insert(peer, writer)`: registers an established connection under its
        address, replacing any connection registered there before. */
    method Register(peer: Addr, conn: Net.Stream)
      requires Valid() && conn !in clients.Values
      modifies this
      ensures Valid()
      ensures clients == old(clients)[peer := conn] && messages == old(messages)
      ensures Outbox() == old(Outbox())[peer := conn.outgoing]
      ensures Inbox() == old(Inbox())[peer := conn.incoming]
    {
      RegisterKeepsInjective(clients, peer, conn);
      clients := clients[peer := conn];
    }

    /** One pass of the accept loop for a new connection `conn` from `peer`: the notices and
        the handshake, then the registration of an established connection. Every client
        registered before receives the notices, and nothing is read from it. */
    method AcceptOne(peer: Addr, conn: Net.Stream, cloneOk: bool, rand: ChallengeBytes,
                     nonces: (nat, Addr) -> Crypto.Nonce)
      returns (verdict: Verdict)
      requires Valid() && conn !in clients.Values
      modifies this, clients.Values, conn
      ensures Valid()
      ensures (verdict, conn.incoming) == ServerHandshake(cipher, json, cloneOk, conn.writable, old(conn.incoming), rand)
      ensures conn.outgoing == old(conn.outgoing) + ChallengeSent(cloneOk, conn.writable, old(conn.incoming), rand)
      ensures clients == if verdict == Established then old(clients)[peer := conn] else old(clients)
      ensures messages == old(messages) + SystemLog(AcceptNotices(peer, verdict))
      ensures var announced := Delivered(seal, old(Outbox()), old(Live()), old(clients.Keys), nonces, 0,
                                           ServerNotices(AcceptNotices(peer, verdict)));
              Outbox() == if verdict == Established then announced[peer := conn.outgoing] else announced
      ensures Inbox() == if verdict == Established then old(Inbox())[peer := conn.incoming] else old(Inbox())
    {
      verdict := Admit(peer, conn, cloneOk, rand, nonces);
      if verdict == Established {
        Register(peer, conn);
      }
    }

    /** The reader thread relaying one message `m` from `peer`: it is logged, then sent to
        every registered client but `peer`. The reader's own connection `conn` is untouched. */
    method Relay(peer: Addr, conn: Net.Stream, m: Message, nonces: (nat, Addr) -> Crypto.Nonce, step: nat)
      requires Valid()
      requires forall a :: a in clients && a != peer ==> clients[a] != conn
      modifies this, clients.Values
      ensures Valid() && clients == old(clients)
      ensures messages == old(messages) + [m]
      ensures Outbox() == Appended(seal, old(Outbox()), Live(), clients.Keys - {peer}, nonces, step, m)
      ensures Inbox() == old(Inbox())
      ensures conn.incoming == old(conn.incoming) && conn.outgoing == old(conn.outgoing)
    {
      messages := messages + [m];
      Fanout(clients.Keys - {peer}, m, nonces, step);
      if peer in clients && clients[peer] == conn {
        assert Outbox()[peer] == old(Outbox())[peer] && Inbox()[peer] == old(Inbox())[peer];
      } else {
        assert conn !in clients.Values;
      }
    }

    /** The reader thread ending: `peer` is removed from the registry, and the
        "Disconnected from" notice is logged and sent to the clients that remain. */
    method Disconnect(peer: Addr, conn: Net.Stream, nonces: (nat, Addr) -> Crypto.Nonce, step: nat)
      requires Valid()
      requires forall a :: a in clients && a != peer ==> clients[a] != conn
      modifies this, clients.Values
      ensures Valid() && clients == old(clients) - {peer}
      ensures messages == old(messages) + [Message(System, DisconnectedText(peer))]
      ensures Outbox() == Appended(seal, old(Outbox()), old(Live()), old(clients.Keys) - {peer}, nonces, step,
                                   Message(ServerName, DisconnectedText(peer))) - {peer}
      ensures Inbox() == old(Inbox()) - {peer}
      ensures conn.incoming == old(conn.incoming) && conn.outgoing == old(conn.outgoing)
    {
      Unregister(peer);
      Notify(DisconnectedText(peer), nonces, step);
      AppendedWithout(seal, old(Outbox()), old(Live()), clients.Keys, nonces, step,
                      Message(ServerName, DisconnectedText(peer)), peer);
    }

    /** `conns.remove(&addr)`. */
    method Unregister(peer: Addr)
      requires Valid()
      modifies this`clients
      ensures Valid() && clients == old(clients) - {peer}
      ensures Outbox() == old(Outbox()) - {peer} && Inbox() == old(Inbox()) - {peer} && Live() == old(Live()) - {peer}
    {
      clients := clients - {peer};
    }

    /** One pass of the reader thread of `peer`: one `read_one_encrypted` on `conn`; a
        message read is logged and relayed to the other clients with the nonces of `step`. */
    method ReadAndRelay(peer: Addr, conn: Net.Stream, nonces: (nat, Addr) -> Crypto.Nonce, step: nat)
      returns (m: Option<Message>)
      requires Valid()
      requires forall a :: a in clients && a != peer ==> clients[a] != conn
      modifies this, clients.Values, conn
      ensures Valid() && clients == old(clients)
      ensures var (r, rest) := Crypto.Receive(cipher, json, old(conn.incoming));
              && conn.incoming == rest
              && m == (if r.None? then None else Some(Message(r.value.0, r.value.1)))
      ensures m.None? ==> messages == old(messages) && Outbox() == old(Outbox())
      ensures m.Some? ==> && messages == old(messages) + [m.value]
                          && Outbox() == Appended(seal, old(Outbox()), Live(), clients.Keys - {peer}, nonces, step, m.value)
      ensures Inbox() - {peer} == old(Inbox()) - {peer}
      ensures conn.outgoing == old(conn.outgoing)
    {
      ghost var outbox, inbox := Outbox(), Inbox();
      var r := Crypto.ReadOneEncrypted(conn, cipher, json);
      assert Outbox() == outbox && Inbox() - {peer} == inbox - {peer} by {
        forall a | a in clients ensures clients[a].outgoing == outbox[a] {}
        forall a | a in clients && a != peer ensures clients[a].incoming == inbox[a] {}
      }
      if r.None? {
        return None;
      }
      m := Some(Message(r.value.0, r.value.1));
      Relay(peer, conn, m.value, nonces, step);
    }

    /** The reader thread of `peer`, reading its connection `conn` until a read fails: each
        message is logged and relayed to the other clients, then the peer is disconnected.
        The k-th relay uses the nonces `nonces(k, _)`. */
    method RunReader(peer: Addr, conn: Net.Stream, nonces: (nat, Addr) -> Crypto.Nonce)
      requires Valid()
      requires forall a :: a in clients && a != peer ==> clients[a] != conn
      modifies this, clients.Values, conn
      ensures Valid() && clients == old(clients) - {peer}
      ensures var (got, left) := Session(cipher, json, old(conn.incoming));
              && conn.incoming == left
              && messages == old(messages) + got + [Message(System, DisconnectedText(peer))]
              && Outbox() == Delivered(seal, old(Outbox()), old(Live()), old(clients.Keys) - {peer}, nonces, 0,
                                         got + [Message(ServerName, DisconnectedText(peer))]) - {peer}
      ensures Inbox() == old(Inbox()) - {peer}
      ensures conn.outgoing == old(conn.outgoing)
    {
      ghost var got: seq<Message> := [];
      var relayed := 0;
      ghost var base, live, targets := Outbox(), Live(), clients.Keys - {peer};
      DeliveredNothing(seal, base, live, targets, nonces, 0);
      PrependNothing(Session(cipher, json, conn.incoming).0);
      while true
        invariant Valid() && clients == old(clients) && Live() == live && clients.Keys - {peer} == targets
        invariant Session(cipher, json, old(conn.incoming))
                  == (got + Session(cipher, json, conn.incoming).0, Session(cipher, json, conn.incoming).1)
        invariant messages == old(messages) + got && relayed == |got|
        invariant Outbox() == Delivered(seal, base, live, targets, nonces, 0, got)
        invariant Inbox() - {peer} == old(Inbox()) - {peer}
        invariant conn.outgoing == old(conn.outgoing)
        decreases |conn.incoming|
      {
        ghost var before := Outbox();
        SessionStep(cipher, json, old(conn.incoming), got, conn.incoming);
        var m := ReadAndRelay(peer, conn, nonces, relayed);
        if m.None? {
          break;
        }
        ghost var after := Outbox();
        DeliveredStep(seal, base, live, targets, nonces, got, m.value, before, after);
        got := got + [m.value];
        relayed := relayed + 1;
      }
      ghost var before, notice := Outbox(), Message(ServerName, DisconnectedText(peer));
      Disconnect(peer, conn, nonces, relayed);
      DeliveredStep(seal, base, live, targets, nonces, got, notice, before,
                    Appended(seal, before, live, targets, nonces, |got|, notice));
    }

    /** The broadcast thread forwarding one line typed at the server: sent to every
        registered client under the local user's name, and not logged again. */
    method BroadcastLocal(text: bytes, nonces: (nat, Addr) -> Crypto.Nonce, step: nat)
      requires Valid()
      modifies clients.Values
      ensures Outbox() == Appended(seal, old(Outbox()), Live(), clients.Keys, nonces, step, Message(localUser, text))
      ensures Inbox() == old(Inbox())
    {
      Fanout(clients.Keys, Message(localUser, text), nonces, step);
    }

    /** The broadcast thread's loop over the lines it receives, in order; the k-th line uses
        the nonces `nonces(k, _)`. */
    method BroadcastAll(lines: seq<bytes>, nonces: (nat, Addr) -> Crypto.Nonce)
      requires Valid()
      modifies clients.Values
      ensures Outbox() == Delivered(seal, old(Outbox()), Live(), clients.Keys, nonces, 0, Authored(localUser, lines))
      ensures Inbox() == old(Inbox())
    {
      ghost var base, live := Outbox(), Live();
      DeliveredNothing(seal, base, live, clients.Keys, nonces, 0);
      for k := 0 to |lines|
        invariant Outbox() == Delivered(seal, base, live, clients.Keys, nonces, 0, Authored(localUser, lines[..k]))
        invariant Inbox() == old(Inbox())
      {
        ghost var before, sent := Outbox(), Authored(localUser, lines[..k]);
        BroadcastLocal(lines[k], nonces, k);
        DeliveredStep(seal, base, live, clients.Keys, nonces, sent, Message(localUser, lines[k]), before, Outbox());
        assert Authored(localUser, lines[..k + 1]) == sent + [Message(localUser, lines[k])];
      }
      assert lines[..|lines|] == lines;
    }
  }

  /** The messages a local user produces by typing `lines`, one per line. */
  function Authored(user: bytes, lines: seq<bytes>): (msgs: seq<Message>)
    ensures |msgs| == |lines|
    ensures forall k :: 0 <= k < |msgs| ==> msgs[k] == Message(user, lines[k])
  {
    seq(|lines|, k requires 0 <= k < |lines| => Message(user, lines[k]))
  }
}
