# antimpeu: a verified model of the chat core

antimpeu is a terminal group chat over TCP. All participants share one 32-byte AES-256-GCM
key, the data-encryption key (DEK). The DEK is stored on disk wrapped under a password:
PBKDF2-HMAC-SHA256 with a random salt derives a key-encryption key (KEK).

**The server:**
- accepts connections;
- runs a challenge-response handshake on each (plaintext `HELLO-ANTIMPEU`, a plaintext `CHAL:<hex>` challenge, and the challenge echoed back encrypted);
- registers established peers by address;
- relays every message a peer sends to all other peers;
- broadcasts lines typed at the server to all peers.

**The client:** does its half of the handshake, logs what the server relays until the
connection ends, and sends typed lines.

**On the wire:**
- Every frame is a big-endian `u32` length followed by the payload.
- Chat traffic is a JSON envelope `{username, nonce, ciphertext, tag}` whose last three fields are lower-case hex.

## What the model covers

The model is sequential Dafny, one module per source file plus three shared modules:

| module | covers |
|---|---|
| `Bytes` | byte strings, the `u32` big-endian codec and `as u32` truncation |
| `Hex` | the `hex` crate's `encode`/`decode` |
| `Utf8` | `String::from_utf8` validity and `String::from_utf8_lossy` |
| `Net` | `src/net.rs` |
| `Crypto` | `src/crypto.rs` |
| `Auth` | `src/auth.rs` |
| `Utils` | `src/utils.rs` |
| `Protocol` | the handshake decisions both sides make, the System notice texts, and `Session`, which is what a reader loop takes from a stream |
| `Server` | `src/server.rs`: the accept loop, the registry, the reader threads and the broadcast thread |
| `Client` | `src/client.rs` |

**Streams.** A TCP stream is the class `Net.Stream`:
- `incoming` holds the bytes the peer sends before the stream ends. EOF, reset and a read deadline passing all end it.
- `outgoing` holds the bytes written so far.
- `writable` says whether writes succeed.

**Registry.** The server's `SharedClients` is a field `clients: map<Addr, Net.Stream>` of
the class `Server.ChatServer`:
- `Valid()` keeps addresses and connections one-to-one.
- `Outbox()` and `Inbox()` give each registered connection's written and unread bytes.
- The server's chat log is the field `messages`.

**Abstracted primitives.** AES-256-GCM, PBKDF2 and `serde_json` are parameters:
- `Crypto.Aead` is a pair of functions. Its `Correct()` requires that decryption undoes encryption and that the output is 16 bytes longer than the input.
- `Crypto.Json` is a serialiser and a parser. Its `RoundTrips()` requires that parsing undoes serialising.
- PBKDF2 is a function from password, salt and iteration count to a 32-byte key.

**Randomness and the user name.** Every random value is a parameter:
- the nonce of each `send_encrypted`, chosen per step and per target: `nonces(step, addr)`;
- the 12 challenge bytes;
- the salt and nonce of the key file.

The user name `whoami::username()` is also a parameter.

## Model

| member | source | states |
|---|---|---|
| Bytes.AsU32 | src/net.rs:7 | `len as u32` keeps a length below 2^32 and changes any larger one, which is always below 2^32 afterwards |
| Bytes.ToBeBytesDigits | src/net.rs:7 | `to_be_bytes` writes the four base-256 digits of the length, most significant first |
| Bytes.FromBeToBe | src/net.rs:18 | `from_be_bytes` inverts `to_be_bytes` for every `u32` |
| Bytes.ToBeFromBe | src/net.rs:18 | `to_be_bytes` inverts `from_be_bytes` for every 4 bytes |
| Net.Stream.ReadExact | src/net.rs:17 | `read_exact` succeeds iff enough bytes remain; on success the buffer holds the next bytes and exactly those are consumed; on failure the stream is exhausted |
| Net.Stream.WriteAll | src/net.rs:8 | `write_all` appends all of the data exactly when the stream accepts writes |
| Net.ReadFrame | src/net.rs:15-22 | a frame is read iff 4 length bytes and the declared number of payload bytes are there; it consumes exactly 4 plus the length; a failed read leaves nothing unread |
| Net.WritePlain | src/net.rs:6-12 | the stream's output grows by exactly the 4-byte big-endian `len as u32` and then the data, or by nothing when the write fails; nothing is read |
| Net.ReadPlain | src/net.rs:15-22 | the array-filling reads return what `ReadFrame` says and leave what it says unread; nothing is written |
| Net.FrameRoundTrip | src/net.rs:6-22 | reading back a written frame of fewer than 2^32 bytes gives the data and leaves the following bytes unread |
| Net.FrameOfRead | src/net.rs:15-22 | every frame that is read successfully is exactly the frame `write_plain` would write for its payload, followed by what remains |
| Net.OversizedFrameIsLost | src/net.rs:7 | a payload of 2^32 bytes or more is not read back, because its length prefix wraps |
| Hex.Encode | src/crypto.rs:30-32 | the encoding has two digits per byte, all of them lower-case hex digits |
| Hex.DecodeEncode | src/crypto.rs:58-59 | decoding the encoding of any byte string gives it back |
| Hex.EncodeDecode | src/crypto.rs:30-32 | a lower-case digit string is the encoding of what it decodes to |
| Hex.DecodeSucceedsIff | src/crypto.rs:54 | decoding succeeds iff the length is even and every character is a hex digit of either case |
| Utf8.LossyIsValid | src/crypto.rs:61 | `from_utf8_lossy` always yields well-formed UTF-8 |
| Utf8.LossyIdentityIffValid | src/crypto.rs:61 | `from_utf8_lossy` leaves its input unchanged iff `from_utf8` accepts it |
| Utf8.LossyDiffers | src/crypto.rs:61 | input whose first character is broken is always changed by the replacement |
| Utf8.AsciiIsValid | src/server.rs:53-54 | ASCII bytes such as the HELLO token are well-formed UTF-8 |
| Utf8.ValidConcat | src/client.rs:23 | two well-formed UTF-8 strings concatenate to a well-formed one |
| Crypto.Seal | src/crypto.rs:25-33 | the envelope keeps the username as given; its nonce field is 24 hex digits, its tag field 32, and its ciphertext field twice the message length |
| Crypto.SealFieldsDecode | src/crypto.rs:25-32 | the envelope fields decode to the nonce and to a 16-byte tag; the decoded ciphertext followed by the decoded tag is exactly the AEAD output |
| Crypto.Open | src/crypto.rs:53-62 | returns None on each failure: parse, nonce hex, nonce length, ciphertext hex, tag hex; once those pass, it returns None iff AEAD decryption of ciphertext followed by tag fails; a result carries the envelope's username and `from_utf8_lossy` of the decrypted bytes, which is well-formed UTF-8 |
| Crypto.Receive | src/crypto.rs:46-63 | a short read gives None and leaves nothing unread; a result always consumes input |
| Crypto.SendEncrypted | src/crypto.rs:18-42 | the stream's output grows by the length-prefixed serialised envelope of the message, or by nothing on a failed write |
| Crypto.ReadOneEncrypted | src/crypto.rs:46-63 | returns what `Receive` says and leaves what it says unread |
| Crypto.SealThenOpen | src/crypto.rs:53-62 | opening a sealed envelope with the same key yields the username and the lossy text of the message, which is the message itself when it is UTF-8 |
| Crypto.UsernameIsNotAuthenticated | src/crypto.rs:29 | an envelope whose username was replaced still opens, under the replacement name |
| Crypto.SendThenReceive | src/crypto.rs:18-63 | reading what `send_encrypted` wrote yields `(username, message)` and leaves the following bytes unread |
| Crypto.OpenAsWritten | src/crypto.rs:53-55 | the code as written panics exactly when the envelope parses and its nonce field hex-decodes to anything but 12 bytes; otherwise it returns what `Open` returns |
| Crypto.ShortNoncePanics | src/crypto.rs:54-55 | an envelope with the one-byte nonce field "00" makes the code as written panic, and `Open` rejects it |
| Auth.Prompt.ReadPassword | src/auth.rs:23 | returns the terminal's answer and counts one more prompt |
| Auth.SplitBlob | src/auth.rs:16-18 | salt, nonce and ciphertext are consecutive and make up the whole blob; the ciphertext is the blob minus 28 bytes |
| Auth.Unwrap | src/auth.rs:11-33 | a missing file, a blob under 44 bytes, a failed password read, an AEAD failure and a plaintext that is not 32 bytes each give their own single error, checked in that order; success returns exactly the decrypted bytes, and returns Ok whenever the plaintext is 32 bytes |
| Auth.LoadDekFromEncrypted | src/auth.rs:11-33 | returns what `Unwrap` says; the password is asked for once if the blob is long enough, else never; the 32-byte array holds the decrypted key |
| Utils.WrappedBlob | src/utils.rs:38-41 | the blob is salt, nonce and AEAD output, 28 + \|dek\| + 16 bytes long |
| Utils.Wrap | src/utils.rs:12-44 | an unreadable or empty input, an unreadable password or a failed write are errors; any other input, of any length, is wrapped into `WrappedBlob` |
| Utils.EncryptAndWriteDek | src/utils.rs:12-44 | builds the blob by three appends and returns what `Wrap` says; the password is asked for once when the input is non-empty |
| Utils.WrapThenUnwrap | src/utils.rs:38-41 | a wrapped key is longer than 44 bytes; the auth.rs slicing returns its salt, nonce and ciphertext; unwrapping it with the same password returns the key when it is 32 bytes and `InvalidDekLength` otherwise |
| Utils.WrapFileThenLoad | src/utils.rs:12-44 | the key file written for a 32-byte key is loaded back, with the same password, as that key |
| Protocol.RefusalNotice | src/server.rs:59-121 | each refusal that the code reports has exactly one notice; an established connection and a failed `try_clone` have none |
| Protocol.HelloOk | src/server.rs:51-58 | HELLO passes iff a frame was read and it is exactly `HELLO-ANTIMPEU` |
| Protocol.ServerHandshake | src/server.rs:45-122 | the connection is established iff: the clone succeeded, the first frame is HELLO, the challenge write succeeded, and the next envelope opens to exactly the challenge. Each failure, checked in source order, has its own refusal: a failed clone is CloneFailed and reads nothing; any other first frame is NoHello; a failed challenge write is WriteFailed; a reply that does not read or open is NoReply; a reply whose text is not the challenge is Mismatch. An established connection leaves exactly the bytes after the reply for its reader |
| Protocol.ChallengeSent | src/server.rs:72-90 | the challenge frame is written iff the clone succeeded, HELLO arrived and the stream takes writes |
| Protocol.TrimStartMatchesStrips | src/client.rs:25 | `trim_start_matches` leaves a string that does not start with the prefix, preceded in the input by some number of copies of the prefix |
| Protocol.ClientChallenge | src/client.rs:22-25 | a challenge is taken iff the frame was read, is UTF-8 and starts with `CHAL:` |
| Protocol.ClientReply | src/client.rs:22-33 | the client writes a reply iff it took a challenge |
| Protocol.ClientReadsChallenge | src/server.rs:73-77 | the challenge is 24 characters and the frame 29, both UTF-8; the client extracts exactly the challenge from the frame |
| Protocol.ChallengeAfterPrefix | src/client.rs:23-25 | a UTF-8 frame `CHAL:` + x yields x stripped of any further leading `CHAL:` |
| Protocol.TrimOnce | src/client.rs:25 | trimming a string that starts with the prefix continues after the first copy |
| Protocol.RepeatedPrefixStripped | src/client.rs:25 | `CHAL:CHAL:x` yields x, not `CHAL:x` |
| Protocol.HonestClientIsEstablished | src/server.rs:49-122 | a client that sends HELLO and echoes the challenge under the shared key is established, with its later bytes left for the reader |
| Protocol.WrongTokenIsRefused | src/server.rs:51-59 | a first frame `WRONG-TOKEN` is refused as NoHello |
| Protocol.ShortNonceReplyIsRefused | src/server.rs:93 | the keyless short-nonce envelope, sent as the handshake reply after HELLO, makes the code as written panic on the accept thread; the model refuses the connection as NoReply and leaves what follows unread |
| Protocol.SessionStep | src/client.rs:47-60 | one read of a reader loop logs one message or ends the session where it stands |
| Protocol.SessionOfSent | src/client.rs:47-52 | a reader loop logs, in order, every message sent to it as intact frames, then stops at the first failed read |
| Client.Handshake | src/client.rs:14-36 | the client proceeds iff its writes succeed; it sends HELLO and then its reply to the one frame it reads, and proceeds even without a challenge |
| Client.HandshakesAgree | src/client.rs:14-36 | the server's challenge frame reaching the client and the client's reply reaching the server establish the connection |
| Client.ChatClient.constructor | src/client.rs:38-41 | an empty log and a lowered shutdown flag |
| Client.ChatClient.RunReader | src/client.rs:46-62 | the log gains every message of the session in order, then "Server has shut down" from System; the flag is raised and nothing is written |
| Client.ChatClient.ReadNext | src/client.rs:48-52 | one `read_one_encrypted`; a message read is appended to the log |
| Client.ChatClient.Send | src/client.rs:68-72 | a typed line is sent sealed under the local user's name; a failed send changes nothing |
| Server.DeliveredSnoc | src/server.rs:183-190 | a series of broadcasts is the broadcasts one after the other |
| Server.AppendedWithout | src/server.rs:157-166 | removing the departed peer before the disconnect notice is the same as sending to everyone else and dropping it afterwards |
| Server.RegisteredClientLogs | src/server.rs:150-154 | a live registered target of a series of sends reads back exactly those messages, in order |
| Server.AcceptNotices | src/server.rs:32-121 | every accepted TCP connection gets "New connection from", plus one refusal notice when the code reports one |
| Server.RegisterKeepsInjective | src/server.rs:124-125 | inserting a new connection keeps addresses and connections one-to-one |
| Server.ChatServer.Fanout | src/server.rs:38-42 | each live target's writer gains the sealed frame under its own nonce, in any order; nothing else changes |
| Server.ChatServer.SendNext | src/server.rs:39-41 | one more target is served on top of those already served |
| Server.ChatServer.SendTo | src/server.rs:39-41 | only the target's writer changes, and only if it accepts writes |
| Server.ChatServer.Notify | src/server.rs:32-43 | the notice is logged from System and sent from Server to every registered peer |
| Server.ChatServer.Handshake | src/server.rs:45-122 | the verdict and unread bytes are `ServerHandshake`'s; the bytes written are `ChallengeSent`'s |
| Server.ChatServer.HandshakeAside | src/server.rs:45-122 | the handshake of an unregistered connection leaves every registered connection untouched |
| Server.ChatServer.Admit | src/server.rs:31-122 | the accept step up to its decision: the notices are logged and sent in order; the registry is unchanged |
| Server.ChatServer.Announce | src/server.rs:32-43 | "New connection from" goes to every registered peer before the handshake |
| Server.ChatServer.Refuse | src/server.rs:59-121 | each refusal that has a notice logs it and sends it to every registered peer |
| Server.ChatServer.Register | src/server.rs:124-125 | the connection is registered under its address, replacing any earlier one there; the one-to-one invariant is kept |
| Server.ChatServer.AcceptOne | src/server.rs:28-125 | the registry gains the peer iff the handshake established it, and a refused peer never appears; notices go to the peers registered before |
| Server.ChatServer.Relay | src/server.rs:137-155 | the message is logged and sent to every registered peer except its originator; the originator's connection is untouched |
| Server.ChatServer.Disconnect | src/server.rs:156-167 | the peer is removed first, then the notice is logged and sent to the remaining peers only |
| Server.ChatServer.Unregister | src/server.rs:157 | removes exactly that address from the registry |
| Server.ChatServer.ReadAndRelay | src/server.rs:136-155 | one read of the reader thread; a message read is logged and relayed to everyone else, a failed read changes nothing |
| Server.ChatServer.RunReader | src/server.rs:133-171 | the log gains every message of the session in order, then "Disconnected from"; every other peer is sent each message and then the notice; the peer leaves the registry |
| Server.ChatServer.BroadcastLocal | src/server.rs:184-189 | a typed line goes to every registered peer, with no exclusion, under the local user's name |
| Server.ChatServer.BroadcastAll | src/server.rs:182-191 | the typed lines reach every live peer in the order they were typed |

## Left out

- Threads, `Arc`/`Mutex` locking and the `mpsc` channel: the accept loop, reader threads and broadcast thread are modelled as sequential operations. Two things are therefore not modelled: interleavings between threads, and a poisoned lock (`lock().unwrap()` panicking, `if let Ok(...)` skipping a writer).
- Socket timeouts (200 ms and 5 s) and `set_read_timeout`: a deadline passing is one of the ways a stream's `incoming` ends.
- Writes are all-or-nothing per stream (`writable`). A partial `write_all` followed by an error is not modelled.
- AES-256-GCM, PBKDF2-HMAC-SHA256, `OsRng` and `serde_json` are abstract parameters with the two round-trip properties described above. `Aes256Gcm::new_from_slice` on a 32-byte key always succeeds and is not modelled.
- Crypto.SendEncrypted: the `expect` panics for encryption and serialisation are not modelled; they cannot occur with an abstract AEAD and a JSON codec that are total functions. The same holds for the "Encryption failed" error in `src/utils.rs:32`.
- The registry key is the peer address as a byte string. The `peer_addr().unwrap()` panic is not modelled, nor is the `Err` arm of `listener.incoming()`.
- Server.ChatServer.Register replaces a connection already registered under the same address. The replaced connection's reader thread keeps running; that thread is not modelled.
- Timestamps (`chrono`), `println!`/`eprintln!`, the TUI (`src/tui.rs`) and `src/main.rs` are not part of this model.
- File reads and writes are parameters: what reading gave (`Option<bytes>`) and whether writing succeeds. `create_dir_all` is not modelled.
- Client.Handshake: `TcpStream::connect` is not modelled, and neither is the `expect` on `try_clone` before the reader thread starts.
- Client.ChatClient.RunReader: the shutdown flag is a plain field; the atomic store's memory ordering is not modelled.
- Server.ChatServer.RunReader: the reader thread reads the same `Net.Stream` that the handshake read from and that `AcceptOne` registered. `try_clone` gives a second handle on one socket, so reads through the clone consume the socket's incoming bytes and writes through the registered handle add to its outgoing bytes. The two handles are not modelled as separate objects.
- No frame-size limit is modelled, because the code imposes none.
- Crypto.Receive, Crypto.ReadOneEncrypted, Protocol.ServerHandshake, Server.ChatServer.Handshake, Server.ChatServer.RunReader and Client.ChatClient.RunReader: these model the corrected `Crypto.Open`, so a nonce of the wrong length is a failed read. The code as written panics instead. The model therefore does not capture three consequences:
  - At src/server.rs:93 the panic ends the accept thread spawned at src/server.rs:27, so the server accepts no further connections. No key is needed: sending HELLO and then an envelope whose nonce field is "00" is enough.
  - At src/server.rs:136 the panic ends a reader thread. The peer is never removed, because src/server.rs:157 is not reached, and no "Disconnected from" notice goes out.
  - At src/client.rs:48 the panic ends the client's reader thread. "Server has shut down" is never logged and the shutdown flag is never set.

In these places the model follows what the code does, which differs from what one might expect:
- A failed `try_clone` drops the connection without a notice.
- "New connection from" is broadcast before the handshake, for every accepted connection.
- The client strips every leading `CHAL:`.
- The client goes on to the chat even when no challenge arrives.
- A nonce field that does not decode to 12 bytes makes the code panic. Every member except `Crypto.OpenAsWritten` models the corrected `Crypto.Open`, which returns None (see Findings).

## Findings

| source | as written | input that shows it | evidently intended | confidence | as-written member | corrected member |
|---|---|---|---|---|---|---|
| src/crypto.rs:54-55 | the hex-decoded nonce goes straight to `GenericArray::from_slice`, which panics unless it is 12 bytes long | HELLO, then a handshake reply whose nonce field is "00" (one byte); it parses and hex-decodes, then panics the accept thread at src/server.rs:93, and no key is needed to send it | reject any envelope whose nonce is not 12 bytes, returning None like every other failure | high (not executed) | Crypto.OpenAsWritten, Crypto.ShortNoncePanics, Protocol.ShortNonceReplyIsRefused | Crypto.Open |
