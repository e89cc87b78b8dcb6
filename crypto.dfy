/** The encrypted envelope: sealing a chat message under the shared key into a hex-encoded JSON
    record sent as one frame, and reading one such frame back. */
module Crypto {
  import opened Bytes
  import Hex
  import Utf8
  import Net

  const NonceLen: nat := 12
  const TagLen: nat := 16

  type Nonce = b: bytes | |b| == 12 witness [0, 0, 0, 0, 0, 0, 0, 0, 0, 0, 0, 0]

  type Key = b: bytes | |b| == 32 witness seq(32, _ => 0)

  /** AES-256-GCM (NIST SP 800-38D) as an abstract AEAD without associated data: `encrypt`
      returns ciphertext||tag, `decrypt` takes ciphertext||tag and fails when the tag does not
      authenticate it. */
  datatype Aead = Aead(encrypt: (Key, Nonce, bytes) -> bytes, decrypt: (Key, Nonce, bytes) -> Option<bytes>)
  {
    /** All the model assumes of the algorithm: decryption under the same key and nonce undoes
        encryption, and the output is the plaintext's length plus a 16-byte tag. */
    ghost predicate Correct()
    {
      forall k: Key, n: Nonce, p: bytes ::
        |encrypt(k, n, p)| == |p| + TagLen && decrypt(k, n, encrypt(k, n, p)) == Some(p)
    }
  }

  /** An `Aes256Gcm` value: the algorithm with its 32-byte key. */
  datatype Cipher = Cipher(aead: Aead, key: Key)

  /** `EncryptedMessage`, the JSON envelope. Every field is a `String`; `nonce`, `ciphertext`
      and `tag` hold hex digits. */
  datatype EncryptedMessage = EncryptedMessage(username: bytes, nonce: bytes, ciphertext: bytes, tag: bytes)

  /** `serde_json::to_string` and `serde_json::from_slice` for the envelope. */
  datatype Json = Json(serialize: EncryptedMessage -> bytes, parse: bytes -> Option<EncryptedMessage>)
  {
    /** All the model assumes of the JSON codec: parsing what was serialised gives it back. */
    ghost predicate RoundTrips()
    {
      forall m :: parse(serialize(m)) == Some(m)
    }
  }

  /** The envelope `send_encrypted` builds: the AEAD output split before its last 16 bytes,
      and nonce, ciphertext and tag hex-encoded. The username is copied as it is. */
  function Seal(c: Cipher, nonce: Nonce, message: bytes, username: bytes): (e: EncryptedMessage)
    requires c.aead.Correct()
    ensures e.username == username
    ensures |e.nonce| == 2 * NonceLen && |e.tag| == 2 * TagLen && |e.ciphertext| == 2 * |message|
  {
    var sealed := c.aead.encrypt(c.key, nonce, message);
    var split := |sealed| - TagLen;
    EncryptedMessage(username, Hex.Encode(nonce), Hex.Encode(sealed[..split]), Hex.Encode(sealed[split..]))
  }

  /** The bytes `send_encrypted` writes: the serialised envelope, framed as `write_plain` frames. */
  function SealedFrame(c: Cipher, j: Json, nonce: Nonce, message: bytes, username: bytes): bytes
    requires c.aead.Correct()
  {
    Net.Frame(j.serialize(Seal(c, nonce, message, username)))
  }

  /** What `read_one_encrypted` makes of one frame's payload: the sender's name and the
      decrypted text through `from_utf8_lossy`, or None. A nonce field that does not decode to
      exactly 12 bytes is rejected here; the source panics instead (OpenAsWritten). */
  function Open(c: Cipher, j: Json, payload: bytes): (r: Option<(bytes, bytes)>)
    ensures j.parse(payload).None? ==> r.None?
    ensures j.parse(payload).Some? && Hex.Decode(j.parse(payload).value.nonce).None? ==> r.None?
    ensures j.parse(payload).Some? && Hex.Decode(j.parse(payload).value.ciphertext).None? ==> r.None?
    ensures j.parse(payload).Some? && Hex.Decode(j.parse(payload).value.tag).None? ==> r.None?
    ensures (j.parse(payload).Some? && Hex.Decode(j.parse(payload).value.nonce).Some?
             && |Hex.Decode(j.parse(payload).value.nonce).value| != NonceLen) ==> r.None?
    ensures r.Some? ==> r.value.0 == j.parse(payload).value.username && Utf8.Valid(r.value.1)
    ensures (j.parse(payload).Some?
             && Hex.Decode(j.parse(payload).value.nonce).Some? && |Hex.Decode(j.parse(payload).value.nonce).value| == NonceLen
             && Hex.Decode(j.parse(payload).value.ciphertext).Some? && Hex.Decode(j.parse(payload).value.tag).Some?)
            ==> var m := j.parse(payload).value;
                var combined := Hex.Decode(m.ciphertext).value + Hex.Decode(m.tag).value;
                var decrypted := c.aead.decrypt(c.key, Hex.Decode(m.nonce).value, combined);
                && (r.None? <==> decrypted.None?)
                && (r.Some? ==> r.value.1 == Utf8.Lossy(decrypted.value))
  {
    match j.parse(payload)
    case None => None
    case Some(m) =>
      match Hex.Decode(m.nonce)
      case None => None
      case Some(nonce) =>
        if |nonce| != NonceLen then None
        else
          match (Hex.Decode(m.ciphertext), Hex.Decode(m.tag))
          case (Some(ciphertext), Some(tag)) =>
            (match c.aead.decrypt(c.key, nonce, ciphertext + tag)
             case None => None
             case Some(plaintext) =>
               Utf8.LossyIsValid(plaintext);
               Some((m.username, Utf8.Lossy(plaintext))))
          case _ => None
  }

  /** What `read_one_encrypted` returns for a stream holding `input`, and what it leaves unread. */
  function Receive(c: Cipher, j: Json, input: bytes): (r: (Option<(bytes, bytes)>, bytes))
    ensures r.0.Some? ==> |r.1| < |input|
    ensures Net.ReadFrame(input).0.None? ==> r == (None, [])
  {
    var (frame, rest) := Net.ReadFrame(input);
    match frame
    case None => (None, rest)
    case Some(payload) => (Open(c, j, payload), rest)
  }

  /** `send_encrypted` with the nonce `OsRng` drew. */
  method SendEncrypted(s: Net.Stream, message: bytes, c: Cipher, username: bytes, nonce: Nonce, j: Json)
    returns (ok: bool)
    requires c.aead.Correct()
    modifies s
    ensures ok == s.writable
    ensures s.outgoing == old(s.outgoing) + (if ok then SealedFrame(c, j, nonce, message, username) else [])
    ensures s.incoming == old(s.incoming)
  {
    var envelope := Seal(c, nonce, message, username);
    var serialized := j.serialize(envelope);
    ok := Net.WritePlain(s, serialized);
  }

  /** `read_one_encrypted`: one frame, then parse, unhex, rebuild ciphertext||tag and decrypt. */
  method ReadOneEncrypted(s: Net.Stream, c: Cipher, j: Json) returns (r: Option<(bytes, bytes)>)
    modifies s
    ensures (r, s.incoming) == Receive(c, j, old(s.incoming))
    ensures s.outgoing == old(s.outgoing)
  {
    var frame := Net.ReadPlain(s);
    if frame.None? {
      return None;
    }
    var parsed := j.parse(frame.value);
    if parsed.None? {
      return None;
    }
    var m := parsed.value;
    var nonce := Hex.Decode(m.nonce);
    if nonce.None? || |nonce.value| != NonceLen {
      return None;
    }
    var ciphertext := Hex.Decode(m.ciphertext);
    if ciphertext.None? {
      return None;
    }
    var tag := Hex.Decode(m.tag);
    if tag.None? {
      return None;
    }
    var combined := ciphertext.value;
    combined := combined + tag.value;
    var decrypted := c.aead.decrypt(c.key, nonce.value, combined);
    if decrypted.None? {
      return None;
    }
    r := Some((m.username, Utf8.Lossy(decrypted.value)));
  }

  /** The envelope fields decode back to the nonce and to the AEAD output, split into a 16-byte
      tag and the ciphertext before it. */
  lemma SealFieldsDecode(c: Cipher, nonce: Nonce, message: bytes, username: bytes)
    requires c.aead.Correct()
    ensures var e := Seal(c, nonce, message, username);
            var sealed := c.aead.encrypt(c.key, nonce, message);
            && Hex.Decode(e.nonce) == Some(nonce)
            && Hex.Decode(e.ciphertext).Some? && Hex.Decode(e.tag).Some?
            && |Hex.Decode(e.tag).value| == TagLen
            && Hex.Decode(e.ciphertext).value + Hex.Decode(e.tag).value == sealed
  {
    var sealed := c.aead.encrypt(c.key, nonce, message);
    var split := |sealed| - TagLen;
    Hex.DecodeEncode(nonce);
    Hex.DecodeEncode(sealed[..split]);
    Hex.DecodeEncode(sealed[split..]);
    assert sealed[..split] + sealed[split..] == sealed;
  }

  /** Opening a sealed envelope with the same cipher gives back the username and the message
      (through `from_utf8_lossy`, which leaves the text of a `&str` unchanged). */
  lemma SealThenOpen(c: Cipher, j: Json, nonce: Nonce, message: bytes, username: bytes)
    requires c.aead.Correct() && j.RoundTrips()
    ensures Open(c, j, j.serialize(Seal(c, nonce, message, username))) == Some((username, Utf8.Lossy(message)))
    ensures Utf8.Valid(message) ==> Open(c, j, j.serialize(Seal(c, nonce, message, username))) == Some((username, message))
  {
    SealFieldsDecode(c, nonce, message, username);
    Utf8.LossyIdentityIffValid(message);
  }

  /** The username is outside what the AEAD authenticates: an envelope whose username was
      replaced still opens, and reports the replacement. */
  lemma UsernameIsNotAuthenticated(c: Cipher, j: Json, nonce: Nonce, message: bytes, username: bytes, forged: bytes)
    requires c.aead.Correct() && j.RoundTrips()
    ensures Open(c, j, j.serialize(Seal(c, nonce, message, username).(username := forged))) == Some((forged, Utf8.Lossy(message)))
  {
    SealFieldsDecode(c, nonce, message, username);
    assert Seal(c, nonce, message, username).(username := forged) == Seal(c, nonce, message, forged);
  }

  /** Reading what `send_encrypted` wrote yields the sender's name and message and leaves the
      following bytes unread. */
  lemma SendThenReceive(c: Cipher, j: Json, nonce: Nonce, message: bytes, username: bytes, rest: bytes)
    requires c.aead.Correct() && j.RoundTrips()
    requires Utf8.Valid(message)
    requires |j.serialize(Seal(c, nonce, message, username))| < U32Limit
    ensures Receive(c, j, SealedFrame(c, j, nonce, message, username) + rest) == (Some((username, message)), rest)
  {
    Net.FrameRoundTrip(j.serialize(Seal(c, nonce, message, username)), rest);
    SealThenOpen(c, j, nonce, message, username);
  }

  /** How `read_one_encrypted` as written ends on a payload: it returns, or it panics. */
  datatype Outcome<T> = Panics | Returns(value: T)

  /** `read_one_encrypted` exactly as written: `GenericArray::from_slice` panics when the nonce
      field decodes to any length but 12. Otherwise it agrees with Open. */
  function OpenAsWritten(c: Cipher, j: Json, payload: bytes): (r: Outcome<Option<(bytes, bytes)>>)
    ensures r.Panics? <==> (j.parse(payload).Some? && Hex.Decode(j.parse(payload).value.nonce).Some?
                            && |Hex.Decode(j.parse(payload).value.nonce).value| != NonceLen)
    ensures r.Returns? ==> r.value == Open(c, j, payload)
  {
    match j.parse(payload)
    case None => Returns(None)
    case Some(m) =>
      match Hex.Decode(m.nonce)
      case None => Returns(None)
      case Some(nonce) => if |nonce| != NonceLen then Panics else Returns(Open(c, j, payload))
  }

  /** An envelope anyone can build without the shared key: empty username, ciphertext and tag,
      and the nonce field "00", which decodes to a single byte. */
  const ShortNonceEnvelope: EncryptedMessage := EncryptedMessage([], [0x30, 0x30], [], [])

  /** That envelope makes the source panic, whatever the key; Open rejects it. */
  lemma ShortNoncePanics(c: Cipher, j: Json)
    requires j.RoundTrips()
    ensures OpenAsWritten(c, j, j.serialize(ShortNonceEnvelope)) == Panics
    ensures Open(c, j, j.serialize(ShortNonceEnvelope)) == None
  {
    var m := ShortNonceEnvelope;
    assert j.parse(j.serialize(m)) == Some(m);
    assert Hex.DigitValue(m.nonce[0]) == Some(0) && Hex.DigitValue(m.nonce[1]) == Some(0);
    assert m.nonce[2..] == [];
    var one: bytes := [0 as byte] + [];
    assert Hex.Decode(m.nonce) == Some(one);
    assert |one| == 1;
  }
}
