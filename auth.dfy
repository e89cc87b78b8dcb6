/** Unwrapping the data-encryption key (DEK) from its key file:
    `salt(16) || nonce(12) || AES-256-GCM(ciphertext || tag)` under a key-encryption key (KEK)
    derived from a password by PBKDF2-HMAC-SHA256. */
module Auth {
  import opened Bytes
  import Crypto

  const SaltLen: nat := 16
  const KdfIterations: nat := 100_000
  /** The shortest blob accepted: salt, nonce and the tag of an empty plaintext. */
  const MinBlobLen: nat := SaltLen + Crypto.NonceLen + Crypto.TagLen
  const DekLen: nat := 32

  type Salt = b: bytes | |b| == 16 witness seq(16, _ => 0)

  /** PBKDF2 with HMAC-SHA256 (section 5.2 of RFC 8018) filling a 32-byte output, applied to
      the password, the salt and the iteration count. */
  type Pbkdf2 = (bytes, bytes, nat) -> Crypto.Key

  /** The error strings of the two key-file operations. */
  datatype KeyError =
    | ReadFileFailed       // "Failed to read {path}: ..."
    | Malformed            // "Encrypted DEK file is too small or malformed"
    | ReadKekFailed        // "Failed to read KEK"
    | WrongKekOrCorrupted  // "Failed to decrypt dek.bin: wrong KEK or corrupted file"
    | InvalidDekLength     // "Decrypted DEK has invalid length"
    | InputEmpty           // "Input file {path} is empty"
    | WriteFailed          // "Failed to write {path}: ..."

  datatype Result<+T> = Ok(value: T) | Err(error: KeyError)

  /** The terminal that `rpassword::read_password` reads from: `answer` is what reading it
      gives (None when it fails), `asked` counts how often the password was asked for. */
  class Prompt {
    const answer: Option<bytes>
    var asked: nat

    constructor (answer: Option<bytes>)
      ensures this.answer == answer && asked == 0
    {
      this.answer := answer;
      asked := 0;
    }

    method ReadPassword() returns (r: Option<bytes>)
      modifies this
      ensures r == answer && asked == old(asked) + 1
    {
      asked := asked + 1;
      r := answer;
    }
  }

  /** `salt = blob[0..16]`, `nonce = blob[16..28]`, `ciphertext = blob[28..]`: three
      consecutive pieces that make up the whole blob. */
  function SplitBlob(blob: bytes): (r: (Salt, Crypto.Nonce, bytes))
    requires |blob| >= MinBlobLen
    ensures r.0 + r.1 + r.2 == blob
    ensures |r.2| == |blob| - SaltLen - Crypto.NonceLen
  {
    assert blob == blob[0..16] + blob[16..28] + blob[28..];
    (blob[0..16], blob[16..28], blob[28..])
  }

  /** The AEAD decryption of the blob's ciphertext under the KEK derived from `password` and
      the stored salt. */
  function UnwrapCipher(aead: Crypto.Aead, kdf: Pbkdf2, blob: bytes, password: bytes): Option<bytes>
    requires |blob| >= MinBlobLen
  {
    var (salt, nonce, ciphertext) := SplitBlob(blob);
    aead.decrypt(kdf(password, salt, KdfIterations), nonce, ciphertext)
  }

  /** What `load_dek_from_encrypted` returns, given what reading the key file gave and what
      reading the password would give. The length check comes first, so a short blob is
      `Malformed` whatever the password; both AEAD failure causes give one error. */
  function Unwrap(aead: Crypto.Aead, kdf: Pbkdf2, file: Option<bytes>, password: Option<bytes>)
    : (r: Result<Crypto.Key>)
    ensures file.None? ==> r == Err(ReadFileFailed)
    ensures file.Some? && |file.value| < MinBlobLen ==> r == Err(Malformed)
    ensures file.Some? && |file.value| >= MinBlobLen && password.None? ==> r == Err(ReadKekFailed)
    ensures file.Some? && |file.value| >= MinBlobLen && password.Some?
            ==> (UnwrapCipher(aead, kdf, file.value, password.value).None? <==> r == Err(WrongKekOrCorrupted))
    ensures file.Some? && |file.value| >= MinBlobLen && password.Some?
            && UnwrapCipher(aead, kdf, file.value, password.value).Some?
            ==> (|UnwrapCipher(aead, kdf, file.value, password.value).value| != DekLen <==> r == Err(InvalidDekLength))
    ensures r.Ok? ==> file.Some? && |file.value| >= MinBlobLen && password.Some?
                      && UnwrapCipher(aead, kdf, file.value, password.value) == Some(r.value)
    ensures r.Ok? <==> (file.Some? && |file.value| >= MinBlobLen && password.Some?
                        && UnwrapCipher(aead, kdf, file.value, password.value).Some?
                        && |UnwrapCipher(aead, kdf, file.value, password.value).value| == DekLen)
  {
    match file
    case None => Err(ReadFileFailed)
    case Some(blob) =>
      if |blob| < MinBlobLen then Err(Malformed)
      else
        match password
        case None => Err(ReadKekFailed)
        case Some(pw) =>
          match UnwrapCipher(aead, kdf, blob, pw)
          case None => Err(WrongKekOrCorrupted)
          case Some(dek) => if |dek| != DekLen then Err(InvalidDekLength) else Ok(dek)
  }

  /** `load_dek_from_encrypted`: the password is asked for only once the blob is long enough,
      and the DEK is copied into the 32-byte array `arr`. */
  method LoadDekFromEncrypted(aead: Crypto.Aead, kdf: Pbkdf2, file: Option<bytes>, prompt: Prompt)
    returns (r: Result<Crypto.Key>)
    modifies prompt
    ensures r == Unwrap(aead, kdf, file, prompt.answer)
    ensures prompt.asked == old(prompt.asked) + (if file.Some? && |file.value| >= MinBlobLen then 1 else 0)
  {
    if file.None? {
      return Err(ReadFileFailed);
    }
    var blob := file.value;
    if |blob| < MinBlobLen {
      return Err(Malformed);
    }
    var salt, nonce, ciphertext := blob[0..16], blob[16..28], blob[28..];
    var kek := prompt.ReadPassword();
    if kek.None? {
      return Err(ReadKekFailed);
    }
    var kekDerived := kdf(kek.value, salt, KdfIterations);
    var decrypted := aead.decrypt(kekDerived, nonce, ciphertext);
    if decrypted.None? {
      return Err(WrongKekOrCorrupted);
    }
    var dek := decrypted.value;
    if |dek| != DekLen {
      return Err(InvalidDekLength);
    }
    var arr := new byte[DekLen];
    forall i | 0 <= i < DekLen {
      arr[i] := dek[i];
    }
    assert arr[..] == dek;
    r := Ok(arr[..]);
  }
}
