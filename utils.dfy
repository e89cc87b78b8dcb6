/** Wrapping a data-encryption key into the key file that `Auth` unwraps. */
module Utils {
  import opened Bytes
  import Crypto
  import Auth

  /** The blob for `dek`: `salt || nonce || ciphertext`, the ciphertext being the AEAD output
      under the KEK that PBKDF2 derives from `password` and `salt`. */
  function WrappedBlob(aead: Crypto.Aead, kdf: Auth.Pbkdf2, dek: bytes, password: bytes, salt: Auth.Salt, nonce: Crypto.Nonce)
    : (blob: bytes)
    requires aead.Correct()
    ensures |blob| == Auth.SaltLen + Crypto.NonceLen + |dek| + Crypto.TagLen
  {
    salt + nonce + aead.encrypt(kdf(password, salt, Auth.KdfIterations), nonce, dek)
  }

  /** What `encrypt_and_write_dek` ends with, given what reading the input file gave, what
      reading the password gives, the random salt and nonce, and whether writing the output
      succeeds; on success, the blob written. Any non-empty input is wrapped. */
  function Wrap(aead: Crypto.Aead, kdf: Auth.Pbkdf2, input: Option<bytes>, password: Option<bytes>,
                salt: Auth.Salt, nonce: Crypto.Nonce, writeOk: bool): (r: Auth.Result<bytes>)
    requires aead.Correct()
    ensures input.None? ==> r == Auth.Err(Auth.ReadFileFailed)
    ensures input == Some([]) ==> r == Auth.Err(Auth.InputEmpty)
    ensures input.Some? && input.value != [] && password.None? ==> r == Auth.Err(Auth.ReadKekFailed)
    ensures r.Ok? <==> input.Some? && input.value != [] && password.Some? && writeOk
    ensures r.Ok? ==> r.value == WrappedBlob(aead, kdf, input.value, password.value, salt, nonce)
  {
    match input
    case None => Auth.Err(Auth.ReadFileFailed)
    case Some(dek) =>
      if dek == [] then Auth.Err(Auth.InputEmpty)
      else
        match password
        case None => Auth.Err(Auth.ReadKekFailed)
        case Some(pw) =>
          if !writeOk then Auth.Err(Auth.WriteFailed)
          else Auth.Ok(WrappedBlob(aead, kdf, dek, pw, salt, nonce))
  }

  /** `encrypt_and_write_dek`, with the salt and nonce `OsRng` drew; `out_blob` grows by three
      `extend_from_slice` calls. */
  method EncryptAndWriteDek(aead: Crypto.Aead, kdf: Auth.Pbkdf2, input: Option<bytes>, prompt: Auth.Prompt,
                            salt: Auth.Salt, nonce: Crypto.Nonce, writeOk: bool)
    returns (r: Auth.Result<bytes>)
    requires aead.Correct()
    modifies prompt
    ensures r == Wrap(aead, kdf, input, prompt.answer, salt, nonce, writeOk)
    ensures prompt.asked == old(prompt.asked) + (if input.Some? && input.value != [] then 1 else 0)
  {
    if input.None? {
      return Auth.Err(Auth.ReadFileFailed);
    }
    var dekBytes := input.value;
    if dekBytes == [] {
      return Auth.Err(Auth.InputEmpty);
    }
    var kek := prompt.ReadPassword();
    if kek.None? {
      return Auth.Err(Auth.ReadKekFailed);
    }
    var kekDerived := kdf(kek.value, salt, Auth.KdfIterations);
    var ciphertext := aead.encrypt(kekDerived, nonce, dekBytes);
    var outBlob: bytes := [];
    outBlob := outBlob + salt;
    outBlob := outBlob + nonce;
    outBlob := outBlob + ciphertext;
    if !writeOk {
      return Auth.Err(Auth.WriteFailed);
    }
    assert outBlob == WrappedBlob(aead, kdf, dekBytes, kek.value, salt, nonce);
    r := Auth.Ok(outBlob);
  }

  /** A wrapped key file splits back into the salt, the nonce and the AEAD output; it is longer
      than the 44-byte minimum; and unwrapping it with the same password gives the key back
      when it is 32 bytes long, and `InvalidDekLength` otherwise, since only unwrapping checks. */
  lemma WrapThenUnwrap(aead: Crypto.Aead, kdf: Auth.Pbkdf2, dek: bytes, password: bytes, salt: Auth.Salt, nonce: Crypto.Nonce)
    requires aead.Correct() && dek != []
    ensures var blob := WrappedBlob(aead, kdf, dek, password, salt, nonce);
            && |blob| > Auth.MinBlobLen
            && Auth.SplitBlob(blob) == (salt, nonce, aead.encrypt(kdf(password, salt, Auth.KdfIterations), nonce, dek))
            && Auth.Unwrap(aead, kdf, Some(blob), Some(password))
               == if |dek| == Auth.DekLen then Auth.Ok(dek) else Auth.Err(Auth.InvalidDekLength)
  {
    var blob := WrappedBlob(aead, kdf, dek, password, salt, nonce);
    var ciphertext := aead.encrypt(kdf(password, salt, Auth.KdfIterations), nonce, dek);
    assert blob[0..16] == salt;
    assert blob[16..28] == nonce;
    assert blob[28..] == ciphertext;
  }

  /** The same, end to end: the blob `encrypt_and_write_dek` writes for a 32-byte key is one
      `load_dek_from_encrypted` accepts with the same password, returning that key. */
  lemma WrapFileThenLoad(aead: Crypto.Aead, kdf: Auth.Pbkdf2, dek: bytes, password: bytes,
                         salt: Auth.Salt, nonce: Crypto.Nonce)
    requires aead.Correct() && |dek| == Auth.DekLen
    ensures Wrap(aead, kdf, Some(dek), Some(password), salt, nonce, true).Ok?
    ensures Auth.Unwrap(aead, kdf, Some(Wrap(aead, kdf, Some(dek), Some(password), salt, nonce, true).value), Some(password))
            == Auth.Ok(dek)
  {
    WrapThenUnwrap(aead, kdf, dek, password, salt, nonce);
  }
}
