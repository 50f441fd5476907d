/**
 Salted password hashing and checking (`lib/passwordUtils.js`).

 PBKDF2 (section 5.2 of RFC 8018) over HMAC-SHA-512 is not modelled: it is a
 `Kdf`, a deterministic function value whose only known law is that its output
 is as long as the key length it is asked for. The 32 random salt bytes are a
 parameter of `GenPassword`.
 */
module PasswordUtils {
  import opened Wrappers
  import opened Hex

  /** The arguments `pbkdf2Sync` receives after the password and salt. */
  datatype KdfParams = KdfParams(iterations: nat, keyLength: nat, digest: string)

  /** The fixed parameters both functions pass: 10000 iterations, 64 bytes, SHA-512. */
  const Params := KdfParams(10000, 64, "sha512")

  /** Number of random bytes drawn for a salt. */
  const SaltLength := 32

  /** A password-based key derivation function: output length is the requested key length. */
  type Kdf = f: (string, string, KdfParams) -> seq<byte>
    | forall password, salt, params :: |f(password, salt, params)| == params.keyLength
    witness (password: string, salt: string, params: KdfParams) => seq(params.keyLength, _ => 0)

  /** What `genPassword` returns and what a user document stores. */
  datatype Credential = Credential(salt: string, hash: string)

  /**
   `genPassword`: the salt is the hex form of the random bytes, and the hash is
   the hex form of the key derived from the password and that salt STRING.
   */
  function GenPassword(kdf: Kdf, password: string, randomBytes: seq<byte>): (r: Credential)
    requires |randomBytes| == SaltLength
    ensures |r.salt| == 2 * SaltLength && IsLowerHex(r.salt)
    ensures |r.hash| == 2 * Params.keyLength && IsLowerHex(r.hash)
    ensures FromHex(r.salt) == Some(randomBytes)
    ensures FromHex(r.hash) == Some(kdf(password, r.salt, Params))
  {
    var salt := ToHex(randomBytes);
    var hash := ToHex(kdf(password, salt, Params));
    FromHexToHex(randomBytes);
    FromHexToHex(kdf(password, salt, Params));
    Credential(salt, hash)
  }

  /**
   `validPassword`: re-derives the key with the same parameters and compares
   hex strings. True exactly when the stored hash spells the derived key in
   lowercase Base16.
   */
  function ValidPassword(kdf: Kdf, password: string, hash: string, salt: string): (ok: bool)
    ensures ok <==> IsBase16Of(hash, kdf(password, salt, Params))
    ensures ok ==> |hash| == 2 * Params.keyLength && IsLowerHex(hash)
  {
    var hashVerify := ToHex(kdf(password, salt, Params));
    ToHexIsBase16(hash, kdf(password, salt, Params));
    hash == hashVerify
  }

  /** A stored hash validates exactly when it decodes to the re-derived key. */
  lemma ValidIffDecodes(kdf: Kdf, password: string, hash: string, salt: string)
    ensures ValidPassword(kdf, password, hash, salt) <==> FromHex(hash) == Some(kdf(password, salt, Params))
  {
    ToHexIsBase16(hash, kdf(password, salt, Params));
    EqualsToHexIffDecodes(hash, kdf(password, salt, Params));
  }

  /** Whatever the password and the random bytes, the record `genPassword` makes validates. */
  lemma GenThenValid(kdf: Kdf, password: string, randomBytes: seq<byte>)
    requires |randomBytes| == SaltLength
    ensures var c := GenPassword(kdf, password, randomBytes);
            ValidPassword(kdf, password, c.hash, c.salt)
  {
    var c := GenPassword(kdf, password, randomBytes);
    ValidIffDecodes(kdf, password, c.hash, c.salt);
  }

  /**
   The string comparison is a byte comparison: a hash stored as the hex form
   of some key validates exactly when that key equals the re-derived one.
   */
  lemma ValidIffKeysEqual(kdf: Kdf, password: string, storedKey: seq<byte>, salt: string)
    ensures ValidPassword(kdf, password, ToHex(storedKey), salt) <==> storedKey == kdf(password, salt, Params)
  {
    ValidIffDecodes(kdf, password, ToHex(storedKey), salt);
    FromHexToHex(storedKey);
  }
}
