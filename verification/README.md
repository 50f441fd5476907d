# Credential core of an Express/Passport local-login application

This project models, in Dafny, the two pieces of credential logic of a small
Express application that logs users in with Passport's local strategy and a
MongoDB user collection:

- **Salted password hashing** (`lib/passwordUtils.js`): `genPassword` hex-encodes
  32 random bytes into a salt string, derives a 64-byte key with
  PBKDF2-HMAC-SHA-512 (10000 iterations) from the password and that salt string,
  and hex-encodes the key; `validPassword` re-derives the key with the same
  parameters and compares hex strings with `===`.
- **Login decision and session identity** (`config/passport.js`): the
  `verifyCallback` decision table over the outcome of `User.findOne`, the
  `customFields` form-field mapping, and `serializeUser` / `deserializeUser`,
  which keep only `user.id` in the session and resolve it with `findById`.

Files:

- `wrappers.dfy` — `Option`.
- `hex.dfy` — lowercase Base16 (section 8 of RFC 4648) as Node's
  `toString("hex")` writes it, a canonical decoder, and the round-trip and
  injectivity laws that make the string comparison a byte comparison.
- `password_utils.dfy` — `GenPassword`, `ValidPassword` over an abstract `Kdf`.
- `passport.dfy` — user documents, the store and its queries, `VerifyCallback`,
  `Login`, `SerializeUser`, `DeserializeUser` and the session round trip.

Modelling choices:

- PBKDF2 (section 5.2 of RFC 8018) is a `Kdf`: a deterministic function value of
  (password, salt string, parameters) whose only law is that its output has
  the requested key length. Both operations pass the same constant `Params`
  (10000, 64, `"sha512"`), which is what the round trip rests on.
- `crypto.randomBytes(32)` is the parameter `randomBytes` of `GenPassword`.
- The user collection is a `Store`: `Online(users)` in natural order, or
  `Offline(reason)` where every query rejects. `findOne({username})` and
  `findById(id)` return the first matching document, `null`, or a rejection
  (`Lookup = Found | NotFound | Err`).
- Passport's `done` callback is the returned value `Done = Error(err) | Ok(value)`;
  `done(null, false)` is `Ok(None)`.
- The schema (`config/database.js:23-28`) requires no field, so a document's
  `username`, `hash`, `salt` and `admin` are `Option`s. A missing hash makes
  `===` false. A missing salt makes `pbkdf2Sync` throw inside `.then`, which the
  `.catch` turns into `done(err)`: `Error(KdfArgumentError)`, never a success.
- `Login` composes the local strategy: it reads `uname` and `pw` from the form
  body, and an absent or empty field fails the attempt before any lookup (this
  short-circuit is the passport-local library's behaviour, not code of this
  repository). Otherwise it looks the user up by exactly that username and
  hands the outcome to `VerifyCallback`.
- A user missing from the store on deserialisation is `Ok(None)`
  (`done(null, null)`), and nothing checks the id's shape before `findById`.

## Model

| member | source | states |
|---|---|---|
| Hex.ToHex | lib/passwordUtils.js:10 | the hex form of n bytes is exactly 2n characters, all in `0-9a-f` |
| Hex.ToHexAt | lib/passwordUtils.js:20 | byte i is written at characters 2i (high nibble) and 2i+1 (low nibble) |
| Hex.ToHexIsBase16 | lib/passwordUtils.js:20 | a string is the hex form of some bytes if and only if it is twice as long and spells each byte high nibble then low nibble at its position |
| Hex.FromHexToHex | lib/passwordUtils.js:20 | decoding the hex form of any byte string gives those bytes back |
| Hex.ToHexFromHex | lib/passwordUtils.js:41 | every string the canonical decoder accepts is the hex form of what it decodes to |
| Hex.ToHexInjective | lib/passwordUtils.js:39-41 | two byte strings have equal hex forms if and only if they are equal |
| Hex.EqualsToHexIffDecodes | lib/passwordUtils.js:41 | a string equals the hex form of some bytes if and only if it decodes to those bytes |
| PasswordUtils.GenPassword | lib/passwordUtils.js:8-26 | the salt is 64 lowercase hex characters decoding to the 32 random bytes; the hash is 128 lowercase hex characters decoding to the key derived from the password and that same salt string |
| PasswordUtils.ValidPassword | lib/passwordUtils.js:35-42 | true if and only if the stored hash spells, position by position in lowercase Base16, the key re-derived with the fixed parameters from the password and the stored salt; any other hash string, including an uppercase one, is false; a true answer implies a 128-character lowercase hex hash |
| PasswordUtils.ValidIffDecodes | lib/passwordUtils.js:37-41 | the check succeeds if and only if the stored hash decodes to the re-derived key |
| PasswordUtils.GenThenValid | lib/passwordUtils.js:8-42 | for every password and every 32 random bytes, the record `genPassword` returns passes `validPassword` with that password |
| PasswordUtils.ValidIffKeysEqual | lib/passwordUtils.js:37-41 | a hash stored as the hex form of a key validates if and only if that key equals the re-derived key |
| Passport.FirstIndex | config/passport.js:22 | the position returned is the first document matching the filter, or the end when none matches |
| Passport.FindOne | config/passport.js:22 | a query rejects exactly when the store is unreachable; a found document is in the store and matches the filter; `null` exactly when no stored document matches |
| Passport.VerifyCallback | config/passport.js:20-42 | no user gives `Ok(None)`; a store error gives `Error` and never success; a missing salt gives `Error`; the outcome is `Ok(Some(u))` if and only if a user was found whose stored hash decodes to the key derived from the password and its salt, and then `u` is that same user; otherwise unknown user and wrong password give the identical `Ok(None)` |
| Passport.Login | config/passport.js:11-47 | credentials come from the fields `uname` and `pw`, and a missing or empty one fails before lookup; the outcome is decided by the first stored document with the submitted username: `Ok(Some)` of that very document when it authenticates the submitted password, `Ok(None)` when it has a salt but the password is wrong, `Error` when it has no salt; a logged-in user is in the store, has exactly the submitted username and authenticates the submitted password; an unknown username gives `Ok(None)`; an unreachable store gives `Error` |
| Passport.RegisteredUserPassesCheck | routes/index.js:29-41 | a document holding the salt and hash `genPassword` made for a password passes the password check of `verifyCallback` for that password |
| Passport.RegisteredUserLogsIn | config/passport.js:11-47 | a registered document with a non-empty username and password, not shadowed by an earlier document with the same username, logs in through the form with that password |
| Passport.SerializeUser | config/passport.js:59-61 | serialisation never fails and yields the user's id |
| Passport.SerializeKeepsOnlyId | config/passport.js:59-61 | two users get the same session value if and only if their ids are equal, so nothing but the id reaches the session |
| Passport.DeserializeUser | config/passport.js:73-80 | a store error propagates as `Error` and only then; a returned user is in the store and carries the requested id; `Ok(None)` exactly when no stored user has that id |
| Passport.SessionRoundTrip | config/passport.js:59-80 | for a user in a reachable store, deserialising its serialised form yields a user with the same id |
| Passport.SessionRoundTripExact | config/passport.js:59-80 | when ids are unique, deserialising a stored user's session value yields that very user |
| Passport.LoginThenRestore | config/passport.js:20-80 | after a successful login, the session value restores a user with the logged-in user's id |

## Left out

- The internals of PBKDF2, HMAC and SHA-512 (`crypto.pbkdf2Sync`) and the UTF-8
  encoding of password and salt strings: foreign library code, abstracted as `Kdf`.
- `crypto.randomBytes`: randomness, a parameter instead.
- That different passwords fail to verify and that salts are unique: these rest
  on cryptographic assumptions about PBKDF2 and the random source that the code
  does not state.
- Timing: the `===` comparison is not constant-time, and nothing here claims it is.
- Determinism of `validPassword`: it holds by construction, since every Dafny
  function is deterministic, so there is no separate member for it.
- Promise and callback asynchrony: lookups and `done` are synchronous values. A
  `done` that throws inside `.then` would be caught and `done` called a second
  time; callbacks are results here, so this path does not exist in the model.
- Passport-local's fallback to the query string for `uname`/`pw`, and non-string
  form values produced by the body parser: form fields are strings from the body.
- Mongoose casting of ids in `findById` (a cast failure is a rejection like any
  other store error) and document order beyond "first in the stored sequence".
- Passport.RegisteredUserLogsIn: holds only for a non-empty username and
  password and a document no earlier one with the same username shadows. The
  registration route hashes any `pw`, including the empty one, and does not
  check for an existing username, and the schema has no unique index
  (routes/index.js:31-44, config/database.js:23-28): an account registered with
  an empty password can never log in, and a later duplicate is shadowed by the
  first document `findOne` returns.
- Registration (`routes/index.js`): HTML forms, redirects, the fire-and-forget
  `save`, and the hard-coded `admin: true`; only the credential record it stores
  is built, as `RegisteredUser`.
- `app.js` and `config/database.js`: Express, session-store and connection setup,
  logging and `listen`; only the user field list is borrowed.
