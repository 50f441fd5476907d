/**
 The login decision and the session identity mapping (`config/passport.js`).

 The Mongoose `User` collection is a `Store`: the documents in natural order,
 or a store that rejects every query. Passport's `done(err, value)` callback
 becomes the returned `Done` value.
 */
module Passport {
  import opened Wrappers
  import opened Hex
  import opened PasswordUtils

  type UserId = string

  /**
   A user document. The schema marks no field as required, so a stored
   document may lack any of them; `id` is Mongoose's string form of `_id`.
   */
  datatype User = User(
    id: UserId,
    username: Option<string>,
    hash: Option<string>,
    salt: Option<string>,
    admin: Option<bool>)

  /** Why a callback was completed with an error. */
  datatype Failure =
    | StoreFailure(reason: string)   // the query promise rejected
    | KdfArgumentError               // `pbkdf2Sync` threw on a missing salt

  /** The outcome of a `done` callback: `done(err)` or `done(null, value)`. */
  datatype Done<T> = Error(err: Failure) | Ok(value: T)

  /** How a query settled: a document, `null`, or a rejection. */
  datatype Lookup = Found(user: User) | NotFound | Err(reason: string)

  datatype Store = Online(users: seq<User>) | Offline(reason: string)

  /** The two filters the core issues: `{ username: name }` and `findById(id)`. */
  datatype Query = ByUsername(name: string) | ById(id: UserId)

  predicate Matches(u: User, q: Query) {
    match q
    case ByUsername(name) => u.username == Some(name)
    case ById(id) => u.id == id
  }

  /** Position of the first document of `users` matching `q`; `|users|` when none does. */
  function FirstIndex(users: seq<User>, q: Query): (k: nat)
    ensures k <= |users|
    ensures k < |users| ==> Matches(users[k], q)
    ensures forall j :: 0 <= j < k ==> !Matches(users[j], q)
  {
    if users == [] then 0
    else if Matches(users[0], q) then 0
    else
      var k := FirstIndex(users[1..], q);
      assert forall j :: 1 <= j < |users| ==> users[j] == users[1..][j - 1];
      k + 1
  }

  /** `findOne`/`findById`: the first matching document, `null`, or a rejection. */
  function FindOne(store: Store, q: Query): (r: Lookup)
    ensures r.Err? <==> store.Offline?
    ensures r.Found? ==> store.Online? && r.user in store.users && Matches(r.user, q)
    ensures r.NotFound? <==> store.Online? && forall u :: u in store.users ==> !Matches(u, q)
    ensures r.Found? ==> r.user == store.users[FirstIndex(store.users, q)]
  {
    match store
    case Offline(reason) => Err(reason)
    case Online(users) =>
      var k := FirstIndex(users, q);
      if k < |users| then Found(users[k]) else NotFound
  }

  /** Field names of the login form (`customFields`). */
  const UsernameField := "uname"
  const PasswordField := "pw"

  /**
   A stored document authenticates a password when it has a salt and a hash and
   the hash decodes to the key derived from the password and that salt.
   */
  ghost predicate Authenticates(kdf: Kdf, u: User, password: string) {
    && u.salt.Some?
    && u.hash.Some?
    && FromHex(u.hash.value) == Some(kdf(password, u.salt.value, Params))
  }

  /**
   `verifyCallback` once `findOne` has settled: unknown user and wrong password
   both give `done(null, false)`; a rejection, or a `pbkdf2Sync` that throws on
   a missing salt, reaches `.catch` and gives `done(err)`.
   */
  function VerifyCallback(kdf: Kdf, lookup: Lookup, password: string): (r: Done<Option<User>>)
    ensures lookup.NotFound? ==> r == Ok(None)
    ensures lookup.Err? ==> r == Error(StoreFailure(lookup.reason))
    ensures lookup.Found? && lookup.user.salt.None? ==> r == Error(KdfArgumentError)
    ensures lookup.Found? && lookup.user.salt.Some? ==> r.Ok?
    ensures r.Ok? && r.value.Some? <==> lookup.Found? && Authenticates(kdf, lookup.user, password)
    ensures r.Ok? && r.value.Some? ==> r.value.value == lookup.user
  {
    match lookup
    case Err(reason) => Error(StoreFailure(reason))
    case NotFound => Ok(None)
    case Found(user) =>
      match user.salt
      case None => Error(KdfArgumentError)
      case Some(salt) =>
        match user.hash
        case None => Ok(None)                  // `undefined === hashVerify` is false
        case Some(hash) =>
          ValidIffDecodes(kdf, password, hash, salt);
          if ValidPassword(kdf, password, hash, salt) then Ok(Some(user)) else Ok(None)
  }

  /** The document the registration route builds from a form and `genPassword`'s record. */
  function RegisteredUser(kdf: Kdf, id: UserId, name: string, password: string, randomBytes: seq<byte>): User
    requires |randomBytes| == SaltLength
  {
    var c := GenPassword(kdf, password, randomBytes);
    User(id, Some(name), Some(c.hash), Some(c.salt), Some(true))
  }

  /** A registered document passes the password check for the password it was made from. */
  lemma RegisteredUserPassesCheck(kdf: Kdf, id: UserId, name: string, password: string, randomBytes: seq<byte>)
    requires |randomBytes| == SaltLength
    ensures var u := RegisteredUser(kdf, id, name, password, randomBytes);
            VerifyCallback(kdf, Found(u), password) == Ok(Some(u))
  {
  }

  /** The result of a `POST /login` through the local strategy. */
  datatype Attempt =
    | MissingCredentials          // the strategy fails before calling `verifyCallback`
    | Verified(done: Done<Option<User>>)

  /** Both login fields are present and non-empty. */
  predicate HasCredentials(form: map<string, string>) {
    && UsernameField in form && form[UsernameField] != ""
    && PasswordField in form && form[PasswordField] != ""
  }

  /**
   The local strategy reads `uname` and `pw` from the form body (an absent or
   empty field fails the attempt without a lookup), looks the user up by that
   username and hands the outcome to `verifyCallback`. The outcome is decided
   by the first stored document carrying the submitted username.
   */
  function Login(kdf: Kdf, store: Store, form: map<string, string>): (r: Attempt)
    ensures r.MissingCredentials? <==> !HasCredentials(form)
    ensures store.Offline? && r.Verified? ==> r == Verified(Error(StoreFailure(store.reason)))
    ensures r.Verified? && store.Online? ==> r.done.Ok? || r.done == Error(KdfArgumentError)
    ensures r.Verified? && r.done.Ok? && r.done.value.Some? ==>
              var u := r.done.value.value;
              && u in store.users
              && u.username == Some(form[UsernameField])
              && Authenticates(kdf, u, form[PasswordField])
    ensures (r.Verified? && store.Online?
             && forall u :: u in store.users ==> u.username != Some(form[UsernameField]))
              ==> r == Verified(Ok(None))
    ensures HasCredentials(form) && store.Online? ==>
              var k := FirstIndex(store.users, ByUsername(form[UsernameField]));
              k < |store.users| && Authenticates(kdf, store.users[k], form[PasswordField]) ==>
              r == Verified(Ok(Some(store.users[k])))
    ensures HasCredentials(form) && store.Online? ==>
              var k := FirstIndex(store.users, ByUsername(form[UsernameField]));
              k < |store.users| && store.users[k].salt.Some? && !Authenticates(kdf, store.users[k], form[PasswordField]) ==>
              r == Verified(Ok(None))
    ensures HasCredentials(form) && store.Online? ==>
              var k := FirstIndex(store.users, ByUsername(form[UsernameField]));
              k < |store.users| && store.users[k].salt.None? ==>
              r == Verified(Error(KdfArgumentError))
  {
    if !HasCredentials(form) then
      MissingCredentials
    else
      var username, password := form[UsernameField], form[PasswordField];
      Verified(VerifyCallback(kdf, FindOne(store, ByUsername(username)), password))
  }

  /**
   A user registered with a non-empty username and password, whose document no
   earlier document with the same username shadows, logs in with that password.
   */
  lemma RegisteredUserLogsIn(kdf: Kdf, users: seq<User>, k: nat, id: UserId, name: string,
                             password: string, randomBytes: seq<byte>)
    requires |randomBytes| == SaltLength
    requires name != "" && password != ""
    requires k < |users| && users[k] == RegisteredUser(kdf, id, name, password, randomBytes)
    requires forall j :: 0 <= j < k ==> users[j].username != Some(name)
    ensures var form := map[UsernameField := name, PasswordField := password];
            Login(kdf, Online(users), form) == Verified(Ok(Some(users[k])))
  {
    var form := map[UsernameField := name, PasswordField := password];
    assert HasCredentials(form);
    var first := FirstIndex(users, ByUsername(name));
    assert Matches(users[k], ByUsername(name));
    assert first == k;
    RegisteredUserPassesCheck(kdf, id, name, password, randomBytes);
  }

  /** `serializeUser`: only the id goes into the session. */
  function SerializeUser(user: User): (r: Done<UserId>)
    ensures r.Ok? && r.value == user.id
  {
    Ok(user.id)
  }

  /** Two users share a session value exactly when they share an id: nothing else is kept. */
  lemma SerializeKeepsOnlyId(u: User, v: User)
    ensures SerializeUser(u) == SerializeUser(v) <==> u.id == v.id
  {
  }

  /** `deserializeUser`: whatever `findById` settles to, with a rejection as `done(err)`. */
  function DeserializeUser(store: Store, id: UserId): (r: Done<Option<User>>)
    ensures r.Error? <==> store.Offline?
    ensures r.Error? ==> r.err == StoreFailure(store.reason)
    ensures r.Ok? && r.value.Some? ==> r.value.value in store.users && r.value.value.id == id
    ensures r == Ok(None) <==> store.Online? && forall u :: u in store.users ==> u.id != id
  {
    match FindOne(store, ById(id))
    case Err(reason) => Error(StoreFailure(reason))
    case NotFound => Ok(None)
    case Found(u) => Ok(Some(u))
  }

  /** A user in a reachable store comes back from its session id with the same id. */
  lemma SessionRoundTrip(store: Store, user: User)
    requires store.Online? && user in store.users
    ensures var r := DeserializeUser(store, SerializeUser(user).value);
            r.Ok? && r.value.Some? && r.value.value.id == user.id
  {
  }

  predicate UniqueIds(store: Store) {
    store.Online? ==>
      forall i, j :: 0 <= i < j < |store.users| ==> store.users[i].id != store.users[j].id
  }

  /** When ids are unique, the session restores the very same document. */
  lemma SessionRoundTripExact(store: Store, user: User)
    requires store.Online? && user in store.users && UniqueIds(store)
    ensures DeserializeUser(store, SerializeUser(user).value) == Ok(Some(user))
  {
    var r := DeserializeUser(store, user.id);
    var v := r.value.value;
    var i :| 0 <= i < |store.users| && store.users[i] == user;
    var j :| 0 <= j < |store.users| && store.users[j] == v;
    assert i == j;
  }

  /** A successful login leaves a session id from which the store restores that user's id. */
  lemma LoginThenRestore(kdf: Kdf, store: Store, form: map<string, string>)
    requires Login(kdf, store, form).Verified?
    requires Login(kdf, store, form).done.Ok? && Login(kdf, store, form).done.value.Some?
    ensures var u := Login(kdf, store, form).done.value.value;
            var r := DeserializeUser(store, SerializeUser(u).value);
            r.Ok? && r.value.Some? && r.value.value.id == u.id
  {
    var u := Login(kdf, store, form).done.value.value;
    SessionRoundTrip(store, u);
  }
}
