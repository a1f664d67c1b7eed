/** The authentication service of internal/service/auth.go: log in (creating the account
    on first login) and token validation. bcrypt and JWT are foreign libraries and enter
    the model as uninterpreted functions. */
module AuthService {
  import opened Wrappers
  import opened DbCalls
  import opened RepoErrs
  import opened ServiceErrs
  import opened Ledger
  import opened Entity
  import opened UserRepository
  import opened UserService

  /** The crypto primitives, each one fixed but unknown: None is a returned error. */
  datatype Primitives = Primitives(
    hash: string -> Option<Bytes>,       // bcrypt.GenerateFromPassword at the default cost
    matches: (Bytes, string) -> bool,    // bcrypt.CompareHashAndPassword reports no error
    sign: (string, int) -> Option<string>, // a signed token for the username, expiring TTL after the issue time
    parse: string -> Option<string>)     // the username of a valid, unexpired token

  /** What a login returns, and the store it leaves behind. */
  datatype Outcome = Outcome(store: Store, token: Result<string, ServiceErr>)

  const BearerPrefix := "Bearer "

  /** Drops a leading "Bearer " when something follows it; any other header value,
      the bare prefix included, is kept whole. */
  function StripBearer(header: string): (r: string)
    ensures r == header || BearerPrefix + r == header
    ensures r != header <==> |header| > |BearerPrefix| && header[..|BearerPrefix|] == BearerPrefix
  {
    if |header| > |BearerPrefix| && header[..|BearerPrefix|] == BearerPrefix then header[|BearerPrefix|..] else header
  }

  /** The username a header's token carries; any parser error is InvalidToken. */
  function ValidateToken(crypto: Primitives, header: string): (r: Result<string, ServiceErr>)
    ensures r.Err? ==> r.error == InvalidToken
    ensures r.Ok? <==> crypto.parse(StripBearer(header)).Some?
    ensures r.Ok? ==> Some(r.value) == crypto.parse(StripBearer(header))
  {
    match crypto.parse(StripBearer(header))
    case None => Err(InvalidToken)
    case Some(username) => Ok(username)
  }

  /** A token for username issued at clock reading now, or the signer's error wrapped. */
  function GenerateToken(crypto: Primitives, username: string, now: int): (r: Result<string, ServiceErr>)
    ensures r.Ok? <==> crypto.sign(username, now).Some?
    ensures r.Ok? ==> Some(r.value) == crypto.sign(username, now)
    ensures r.Err? ==> r.error == Crypto(SignToken)
  {
    match crypto.sign(username, now)
    case None => Err(Crypto(SignToken))
    case Some(token) => Ok(token)
  }

  /** First login: hash the password, insert the user, then issue a token. */
  function HandleUserNotFound(st: Store, crypto: Primitives, username: string, password: string, faults: set<DbCall>, now: int): (r: Outcome)
    ensures r.store == st || (crypto.hash(password).Some? && AddUser(st, username, crypto.hash(password).value, faults) == Ok(r.store))
    ensures r.token.Ok? ==> r.store != st && FindUser(r.store.users, username).Some?
    ensures r.token.Ok? ==> Some(r.token.value) == crypto.sign(username, now)
    ensures crypto.hash(password).None? ==> r == Outcome(st, Err(Crypto(HashPassword)))
  {
    match crypto.hash(password)
    case None => Outcome(st, Err(Crypto(HashPassword)))
    case Some(digest) =>
      match AddUser(st, username, digest, faults)
      case Err(e) => Outcome(st, Err(Repo(e)))
      case Ok(next) => Outcome(next, GenerateToken(crypto, username, now))
  }

  /** Login: an unknown user is created on the spot, a known one must present a password
      matching the stored hash, and any other lookup error is passed through. */
  function Authorization(st: Store, crypto: Primitives, username: string, password: string, faults: set<DbCall>, now: int): (r: Outcome)
    ensures FindUser(st.users, username).Some? ==> r.store == st
    ensures SelectUser in faults ==> r == Outcome(st, Err(Repo(DbFailure(SelectUser))))
    ensures r.token == Err(InvalidCredentials) <==>
      (SelectUser !in faults && FindUser(st.users, username).Some? &&
       !crypto.matches(FindUser(st.users, username).value.password, password))
    ensures r.token.Ok? ==> Some(r.token.value) == crypto.sign(username, now)
    ensures r.store != st ==> FindUser(st.users, username).None? && FindUser(r.store.users, username).Some?
  {
    var (user, err) := GetUserCredentials(st, username, faults);
    if err == Some(RepoErr.UserNotFound) then HandleUserNotFound(st, crypto, username, password, faults, now)
    else if err.Some? then Outcome(st, Err(Repo(err.value)))
    else if !crypto.matches(user.password, password) then Outcome(st, Err(InvalidCredentials))
    else Outcome(st, GenerateToken(crypto, username, now))
  }

  // ---------------------------------------------------------------- lemmas

  /** Prefixing a non-empty token with "Bearer " changes nothing the validator sees. */
  lemma BearerIsTransparent(crypto: Primitives, token: string)
    requires token != []
    ensures StripBearer(BearerPrefix + token) == token
    ensures ValidateToken(crypto, BearerPrefix + token) == ValidateToken(crypto, token) ||
      (|token| > |BearerPrefix| && token[..|BearerPrefix|] == BearerPrefix)
  {
    assert (BearerPrefix + token)[..|BearerPrefix|] == BearerPrefix;
    assert (BearerPrefix + token)[|BearerPrefix|..] == token;
  }

  /** The bare prefix, with nothing after it, goes to the parser unchanged. */
  lemma BarePrefixKept()
    ensures StripBearer(BearerPrefix) == BearerPrefix
  {
  }

  /** Only one prefix is ever stripped. */
  lemma StripsOnce(token: string)
    requires token != []
    ensures StripBearer(BearerPrefix + BearerPrefix + token) == BearerPrefix + token
  {
    assert (BearerPrefix + BearerPrefix + token)[..|BearerPrefix|] == BearerPrefix;
    assert (BearerPrefix + BearerPrefix + token)[|BearerPrefix|..] == BearerPrefix + token;
  }

  /** First login of an unknown user creates the account with the hashed password and
      issues a token; a later login with the same password then succeeds without touching
      the store, with a token issued at its own time. */
  lemma FirstLoginProvisions(st: Store, crypto: Primitives, username: string, password: string, now: int, later: int)
    requires FindUser(st.users, username).None?
    requires crypto.hash(password).Some? && crypto.sign(username, now).Some? && crypto.sign(username, later).Some?
    requires crypto.matches(crypto.hash(password).value, password)
    ensures var first := Authorization(st, crypto, username, password, {}, now);
      first.token == Ok(crypto.sign(username, now).value) &&
      FindUser(first.store.users, username) == Some(UserRow(st.nextUserId, username, crypto.hash(password).value, st.openingBalance)) &&
      Authorization(first.store, crypto, username, password, {}, later) == Outcome(first.store, Ok(crypto.sign(username, later).value))
  {
  }

  /** A known user with the wrong password is refused and nothing is inserted. */
  lemma WrongPasswordRefused(st: Store, crypto: Primitives, username: string, password: string, faults: set<DbCall>, now: int)
    requires SelectUser !in faults
    requires FindUser(st.users, username).Some?
    requires !crypto.matches(FindUser(st.users, username).value.password, password)
    ensures Authorization(st, crypto, username, password, faults, now) == Outcome(st, Err(InvalidCredentials))
  {
  }

  /** A failed insert during first login is passed through and no token is issued. */
  lemma ProvisioningFailurePropagates(st: Store, crypto: Primitives, username: string, password: string, faults: set<DbCall>, now: int)
    requires SelectUser !in faults && InsertUser in faults
    requires FindUser(st.users, username).None?
    requires crypto.hash(password).Some?
    ensures Authorization(st, crypto, username, password, faults, now) == Outcome(st, Err(Repo(DbFailure(InsertUser))))
  {
  }

  /** An account created by registration with a hash then logs in: a password the hash
      matches gets a token and changes nothing, any other password is refused. */
  lemma RegisteredUserLogsIn(st: Store, crypto: Primitives, username: string, digest: Bytes, password: string,
                             faults: set<DbCall>, now: int)
    requires CreateUser(st, username, digest, faults).Ok?
    ensures var next := CreateUser(st, username, digest, faults).value;
      Authorization(next, crypto, username, password, {}, now) ==
        if crypto.matches(digest, password) then Outcome(next, GenerateToken(crypto, username, now))
        else Outcome(next, Err(InvalidCredentials))
  {
    var next := CreateUser(st, username, digest, faults).value;
    assert FindUser(next.users, username) == Some(UserRow(st.nextUserId, username, digest, st.openingBalance));
  }
}
