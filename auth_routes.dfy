/**
 * The authentication routes: registration, password login, second-factor
 * (TOTP) verification and the OTP setup data. Password hashing and tokens are
 * the symbolic ones of `Crypto`; the TOTP check (RFC 6238, done by a library)
 * is a parameter of the verification route.
 */
module AuthRoutes {
  import opened Common
  import opened Query
  import opened Crypto
  import opened Store
  import opened AuthMiddleware

  const MISSING_DATA := "Dati mancanti"
  const DB_ERROR := "Errore nel database"
  const USER_EXISTS := "Utente già esistente"
  const SAVE_ERROR := "Errore nel salvataggio utente"
  const USER_NOT_FOUND := "Utente non trovato"
  const WRONG_PASSWORD := "Password errata"
  const INVALID_TOKEN := "Token non valido"
  const EXPIRED_TOKEN := "Token scaduto o non valido"
  const INVALID_CODE := "Codice OTP non valido"
  const OTP_NOT_INITIALISED := "OTP non inizializzato per questo utente"

  /** The issuer shown in authenticator apps. */
  const ISSUER := "Jetop"

  // ---------------------------------------------------------------- register

  /** The accounts a registration clashes with: same username or same email. */
  function Clashes(users: seq<User>, username: string, email: string): (r: seq<User>)
    ensures forall u :: u in r <==> u in users && (u.username == username || u.email == email)
  {
    Where(users, (u: User) => u.username == username || u.email == email)
  }

  /** The row register inserts: a bcrypt hash of the password, a fresh OTP secret, OTP not yet enabled. */
  function NewAccount(id: Id, username: string, email: string, password: string, salt: nat, secret: string, now: int): (a: User)
    ensures Compare(password, a.passwordHash)
    ensures forall other :: Compare(other, a.passwordHash) <==> Key(other) == Key(password)
    ensures a.username == username && a.email == email && a.id == id
    ensures Filled(a.otpSecret) <==> secret != ""
    ensures !a.otpEnabled
  {
    User(id, username, email, Hash(password, salt), Some(secret), false, None, now)
  }

  /** The body of a successful registration: the inserted row and a session token. */
  datatype Registered = Registered(user: User, token: Jwt)

  /**
   * POST /register. `salt` and `secret` are what `bcrypt.genSalt` and
   * `speakeasy.generateSecret` produce, `freshId` and `now` what the database
   * assigns to the new row, `readOk` whether the query for a clashing account
   * succeeds, and `writeOk` whether the insert succeeds.
   */
  method Register(db: Db, username: Field, email: Field, password: Field,
                  salt: nat, secret: string, freshId: Id, now: int, readOk: bool, writeOk: bool)
    returns (reply: Reply<Registered>)
    requires db.Valid()
    requires secret != ""
    requires forall u :: u in db.users ==> u.id != freshId
    modifies db
    ensures db.Valid()
    ensures db.posts == old(db.posts) && db.comments == old(db.comments) && db.likes == old(db.likes)
    ensures !(Truthy(username) && Truthy(email) && Truthy(password)) ==> reply == Fail(400, MISSING_DATA)
    ensures Truthy(username) && Truthy(email) && Truthy(password) && !readOk ==> reply == Fail(500, DB_ERROR)
    ensures Truthy(username) && Truthy(email) && Truthy(password) && readOk && |Clashes(old(db.users), username.s, email.s)| == 1
            ==> reply == Fail(400, USER_EXISTS)
    ensures Truthy(username) && Truthy(email) && Truthy(password) && |Clashes(old(db.users), username.s, email.s)| > 1
            ==> reply == Fail(500, DB_ERROR)
    ensures reply.Ok? <==>
            && Truthy(username) && Truthy(email) && Truthy(password)
            && readOk && Clashes(old(db.users), username.s, email.s) == [] && writeOk
    ensures reply.Fail? ==> db.users == old(db.users)
    ensures reply.Ok? ==>
            && reply.status == 201
            && reply.body.user == NewAccount(freshId, username.s, email.s, password.s, salt, secret, now)
            && reply.body.token == SessionToken(freshId, username.s)
            && db.users == old(db.users) + [reply.body.user]
  {
    if !(Truthy(username) && Truthy(email) && Truthy(password)) {
      return Fail(400, MISSING_DATA);
    }
    if !readOk {
      return Fail(500, DB_ERROR);
    }
    match MaybeSingle(Clashes(db.users, username.s, email.s))
    case TooMany =>
      reply := Fail(500, DB_ERROR);
    case Found(_) =>
      reply := Fail(400, USER_EXISTS);
    case NoRow =>
      if !writeOk {
        reply := Fail(500, SAVE_ERROR);
      } else {
        var row := NewAccount(freshId, username.s, email.s, password.s, salt, secret, now);
        UniqueAppend(db.users, row, UserId);
        UniqueAppend(db.users, row, Username);
        UniqueAppend(db.users, row, Email);
        db.users := db.users + [row];
        reply := Ok(201, Registered(row, SessionToken(row.id, row.username)));
      }
  }

  // ------------------------------------------------------------------- login

  /** The account with a given username, as `.eq('username', …).maybeSingle()` finds it. */
  function AccountNamed(users: seq<User>, username: string): Lookup<User> {
    MaybeSingle(Select(users, Username, username))
  }

  /** The public part of an account returned by login and `/me`. */
  datatype Summary = Summary(id: Id, username: string, email: string)

  function SummaryOf(u: User): Summary {
    Summary(u.id, u.username, u.email)
  }

  /** A successful login: a second-factor token, or a session token issued directly. */
  datatype LoginBody = OtpRequired(tempToken: Jwt) | LoggedIn(user: Summary, token: Jwt)

  /**
   * POST /login. A second factor is demanded whenever the account holds an OTP
   * secret, whatever `otp_enabled` says; a session token is issued directly only
   * to an account with neither a secret nor OTP enabled. `readOk` is whether
   * the lookup of the username succeeds.
   */
  function Login(users: seq<User>, username: Field, password: Field, readOk: bool): (r: Reply<LoginBody>)
    ensures !(Truthy(username) && Truthy(password)) ==> r == Fail(400, MISSING_DATA)
    ensures Truthy(username) && Truthy(password) && !readOk ==> r == Fail(500, DB_ERROR)
    ensures Truthy(username) && Truthy(password) && AccountNamed(users, username.s).TooMany? ==> r == Fail(500, DB_ERROR)
    ensures Truthy(username) && Truthy(password) && readOk && AccountNamed(users, username.s) == NoRow
            ==> r == Fail(401, USER_NOT_FOUND)
    ensures Truthy(username) && Truthy(password) && readOk && AccountNamed(users, username.s).Found?
            && !Compare(password.s, AccountNamed(users, username.s).row.passwordHash)
            ==> r == Fail(401, WRONG_PASSWORD)
    ensures r.Ok? ==>
            && Truthy(username) && Truthy(password) && readOk && r.status == 200
            && AccountNamed(users, username.s).Found?
            && var u := AccountNamed(users, username.s).row;
               && u in users && u.username == username.s
               && Compare(password.s, u.passwordHash)
               && (Filled(u.otpSecret) || u.otpEnabled ==> r.body == OtpRequired(TempToken(u.id)))
               && (!Filled(u.otpSecret) && !u.otpEnabled ==> r.body == LoggedIn(SummaryOf(u), SessionToken(u.id, u.username)))
    ensures r.Ok? <==>
            && Truthy(username) && Truthy(password) && readOk && AccountNamed(users, username.s).Found?
            && Compare(password.s, AccountNamed(users, username.s).row.passwordHash)
  {
    if !(Truthy(username) && Truthy(password)) then
      Fail(400, MISSING_DATA)
    else if !readOk then
      Fail(500, DB_ERROR)
    else
      match AccountNamed(users, username.s)
      case TooMany => Fail(500, DB_ERROR)
      case NoRow => Fail(401, USER_NOT_FOUND)
      case Found(u) =>
        if !Compare(password.s, u.passwordHash) then
          Fail(401, WRONG_PASSWORD)
        else if Filled(u.otpSecret) then
          Ok(200, OtpRequired(TempToken(u.id)))
        else if u.otpEnabled then
          Ok(200, OtpRequired(TempToken(u.id)))
        else
          Ok(200, LoggedIn(SummaryOf(u), SessionToken(u.id, u.username)))
  }

  /**
   * Every account register creates holds a secret, so on a store built by
   * register a correct password always leads to the second factor: the direct
   * session-token branch never runs.
   */
  lemma LoginAlwaysAsksForCode(users: seq<User>, username: Field, password: Field, readOk: bool)
    requires Provisioned(users)
    ensures Login(users, username, password, readOk).Ok? ==>
            Login(users, username, password, readOk).body.OtpRequired? &&
            Login(users, username, password, readOk).body.tempToken.claims.typ == Some(TEMP_TYPE) &&
            Login(users, username, password, readOk).body.tempToken.ttl == TEMP_TTL
  {
  }

  /** The right password for an existing account yields that account's 5-minute second-factor token. */
  lemma RightPasswordGetsTempToken(users: seq<User>, u: User, password: string)
    requires ValidUsers(users) && u in users
    requires u.username != "" && password != "" && Compare(password, u.passwordHash)
    ensures Login(users, Str(u.username), Str(password), true) == Ok(200, OtpRequired(TempToken(u.id)))
  {
    LookupByUniqueKey(users, Username, u.username);
  }

  /**
   * The token login hands out is refused by the intended session strategy,
   * although the current strategy accepts it for an existing account.
   */
  lemma LoginTokenNotASession(users: seq<User>, username: Field, password: Field, readOk: bool, fault: StoreFault)
    requires Provisioned(users)
    ensures var r := Login(users, username, password, readOk);
            r.Ok? ==> !AuthenticateSession(users, Token(r.body.tempToken, true), fault).Authenticated?
  {
    LoginAlwaysAsksForCode(users, username, password, readOk);
  }

  // -------------------------------------------------------------- verify-otp

  /** The users table after `update({ otp_enabled: true }).eq('id', id)`. */
  function EnableOtp(users: seq<User>, id: Id): (r: seq<User>)
    ensures |r| == |users|
  {
    seq(|users|, i requires 0 <= i < |users| => if users[i].id == id then users[i].(otpEnabled := true) else users[i])
  }

  /**
   * Enabling OTP touches only the `otp_enabled` flag of the account with that
   * id, only ever turns it on, and doing it twice is the same as once.
   */
  lemma EnableOtpEffect(users: seq<User>, id: Id)
    ensures forall i :: 0 <= i < |users| && users[i].id != id ==> EnableOtp(users, id)[i] == users[i]
    ensures forall i :: 0 <= i < |users| && users[i].id == id ==>
              EnableOtp(users, id)[i] == users[i].(otpEnabled := true)
    ensures forall i :: 0 <= i < |users| && users[i].otpEnabled ==> EnableOtp(users, id)[i].otpEnabled
    ensures EnableOtp(EnableOtp(users, id), id) == EnableOtp(users, id)
  {
  }

  /** Enabling OTP keeps every users-table constraint. */
  lemma EnableOtpKeepsValid(users: seq<User>, id: Id)
    requires ValidUsers(users)
    ensures ValidUsers(EnableOtp(users, id))
  {
    var r := EnableOtp(users, id);
    SameKeysUnique(users, r, UserId);
    SameKeysUnique(users, r, Username);
    SameKeysUnique(users, r, Email);
    forall u | u in r ensures Filled(u.otpSecret) {
      var i :| 0 <= i < |r| && r[i] == u;
      assert users[i] in users;
    }
  }

  /**
   * POST /verify-otp. `totp(secret, code)` is the library's TOTP check of a
   * code against a stored secret; `readOk` whether the lookup of the account
   * succeeds; `writeOk` whether the database applies the `otp_enabled` update,
   * whose outcome the route does not look at.
   */
  method VerifyOtp(db: Db, tempToken: Presented, otpCode: Field,
                   totp: (Option<string>, string) -> bool, readOk: bool, writeOk: bool)
    returns (reply: Reply<Jwt>)
    requires db.Valid()
    modifies db
    ensures db.Valid()
    ensures db.posts == old(db.posts) && db.comments == old(db.comments) && db.likes == old(db.likes)
    ensures tempToken.NoToken? || !Truthy(otpCode) ==> reply == Fail(400, MISSING_DATA)
    ensures tempToken.Token? && Truthy(otpCode) && !tempToken.verifies ==> reply == Fail(401, EXPIRED_TOKEN)
    ensures tempToken.Token? && Truthy(otpCode) && tempToken.verifies && tempToken.jwt.claims.typ != Some(TEMP_TYPE)
            ==> reply == Fail(400, INVALID_TOKEN)
    ensures tempToken.Token? && Truthy(otpCode) && tempToken.verifies && tempToken.jwt.claims.typ == Some(TEMP_TYPE)
            && (!readOk || !AccountWithId(old(db.users), tempToken.jwt.claims.id).Found?)
            ==> reply == Fail(401, USER_NOT_FOUND)
    ensures tempToken.Token? && Truthy(otpCode) && tempToken.verifies && tempToken.jwt.claims.typ == Some(TEMP_TYPE)
            && readOk && AccountWithId(old(db.users), tempToken.jwt.claims.id).Found?
            && !totp(AccountWithId(old(db.users), tempToken.jwt.claims.id).row.otpSecret, otpCode.s)
            ==> reply == Fail(401, INVALID_CODE)
    ensures reply.Fail? ==> db.users == old(db.users)
    ensures reply.Ok? <==>
            && tempToken.Token? && tempToken.verifies && tempToken.jwt.claims.typ == Some(TEMP_TYPE) && Truthy(otpCode)
            && readOk && AccountWithId(old(db.users), tempToken.jwt.claims.id).Found?
            && totp(AccountWithId(old(db.users), tempToken.jwt.claims.id).row.otpSecret, otpCode.s)
    ensures reply.Ok? ==>
            && tempToken.Token? && tempToken.verifies && tempToken.jwt.claims.typ == Some(TEMP_TYPE) && Truthy(otpCode)
            && AccountWithId(old(db.users), tempToken.jwt.claims.id).Found?
            && var u := AccountWithId(old(db.users), tempToken.jwt.claims.id).row;
               && u in old(db.users) && u.id == tempToken.jwt.claims.id
               && totp(u.otpSecret, otpCode.s)
               && reply == Ok(200, SessionToken(u.id, u.username))
               && db.users == (if writeOk then EnableOtp(old(db.users), u.id) else old(db.users))
  {
    if tempToken.NoToken? || !Truthy(otpCode) {
      return Fail(400, MISSING_DATA);
    }
    if !tempToken.verifies {
      // jwt.verify throws; the catch block answers
      return Fail(401, EXPIRED_TOKEN);
    }
    var decoded := tempToken.jwt.claims;
    if decoded.typ != Some(TEMP_TYPE) {
      return Fail(400, INVALID_TOKEN);
    }
    if !readOk {
      return Fail(401, USER_NOT_FOUND);
    }
    match AccountWithId(db.users, decoded.id)
    case Found(u) =>
      if !totp(u.otpSecret, otpCode.s) {
        return Fail(401, INVALID_CODE);
      }
      if writeOk {
        EnableOtpKeepsValid(db.users, u.id);
        db.users := EnableOtp(db.users, u.id);
      }
      reply := Ok(200, SessionToken(u.id, u.username));
    case _ =>
      reply := Fail(401, USER_NOT_FOUND);
  }

  // --------------------------------------------------------------- otp/setup

  /** The account part of the authenticator label: email, else username, else 'user'. */
  function OtpAccount(u: User): (a: string)
    ensures a != ""
    ensures u.email != "" ==> a == u.email
    ensures u.email == "" && u.username != "" ==> a == u.username
  {
    if u.email != "" then u.email
    else if u.username != "" then u.username
    else "user"
  }

  /** What GET /otp/setup hands to the authenticator app: the stored secret, the issuer and the label. */
  datatype OtpSetupBody = OtpSetupBody(secret: string, issuer: string, otpLabel: string)

  /** GET /otp/setup for the account the bearer token resolved to. */
  function OtpSetup(u: User): (r: Reply<OtpSetupBody>)
    ensures r.Fail? <==> !Filled(u.otpSecret)
    ensures r.Fail? ==> r == Fail(400, OTP_NOT_INITIALISED)
    ensures r.Ok? ==>
            && r.status == 200
            && u.otpSecret == Some(r.body.secret)
            && r.body.issuer == "Jetop"
            && r.body.otpLabel == "Jetop:" + OtpAccount(u)
  {
    if !Filled(u.otpSecret) then
      Fail(400, OTP_NOT_INITIALISED)
    else
      Ok(200, OtpSetupBody(u.otpSecret.value, ISSUER, ISSUER + ":" + OtpAccount(u)))
  }

  /** GET /auth/me: the id, username and email of the authenticated account. */
  function AuthMe(u: User): (s: Summary)
    ensures s.id == u.id && s.username == u.username && s.email == u.email
  {
    SummaryOf(u)
  }
}
