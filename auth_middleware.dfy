/**
 * The bearer-token strategy that guards every protected route: the token is
 * taken from the `Authorization: Bearer` header, verified with the server key,
 * and its `id` claim is resolved to an account.
 */
module AuthMiddleware {
  import opened Common
  import opened Query
  import opened Crypto
  import opened Store

  /** How the database call inside the callback ended, beyond the rows it returned. */
  datatype StoreFault = NoFault | ReturnsError | Throws(message: string)

  /** The three ways the callback calls `done`: `done(null, user)`, `done(null, false)`, `done(err, false)`. */
  datatype Verdict = Authenticated(user: User) | Rejected | Errored(message: string)

  /** The account a token payload names, if the lookup by id finds exactly one. */
  function AccountWithId(users: seq<User>, id: Id): Lookup<User> {
    MaybeSingle(Select(users, UserId, id))
  }

  /**
   * The strategy's verify callback, given the decoded payload. Only `payload.id`
   * is read; the `type` claim is not inspected.
   */
  function VerifyCallback(users: seq<User>, payload: Claims, fault: StoreFault): (v: Verdict)
    ensures v.Authenticated? ==> v.user in users && v.user.id == payload.id
    ensures v.Errored? <==> fault.Throws?
    ensures fault.ReturnsError? ==> v == Rejected
  {
    match fault
    case Throws(e) => Errored(e)
    case ReturnsError => Rejected
    case NoFault =>
      match AccountWithId(users, payload.id)
      case Found(u) => Authenticated(u)
      case _ => Rejected
  }

  /**
   * The whole strategy: a missing token, or one that `jwt.verify` refuses
   * (bad signature, expired), is rejected before the callback runs.
   */
  function Authenticate(users: seq<User>, bearer: Presented, fault: StoreFault): (v: Verdict)
    ensures v.Authenticated? ==> bearer.Token? && bearer.verifies && v.user in users && v.user.id == bearer.jwt.claims.id
    ensures bearer.NoToken? || !bearer.verifies ==> v == Rejected
  {
    match bearer
    case NoToken => Rejected
    case Token(jwt, verifies) => if verifies then VerifyCallback(users, jwt.claims, fault) else Rejected
  }

  /**
   * With account ids unique and the database answering, the callback
   * authenticates exactly when an account with the payload's id exists, and then
   * as that full row.
   */
  lemma CallbackResolvesId(users: seq<User>, payload: Claims)
    requires Unique(users, UserId)
    ensures VerifyCallback(users, payload, NoFault).Authenticated? <==> exists u :: u in users && u.id == payload.id
    ensures forall u :: u in users && u.id == payload.id ==> VerifyCallback(users, payload, NoFault) == Authenticated(u)
  {
    LookupByUniqueKey(users, UserId, payload.id);
  }

  /** A token naming an account that no longer exists (deleted) is rejected without an error. */
  lemma DeletedAccountRejected(users: seq<User>, payload: Claims)
    requires forall u :: u in users ==> u.id != payload.id
    ensures VerifyCallback(users, payload, NoFault) == Rejected
  {
    NoneSelected(users, UserId, payload.id);
  }

  /**
   * The `type` claim plays no part: a 5-minute second-factor token authenticates
   * exactly as a session token for the same id does.
   */
  lemma TypeClaimIgnored(users: seq<User>, id: Id, username: string, fault: StoreFault)
    ensures VerifyCallback(users, TempToken(id).claims, fault) == VerifyCallback(users, SessionToken(id, username).claims, fault)
  {
  }

  /**
   * As written, a validly signed second-factor token, which login hands out after
   * the password check alone, authenticates its account on every protected route.
   */
  lemma TempTokenAuthenticates(users: seq<User>, u: User)
    requires Unique(users, UserId) && u in users
    ensures Authenticate(users, Token(TempToken(u.id), true), NoFault) == Authenticated(u)
  {
    CallbackResolvesId(users, TempToken(u.id).claims);
  }

  /**
   * The callback as evidently intended: a second-factor token (`type: 'temp'`)
   * is meant only for the verify-otp route, so it is rejected here.
   */
  function VerifySessionCallback(users: seq<User>, payload: Claims, fault: StoreFault): (v: Verdict)
    ensures v.Authenticated? ==> v.user in users && v.user.id == payload.id && payload.typ != Some(TEMP_TYPE)
    ensures v.Errored? <==> fault.Throws?
  {
    if payload.typ == Some(TEMP_TYPE) then
      match fault
      case Throws(e) => Errored(e)
      case _ => Rejected
    else
      VerifyCallback(users, payload, fault)
  }

  /** The strategy with the intended callback. */
  function AuthenticateSession(users: seq<User>, bearer: Presented, fault: StoreFault): (v: Verdict)
    ensures v.Authenticated? ==> bearer.Token? && bearer.verifies && bearer.jwt.claims.typ != Some(TEMP_TYPE)
    ensures v.Authenticated? ==> v.user in users && v.user.id == bearer.jwt.claims.id
  {
    match bearer
    case NoToken => Rejected
    case Token(jwt, verifies) => if verifies then VerifySessionCallback(users, jwt.claims, fault) else Rejected
  }

  /**
   * The intended strategy never admits a second-factor token, and admits a
   * session token exactly when the current strategy does.
   */
  lemma SessionStrategyRefinesCurrent(users: seq<User>, id: Id, username: string, fault: StoreFault)
    ensures !AuthenticateSession(users, Token(TempToken(id), true), fault).Authenticated?
    ensures AuthenticateSession(users, Token(SessionToken(id, username), true), fault)
         == Authenticate(users, Token(SessionToken(id, username), true), fault)
  {
  }
}
