/**
 * The users routes: the caller's own record, a paginated list of accounts, one
 * account's public profile, and self-only profile edits and account deletion.
 * `caller` is the account the bearer strategy resolved.
 */
module UsersRoutes {
  import opened Common
  import opened Query
  import opened Crypto
  import opened Store
  import AuthMiddleware

  const LIST_ERROR := "Errore nel caricamento utenti"
  const USER_NOT_FOUND := "Utente non trovato"
  const EDIT_OTHERS := "Non puoi modificare altri utenti"
  const NOTHING_TO_UPDATE := "Nessun campo da aggiornare"
  const INVALID_UPDATE := "Aggiornamento non valido"
  const DELETE_OTHERS := "Non puoi eliminare altri utenti"
  const DELETE_ERROR := "Errore nella cancellazione utente"
  const ACCOUNT_DELETED := "Account eliminato"
  const DEFAULT_PAGE := 1
  const DEFAULT_LIMIT := 10

  // ---------------------------------------------------------------------------
  // Pagination of GET /users
  // ---------------------------------------------------------------------------

  /** An integer query parameter: absent (or empty), or the integer it parses to. */
  datatype QueryInt = Absent | Given(n: int)

  /** `Math.max(parseInt(q || fallback, 10), 1)`. */
  function AtLeastOne(q: QueryInt, fallback: int): (r: int)
    requires fallback >= 1
    ensures r >= 1
    ensures q.Absent? ==> r == fallback
    ensures q.Given? && q.n >= 1 ==> r == q.n
    ensures q.Given? && q.n < 1 ==> r == 1
  {
    var n := if q.Given? then q.n else fallback;
    if n < 1 then 1 else n
  }

  /** The page number, 1 by default. */
  function PageParam(q: QueryInt): (page: int)
    ensures page >= 1
    ensures q.Absent? ==> page == 1
  {
    AtLeastOne(q, DEFAULT_PAGE)
  }

  /** The page size, 10 by default. */
  function LimitParam(q: QueryInt): (limit: int)
    ensures limit >= 1
    ensures q.Absent? ==> limit == 10
  {
    AtLeastOne(q, DEFAULT_LIMIT)
  }

  /** The first position of a page, `(page - 1) * limit`. */
  function From(page: int, limit: int): (from: nat)
    requires page >= 1 && limit >= 1
  {
    (page - 1) * limit
  }

  /** The last position of a page, `from + limit - 1`. */
  function To(page: int, limit: int): (to: int)
    requires page >= 1 && limit >= 1
    ensures to >= From(page, limit)
  {
    From(page, limit) + limit - 1
  }

  /** A window spans exactly `limit` positions, and the next page starts right after it ends. */
  lemma WindowArithmetic(page: int, limit: int)
    requires page >= 1 && limit >= 1
    ensures To(page, limit) - From(page, limit) + 1 == limit
    ensures From(page + 1, limit) == To(page, limit) + 1
    ensures page == 1 ==> From(page, limit) == 0
  {
  }

  /** The rows of pages 1 to `n`, one after the other. */
  function PagesUpTo<T>(rows: seq<T>, limit: int, n: nat): seq<T>
    requires limit >= 1
  {
    if n == 0 then [] else PagesUpTo(rows, limit, n - 1) + Range(rows, From(n, limit), To(n, limit))
  }

  /** Pages 1 to `n` together are the first `n * limit` rows: no row is skipped or repeated. */
  lemma {:induction false} PagesCoverPrefix<T>(rows: seq<T>, limit: int, n: nat)
    requires limit >= 1
    ensures PagesUpTo(rows, limit, n) == rows[..if n * limit < |rows| then n * limit else |rows|]
  {
    if n > 0 {
      PagesCoverPrefix(rows, limit, n - 1);
      var a := From(n, limit);
      assert a == (n - 1) * limit;
      assert n * limit == a + limit;
      var b := if a + limit < |rows| then a + limit else |rows|;
      if a < |rows| {
        assert Range(rows, a, To(n, limit)) == rows[a..b];
        assert rows[..a] + rows[a..b] == rows[..b];
      }
    }
  }

  /** An account as GET /users lists it: `id, username, email, created_at`. */
  datatype Listing = Listing(id: Id, username: string, email: string, createdAt: int)

  function ListingOf(u: User): Listing {
    Listing(u.id, u.username, u.email, u.createdAt)
  }

  /** The accounts, newest first. */
  function Newest(users: seq<User>): (r: seq<User>)
    ensures Descending(r, UserCreated)
    ensures multiset(r) == multiset(users)
    ensures |r| == |users|
  {
    var r := SortDescending(users, UserCreated);
    assert |r| == |multiset(r)|;
    r
  }

  /** The body of GET /users. */
  datatype UserPage = UserPage(page: int, limit: int, total: nat, users: seq<Listing>)

  /**
   * GET /users. `readOk` is whether the query succeeds. The exact count is never
   * null, so `total` is the number of accounts.
   */
  function ListUsers(users: seq<User>, pageQ: QueryInt, limitQ: QueryInt, readOk: bool): (r: Reply<UserPage>)
    ensures !readOk <==> r == Fail(500, LIST_ERROR)
    ensures r.Ok? ==>
              && r.status == 200
              && r.body.page == PageParam(pageQ) && r.body.limit == LimitParam(limitQ)
              && r.body.total == |users|
    ensures r.Ok? ==>
              var from := From(r.body.page, r.body.limit);
              && |r.body.users| == (if from >= |users| then 0
                                    else if |users| - from < r.body.limit then |users| - from
                                    else r.body.limit)
              && forall i :: 0 <= i < |r.body.users| ==> r.body.users[i] == ListingOf(Newest(users)[from + i])
    ensures r.Ok? ==> forall i, j :: 0 <= i < j < |r.body.users| ==> r.body.users[i].createdAt >= r.body.users[j].createdAt
  {
    if !readOk then Fail(500, LIST_ERROR)
    else
      var page, limit := PageParam(pageQ), LimitParam(limitQ);
      var sorted := Newest(users);
      var rows := Range(sorted, From(page, limit), To(page, limit));
      var items := seq(|rows|, i requires 0 <= i < |rows| => ListingOf(rows[i]));
      assert forall i :: 0 <= i < |items| ==> items[i].createdAt == UserCreated(sorted[From(page, limit) + i]);
      Ok(200, UserPage(page, limit, |users|, items))
  }

  // ---------------------------------------------------------------------------
  // Profiles
  // ---------------------------------------------------------------------------

  /** The public columns `id, username, email, bio, created_at` of an account. */
  datatype Profile = Profile(id: Id, username: string, email: string, bio: Option<string>, createdAt: int)

  function ProfileOf(u: User): Profile {
    Profile(u.id, u.username, u.email, u.bio, u.createdAt)
  }

  /**
   * A profile depends on the public columns only: two accounts that differ in
   * password hash or OTP columns have the same profile.
   */
  lemma ProfileHidesCredentials(u: User, v: User)
    requires u.id == v.id && u.username == v.username && u.email == v.email
    requires u.bio == v.bio && u.createdAt == v.createdAt
    ensures ProfileOf(u) == ProfileOf(v)
  {
  }

  /**
   * GET /users/:id as written. The lookup uses `.single()`, which returns an
   * error (whose text is `singleError`) when no row matches, so an unknown id
   * answers 500 and the 404 branch after it is never reached. `readOk` is
   * whether the query reaches the table; a failure answers 500 with its message.
   */
  function GetUser(users: seq<User>, id: Id, singleError: string, readOk: bool): (r: Reply<Profile>)
    ensures !readOk ==> r == Fail(500, singleError)
    ensures r.Ok? ==> r.status == 200 && exists u :: u in users && u.id == id && r.body == ProfileOf(u)
    ensures r.Fail? ==> r == Fail(500, singleError)
  {
    if !readOk then Fail(500, singleError)
    else match MaybeSingle(Select(users, UserId, id))
    case Found(u) => Ok(200, ProfileOf(u))
    case _ => Fail(500, singleError)
  }

  /** As written, an unknown id is a server error, never "Utente non trovato". */
  lemma UnknownUserIsServerError(users: seq<User>, id: Id, singleError: string, readOk: bool)
    requires forall u :: u in users ==> u.id != id
    ensures GetUser(users, id, singleError, readOk) == Fail(500, singleError)
    ensures GetUser(users, id, singleError, readOk) != Fail(404, USER_NOT_FOUND)
  {
    NoneSelected(users, UserId, id);
  }

  /** GET /users/:id as evidently intended: no matching row answers 404. */
  function GetUserOrNotFound(users: seq<User>, id: Id, singleError: string, readOk: bool): (r: Reply<Profile>)
    ensures !readOk ==> r == Fail(500, singleError)
    ensures r.Ok? ==> r.status == 200 && exists u :: u in users && u.id == id && r.body == ProfileOf(u)
    ensures r.Fail? ==> r == Fail(404, USER_NOT_FOUND) || r == Fail(500, singleError)
  {
    if !readOk then Fail(500, singleError)
    else match MaybeSingle(Select(users, UserId, id))
    case Found(u) => Ok(200, ProfileOf(u))
    case NoRow => Fail(404, USER_NOT_FOUND)
    case TooMany => Fail(500, singleError)
  }

  /**
   * With account ids unique, the intended lookup answers 404 exactly for an
   * unknown id and the profile of the account otherwise, agreeing with the
   * current route on every existing account.
   */
  lemma GetUserOrNotFoundCorrect(users: seq<User>, id: Id, singleError: string)
    requires Unique(users, UserId)
    ensures GetUserOrNotFound(users, id, singleError, true) == Fail(404, USER_NOT_FOUND) <==> forall u :: u in users ==> u.id != id
    ensures forall u :: u in users && u.id == id ==>
              && GetUserOrNotFound(users, id, singleError, true) == Ok(200, ProfileOf(u))
              && GetUser(users, id, singleError, true) == GetUserOrNotFound(users, id, singleError, true)
  {
    LookupByUniqueKey(users, UserId, id);
  }

  /**
   * GET /users/me as written: the whole row the strategy loaded (`select('*')`).
   * Its public columns are the caller's profile.
   */
  function Me(caller: User): (r: User)
    ensures r.id == caller.id && r.username == caller.username && r.email == caller.email
    ensures ProfileOf(r) == MeProfile(caller)
  {
    caller
  }

  /** As written, the caller's own record carries the password hash and the OTP secret. */
  lemma MeExposesCredentials(caller: User)
    ensures Me(caller).passwordHash == caller.passwordHash
    ensures Me(caller).otpSecret == caller.otpSecret
  {
  }

  /** GET /users/me as evidently intended: the same public profile GET /users/:id gives. */
  function MeProfile(caller: User): (r: Profile)
    ensures r.id == caller.id && r.username == caller.username && r.email == caller.email
    ensures r.bio == caller.bio && r.createdAt == caller.createdAt
  {
    ProfileOf(caller)
  }

  /**
   * The intended /me hides the credentials and agrees with GET /users/:id on the
   * caller's own id.
   */
  lemma MeProfileIsPublic(users: seq<User>, caller: User, v: User, singleError: string)
    requires Unique(users, UserId) && caller in users
    requires v.id == caller.id && v.username == caller.username && v.email == caller.email
    requires v.bio == caller.bio && v.createdAt == caller.createdAt
    ensures MeProfile(caller) == MeProfile(v)
    ensures GetUser(users, caller.id, singleError, true) == Ok(200, MeProfile(caller))
  {
    ProfileHidesCredentials(caller, v);
    GetUserOrNotFoundCorrect(users, caller.id, singleError);
  }

  // ---------------------------------------------------------------------------
  // PATCH /users/:id
  // ---------------------------------------------------------------------------

  /**
   * The update payload: each column is either left out (`None`) or written.
   * `bio` may be written with null.
   */
  datatype UserPatch = UserPatch(username: Option<string>, bio: Option<Option<string>>, email: Option<string>)

  predicate IsEmpty(p: UserPatch) {
    p.username.None? && p.bio.None? && p.email.None?
  }

  /** The payload built from the body: username and email when non-empty, bio whenever present (null included). */
  function BuildPatch(username: Field, bio: Field, email: Field): (p: UserPatch)
    ensures p.username.Some? <==> Truthy(username)
    ensures p.email.Some? <==> Truthy(email)
    ensures p.bio.Some? <==> !bio.Undefined?
    ensures p.username.Some? ==> p.username.value == username.s
    ensures p.email.Some? ==> p.email.value == email.s
    ensures bio.Null? ==> p.bio == Some(None)
    ensures bio.Str? ==> p.bio == Some(Some(bio.s))
  {
    UserPatch(
      if Truthy(username) then Some(username.s) else None,
      match bio { case Undefined => None case Null => Some(None) case Str(s) => Some(Some(s)) },
      if Truthy(email) then Some(email.s) else None)
  }

  /** The payload is empty exactly when no username, no email and no bio key was sent. */
  lemma EmptyPatchIff(username: Field, bio: Field, email: Field)
    ensures IsEmpty(BuildPatch(username, bio, email)) <==> !Truthy(username) && !Truthy(email) && bio.Undefined?
  {
  }

  /**
   * An account row after the update: it writes only the columns in the payload;
   * identity, credentials, OTP state and creation time stay.
   */
  function ApplyPatch(u: User, p: UserPatch): (w: User)
    ensures w.id == u.id && w.passwordHash == u.passwordHash && w.createdAt == u.createdAt
    ensures w.otpSecret == u.otpSecret && w.otpEnabled == u.otpEnabled
    ensures (p.username.Some? ==> w.username == p.username.value) && (p.username.None? ==> w.username == u.username)
    ensures (p.email.Some? ==> w.email == p.email.value) && (p.email.None? ==> w.email == u.email)
    ensures (p.bio.Some? ==> w.bio == p.bio.value) && (p.bio.None? ==> w.bio == u.bio)
  {
    u.(username := p.username.GetOr(u.username),
       email := p.email.GetOr(u.email),
       bio := if p.bio.Some? then p.bio.value else u.bio)
  }

  /** An empty payload changes nothing, and applying a payload twice is applying it once. */
  lemma ApplyPatchEffect(u: User, p: UserPatch)
    ensures IsEmpty(p) ==> ApplyPatch(u, p) == u
    ensures ApplyPatch(ApplyPatch(u, p), p) == ApplyPatch(u, p)
  {
  }

  /** The users table after `.update(payload).eq('id', id)`. */
  function WithPatch(users: seq<User>, id: Id, p: UserPatch): (r: seq<User>)
    ensures |r| == |users|
    ensures forall i :: 0 <= i < |users| ==> r[i] == if users[i].id == id then ApplyPatch(users[i], p) else users[i]
  {
    seq(|users|, i requires 0 <= i < |users| => if users[i].id == id then ApplyPatch(users[i], p) else users[i])
  }

  /** Other accounts that already hold the username or email the payload writes. */
  function Conflicts(users: seq<User>, id: Id, p: UserPatch): seq<User> {
    Where(users, (v: User) => v.id != id && (p.username == Some(v.username) || p.email == Some(v.email)))
  }

  /** An update that takes no other account's username or email keeps the users constraints. */
  lemma PatchKeepsValid(users: seq<User>, id: Id, p: UserPatch)
    requires ValidUsers(users)
    requires Conflicts(users, id, p) == []
    ensures ValidUsers(WithPatch(users, id, p))
  {
    var w := WithPatch(users, id, p);
    SameKeysUnique(users, w, UserId);
    forall i, j | 0 <= i < j < |w| ensures w[i].username != w[j].username && w[i].email != w[j].email {
      assert UserId(users[i]) != UserId(users[j]);
      assert Username(users[i]) != Username(users[j]);
      assert Email(users[i]) != Email(users[j]);
      assert users[i] in users && users[j] in users;
      assert users[i] !in Conflicts(users, id, p) && users[j] !in Conflicts(users, id, p);
    }
    assert Unique(w, Username) by {
      forall i, j | 0 <= i < j < |w| ensures Username(w[i]) != Username(w[j]) {
        assert w[i].username != w[j].username;
      }
    }
    assert Unique(w, Email) by {
      forall i, j | 0 <= i < j < |w| ensures Email(w[i]) != Email(w[j]) {
        assert w[i].email != w[j].email;
      }
    }
    forall v | v in w ensures Filled(v.otpSecret) {
      var i :| 0 <= i < |w| && w[i] == v;
      assert users[i] in users;
    }
  }

  /**
   * PATCH /users/:id. The checks run in order: not the caller's own account
   * (403), empty payload (400), then the update, which fails with 400 when it
   * would take another account's username or email or the write fails.
   */
  method PatchUser(db: Db, caller: User, id: Id, username: Field, bio: Field, email: Field, writeOk: bool)
    returns (reply: Reply<Profile>)
    requires db.Valid() && caller in db.users
    modifies db
    ensures db.Valid()
    ensures db.posts == old(db.posts) && db.comments == old(db.comments) && db.likes == old(db.likes)
    ensures caller.id != id ==> reply == Fail(403, EDIT_OTHERS)
    ensures caller.id == id && IsEmpty(BuildPatch(username, bio, email)) ==> reply == Fail(400, NOTHING_TO_UPDATE)
    ensures caller.id == id && !IsEmpty(BuildPatch(username, bio, email))
            && (Conflicts(old(db.users), id, BuildPatch(username, bio, email)) != [] || !writeOk)
            ==> reply == Fail(400, INVALID_UPDATE)
    ensures reply.Fail? ==> db.users == old(db.users)
    ensures reply.Ok? <==>
              && caller.id == id && !IsEmpty(BuildPatch(username, bio, email))
              && Conflicts(old(db.users), id, BuildPatch(username, bio, email)) == [] && writeOk
    ensures reply.Ok? ==>
              && reply == Ok(200, ProfileOf(ApplyPatch(caller, BuildPatch(username, bio, email))))
              && db.users == WithPatch(old(db.users), id, BuildPatch(username, bio, email))
  {
    if caller.id != id {
      return Fail(403, EDIT_OTHERS);
    }
    var patch := BuildPatch(username, bio, email);
    if IsEmpty(patch) {
      return Fail(400, NOTHING_TO_UPDATE);
    }
    // the database's unique constraints on username and email reject a clash
    if Conflicts(db.users, id, patch) != [] || !writeOk {
      return Fail(400, INVALID_UPDATE);
    }
    PatchKeepsValid(db.users, id, patch);
    db.users := WithPatch(db.users, id, patch);
    reply := Ok(200, ProfileOf(ApplyPatch(caller, patch)));
  }

  /** After a successful edit, the caller's public profile shows the new values. */
  lemma ProfileAfterPatch(users: seq<User>, caller: User, p: UserPatch, singleError: string)
    requires ValidUsers(users) && caller in users
    requires Conflicts(users, caller.id, p) == []
    ensures GetUser(WithPatch(users, caller.id, p), caller.id, singleError, true) == Ok(200, ProfileOf(ApplyPatch(caller, p)))
  {
    PatchKeepsValid(users, caller.id, p);
    var i :| 0 <= i < |users| && users[i] == caller;
    var w := WithPatch(users, caller.id, p);
    assert w[i] == ApplyPatch(caller, p);
    assert w[i] in w;
    GetUserOrNotFoundCorrect(w, caller.id, singleError);
  }

  // ---------------------------------------------------------------------------
  // DELETE /users/:id
  // ---------------------------------------------------------------------------

  /** DELETE /users/:id: only the caller's own account, and only that row. */
  method DeleteUser(db: Db, caller: User, id: Id, writeOk: bool) returns (reply: Reply<string>)
    requires db.Valid()
    modifies db
    ensures db.Valid()
    ensures db.posts == old(db.posts) && db.comments == old(db.comments) && db.likes == old(db.likes)
    ensures caller.id != id ==> reply == Fail(403, DELETE_OTHERS)
    ensures caller.id == id && !writeOk ==> reply == Fail(500, DELETE_ERROR)
    ensures caller.id == id && writeOk ==> reply == Ok(200, ACCOUNT_DELETED)
    ensures reply.Fail? ==> db.users == old(db.users)
    ensures reply.Ok? ==> db.users == Reject(old(db.users), UserId, id)
  {
    if caller.id != id {
      return Fail(403, DELETE_OTHERS);
    }
    if !writeOk {
      return Fail(500, DELETE_ERROR);
    }
    RejectKeepsUnique(db.users, UserId, id, UserId);
    RejectKeepsUnique(db.users, UserId, id, Username);
    RejectKeepsUnique(db.users, UserId, id, Email);
    db.users := Reject(db.users, UserId, id);
    reply := Ok(200, ACCOUNT_DELETED);
  }

  /**
   * Deleting an account removes only that account, and a still-unexpired token
   * for it no longer authenticates.
   */
  lemma DeletedAccountLosesAccess(users: seq<User>, caller: User, token: Jwt)
    requires ValidUsers(users) && caller in users
    requires token.claims.id == caller.id
    ensures |Reject(users, UserId, caller.id)| == |users| - 1
    ensures forall v :: v in users && v.id != caller.id ==> v in Reject(users, UserId, caller.id)
    ensures AuthMiddleware.Authenticate(Reject(users, UserId, caller.id), Token(token, true), AuthMiddleware.NoFault)
         == AuthMiddleware.Rejected
  {
    RejectRemovesOne(users, UserId, caller.id);
    AuthMiddleware.DeletedAccountRejected(Reject(users, UserId, caller.id), token.claims);
  }
}
