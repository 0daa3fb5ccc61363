/**
 * The likes routes: like and unlike a post, count a post's likes, ask whether
 * the caller liked a post, and list a user's likes. `caller` is the account the
 * bearer strategy resolved.
 */
module LikesRoutes {
  import opened Common
  import opened Query
  import opened Store

  const MISSING_POST_ID := "post_id mancante"
  const ALREADY_LIKED := "Hai già messo like a questo post"
  const LIKE_ERROR := "Errore durante il like"
  const UNLIKE_ERROR := "Errore rimuovendo il like"
  const LOOKUP_ERROR := "Errore DB"
  const COUNT_ERROR := "Errore nel conteggio dei like"
  const USER_LIKES_ERROR := "Errore caricamento like utente"

  /** The likes that record `userId` liking `postId`. */
  function LikesBy(likes: seq<Like>, postId: Id, userId: Id): seq<Like> {
    Select(likes, LikePair, (postId, userId))
  }

  /** `userId` has liked `postId`. */
  ghost predicate HasLiked(likes: seq<Like>, postId: Id, userId: Id) {
    exists l :: l in likes && l.postId == postId && l.userId == userId
  }

  /** Under the one-like-per-pair constraint, the lookup of a pair finds its like exactly when there is one. */
  lemma PairLookup(likes: seq<Like>, postId: Id, userId: Id)
    requires ValidLikes(likes)
    ensures MaybeSingle(LikesBy(likes, postId, userId)) != TooMany
    ensures MaybeSingle(LikesBy(likes, postId, userId)).Found? <==> HasLiked(likes, postId, userId)
  {
    LookupByUniqueKey(likes, LikePair, (postId, userId));
    if HasLiked(likes, postId, userId) {
      var l :| l in likes && l.postId == postId && l.userId == userId;
      assert LikePair(l) == (postId, userId);
    }
  }

  /**
   * POST /likes. `freshId` and `now` are what the database assigns to the new
   * row, `readOk` whether the lookup of an existing like succeeds, `writeOk`
   * whether the insert succeeds. A failed lookup reads as "no like yet", so the
   * insert is tried; the one-like-per-pair constraint then rejects a duplicate.
   */
  method AddLike(db: Db, caller: User, postId: Field, freshId: Id, now: int, readOk: bool, writeOk: bool)
    returns (reply: Reply<Like>)
    requires db.Valid()
    requires forall l :: l in db.likes ==> l.id != freshId
    modifies db
    ensures db.Valid()
    ensures db.users == old(db.users) && db.posts == old(db.posts) && db.comments == old(db.comments)
    ensures !Truthy(postId) ==> reply == Fail(400, MISSING_POST_ID)
    ensures Truthy(postId) && readOk && HasLiked(old(db.likes), postId.s, caller.id) ==> reply == Fail(400, ALREADY_LIKED)
    ensures Truthy(postId) && !readOk && HasLiked(old(db.likes), postId.s, caller.id) ==> reply == Fail(500, LIKE_ERROR)
    ensures Truthy(postId) && !HasLiked(old(db.likes), postId.s, caller.id) && !writeOk ==> reply == Fail(500, LIKE_ERROR)
    ensures reply.Ok? <==> Truthy(postId) && !HasLiked(old(db.likes), postId.s, caller.id) && writeOk
    ensures reply.Fail? ==> db.likes == old(db.likes)
    ensures reply.Ok? ==>
            && reply.status == 201
            && reply.body == Like(freshId, postId.s, caller.id, now)
            && db.likes == old(db.likes) + [reply.body]
  {
    if !Truthy(postId) {
      return Fail(400, MISSING_POST_ID);
    }
    PairLookup(db.likes, postId.s, caller.id);
    // the lookup's error is not read: only a found row stops the insert
    var existing := if readOk then MaybeSingle(LikesBy(db.likes, postId.s, caller.id)) else NoRow;
    if existing.Found? {
      return Fail(400, ALREADY_LIKED);
    }
    if !writeOk || MaybeSingle(LikesBy(db.likes, postId.s, caller.id)).Found? {
      return Fail(500, LIKE_ERROR);
    }
    var like := Like(freshId, postId.s, caller.id, now);
    UniqueAppend(db.likes, like, LikeId);
    UniqueAppend(db.likes, like, LikePair);
    db.likes := db.likes + [like];
    reply := Ok(201, like);
  }

  /**
   * The likes table after `.delete().eq('post_id', postId).eq('user_id', userId)`:
   * every like of that pair goes and no other row.
   */
  function WithoutLike(likes: seq<Like>, postId: Id, userId: Id): (r: seq<Like>)
    ensures forall l :: l in r <==> l in likes && !(l.postId == postId && l.userId == userId)
  {
    Where(likes, (l: Like) => !(l.postId == postId && l.userId == userId))
  }

  /** After an unlike the pair has no like, and a second unlike changes nothing. */
  lemma WithoutLikeEffect(likes: seq<Like>, postId: Id, userId: Id)
    ensures !HasLiked(WithoutLike(likes, postId, userId), postId, userId)
    ensures WithoutLike(WithoutLike(likes, postId, userId), postId, userId) == WithoutLike(likes, postId, userId)
  {
    WhereIdempotent(likes, (l: Like) => !(l.postId == postId && l.userId == userId));
  }

  /** Removing rows keeps both likes constraints. */
  lemma WithoutLikeKeepsValid(likes: seq<Like>, postId: Id, userId: Id)
    requires ValidLikes(likes)
    ensures ValidLikes(WithoutLike(likes, postId, userId))
  {
    var keep := (l: Like) => !(l.postId == postId && l.userId == userId);
    WhereKeepsUnique(likes, keep, LikeId);
    WhereKeepsUnique(likes, keep, LikePair);
  }

  /** DELETE /likes/:postId. It succeeds whether or not a like existed. */
  method RemoveLike(db: Db, caller: User, postId: Id, writeOk: bool) returns (reply: Reply<()>)
    requires db.Valid()
    modifies db
    ensures db.Valid()
    ensures db.users == old(db.users) && db.posts == old(db.posts) && db.comments == old(db.comments)
    ensures !writeOk ==> reply == Fail(500, UNLIKE_ERROR) && db.likes == old(db.likes)
    ensures writeOk ==> reply == Ok(200, ()) && db.likes == WithoutLike(old(db.likes), postId, caller.id)
  {
    if !writeOk {
      return Fail(500, UNLIKE_ERROR);
    }
    WithoutLikeKeepsValid(db.likes, postId, caller.id);
    db.likes := WithoutLike(db.likes, postId, caller.id);
    reply := Ok(200, ());
  }

  /** The number of likes a post has. */
  function Count(likes: seq<Like>, postId: Id): (n: nat)
    ensures n <= |likes|
    ensures n == 0 <==> forall l :: l in likes ==> l.postId != postId
  {
    var rows := Select(likes, LikePost, postId);
    assert |rows| > 0 ==> rows[0] in rows;
    |rows|
  }

  /**
   * GET /likes/:post_id/count: `{ likes }`, the number of rows for the post.
   * `readOk` is whether the query succeeds.
   */
  function LikeCount(likes: seq<Like>, postId: Id, readOk: bool): (r: Reply<nat>)
    ensures !readOk <==> r == Fail(500, COUNT_ERROR)
    ensures r.Ok? ==> r.status == 200 && r.body == Count(likes, postId)
  {
    if !readOk then Fail(500, COUNT_ERROR) else Ok(200, Count(likes, postId))
  }

  /** The users who liked a post. */
  ghost function Likers(likes: seq<Like>, postId: Id): set<Id> {
    set l | l in likes && l.postId == postId :: l.userId
  }

  /** With one like per pair, a post's count is the number of distinct users who liked it. */
  lemma CountIsLikers(likes: seq<Like>, postId: Id)
    requires ValidLikes(likes)
    ensures Count(likes, postId) == |Likers(likes, postId)|
  {
    var s := Select(likes, LikePost, postId);
    SelectKeepsUnique(likes, LikePost, postId, LikePair);
    forall i, j | 0 <= i < j < |s| ensures LikeUser(s[i]) != LikeUser(s[j]) {
      assert s[i] in s && s[j] in s;
      assert LikePair(s[i]) != LikePair(s[j]);
    }
    UniqueKeysCount(s, LikeUser);
    forall u ensures u in Keys(s, LikeUser) <==> u in Likers(likes, postId) {
      if u in Likers(likes, postId) {
        var l :| l in likes && l.postId == postId && l.userId == u;
        assert l in s;
      }
    }
    assert Keys(s, LikeUser) == Likers(likes, postId);
  }

  /** A new like raises the count of its own post by one and no other count. */
  lemma CountAfterLike(likes: seq<Like>, like: Like, postId: Id)
    ensures Count(likes + [like], postId) == Count(likes, postId) + (if like.postId == postId then 1 else 0)
  {
    SelectAppend(likes, like, LikePost, postId);
  }

  /**
   * GET /likes/:postId/me: whether the lookup of the caller's like finds a row.
   * `readOk` is whether the query succeeds.
   */
  function LikedByMe(likes: seq<Like>, postId: Id, userId: Id, readOk: bool): (r: Reply<bool>)
    ensures !readOk ==> r == Fail(500, LOOKUP_ERROR)
    ensures r.Ok? ==> r.status == 200 && (r.body <==> MaybeSingle(LikesBy(likes, postId, userId)).Found?)
    ensures r.Fail? ==> r == Fail(500, LOOKUP_ERROR)
  {
    if !readOk then Fail(500, LOOKUP_ERROR)
    else match MaybeSingle(LikesBy(likes, postId, userId))
    case TooMany => Fail(500, LOOKUP_ERROR)
    case Found(_) => Ok(200, true)
    case NoRow => Ok(200, false)
  }

  /**
   * With one like per pair, a successful query never errs, and the answer is
   * `liked: true` exactly when the caller's like exists.
   */
  lemma LikedIffLikeExists(likes: seq<Like>, postId: Id, userId: Id)
    requires ValidLikes(likes)
    ensures LikedByMe(likes, postId, userId, true).Ok?
    ensures LikedByMe(likes, postId, userId, true).body <==> HasLiked(likes, postId, userId)
  {
    PairLookup(likes, postId, userId);
  }

  /**
   * GET /likes/user/:user_id: `{ items }`, that user's likes, newest first.
   * `readOk` is whether the query succeeds.
   */
  function LikesOfUser(likes: seq<Like>, userId: Id, readOk: bool): (r: Reply<seq<Like>>)
    ensures !readOk <==> r == Fail(500, USER_LIKES_ERROR)
    ensures r.Ok? ==> r.status == 200 && Descending(r.body, LikeCreated)
    ensures r.Ok? ==> multiset(r.body) == multiset(Select(likes, LikeUser, userId))
    ensures r.Ok? ==> forall l :: l in r.body <==> l in likes && l.userId == userId
  {
    if !readOk then Fail(500, USER_LIKES_ERROR)
    else
      var r := SortDescending(Select(likes, LikeUser, userId), LikeCreated);
      SameMembers(r, Select(likes, LikeUser, userId));
      Ok(200, r)
  }
}
