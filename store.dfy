/**
 * The four database tables the backend reads and writes (`users`, `posts`,
 * `comments`, `likes`), held in memory by one store object whose tables the
 * route handlers reassign.
 */
module Store {
  import opened Common
  import opened Query
  import opened Crypto

  /** A row of `users`. */
  datatype User = User(
    id: Id,
    username: string,
    email: string,
    passwordHash: PasswordHash,
    otpSecret: Option<string>,
    otpEnabled: bool,
    bio: Option<string>,
    createdAt: int)

  /** A row of `posts`. */
  datatype Post = Post(id: Id, userId: Id, content: string, createdAt: int)

  /** A row of `comments`; `content` is a nullable column that PATCH may write. */
  datatype Comment = Comment(id: Id, postId: Id, userId: Id, content: Option<string>, createdAt: int)

  /** A row of `likes`. */
  datatype Like = Like(id: Id, postId: Id, userId: Id, createdAt: int)

  // Column accessors, used as keys for filters, orderings and unique constraints.
  function UserId(u: User): Id { u.id }
  function Username(u: User): string { u.username }
  function Email(u: User): string { u.email }
  function UserCreated(u: User): int { u.createdAt }
  function PostId(p: Post): Id { p.id }
  function PostAuthor(p: Post): Id { p.userId }
  function PostCreated(p: Post): int { p.createdAt }
  function CommentId(c: Comment): Id { c.id }
  function CommentPost(c: Comment): Id { c.postId }
  function CommentAuthor(c: Comment): Id { c.userId }
  function CommentCreated(c: Comment): int { c.createdAt }
  function LikeId(l: Like): Id { l.id }
  function LikePost(l: Like): Id { l.postId }
  function LikeUser(l: Like): Id { l.userId }
  function LikeCreated(l: Like): int { l.createdAt }
  /** The (post, user) pair a like records. */
  function LikePair(l: Like): (Id, Id) { (l.postId, l.userId) }

  /** Every account holds a non-empty OTP secret, as register provisions one. */
  ghost predicate Provisioned(users: seq<User>) {
    forall u :: u in users ==> Filled(u.otpSecret)
  }

  ghost predicate ValidUsers(users: seq<User>) {
    && Unique(users, UserId)
    && Unique(users, Username)
    && Unique(users, Email)
    && Provisioned(users)
  }

  /** At most one like per (post, user) pair, and like ids are keys. */
  ghost predicate ValidLikes(likes: seq<Like>) {
    Unique(likes, LikeId) && Unique(likes, LikePair)
  }

  /** The embedded `users (id, username)` that the read routes attach to a post or comment. */
  datatype AuthorRef = AuthorRef(id: Id, username: string)

  /** The author embedding for a row whose `user_id` is `userId`; null when no single account matches. */
  function AuthorOf(users: seq<User>, userId: Id): (a: Option<AuthorRef>)
    ensures a.Some? ==> exists u :: u in users && u.id == userId && a.value == AuthorRef(u.id, u.username)
  {
    match MaybeSingle(Select(users, UserId, userId))
    case Found(u) => Some(AuthorRef(u.id, u.username))
    case _ => None
  }

  /** With account ids unique, the embedding names the author exactly when the account exists. */
  lemma AuthorOfExisting(users: seq<User>, u: User)
    requires Unique(users, UserId) && u in users
    ensures AuthorOf(users, u.id) == Some(AuthorRef(u.id, u.username))
  {
    LookupByUniqueKey(users, UserId, u.id);
  }

  class Db {
    var users: seq<User>
    var posts: seq<Post>
    var comments: seq<Comment>
    var likes: seq<Like>

    ghost predicate Valid()
      reads this
    {
      && ValidUsers(users)
      && Unique(posts, PostId)
      && Unique(comments, CommentId)
      && ValidLikes(likes)
    }

    constructor ()
      ensures Valid()
      ensures users == [] && posts == [] && comments == [] && likes == []
    {
      users, posts, comments, likes := [], [], [], [];
    }
  }
}
