/**
 * The posts routes: create a post, list posts (all, or one author's), read one
 * post, and edit or delete a post its author owns. `caller` is the account the
 * bearer strategy resolved.
 */
module PostsRoutes {
  import opened Common
  import opened Query
  import opened Store

  const MISSING_CONTENT := "Contenuto mancante"
  const CREATE_ERROR := "Errore creazione post"
  const LIST_ERROR := "Errore caricamento post"
  const POST_NOT_FOUND := "Post non trovato"
  const NOT_AUTHORIZED := "Non autorizzato"
  const UPDATE_ERROR := "Errore aggiornamento post"
  const DELETE_ERROR := "Errore eliminazione post"
  const POST_DELETED := "Post eliminato"

  /** A post as the read routes return it, with its author embedded. */
  datatype PostView = PostView(post: Post, author: Option<AuthorRef>)

  /** The view of one post. */
  function View(users: seq<User>, p: Post): PostView {
    PostView(p, AuthorOf(users, p.userId))
  }

  /** The posts a list of views shows, in order. */
  function PostsOf(items: seq<PostView>): (r: seq<Post>)
    ensures |r| == |items|
    ensures forall i :: 0 <= i < |items| ==> r[i] == items[i].post
  {
    seq(|items|, i requires 0 <= i < |items| => items[i].post)
  }

  /** The body of GET /posts. */
  datatype PostPage = PostPage(items: seq<PostView>, total: nat)

  /**
   * POST /posts. `freshId` and `now` are what the database assigns to the new
   * row, `writeOk` whether the insert succeeds.
   */
  method CreatePost(db: Db, caller: User, content: Field, freshId: Id, now: int, writeOk: bool)
    returns (reply: Reply<Post>)
    requires db.Valid()
    requires forall p :: p in db.posts ==> p.id != freshId
    modifies db
    ensures db.Valid()
    ensures db.users == old(db.users) && db.comments == old(db.comments) && db.likes == old(db.likes)
    ensures !Truthy(content) ==> reply == Fail(400, MISSING_CONTENT)
    ensures Truthy(content) && !writeOk ==> reply == Fail(500, CREATE_ERROR)
    ensures reply.Fail? ==> db.posts == old(db.posts)
    ensures reply.Ok? <==> Truthy(content) && writeOk
    ensures reply.Ok? ==>
            && reply == Ok(201, Post(freshId, caller.id, content.s, now))
            && db.posts == old(db.posts) + [reply.body]
  {
    if !Truthy(content) {
      return Fail(400, MISSING_CONTENT);
    }
    if !writeOk {
      return Fail(500, CREATE_ERROR);
    }
    var post := Post(freshId, caller.id, content.s, now);
    UniqueAppend(db.posts, post, PostId);
    db.posts := db.posts + [post];
    reply := Ok(201, post);
  }

  /** The rows GET /posts reads: every post, or only those of `userIdParam` when it is non-empty. */
  function Listed(posts: seq<Post>, userIdParam: Field): (r: seq<Post>)
    ensures forall p :: p in r <==> p in posts && (Truthy(userIdParam) ==> p.userId == userIdParam.s)
  {
    if Truthy(userIdParam) then Select(posts, PostAuthor, userIdParam.s) else posts
  }

  /**
   * GET /posts. `readOk` is whether the query succeeds. The exact count of the
   * filtered rows is never null, so `total` is the number of items either way.
   */
  function ListPosts(posts: seq<Post>, users: seq<User>, userIdParam: Field, readOk: bool): (r: Reply<PostPage>)
    ensures !readOk <==> r == Fail(500, LIST_ERROR)
    ensures r.Ok? ==> r.status == 200 && r.body.total == |r.body.items|
    ensures r.Ok? ==> Descending(PostsOf(r.body.items), PostCreated)
    ensures r.Ok? ==> multiset(PostsOf(r.body.items)) == multiset(Listed(posts, userIdParam))
    ensures r.Ok? ==> forall v :: v in r.body.items ==> v.author == AuthorOf(users, v.post.userId)
  {
    if !readOk then Fail(500, LIST_ERROR)
    else
      var sorted := SortDescending(Listed(posts, userIdParam), PostCreated);
      var items := seq(|sorted|, i requires 0 <= i < |sorted| => View(users, sorted[i]));
      assert PostsOf(items) == sorted;
      Ok(200, PostPage(items, |items|))
  }

  /** The list shows exactly the posts of the requested author (or all posts), each once per row. */
  lemma ListedPostsAreTheFiltered(posts: seq<Post>, users: seq<User>, userIdParam: Field)
    ensures forall p :: p in PostsOf(ListPosts(posts, users, userIdParam, true).body.items) <==>
                        p in posts && (Truthy(userIdParam) ==> p.userId == userIdParam.s)
  {
    var items := ListPosts(posts, users, userIdParam, true).body.items;
    SameMembers(PostsOf(items), Listed(posts, userIdParam));
  }

  /**
   * GET /posts/:id: `.single()` on the id; no row, several rows or any error
   * give 404. `readOk` is whether the query succeeds.
   */
  function GetPost(posts: seq<Post>, users: seq<User>, id: Id, readOk: bool): (r: Reply<PostView>)
    ensures !readOk ==> r == Fail(404, POST_NOT_FOUND)
    ensures r.Ok? ==> r.status == 200 && r.body.post in posts && r.body.post.id == id
    ensures r.Fail? ==> r == Fail(404, POST_NOT_FOUND)
  {
    if !readOk then Fail(404, POST_NOT_FOUND)
    else match MaybeSingle(Select(posts, PostId, id))
    case Found(p) => Ok(200, View(users, p))
    case _ => Fail(404, POST_NOT_FOUND)
  }

  /** With post ids unique, reading a post succeeds exactly when it exists, and returns it. */
  lemma GetPostFinds(posts: seq<Post>, users: seq<User>, id: Id)
    requires Unique(posts, PostId)
    ensures GetPost(posts, users, id, true).Ok? <==> exists p :: p in posts && p.id == id
    ensures forall p :: p in posts && p.id == id ==> GetPost(posts, users, id, true) == Ok(200, View(users, p))
  {
    LookupByUniqueKey(posts, PostId, id);
  }

  /**
   * The posts table after `.update({ content }).eq('id', id)`: only the posts
   * with that id change, and in them only the content.
   */
  function WithContent(posts: seq<Post>, id: Id, content: string): (r: seq<Post>)
    ensures |r| == |posts|
    ensures forall i :: 0 <= i < |posts| && posts[i].id != id ==> r[i] == posts[i]
    ensures forall i :: 0 <= i < |posts| && posts[i].id == id ==>
              r[i] == Post(posts[i].id, posts[i].userId, content, posts[i].createdAt)
  {
    seq(|posts|, i requires 0 <= i < |posts| => if posts[i].id == id then posts[i].(content := content) else posts[i])
  }

  /** Repeating the update changes nothing. */
  lemma WithContentEffect(posts: seq<Post>, id: Id, content: string)
    ensures WithContent(WithContent(posts, id, content), id, content) == WithContent(posts, id, content)
  {
  }

  /** Editing content keeps post ids unique. */
  lemma WithContentKeepsUnique(posts: seq<Post>, id: Id, content: string)
    requires Unique(posts, PostId)
    ensures Unique(WithContent(posts, id, content), PostId)
  {
    SameKeysUnique(posts, WithContent(posts, id, content), PostId);
  }

  /**
   * PATCH /posts/:id. The checks run in order: missing content (400), no such
   * post or a failed lookup (404), not the author (403), then the update (500
   * on failure). `readOk` is whether the lookup succeeds.
   */
  method PatchPost(db: Db, caller: User, id: Id, content: Field, readOk: bool, writeOk: bool) returns (reply: Reply<Post>)
    requires db.Valid()
    modifies db
    ensures db.Valid()
    ensures db.users == old(db.users) && db.comments == old(db.comments) && db.likes == old(db.likes)
    ensures !Truthy(content) ==> reply == Fail(400, MISSING_CONTENT)
    ensures Truthy(content) && !readOk ==> reply == Fail(404, POST_NOT_FOUND)
    ensures Truthy(content) && (forall p :: p in old(db.posts) ==> p.id != id) ==> reply == Fail(404, POST_NOT_FOUND)
    ensures forall p :: Truthy(content) && readOk && p in old(db.posts) && p.id == id ==>
              && (p.userId != caller.id ==> reply == Fail(403, NOT_AUTHORIZED))
              && (p.userId == caller.id && !writeOk ==> reply == Fail(500, UPDATE_ERROR))
              && (p.userId == caller.id && writeOk ==> reply == Ok(200, p.(content := content.s)))
    ensures reply.Fail? ==> db.posts == old(db.posts)
    ensures reply.Ok? ==> db.posts == WithContent(old(db.posts), id, content.s)
  {
    if !Truthy(content) {
      return Fail(400, MISSING_CONTENT);
    }
    if !readOk {
      return Fail(404, POST_NOT_FOUND);
    }
    LookupByUniqueKey(db.posts, PostId, id);
    var existing := MaybeSingle(Select(db.posts, PostId, id));
    if !existing.Found? {
      return Fail(404, POST_NOT_FOUND);
    }
    var p := existing.row;
    if p.userId != caller.id {
      return Fail(403, NOT_AUTHORIZED);
    }
    if !writeOk {
      return Fail(500, UPDATE_ERROR);
    }
    WithContentKeepsUnique(db.posts, id, content.s);
    db.posts := WithContent(db.posts, id, content.s);
    reply := Ok(200, p.(content := content.s));
  }

  /** After an edit, reading the post returns it with the new content and nothing else changed. */
  lemma ReadAfterEdit(posts: seq<Post>, users: seq<User>, p: Post, content: string)
    requires Unique(posts, PostId) && p in posts
    ensures GetPost(WithContent(posts, p.id, content), users, p.id, true) == Ok(200, View(users, p.(content := content)))
  {
    var i :| 0 <= i < |posts| && posts[i] == p;
    WithContentKeepsUnique(posts, p.id, content);
    assert WithContent(posts, p.id, content)[i] == p.(content := content);
    GetPostFinds(WithContent(posts, p.id, content), users, p.id);
  }

  /**
   * DELETE /posts/:id. The checks run in order: no such post or a failed
   * lookup (404), not the author (403), then the delete (500 on failure).
   */
  method DeletePost(db: Db, caller: User, id: Id, readOk: bool, writeOk: bool) returns (reply: Reply<string>)
    requires db.Valid()
    modifies db
    ensures db.Valid()
    ensures db.users == old(db.users) && db.comments == old(db.comments) && db.likes == old(db.likes)
    ensures !readOk ==> reply == Fail(404, POST_NOT_FOUND)
    ensures (forall p :: p in old(db.posts) ==> p.id != id) ==> reply == Fail(404, POST_NOT_FOUND)
    ensures forall p :: readOk && p in old(db.posts) && p.id == id ==>
              && (p.userId != caller.id ==> reply == Fail(403, NOT_AUTHORIZED))
              && (p.userId == caller.id && !writeOk ==> reply == Fail(500, DELETE_ERROR))
              && (p.userId == caller.id && writeOk ==> reply == Ok(200, POST_DELETED))
    ensures reply.Fail? ==> db.posts == old(db.posts)
    ensures reply.Ok? ==> db.posts == Reject(old(db.posts), PostId, id)
  {
    if !readOk {
      return Fail(404, POST_NOT_FOUND);
    }
    LookupByUniqueKey(db.posts, PostId, id);
    var existing := MaybeSingle(Select(db.posts, PostId, id));
    if !existing.Found? {
      return Fail(404, POST_NOT_FOUND);
    }
    if existing.row.userId != caller.id {
      return Fail(403, NOT_AUTHORIZED);
    }
    if !writeOk {
      return Fail(500, DELETE_ERROR);
    }
    RejectKeepsUnique(db.posts, PostId, id, PostId);
    db.posts := Reject(db.posts, PostId, id);
    reply := Ok(200, POST_DELETED);
  }

  /** A delete removes exactly the one post with that id: every other post stays, and the table shrinks by one. */
  lemma DeleteRemovesOnlyThatPost(posts: seq<Post>, p: Post)
    requires Unique(posts, PostId) && p in posts
    ensures |Reject(posts, PostId, p.id)| == |posts| - 1
    ensures forall q :: q in posts && q.id != p.id ==> q in Reject(posts, PostId, p.id)
    ensures p !in Reject(posts, PostId, p.id)
  {
    RejectRemovesOne(posts, PostId, p.id);
  }

  /** After a delete, reading the post gives 404. */
  lemma ReadAfterDelete(posts: seq<Post>, users: seq<User>, id: Id, readOk: bool)
    ensures GetPost(Reject(posts, PostId, id), users, id, readOk) == Fail(404, POST_NOT_FOUND)
  {
    NoneSelected(Reject(posts, PostId, id), PostId, id);
  }

  /** A created post can be read back, with the caller as its author. */
  lemma ReadAfterCreate(posts: seq<Post>, users: seq<User>, post: Post)
    requires Unique(posts, PostId)
    requires forall p :: p in posts ==> p.id != post.id
    ensures GetPost(posts + [post], users, post.id, true) == Ok(200, View(users, post))
  {
    UniqueAppend(posts, post, PostId);
    GetPostFinds(posts + [post], users, post.id);
  }
}
