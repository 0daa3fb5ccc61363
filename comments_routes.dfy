/**
 * The comments routes: comment on a post, list a post's comments (two routes),
 * edit or delete one's own comment, and list a user's comments. `caller` is
 * the account the bearer strategy resolved.
 */
module CommentsRoutes {
  import opened Common
  import opened Query
  import opened Store

  const MISSING_DATA := "Dati mancanti"
  const CREATE_ERROR := "Errore nella creazione del commento"
  const LIST_ERROR := "Errore nel caricamento dei commenti"
  const COMMENT_NOT_FOUND := "Commento non trovato"
  const EDIT_FORBIDDEN := "Non puoi modificare commenti di altri utenti"
  const UPDATE_ERROR := "Errore durante l’aggiornamento del commento"
  const DELETE_FORBIDDEN := "Non puoi eliminare commenti di altri utenti"
  const DELETE_ERROR := "Errore durante la cancellazione del commento"
  const COMMENT_DELETED := "Commento eliminato correttamente"
  const USER_LIST_ERROR := "Errore caricamento commenti utente"

  /** A comment as the read routes return it, with its author embedded. */
  datatype CommentView = CommentView(comment: Comment, author: Option<AuthorRef>)

  /** Views of `rows`, in the same order. */
  function Views(users: seq<User>, rows: seq<Comment>): (r: seq<CommentView>)
    ensures |r| == |rows|
    ensures forall i :: 0 <= i < |rows| ==> r[i].comment == rows[i] && r[i].author == AuthorOf(users, rows[i].userId)
  {
    seq(|rows|, i requires 0 <= i < |rows| => CommentView(rows[i], AuthorOf(users, rows[i].userId)))
  }

  /** The comments a list of views shows, in order. */
  function CommentsOf(items: seq<CommentView>): (r: seq<Comment>)
    ensures |r| == |items|
    ensures forall i :: 0 <= i < |items| ==> r[i] == items[i].comment
  {
    seq(|items|, i requires 0 <= i < |items| => items[i].comment)
  }

  /** Views carry the rows they were built from. */
  lemma CommentsOfViews(users: seq<User>, rows: seq<Comment>)
    ensures CommentsOf(Views(users, rows)) == rows
  {
  }

  /**
   * POST /comments. `freshId` and `now` are what the database assigns to the new
   * row, `writeOk` whether the insert succeeds. The post is not looked up.
   */
  method CreateComment(db: Db, caller: User, postId: Field, content: Field, freshId: Id, now: int, writeOk: bool)
    returns (reply: Reply<Comment>)
    requires db.Valid()
    requires forall c :: c in db.comments ==> c.id != freshId
    modifies db
    ensures db.Valid()
    ensures db.users == old(db.users) && db.posts == old(db.posts) && db.likes == old(db.likes)
    ensures !Truthy(postId) || !Truthy(content) ==> reply == Fail(400, MISSING_DATA)
    ensures Truthy(postId) && Truthy(content) && !writeOk ==> reply == Fail(500, CREATE_ERROR)
    ensures reply.Fail? ==> db.comments == old(db.comments)
    ensures reply.Ok? <==> Truthy(postId) && Truthy(content) && writeOk
    ensures reply.Ok? ==>
            && reply == Ok(201, Comment(freshId, postId.s, caller.id, Some(content.s), now))
            && db.comments == old(db.comments) + [reply.body]
  {
    if !Truthy(postId) || !Truthy(content) {
      return Fail(400, MISSING_DATA);
    }
    if !writeOk {
      return Fail(500, CREATE_ERROR);
    }
    var comment := Comment(freshId, postId.s, caller.id, Some(content.s), now);
    UniqueAppend(db.comments, comment, CommentId);
    db.comments := db.comments + [comment];
    reply := Ok(201, comment);
  }

  /** A post's comments, oldest first. */
  function Thread(comments: seq<Comment>, postId: Id): (r: seq<Comment>)
    ensures Ascending(r, CommentCreated)
    ensures multiset(r) == multiset(Select(comments, CommentPost, postId))
    ensures forall c :: c in r <==> c in comments && c.postId == postId
  {
    var r := SortAscending(Select(comments, CommentPost, postId), CommentCreated);
    SameMembers(r, Select(comments, CommentPost, postId));
    r
  }

  /** GET /comments/:post_id: the body `{ comments }`. `readOk` is whether the query succeeds. */
  function CommentsOfPost(comments: seq<Comment>, users: seq<User>, postId: Id, readOk: bool): (r: Reply<seq<CommentView>>)
    ensures !readOk <==> r == Fail(500, LIST_ERROR)
    ensures r.Ok? ==> r.status == 200 && CommentsOf(r.body) == Thread(comments, postId)
  {
    if !readOk then Fail(500, LIST_ERROR)
    else
      CommentsOfViews(users, Thread(comments, postId));
      Ok(200, Views(users, Thread(comments, postId)))
  }

  /** The body of GET /comments: `total` is absent when no post was named. */
  datatype CommentPage = CommentPage(items: seq<CommentView>, total: Option<nat>)

  /** GET /comments?post_id=…. */
  function CommentsQuery(comments: seq<Comment>, users: seq<User>, postIdParam: Field, readOk: bool): (r: Reply<CommentPage>)
    ensures !Truthy(postIdParam) ==> r == Ok(200, CommentPage([], None))
    ensures Truthy(postIdParam) ==> (!readOk <==> r == Fail(500, LIST_ERROR))
    ensures Truthy(postIdParam) && r.Ok? ==>
              && r.body.total == Some(|r.body.items|)
              && CommentsOf(r.body.items) == Thread(comments, postIdParam.s)
  {
    if !Truthy(postIdParam) then Ok(200, CommentPage([], None))
    else if !readOk then Fail(500, LIST_ERROR)
    else
      var items := Views(users, Thread(comments, postIdParam.s));
      CommentsOfViews(users, Thread(comments, postIdParam.s));
      Ok(200, CommentPage(items, Some(|items|)))
  }

  /** The two listing routes return the same comments for a named post. */
  lemma ListingRoutesAgree(comments: seq<Comment>, users: seq<User>, postId: Id, readOk: bool)
    requires postId != ""
    ensures CommentsQuery(comments, users, Str(postId), readOk).Ok? <==> CommentsOfPost(comments, users, postId, readOk).Ok?
    ensures CommentsQuery(comments, users, Str(postId), readOk).Ok? ==>
              CommentsQuery(comments, users, Str(postId), readOk).body.items == CommentsOfPost(comments, users, postId, readOk).body
  {
  }

  /** A new comment shows up in its post's thread, which grows by exactly one. */
  lemma ThreadAfterCreate(comments: seq<Comment>, c: Comment)
    ensures c in Thread(comments + [c], c.postId)
    ensures |Thread(comments + [c], c.postId)| == |Thread(comments, c.postId)| + 1
  {
    SelectAppend(comments, c, CommentPost, c.postId);
    assert |Thread(comments + [c], c.postId)| == |multiset(Thread(comments + [c], c.postId))|;
    assert |Thread(comments, c.postId)| == |multiset(Thread(comments, c.postId))|;
  }

  /**
   * The `content` column after `.update({ content })` with the body's value: an
   * absent field is dropped from the JSON payload and leaves the column as is,
   * `null` clears it, and a string (empty included) is stored as given.
   */
  function PatchedContent(current: Option<string>, content: Field): (r: Option<string>)
    ensures content.Undefined? ==> r == current
    ensures content.Null? ==> r == None
    ensures content.Str? ==> r == Some(content.s)
  {
    match content
    case Undefined => current
    case Null => None
    case Str(s) => Some(s)
  }

  /** The comments table after the update of comment `id`. */
  function WithContent(comments: seq<Comment>, id: Id, content: Field): (r: seq<Comment>)
    ensures |r| == |comments|
    ensures forall i :: 0 <= i < |comments| && comments[i].id != id ==> r[i] == comments[i]
    ensures forall i :: 0 <= i < |comments| && comments[i].id == id ==>
              var c := comments[i];
              r[i] == Comment(c.id, c.postId, c.userId, PatchedContent(c.content, content), c.createdAt)
  {
    seq(|comments|, i requires 0 <= i < |comments| =>
      if comments[i].id == id then comments[i].(content := PatchedContent(comments[i].content, content)) else comments[i])
  }

  /** Repeating the update changes nothing. */
  lemma WithContentEffect(comments: seq<Comment>, id: Id, content: Field)
    ensures WithContent(WithContent(comments, id, content), id, content) == WithContent(comments, id, content)
  {
  }

  /** Editing content keeps comment ids unique. */
  lemma WithContentKeepsUnique(comments: seq<Comment>, id: Id, content: Field)
    requires Unique(comments, CommentId)
    ensures Unique(WithContent(comments, id, content), CommentId)
  {
    SameKeysUnique(comments, WithContent(comments, id, content), CommentId);
  }

  /**
   * PATCH /comments/:id. The content is not validated. The checks run in order:
   * no such comment or a failed lookup (404), not the author (403), then the
   * update (500 on failure). `readOk` is whether the lookup succeeds. A body
   * without `content` sends an empty payload: no row is updated or returned, so
   * `.single()` errs and the route answers 500 as for a failed write.
   */
  method PatchComment(db: Db, caller: User, id: Id, content: Field, readOk: bool, writeOk: bool) returns (reply: Reply<Comment>)
    requires db.Valid()
    modifies db
    ensures db.Valid()
    ensures db.users == old(db.users) && db.posts == old(db.posts) && db.likes == old(db.likes)
    ensures !readOk ==> reply == Fail(404, COMMENT_NOT_FOUND)
    ensures (forall c :: c in old(db.comments) ==> c.id != id) ==> reply == Fail(404, COMMENT_NOT_FOUND)
    ensures forall c :: readOk && c in old(db.comments) && c.id == id ==>
              && (c.userId != caller.id ==> reply == Fail(403, EDIT_FORBIDDEN))
              && (c.userId == caller.id && (!writeOk || content.Undefined?) ==> reply == Fail(500, UPDATE_ERROR))
              && (c.userId == caller.id && writeOk && !content.Undefined? ==>
                    reply == Ok(200, c.(content := PatchedContent(c.content, content))))
    ensures reply.Ok? ==> readOk && writeOk && !content.Undefined?
    ensures reply.Fail? ==> db.comments == old(db.comments)
    ensures reply.Ok? ==> db.comments == WithContent(old(db.comments), id, content)
  {
    if !readOk {
      return Fail(404, COMMENT_NOT_FOUND);
    }
    LookupByUniqueKey(db.comments, CommentId, id);
    var existing := MaybeSingle(Select(db.comments, CommentId, id));
    if !existing.Found? {
      return Fail(404, COMMENT_NOT_FOUND);
    }
    var c := existing.row;
    if c.userId != caller.id {
      return Fail(403, EDIT_FORBIDDEN);
    }
    if !writeOk || content.Undefined? {
      return Fail(500, UPDATE_ERROR);
    }
    WithContentKeepsUnique(db.comments, id, content);
    db.comments := WithContent(db.comments, id, content);
    reply := Ok(200, c.(content := PatchedContent(c.content, content)));
  }

  /**
   * DELETE /comments/:id. The checks run in order: no such comment or a failed
   * lookup (404), not the author (403), then the delete (500 on failure).
   */
  method DeleteComment(db: Db, caller: User, id: Id, readOk: bool, writeOk: bool) returns (reply: Reply<string>)
    requires db.Valid()
    modifies db
    ensures db.Valid()
    ensures db.users == old(db.users) && db.posts == old(db.posts) && db.likes == old(db.likes)
    ensures !readOk ==> reply == Fail(404, COMMENT_NOT_FOUND)
    ensures (forall c :: c in old(db.comments) ==> c.id != id) ==> reply == Fail(404, COMMENT_NOT_FOUND)
    ensures forall c :: readOk && c in old(db.comments) && c.id == id ==>
              && (c.userId != caller.id ==> reply == Fail(403, DELETE_FORBIDDEN))
              && (c.userId == caller.id && !writeOk ==> reply == Fail(500, DELETE_ERROR))
              && (c.userId == caller.id && writeOk ==> reply == Ok(200, COMMENT_DELETED))
    ensures reply.Fail? ==> db.comments == old(db.comments)
    ensures reply.Ok? ==> db.comments == Reject(old(db.comments), CommentId, id)
  {
    if !readOk {
      return Fail(404, COMMENT_NOT_FOUND);
    }
    LookupByUniqueKey(db.comments, CommentId, id);
    var existing := MaybeSingle(Select(db.comments, CommentId, id));
    if !existing.Found? {
      return Fail(404, COMMENT_NOT_FOUND);
    }
    if existing.row.userId != caller.id {
      return Fail(403, DELETE_FORBIDDEN);
    }
    if !writeOk {
      return Fail(500, DELETE_ERROR);
    }
    RejectKeepsUnique(db.comments, CommentId, id, CommentId);
    db.comments := Reject(db.comments, CommentId, id);
    reply := Ok(200, COMMENT_DELETED);
  }

  /**
   * A delete removes exactly that one comment: it leaves every thread, every
   * other comment stays, and the table shrinks by one.
   */
  lemma DeleteRemovesOnlyThatComment(comments: seq<Comment>, c: Comment)
    requires Unique(comments, CommentId) && c in comments
    ensures |Reject(comments, CommentId, c.id)| == |comments| - 1
    ensures forall d :: d in comments && d.id != c.id ==> d in Reject(comments, CommentId, c.id)
    ensures forall postId :: c !in Thread(Reject(comments, CommentId, c.id), postId)
  {
    RejectRemovesOne(comments, CommentId, c.id);
  }

  /** GET /comments/user/:user_id: that user's comments, newest first. */
  function CommentsOfUser(comments: seq<Comment>, users: seq<User>, userId: Id, readOk: bool): (r: Reply<seq<CommentView>>)
    ensures !readOk <==> r == Fail(500, USER_LIST_ERROR)
    ensures r.Ok? ==> r.status == 200 && Descending(CommentsOf(r.body), CommentCreated)
    ensures r.Ok? ==> forall c :: c in CommentsOf(r.body) <==> c in comments && c.userId == userId
    ensures r.Ok? ==> multiset(CommentsOf(r.body)) == multiset(Select(comments, CommentAuthor, userId))
  {
    if !readOk then Fail(500, USER_LIST_ERROR)
    else
      var rows := SortDescending(Select(comments, CommentAuthor, userId), CommentCreated);
      SameMembers(rows, Select(comments, CommentAuthor, userId));
      CommentsOfViews(users, rows);
      Ok(200, Views(users, rows))
  }
}
