/**
 * The state logic of the comments list component: a like set kept only on
 * the client, inline editing of one comment at a time, and deletion. Each
 * asynchronous handler is split at its `await` into a Begin method (the guards
 * and the state set before the request; it returns the request to send, if
 * any) and a Finish method (the state set once the request settles).
 */
module CommentsListComponent {
  import opened Common
  import opened Query
  import opened ClientCommon

  /**
   * `prev.includes(id) ? prev.filter((x) => x !== id) : [...prev, id]`: it flips
   * the membership of `id` and of no other comment.
   */
  function Toggled(prev: seq<string>, id: string): (r: seq<string>)
    ensures id in r <==> id !in prev
    ensures forall x :: x != id ==> (x in r <==> x in prev)
  {
    if id in prev then Where(prev, (x: string) => x != id) else prev + [id]
  }

  /**
   * Toggling twice restores the set of liked comments, and restores the list
   * itself when the comment was not liked to begin with.
   */
  lemma ToggleTwice(prev: seq<string>, id: string)
    ensures forall x :: x in Toggled(Toggled(prev, id), id) <==> x in prev
    ensures id !in prev ==> Toggled(Toggled(prev, id), id) == prev
  {
    if id !in prev {
      assert id in prev + [id];
      WhereAppend(prev, id, (x: string) => x != id);
      WhereAll(prev, (x: string) => x != id);
    }
  }

  /** No comment id is listed twice. */
  ghost predicate NoDup(s: seq<string>) {
    forall i, j :: 0 <= i < j < |s| ==> s[i] != s[j]
  }

  /** The identity key, to reuse the uniqueness lemmas on plain lists. */
  function Ident(x: string): string { x }

  /** Toggling keeps a duplicate-free list duplicate-free. */
  lemma ToggledNoDup(prev: seq<string>, id: string)
    requires NoDup(prev)
    ensures NoDup(Toggled(prev, id))
  {
    if id in prev {
      var keep := (x: string) => x != id;
      assert Unique(prev, Ident);
      WhereKeepsUnique(prev, keep, Ident);
      var r := Where(prev, keep);
      forall i, j | 0 <= i < j < |r| ensures r[i] != r[j] {
        assert Ident(r[i]) != Ident(r[j]);
      }
    } else {
      var r := prev + [id];
      forall i, j | 0 <= i < j < |r| ensures r[i] != r[j] {
        if j == |prev| {
          assert r[i] == prev[i];
        } else {
          assert r[i] == prev[i] && r[j] == prev[j];
        }
      }
    }
  }

  class CommentsList {
    /** The signed-in user, from the auth context. */
    const viewer: Viewer
    var likedComments: seq<string>
    var editingId: Option<string>
    var editText: string
    var saving: bool
    var deletingId: Option<string>

    constructor (viewer: Viewer)
      ensures this.viewer == viewer
      ensures likedComments == [] && editingId == None && editText == ""
      ensures !saving && deletingId == None
    {
      this.viewer := viewer;
      likedComments := [];
      editingId := None;
      editText := "";
      saving := false;
      deletingId := None;
    }

    /** `comment.id ? likedComments.includes(comment.id) : false`. */
    predicate IsLiked(commentId: Option<string>)
      reads this
    {
      Filled(commentId) && commentId.value in likedComments
    }

    /** The like counter shown under a comment. */
    function LikeLabel(commentId: Option<string>): (shown: string)
      reads this
      ensures shown == "1" <==> IsLiked(commentId)
      ensures shown == "0" <==> !IsLiked(commentId)
    {
      if IsLiked(commentId) then "1" else "0"
    }

    /** `Boolean(comment.id && editingId === comment.id)`. */
    predicate IsEditing(commentId: Option<string>)
      reads this
    {
      Filled(commentId) && editingId == commentId
    }

    /** `toggleLike(commentId)`: nothing without a signed-in user or a comment id. */
    method ToggleLike(commentId: Option<string>)
      modifies this
      ensures viewer.Guest? || !Filled(commentId) ==> likedComments == old(likedComments)
      ensures viewer.Member? && Filled(commentId) ==> likedComments == Toggled(old(likedComments), commentId.value)
      ensures viewer.Member? && Filled(commentId) ==> (IsLiked(commentId) <==> !old(IsLiked(commentId)))
      ensures NoDup(old(likedComments)) ==> NoDup(likedComments)
      ensures editingId == old(editingId) && editText == old(editText)
      ensures saving == old(saving) && deletingId == old(deletingId)
    {
      if viewer.Guest? {
        return;
      }
      if !Filled(commentId) {
        return;
      }
      if NoDup(likedComments) {
        ToggledNoDup(likedComments, commentId.value);
      }
      likedComments := Toggled(likedComments, commentId.value);
    }

    /** `startEdit(c)`: a comment without an id is ignored; a null content edits as ''. */
    method StartEdit(commentId: Option<string>, content: Option<string>)
      modifies this
      ensures !Filled(commentId) ==> editingId == old(editingId) && editText == old(editText)
      ensures Filled(commentId) ==> editingId == commentId && editText == content.GetOr("") && IsEditing(commentId)
      ensures likedComments == old(likedComments) && saving == old(saving) && deletingId == old(deletingId)
    {
      if !Filled(commentId) {
        return;
      }
      editingId := commentId;
      editText := content.GetOr("");
    }

    /** `cancelEdit()`: no comment is being edited afterwards. */
    method CancelEdit()
      modifies this
      ensures editingId == None && editText == ""
      ensures forall c :: !IsEditing(c)
      ensures likedComments == old(likedComments) && saving == old(saving) && deletingId == old(deletingId)
    {
      editingId := None;
      editText := "";
    }

    /**
     * `saveEdit()` up to its request: nothing without a comment being edited or
     * with a text that trims to empty; otherwise it marks the list as saving and
     * sends the trimmed text for that comment.
     */
    method BeginSaveEdit() returns (request: Option<(string, string)>)
      modifies this
      ensures !Filled(old(editingId)) || JsTrim(old(editText)) == "" ==> request == None && saving == old(saving)
      ensures Filled(old(editingId)) && JsTrim(old(editText)) != "" ==>
                request == Some((old(editingId).value, JsTrim(old(editText)))) && saving
      ensures request.Some? ==> request.value.1 != "" && request.value.1 == JsTrim(request.value.1)
      ensures editingId == old(editingId) && editText == old(editText)
      ensures likedComments == old(likedComments) && deletingId == old(deletingId)
    {
      if !Filled(editingId) {
        return None;
      }
      var next := JsTrim(editText);
      if next == "" {
        return None;
      }
      TrimIdempotent(editText, IsJsWhitespace);
      saving := true;
      request := Some((editingId.value, next));
    }

    /** `saveEdit()` after its request: success leaves edit mode; either way saving ends. */
    method FinishSaveEdit(ok: bool)
      modifies this
      ensures !saving
      ensures ok ==> editingId == None && editText == ""
      ensures !ok ==> editingId == old(editingId) && editText == old(editText)
      ensures likedComments == old(likedComments) && deletingId == old(deletingId)
    {
      if ok {
        editingId := None;
        editText := "";
      }
      saving := false;
    }

    /** `removeComment(id)` up to its request: nothing unless the user confirms. */
    method BeginRemove(id: string, confirmed: bool) returns (request: bool)
      modifies this
      ensures request == confirmed
      ensures confirmed ==> deletingId == Some(id)
      ensures !confirmed ==> deletingId == old(deletingId)
      ensures likedComments == old(likedComments) && editingId == old(editingId)
      ensures editText == old(editText) && saving == old(saving)
    {
      if !confirmed {
        return false;
      }
      deletingId := Some(id);
      request := true;
    }

    /** `removeComment(id)` after its request, whatever its outcome. */
    method FinishRemove()
      modifies this
      ensures deletingId == None
      ensures likedComments == old(likedComments) && editingId == old(editingId)
      ensures editText == old(editText) && saving == old(saving)
    {
      deletingId := None;
    }
  }

  /** A signed-in user who likes a comment and then unlikes it is back where they started. */
  method LikeThenUnlike(user: string, commentId: string) returns (liked: bool, unliked: bool)
    requires commentId != ""
    ensures liked && !unliked
  {
    var list := new CommentsList(Member(user));
    list.ToggleLike(Some(commentId));
    liked := list.IsLiked(Some(commentId));
    list.ToggleLike(Some(commentId));
    ToggleTwice([], commentId);
    unliked := list.IsLiked(Some(commentId));
  }
}
