/**
 * The state logic of the post card component: ownership and the profile link,
 * the like toggle with its counter, inline editing and deletion. Each
 * asynchronous handler is split at its `await` into a Begin method (the guards
 * and the state set before the request; it returns the request to send, if
 * any) and a Finish method (the state set once the request settles).
 */
module PostCardComponent {
  import opened Common
  import opened ClientCommon

  /** The likes request `handleLike` sends, if any. */
  datatype LikeCall = NoCall | CreateLike(postId: string) | DeleteLike(postId: string)

  /** The counter after a successful unlike: `Math.max(0, c - 1)`. */
  function Unliked(c: int): (r: int)
    ensures r >= 0
    ensures c >= 1 ==> r == c - 1
    ensures c <= 0 ==> r == 0
  {
    if c - 1 < 0 then 0 else c - 1
  }

  /** A like followed by an unlike restores a counter, and so does an unlike of a positive counter followed by a like. */
  lemma LikeUnlikeInverse(c: int)
    ensures c >= 0 ==> Unliked(c + 1) == c
    ensures c >= 1 ==> Unliked(c) + 1 == c
  {
  }

  class PostCard {
    const postId: string
    /** The post's author (`userId` prop). */
    const authorId: string
    /** The post's content prop, which cancelling an edit restores. */
    const content: string
    /** The signed-in user, from the auth context. */
    const viewer: Viewer
    var isLiked: bool
    var likes: int
    var loadingLike: bool
    var isEditing: bool
    var editContent: string
    var savingEdit: bool
    var deleting: bool

    constructor (postId: string, authorId: string, content: string, likesCount: int, viewer: Viewer)
      ensures this.postId == postId && this.authorId == authorId && this.content == content && this.viewer == viewer
      ensures !isLiked && likes == likesCount && !loadingLike
      ensures !isEditing && editContent == content && !savingEdit && !deleting
    {
      this.postId := postId;
      this.authorId := authorId;
      this.content := content;
      this.viewer := viewer;
      isLiked := false;
      likes := likesCount;
      loadingLike := false;
      isEditing := false;
      editContent := content;
      savingEdit := false;
      deleting := false;
    }

    /** The card shows the viewer's own post. */
    predicate Mine() {
      IsMine(viewer, authorId)
    }

    /** Where the author's name links to. */
    function Href(): (href: string)
      ensures href == MY_PROFILE <==> Mine() || authorId == "me"
    {
      ProfileHrefIsMe(viewer, authorId);
      ProfileHref(viewer, authorId)
    }

    /**
     * `handleLike()` up to its request: nothing without a signed-in user or
     * while a like request is in flight; otherwise it marks the card as loading
     * and sends an unlike for a liked post and a like otherwise.
     */
    method BeginLike() returns (call: LikeCall)
      modifies this
      ensures viewer.Guest? || old(loadingLike) ==> call == NoCall && loadingLike == old(loadingLike)
      ensures viewer.Member? && !old(loadingLike) ==>
                && loadingLike
                && call == (if isLiked then DeleteLike(postId) else CreateLike(postId))
      ensures isLiked == old(isLiked) && likes == old(likes)
      ensures isEditing == old(isEditing) && editContent == old(editContent)
      ensures savingEdit == old(savingEdit) && deleting == old(deleting)
    {
      if viewer.Guest? || loadingLike {
        return NoCall;
      }
      loadingLike := true;
      call := if isLiked then DeleteLike(postId) else CreateLike(postId);
    }

    /**
     * `handleLike()` after its request: success flips the liked flag and moves
     * the counter, never below zero; failure changes neither. Loading ends
     * either way.
     */
    method FinishLike(apiOk: bool)
      modifies this
      ensures !loadingLike
      ensures apiOk && old(isLiked) ==> !isLiked && likes == Unliked(old(likes))
      ensures apiOk && !old(isLiked) ==> isLiked && likes == old(likes) + 1
      ensures !apiOk ==> isLiked == old(isLiked) && likes == old(likes)
      ensures old(likes) >= 0 ==> likes >= 0
      ensures isEditing == old(isEditing) && editContent == old(editContent)
      ensures savingEdit == old(savingEdit) && deleting == old(deleting)
    {
      if apiOk {
        if isLiked {
          isLiked := false;
          likes := Unliked(likes);
        } else {
          isLiked := true;
          likes := likes + 1;
        }
      }
      loadingLike := false;
    }

    /** The edit button: enter edit mode. */
    method StartEdit()
      modifies this
      ensures isEditing && editContent == old(editContent)
      ensures isLiked == old(isLiked) && likes == old(likes) && loadingLike == old(loadingLike)
      ensures savingEdit == old(savingEdit) && deleting == old(deleting)
    {
      isEditing := true;
    }

    /** Typing in the edit box. */
    method SetEditContent(text: string)
      modifies this
      ensures editContent == text && isEditing == old(isEditing)
      ensures isLiked == old(isLiked) && likes == old(likes) && loadingLike == old(loadingLike)
      ensures savingEdit == old(savingEdit) && deleting == old(deleting)
    {
      editContent := text;
    }

    /** The cancel button: the draft goes back to the post's content and edit mode ends. */
    method CancelEdit()
      modifies this
      ensures !isEditing && editContent == content
      ensures isLiked == old(isLiked) && likes == old(likes) && loadingLike == old(loadingLike)
      ensures savingEdit == old(savingEdit) && deleting == old(deleting)
    {
      editContent := content;
      isEditing := false;
    }

    /**
     * `handleSaveEdit()` up to its request: nothing unless the post is the
     * viewer's, no save is in flight and the draft trims to something; then it
     * marks the card as saving and sends the trimmed draft.
     */
    method BeginSaveEdit() returns (request: Option<string>)
      modifies this
      ensures !Mine() || old(savingEdit) || JsTrim(old(editContent)) == "" ==> request == None && savingEdit == old(savingEdit)
      ensures Mine() && !old(savingEdit) && JsTrim(old(editContent)) != "" ==> request == Some(JsTrim(old(editContent))) && savingEdit
      ensures isEditing == old(isEditing) && editContent == old(editContent)
      ensures isLiked == old(isLiked) && likes == old(likes) && loadingLike == old(loadingLike) && deleting == old(deleting)
    {
      if !Mine() || savingEdit {
        return None;
      }
      var next := JsTrim(editContent);
      if next == "" {
        return None;
      }
      savingEdit := true;
      request := Some(next);
    }

    /** `handleSaveEdit()` after its request: success leaves edit mode; saving ends either way. */
    method FinishSaveEdit(ok: bool)
      modifies this
      ensures !savingEdit
      ensures ok ==> !isEditing
      ensures !ok ==> isEditing == old(isEditing)
      ensures editContent == old(editContent)
      ensures isLiked == old(isLiked) && likes == old(likes) && loadingLike == old(loadingLike) && deleting == old(deleting)
    {
      if ok {
        isEditing := false;
      }
      savingEdit := false;
    }

    /**
     * `handleDeletePost()` up to its request: nothing unless the post is the
     * viewer's, no delete is in flight and the user confirms.
     */
    method BeginDelete(confirmed: bool) returns (request: bool)
      modifies this
      ensures request <==> Mine() && !old(deleting) && confirmed
      ensures request ==> deleting
      ensures !request ==> deleting == old(deleting)
      ensures isLiked == old(isLiked) && likes == old(likes) && loadingLike == old(loadingLike)
      ensures isEditing == old(isEditing) && editContent == old(editContent) && savingEdit == old(savingEdit)
    {
      if !Mine() || deleting {
        return false;
      }
      if !confirmed {
        return false;
      }
      deleting := true;
      request := true;
    }

    /** `handleDeletePost()` after its request, whatever its outcome. */
    method FinishDelete()
      modifies this
      ensures !deleting
      ensures isLiked == old(isLiked) && likes == old(likes) && loadingLike == old(loadingLike)
      ensures isEditing == old(isEditing) && editContent == old(editContent) && savingEdit == old(savingEdit)
    {
      deleting := false;
    }
  }

  /**
   * A signed-in user likes a fresh card and then unlikes it, both requests
   * succeeding: the counter is back where it started, and the two requests
   * were a like and then an unlike of that post.
   */
  method LikeThenUnlike(postId: string, authorId: string, user: string, count: int)
    returns (first: LikeCall, second: LikeCall, finalCount: int)
    requires count >= 0
    ensures first == CreateLike(postId) && second == DeleteLike(postId)
    ensures finalCount == count
  {
    var card := new PostCard(postId, authorId, "", count, Member(user));
    first := card.BeginLike();
    card.FinishLike(true);
    second := card.BeginLike();
    card.FinishLike(true);
    LikeUnlikeInverse(count);
    finalCount := card.likes;
  }

  /** A guest's click on the like button sends nothing and changes nothing. */
  method GuestCannotLike(postId: string, authorId: string, count: int) returns (call: LikeCall, finalCount: int)
    ensures call == NoCall && finalCount == count
  {
    var card := new PostCard(postId, authorId, "", count, Guest);
    call := card.BeginLike();
    finalCount := card.likes;
  }
}
