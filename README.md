# mini-twitter, modelled in Dafny

This project models the core of mini-twitter, a small social network. It covers
two parts:

- The Express backend's route handlers for authentication (register, login with
  a TOTP second factor, OTP setup), posts, comments, likes and users, together
  with the bearer-token strategy that guards them.
- The state logic of two React components, the comments list and the post card.

The four Supabase tables (`users`, `posts`, `comments`, `likes`) are `seq`
fields of one store object, `Store.Db`. The handlers that write a table are
methods on it with `modifies db`. The read-only handlers are functions of the
tables. `Db.Valid()` is the store's invariant, and every writing handler keeps it:

- account ids, usernames and emails are unique, and every account holds an OTP
  secret;
- post, comment and like ids are unique;
- at most one like exists per (post, user) pair.

The query builder is modelled over these tables:

- `.eq`/`.or` filters are `Query.Where` and `Query.Select`.
- `.maybeSingle()` is `Query.MaybeSingle`: no row, the row, or the several-rows
  error.
- `.order` is `Query.SortAscending` / `Query.SortDescending`.
- `.range(from, to)` is `Query.Range`.
- `.delete().eq` is `Query.Reject`.

bcrypt, JSON Web Tokens (RFC 7519) and TOTP (RFC 6238) are symbolic:

- A hash is a term built from the key bcrypt derives from a password: its
  UTF-8 bytes and a terminating zero byte, of which only the first 72 count.
  `Crypto.Compare` checks a password's key against it.
- A token carries its claims and its lifetime (24 hours for a session, 5 minutes
  for the second factor).
- Whether `jwt.verify` accepts a presented token is an opaque bit.
- The TOTP check is a function parameter.

Everything the handlers receive from outside is a parameter: the generated salt
and OTP secret, the fresh row id, the clock, and whether a database write or read
succeeds (`writeOk`, `readOk`).

Each asynchronous React handler is split at its `await` into two methods of the
component class:

- A `Begin…` method holds the guards and the state set before the request, and
  returns the request to send, if any.
- A `Finish…` method holds the state set once the request settles.

Every module is one file:

- `common.dfy`, `query.dfy`, `crypto.dfy` and `store.dfy` hold the shared
  vocabulary.
- One file per backend source file: `auth_middleware.dfy`, `auth_routes.dfy`,
  `likes_routes.dfy`, `posts_routes.dfy`, `comments_routes.dfy` and
  `users_routes.dfy`.
- One file per component: `comments_list.dfy` and `post_card.dfy`, with
  `client_common.dfy` holding what they share.

## Model

| member | source | states |
|---|---|---|
| Query.Where | mini-twitter-backend/api/posts.js:59-61 | an equality filter keeps exactly the rows that pass it, never more rows than the table has, each at most as often as in the table |
| Query.Reject | mini-twitter-backend/api/posts.js:174 | `.delete().eq(column, k)` leaves exactly the rows whose column differs from `k` |
| Query.RejectRemovesOne | mini-twitter-backend/api/posts.js:174 | deleting by a unique key that is present removes exactly one row |
| Query.MaybeSingle | mini-twitter-backend/api/likes.js:20-25 | `.maybeSingle()` finds no row exactly for an empty result, errs exactly for several rows, and otherwise finds the one row |
| Query.LookupByUniqueKey | mini-twitter-backend/middleware/auth.js:16-20 | a lookup by a unique column never raises the several-rows error and finds the row carrying the key exactly when one exists |
| Query.SortAscending | mini-twitter-backend/api/comments.js:50 | `.order(key, ascending)` returns the same rows (as a multiset) in ascending key order |
| Query.SortDescending | mini-twitter-backend/api/posts.js:57 | `.order(key, descending)` returns the same rows (as a multiset) in descending key order |
| Query.Range | mini-twitter-backend/api/users.js:34 | `.range(from, to)` returns the rows at positions `from`..`to` that exist, in order, and stops early only at the end of the table |
| Crypto.Key | mini-twitter-backend/api/auth.js:38-39 | the bcrypt key is the password's UTF-8 bytes and a zero byte, cut to at most 72 bytes |
| Crypto.Hash | mini-twitter-backend/api/auth.js:38-39 | the stored hash verifies the password it was made from, and exactly the passwords with the same bcrypt key; cost factor 10 and the given salt |
| Crypto.Compare | mini-twitter-backend/api/auth.js:98 | `bcrypt.compare` accepts a password exactly when its zero-terminated UTF-8 bytes, or its first 72 bytes for a long one, are the hash's key |
| Crypto.LongPasswordsCollide | mini-twitter-backend/api/auth.js:98 | two passwords that share their first 72 UTF-8 bytes verify against each other's hash, whatever follows |
| Crypto.ShortPasswordsCompareWhole | mini-twitter-backend/api/auth.js:98 | between passwords shorter than 72 bytes, a hash verifies exactly the password with the same bytes |
| Crypto.SessionToken | mini-twitter-backend/api/auth.js:57-61 | a session token carries the account id and username, no `type` claim, and a 24-hour lifetime |
| Crypto.TempToken | mini-twitter-backend/api/auth.js:108-113 | a second-factor token carries the id and `type: 'temp'`, no username, and a 5-minute lifetime |
| Store.AuthorOf | mini-twitter-backend/api/posts.js:46-54 | an embedded author is always the account the row's `user_id` names |
| Store.AuthorOfExisting | mini-twitter-backend/api/posts.js:46-54 | with unique account ids, an existing author is always embedded with its id and username |
| AuthMiddleware.VerifyCallback | mini-twitter-backend/middleware/auth.js:14-27 | the callback authenticates only as an account whose id is `payload.id`; it errors exactly when the lookup throws; a returned store error rejects |
| AuthMiddleware.Authenticate | mini-twitter-backend/middleware/auth.js:13-28 | a missing token, or one `jwt.verify` refuses, is rejected; an authenticated user is in the table with the token's id |
| AuthMiddleware.CallbackResolvesId | mini-twitter-backend/middleware/auth.js:16-23 | with unique ids, the callback authenticates exactly when an account with `payload.id` exists, and then as that full row |
| AuthMiddleware.DeletedAccountRejected | mini-twitter-backend/middleware/auth.js:22 | a payload naming no account is rejected without an error |
| AuthMiddleware.TypeClaimIgnored | mini-twitter-backend/middleware/auth.js:14-23 | a second-factor token gets the same verdict as a session token for the same id |
| AuthMiddleware.TempTokenAuthenticates | mini-twitter-backend/middleware/auth.js:14-23 | a validly signed second-factor token authenticates its account |
| AuthMiddleware.VerifySessionCallback | mini-twitter-backend/middleware/auth.js:14-27 | the intended callback never authenticates a `type: 'temp'` payload, and otherwise behaves as the current one |
| AuthMiddleware.AuthenticateSession | mini-twitter-backend/middleware/auth.js:13-28 | the intended strategy authenticates only verified non-temp tokens, as the account with the token's id |
| AuthMiddleware.SessionStrategyRefinesCurrent | mini-twitter-backend/middleware/auth.js:14-23 | the intended strategy rejects every second-factor token and agrees with the current one on session tokens |
| AuthRoutes.Clashes | mini-twitter-backend/api/auth.js:23-27 | the clash query finds exactly the accounts with the same username or the same email (for values free of the filter syntax's reserved characters, see Left out) |
| AuthRoutes.NewAccount | mini-twitter-backend/api/auth.js:38-47 | the inserted row has the given id, username and email; its hash verifies exactly the passwords with the same bcrypt key; its OTP secret is set, and OTP is not enabled |
| AuthRoutes.Register | mini-twitter-backend/api/auth.js:15-68 | missing data gives 400; a failed clash query 500; one clashing account 400 "Utente già esistente"; several 500. It succeeds exactly when the data is complete, the query finds no clash and the insert goes through; then exactly the new row is appended and a 24-hour session token for it is returned. A failure changes nothing |
| AuthRoutes.Login | mini-twitter-backend/api/auth.js:73-152 | missing fields give 400, a failed lookup or several rows 500, an unknown username or a wrong password 401. It succeeds exactly for the right password of the one account with that username. An account with a secret or with OTP enabled gets only a 5-minute temp token; any other gets its id, username and email and a session token |
| AuthRoutes.LoginAlwaysAsksForCode | mini-twitter-backend/api/auth.js:108-151 | on accounts that all hold a secret, as register creates them, every successful login asks for the code, so the direct-login branch never runs |
| AuthRoutes.RightPasswordGetsTempToken | mini-twitter-backend/api/auth.js:82-119 | the right password for an existing account gets exactly that account's temp token |
| AuthRoutes.LoginTokenNotASession | mini-twitter-backend/api/auth.js:108-119 | the token login hands out is refused by the intended session strategy |
| AuthRoutes.EnableOtp | mini-twitter-backend/api/auth.js:190-193 | the update keeps the table's length |
| AuthRoutes.EnableOtpEffect | mini-twitter-backend/api/auth.js:190-193 | only the `otp_enabled` flag of the account with that id changes, it only turns on, and repeating the update changes nothing |
| AuthRoutes.EnableOtpKeepsValid | mini-twitter-backend/api/auth.js:190-193 | enabling OTP keeps every users-table constraint |
| AuthRoutes.VerifyOtp | mini-twitter-backend/api/auth.js:158-212 | missing input gives 400, an unverifiable token 401, a non-temp token 400, a failed lookup or an unknown account 401, a wrong code 401, each leaving the table unchanged. It succeeds exactly for a verified temp token of an existing account and a code TOTP accepts; then it returns a 24-hour session token for that account and enables its OTP when the write goes through |
| AuthRoutes.OtpAccount | mini-twitter-backend/api/auth.js:249 | the label account is the email, else the username, else 'user', never empty |
| AuthRoutes.OtpSetup | mini-twitter-backend/api/auth.js:244-262 | no secret gives 400; otherwise it returns the stored secret, issuer "Jetop" and label "Jetop:" followed by the account |
| AuthRoutes.AuthMe | mini-twitter-backend/api/auth.js:219-233 | /auth/me returns the caller's id, username and email |
| LikesRoutes.PairLookup | mini-twitter-backend/api/likes.js:20-25 | under the one-like-per-pair constraint the lookup never errs, and finds a row exactly when the caller liked the post |
| LikesRoutes.WithoutLike | mini-twitter-backend/api/likes.js:58-62 | unliking removes every like of that pair and no other row |
| LikesRoutes.AddLike | mini-twitter-backend/api/likes.js:10-44 | a missing `post_id` gives 400, an existing like 400 (500 when the lookup failed and the pair constraint rejects the insert), a failed insert 500, each with the table unchanged. It succeeds exactly when `post_id` is given, the caller has not liked the post and the insert goes through; then it appends exactly the new (post, caller) like and keeps one like per pair |
| LikesRoutes.WithoutLikeEffect | mini-twitter-backend/api/likes.js:58-62 | after an unlike the pair has no like, and a second unlike changes nothing |
| LikesRoutes.WithoutLikeKeepsValid | mini-twitter-backend/api/likes.js:58-62 | removing likes keeps both likes constraints |
| LikesRoutes.RemoveLike | mini-twitter-backend/api/likes.js:51-71 | a failed delete gives 500 with nothing changed; otherwise 200 whether or not a like existed, with that pair's likes removed |
| LikesRoutes.Count | mini-twitter-backend/api/likes.js:80-89 | a post's count is at most the table size, and zero exactly when no like names the post |
| LikesRoutes.LikeCount | mini-twitter-backend/api/likes.js:77-94 | a failed query gives 500 "Errore nel conteggio dei like"; otherwise 200 with the post's count |
| LikesRoutes.CountIsLikers | mini-twitter-backend/api/likes.js:77-94 | with one like per pair, a post's count equals the number of distinct users who liked it |
| LikesRoutes.CountAfterLike | mini-twitter-backend/api/likes.js:80-89 | a new like raises its own post's count by one and leaves every other count as it was |
| LikesRoutes.LikedByMe | mini-twitter-backend/api/likes.js:98-119 | `liked` is whether the lookup of the caller's like finds a row; a lookup error gives 500 |
| LikesRoutes.LikedIffLikeExists | mini-twitter-backend/api/likes.js:105-117 | with one like per pair, a query that reaches the table always succeeds, and answers `liked: true` exactly when the caller's like exists |
| LikesRoutes.LikesOfUser | mini-twitter-backend/api/likes.js:160-186 | a failed query gives 500; otherwise a user's likes are exactly the rows with that `user_id` (as a multiset), newest first |
| PostsRoutes.PostsOf | mini-twitter-backend/api/posts.js:70-73 | the items list, position by position, the post of each view |
| PostsRoutes.CreatePost | mini-twitter-backend/api/posts.js:10-34 | missing content gives 400 and a failed insert 500, with the table unchanged. It succeeds exactly when the content is given and the insert goes through; then it appends exactly one post authored by the caller |
| PostsRoutes.Listed | mini-twitter-backend/api/posts.js:59-61 | the listed rows are all posts, or only those of `user_id` when it is given |
| PostsRoutes.ListPosts | mini-twitter-backend/api/posts.js:39-74 | a failed query gives 500; otherwise the items are the filtered posts, newest first, each with its author, and `total` counts them |
| PostsRoutes.ListedPostsAreTheFiltered | mini-twitter-backend/api/posts.js:57-73 | a post is listed exactly when it exists and, with a filter, belongs to that author |
| PostsRoutes.GetPost | mini-twitter-backend/api/posts.js:79-104 | a read returns a stored post with the requested id; a failed query, and any other failure, is 404 "Post non trovato" |
| PostsRoutes.GetPostFinds | mini-twitter-backend/api/posts.js:92-103 | with unique ids, a read succeeds exactly when the post exists, and returns it with its author |
| PostsRoutes.WithContent | mini-twitter-backend/api/posts.js:135-140 | an edit keeps the table's length and changes only the content of the posts with that id |
| PostsRoutes.WithContentEffect | mini-twitter-backend/api/posts.js:135-140 | repeating an edit changes nothing |
| PostsRoutes.WithContentKeepsUnique | mini-twitter-backend/api/posts.js:135-140 | an edit keeps post ids unique |
| PostsRoutes.PatchPost | mini-twitter-backend/api/posts.js:109-149 | in order: missing content 400, a failed lookup or no such post 404, not the author 403, failed update 500, each with the table unchanged; success stores the new content in that post only |
| PostsRoutes.ReadAfterEdit | mini-twitter-backend/api/posts.js:135-147 | reading an edited post returns it with the new content and nothing else changed |
| PostsRoutes.DeletePost | mini-twitter-backend/api/posts.js:154-184 | in order: a failed lookup or no such post 404, not the author 403, failed delete 500, each with the table unchanged; success removes the rows with that id |
| PostsRoutes.DeleteRemovesOnlyThatPost | mini-twitter-backend/api/posts.js:174-182 | a delete removes exactly the one post, every other post stays, and the table shrinks by one |
| PostsRoutes.ReadAfterDelete | mini-twitter-backend/api/posts.js:92-100 | reading a deleted post gives 404, whether or not the query succeeds |
| PostsRoutes.ReadAfterCreate | mini-twitter-backend/api/posts.js:21-32 | a created post reads back as itself with its author |
| CommentsRoutes.Views | mini-twitter-backend/api/comments.js:41-48 | each view carries its row and the row's author, in order |
| CommentsRoutes.CommentsOf | mini-twitter-backend/api/comments.js:41-48 | the items list, position by position, the comment of each view |
| CommentsRoutes.CommentsOfViews | mini-twitter-backend/api/comments.js:41-57 | the views list exactly the rows they were built from |
| CommentsRoutes.CreateComment | mini-twitter-backend/api/comments.js:10-33 | a missing `post_id` or content gives 400 and a failed insert 500, with the table unchanged. It succeeds exactly when both are given and the insert goes through; then it appends exactly one comment by the caller |
| CommentsRoutes.Thread | mini-twitter-backend/api/comments.js:49-50 | a post's thread is exactly its comments, oldest first |
| CommentsRoutes.CommentsOfPost | mini-twitter-backend/api/comments.js:38-58 | a failed query gives 500; otherwise the body lists the post's thread |
| CommentsRoutes.CommentsQuery | mini-twitter-backend/api/comments.js:138-166 | without `post_id` the items are empty; otherwise 500 on a failed query, or the post's thread with `total` equal to its length |
| CommentsRoutes.ListingRoutesAgree | mini-twitter-backend/api/comments.js:38-58 | both listing routes succeed or fail together, and list the same comments for a named post |
| CommentsRoutes.ThreadAfterCreate | mini-twitter-backend/api/comments.js:20-31 | a new comment appears in its post's thread, which grows by exactly one |
| CommentsRoutes.PatchedContent | mini-twitter-backend/api/comments.js:68 | an absent `content` leaves the column as it was, null clears it, and a string (even empty) is stored as given |
| CommentsRoutes.WithContent | mini-twitter-backend/api/comments.js:83-88 | an edit keeps the table's length and changes only the content of the comment with that id, to the patched content |
| CommentsRoutes.WithContentEffect | mini-twitter-backend/api/comments.js:83-88 | repeating an edit changes nothing |
| CommentsRoutes.WithContentKeepsUnique | mini-twitter-backend/api/comments.js:83-88 | an edit keeps comment ids unique |
| CommentsRoutes.PatchComment | mini-twitter-backend/api/comments.js:63-97 | in order: a failed lookup or no such comment 404, not the author 403, then 500 for a failed update or for a body without `content` (whose empty update returns no row to `.single()`), each with the table unchanged; success stores the patched content in that comment only |
| CommentsRoutes.DeleteComment | mini-twitter-backend/api/comments.js:102-133 | in order: a failed lookup or no such comment 404, not the author 403, failed delete 500, each with the table unchanged; success removes the rows with that id |
| CommentsRoutes.DeleteRemovesOnlyThatComment | mini-twitter-backend/api/comments.js:121-131 | a delete removes exactly that comment from every thread, keeps every other comment, and shrinks the table by one |
| CommentsRoutes.CommentsOfUser | mini-twitter-backend/api/comments.js:171-192 | a failed query gives 500; otherwise exactly that user's comments (as a multiset), newest first |
| UsersRoutes.AtLeastOne | mini-twitter-backend/api/users.js:26-27 | a parameter is its integer value clamped to at least 1, or the default when absent |
| UsersRoutes.PageParam | mini-twitter-backend/api/users.js:26 | the page is at least 1, and 1 by default |
| UsersRoutes.LimitParam | mini-twitter-backend/api/users.js:27 | the limit is at least 1, and 10 by default |
| UsersRoutes.To | mini-twitter-backend/api/users.js:29 | a window never ends before it starts |
| UsersRoutes.WindowArithmetic | mini-twitter-backend/api/users.js:28-29 | a window spans exactly `limit` positions, the first page starts at 0, and each page starts right after the previous one ends |
| UsersRoutes.PagesCoverPrefix | mini-twitter-backend/api/users.js:28-34 | pages 1 to n together are the first n·limit rows: no row is skipped or repeated |
| UsersRoutes.Newest | mini-twitter-backend/api/users.js:35 | the accounts, as a multiset, newest first |
| UsersRoutes.ListUsers | mini-twitter-backend/api/users.js:21-53 | a failed query gives 500; otherwise the clamped page and limit, the total number of accounts, and exactly the page's window of the newest-first accounts, projected to id, username, email and creation time |
| UsersRoutes.ProfileHidesCredentials | mini-twitter-backend/api/users.js:62 | a profile does not depend on the password hash or the OTP columns |
| UsersRoutes.GetUser | mini-twitter-backend/api/users.js:57-76 | as written: the public profile of the account with that id, and 500 whenever the query fails or `.single()` finds no single row |
| UsersRoutes.UnknownUserIsServerError | mini-twitter-backend/api/users.js:60-73 | as written, an unknown id gives 500, never 404 "Utente non trovato", whether or not the query reaches the table |
| UsersRoutes.GetUserOrNotFound | mini-twitter-backend/api/users.js:57-76 | intended: the profile of the account with that id; otherwise 404, or 500 for a store error |
| UsersRoutes.GetUserOrNotFoundCorrect | mini-twitter-backend/api/users.js:66-75 | with unique ids, the intended route answers 404 exactly for an unknown id and agrees with the current one on every existing account |
| UsersRoutes.Me | mini-twitter-backend/api/users.js:9-15 | as written, /users/me returns the caller's own row, whose public columns are the caller's profile |
| UsersRoutes.MeExposesCredentials | mini-twitter-backend/api/users.js:9-15 | as written, /users/me returns the password hash and the OTP secret |
| UsersRoutes.MeProfile | mini-twitter-backend/api/users.js:9-15 | intended: /users/me returns the caller's id, username, email, bio and creation time |
| UsersRoutes.MeProfileIsPublic | mini-twitter-backend/api/users.js:9-15 | the intended /users/me hides the credentials and equals GET /users/:id on the caller's id |
| UsersRoutes.BuildPatch | mini-twitter-backend/api/users.js:95-100 | the payload holds username and email only when they are non-empty, and bio whenever it is present, null included |
| UsersRoutes.EmptyPatchIff | mini-twitter-backend/api/users.js:98-104 | the payload is empty exactly when no username, no email and no bio was sent |
| UsersRoutes.ApplyPatch | mini-twitter-backend/api/users.js:106-111 | an update writes exactly the payload's columns and leaves id, credentials, OTP state and creation time alone |
| UsersRoutes.ApplyPatchEffect | mini-twitter-backend/api/users.js:106-111 | an empty payload changes nothing, and applying a payload twice is applying it once |
| UsersRoutes.WithPatch | mini-twitter-backend/api/users.js:106-111 | only the row with that id is updated |
| UsersRoutes.PatchKeepsValid | mini-twitter-backend/api/users.js:106-115 | an update that takes no other account's username or email keeps every users constraint |
| UsersRoutes.PatchUser | mini-twitter-backend/api/users.js:83-124 | in order: another account 403, empty payload 400, clash or failed write 400, each with the table unchanged. It succeeds exactly for the caller's own account, a non-empty payload, no clash and a write that goes through; then it updates the caller's row and returns its profile |
| UsersRoutes.ProfileAfterPatch | mini-twitter-backend/api/users.js:106-118 | after an edit, the caller's profile shows the new values |
| UsersRoutes.DeleteUser | mini-twitter-backend/api/users.js:130-158 | another account gives 403 and a failed delete 500, with the table unchanged; success removes the caller's row |
| UsersRoutes.DeletedAccountLosesAccess | mini-twitter-backend/api/users.js:142-152 | deleting an account removes only that row, and a valid token for it no longer authenticates |
| ClientCommon.IsMine | mini-twitter2.0/components/molecules/PostCard.tsx:34-36 | ownership holds exactly for a signed-in viewer whose non-empty id equals the owner's |
| ClientCommon.ProfileHref | mini-twitter2.0/components/molecules/PostCard.tsx:39 | the viewer's own card links to /profile/me, any other to /profile/ followed by the owner id |
| ClientCommon.ProfileHrefIsMe | mini-twitter2.0/components/molecules/PostCard.tsx:34-39 | the link is /profile/me exactly when the card is the viewer's own or the owner id is "me" |
| ClientCommon.Trim | mini-twitter2.0/components/molecules/PostCard.tsx:106 | trimming keeps a contiguous middle that starts and ends with a kept character, and drops only stripped characters around it |
| ClientCommon.TrimEmptyIff | mini-twitter2.0/components/organisms/CommentsList.tsx:72-73 | the trimmed text is empty exactly when every character is whitespace |
| ClientCommon.TrimIdempotent | mini-twitter2.0/components/organisms/CommentsList.tsx:72 | trimming twice is trimming once |
| ClientCommon.JsTrim | mini-twitter2.0/components/organisms/CommentsList.tsx:72 | `trim()` is empty exactly for an all-whitespace string, and otherwise starts and ends with a non-whitespace character |
| CommentsListComponent.Toggled | mini-twitter2.0/components/organisms/CommentsList.tsx:54-56 | a toggle flips the membership of that comment id and of no other |
| CommentsListComponent.ToggleTwice | mini-twitter2.0/components/organisms/CommentsList.tsx:54-56 | toggling twice restores the liked set, and restores the list itself when the id was not liked |
| CommentsListComponent.ToggledNoDup | mini-twitter2.0/components/organisms/CommentsList.tsx:54-56 | a toggle keeps a duplicate-free list duplicate-free |
| CommentsListComponent.CommentsList.constructor | mini-twitter2.0/components/organisms/CommentsList.tsx:30-36 | nothing liked, nothing being edited, not saving, nothing being deleted |
| CommentsListComponent.CommentsList.LikeLabel | mini-twitter2.0/components/organisms/CommentsList.tsx:205 | the counter shows "1" exactly when the comment is liked, else "0" |
| CommentsListComponent.CommentsList.ToggleLike | mini-twitter2.0/components/organisms/CommentsList.tsx:47-57 | without a user or a comment id nothing changes; otherwise the comment's liked state flips, no duplicate appears, and no other state changes |
| CommentsListComponent.CommentsList.StartEdit | mini-twitter2.0/components/organisms/CommentsList.tsx:59-63 | a comment without an id is ignored; otherwise it becomes the one being edited, with its content (or '') as the draft |
| CommentsListComponent.CommentsList.CancelEdit | mini-twitter2.0/components/organisms/CommentsList.tsx:65-68 | afterwards no comment is being edited and the draft is empty |
| CommentsListComponent.CommentsList.BeginSaveEdit | mini-twitter2.0/components/organisms/CommentsList.tsx:70-77 | nothing is sent without a comment being edited or with a blank draft; otherwise the trimmed, non-blank draft is sent for that comment and saving starts |
| CommentsListComponent.CommentsList.FinishSaveEdit | mini-twitter2.0/components/organisms/CommentsList.tsx:78-86 | saving ends; success leaves edit mode, failure keeps the draft |
| CommentsListComponent.CommentsList.BeginRemove | mini-twitter2.0/components/organisms/CommentsList.tsx:89-95 | a request is sent exactly when the user confirms, marking that comment as being deleted |
| CommentsListComponent.CommentsList.FinishRemove | mini-twitter2.0/components/organisms/CommentsList.tsx:100-102 | no comment is being deleted afterwards, and nothing else changes |
| CommentsListComponent.LikeThenUnlike | mini-twitter2.0/components/organisms/CommentsList.tsx:47-57 | a signed-in user's like then unlike of a comment leaves it unliked |
| PostCardComponent.Unliked | mini-twitter2.0/components/molecules/PostCard.tsx:90 | the counter after an unlike is one less, but never below zero |
| PostCardComponent.LikeUnlikeInverse | mini-twitter2.0/components/molecules/PostCard.tsx:87-94 | a like then an unlike restores a counter, and an unlike of a positive counter then a like does too |
| PostCardComponent.PostCard.constructor | mini-twitter2.0/components/molecules/PostCard.tsx:41-49 | not liked, the counter from the prop, not loading, not editing, the draft is the content, not saving, not deleting |
| PostCardComponent.PostCard.Href | mini-twitter2.0/components/molecules/PostCard.tsx:39 | the author link is /profile/me exactly when the card is the viewer's own or the author id is "me" |
| PostCardComponent.PostCard.BeginLike | mini-twitter2.0/components/molecules/PostCard.tsx:82-92 | a guest or a like in flight sends nothing; otherwise loading starts and an unlike is sent for a liked post, a like otherwise |
| PostCardComponent.PostCard.FinishLike | mini-twitter2.0/components/molecules/PostCard.tsx:86-100 | success flips the liked flag and moves the counter (never below zero); failure changes neither; loading ends either way |
| PostCardComponent.PostCard.StartEdit | mini-twitter2.0/components/molecules/PostCard.tsx:158 | edit mode starts with the draft as it was |
| PostCardComponent.PostCard.SetEditContent | mini-twitter2.0/components/molecules/PostCard.tsx:181 | typing replaces the draft and nothing else |
| PostCardComponent.PostCard.CancelEdit | mini-twitter2.0/components/molecules/PostCard.tsx:197-199 | cancelling restores the draft to the post's content and leaves edit mode |
| PostCardComponent.PostCard.BeginSaveEdit | mini-twitter2.0/components/molecules/PostCard.tsx:104-111 | nothing is sent unless the post is the viewer's, no save is in flight and the draft is not blank; otherwise the trimmed draft is sent and saving starts |
| PostCardComponent.PostCard.FinishSaveEdit | mini-twitter2.0/components/molecules/PostCard.tsx:110-119 | saving ends; success leaves edit mode |
| PostCardComponent.PostCard.BeginDelete | mini-twitter2.0/components/molecules/PostCard.tsx:123-131 | a request is sent exactly when the post is the viewer's, no delete is in flight and the user confirms |
| PostCardComponent.PostCard.FinishDelete | mini-twitter2.0/components/molecules/PostCard.tsx:136-138 | deleting ends, and nothing else changes |
| PostCardComponent.LikeThenUnlike | mini-twitter2.0/components/molecules/PostCard.tsx:82-101 | a signed-in user's like then unlike of a card sends a like and then an unlike, and leaves the counter where it started |
| PostCardComponent.GuestCannotLike | mini-twitter2.0/components/molecules/PostCard.tsx:83 | a guest's click sends nothing and leaves the counter as it was |

## Left out

- Database failures are booleans: `writeOk` for every write, `readOk` for every
  read whose error the route looks at or that decides its answer, and the
  `StoreFault` of the middleware. The error text of a failed `.single()` is a
  parameter. Race conditions between a check and the insert after it are not
  modelled: every handler runs atomically.
- The catch-all 500 "Errore interno del server" answers in users.js are left
  out, because only a thrown exception, not modelled here, reaches them. The
  same goes for the 500 of `/otp/setup`. The likes count route rethrows its
  query error into its catch block, so that 500 is modelled.
- `parseInt` on a non-numeric string, which yields NaN, is left out: the page and
  limit parameters are integers or absent.
- Crypto.Hash: bcrypt repeats a key shorter than 72 bytes to fill its key
  schedule. So two passwords whose keys repeat to the same 72 bytes verify
  against each other, for example "ab" and "ab" + NUL + "ab". This needs a NUL
  character in the password. The model compares keys as they are and does not
  capture that collision.
- Crypto.Compare: the same key-schedule collision is not captured; `compare`
  accepts those passwords, the model does not.
- Crypto.ShortPasswordsCompareWhole: the same collision makes the lemma's
  conclusion false in bcrypt for such NUL-containing short passwords.
- JavaScript strings are UTF-16. Unpaired surrogates, which `char` cannot hold,
  are not modelled.
- bcrypt, JWT signing and expiry, TOTP code computation and the `otpauth://` URI
  builder are symbolic. `AuthRoutes.OtpSetup` returns the secret, issuer and
  label it hands to the URI builder, not the URI itself.
- Cascading deletes are not modelled. Deleting a post or an account leaves its
  comments and likes, as far as this model can tell; their foreign keys live in
  the database schema, which is not part of this model.
- The unique constraints on `users.username` and `users.email` are assumed. A
  PATCH that would take another account's username or email fails with 400
  "Aggiornamento non valido", as the database's rejection would make it.
- Column projections are modelled for the users routes only. Posts and comments
  are returned as whole rows with their embedded author.
- GET /users builds its query as `.range(...)` before `.order(...)`. The query
  still sorts before it slices, and the model does the same.
- UsersRoutes.ListUsers: a page that starts past the last account is modelled
  as an empty list. With `count: 'exact'`, PostgREST refuses such a range, and
  users.js:37-40 then answers 500 "Errore nel caricamento utenti".
- `count: 'exact'` never yields null after a successful query. So `total` is the
  number of listed posts, and the number of accounts for GET /users.
- LikesRoutes.AddLike: the lookup's error is ignored as in likes.js:20-29, and
  the route goes on to the insert. The model follows it: the insert then fails
  with 500 when the pair already has a like, because of the one-like-per-pair
  constraint. Several matching rows cannot occur under that constraint, so the
  contract does not speak of them.
- LikesRoutes.LikeCount: the count route's `Cache-Control` header is not
  modelled.
- LikesRoutes.LikesOfUser: the embedded post of each like is not modelled, only
  the likes themselves.
- The second GET `/:postId/me` handler (likes.js:127-154) is not modelled,
  because the first handler for that path always answers and Express never
  reaches it.
- The verify-otp route ignores the error of the `otp_enabled` update and still
  answers 200. The model keeps that: the table is unchanged when the write
  fails, and the reply is the same.
- AuthRoutes.Clashes: the `.or` filter string of auth.js:26 is built without
  escaping. A username or email containing `,`, `(`, `)` or `"` either makes
  PostgREST reject the filter, so register answers 500 "Errore nel database"
  (auth.js:29-32), or yields a different filter. The model compares the values
  by plain equality, as if they were escaped.
- AuthRoutes.Register: for such a username or email, the success condition above
  can grant 201 where the route answers 500 or checks a different clash.
- When two distinct accounts clash with a registration (one by username,
  another by email), `.maybeSingle()` errs and register answers 500 rather than
  400. The model keeps that too.
- Ids are strings, as the frontend types declare them. The self-only checks of
  users.js compare them with `!==`.
- Rendering is not modelled: JSX, markdown, date formatting, `localStorage`
  persistence of the liked comments, `alert`, `confirm` (its answer is the
  `confirmed` parameter) and `window.location.reload`.
- The PostCard effects are not modelled: loading the like state, and resyncing
  the counter and the draft from props.
- PostCardComponent.PostCard.StartEdit: the edit button appears only on the
  viewer's own card, a rendering gate. The method itself has no guard, as the
  click handler has none.
- The ownership test and profile link of each comment (CommentsList.tsx:114-120)
  are not modelled separately: they are the same
  `ClientCommon.IsMine` and `ClientCommon.ProfileHref` as the post card, with
  `comment.user?.id || ''` as the owner.
- The frontend HTTP client (`fetchClient.js`, `lib/api/*.js`), the feed
  component, the unused duplicate strategy in `auth/passport.js`, and the
  server wiring are not part of this model.

## Findings

| source | as written | input that shows it | evidently intended | confidence | as-written member | corrected member |
|---|---|---|---|---|---|---|
| mini-twitter-backend/middleware/auth.js:14-23 | the bearer strategy never reads the `type` claim, so the 5-minute `type: 'temp'` token that login issues after the password alone authenticates on every protected route | log in with the right password, skip `/verify-otp`, and call `GET /users/me` with the temp token | second-factor tokens are accepted only by `/verify-otp`, and protected routes reject them | not executed; follows from the callback's code | AuthMiddleware.TempTokenAuthenticates | AuthMiddleware.SessionStrategyRefinesCurrent |
| mini-twitter-backend/api/users.js:60-73 | `.single()` reports an error when no row matches, so an unknown id answers 500 with the library's message, and the 404 branch is dead | `GET /users/<id of no account>` | 404 "Utente non trovato" for an unknown id | not executed; relies on the documented `.single()` behaviour | UsersRoutes.UnknownUserIsServerError | UsersRoutes.GetUserOrNotFoundCorrect |
| mini-twitter-backend/api/users.js:9-15 | `/users/me` returns the whole row the strategy loaded with `select('*')`, including `password_hash` and `otp_secret` | `GET /users/me` with any valid token | the public profile that `GET /users/:id` returns | not executed; follows from the strategy's `select('*')` | UsersRoutes.MeExposesCredentials | UsersRoutes.MeProfileIsPublic |
