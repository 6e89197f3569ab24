# Social backend core in Dafny

This project models the bookkeeping at the centre of a Django social-network backend:

- users with their cached counters (`followers_count`, `following_count`, `posts_count`) and the `is_online` flag;
- the Friendship table, with at most one row per ordered pair, and its pending / accepted / rejected / blocked states;
- the Follow relation;
- posts with Like rows and cached `likes_count` / `comments_count`;
- the comment arena, where a comment may name a `parent`, with CommentLike rows;
- chat rooms with participants, and messages with `read_by` and `is_read`.

The whole database is one value, `Db.Tables`. It has a map or set per table, the next id of each table, and a logical clock for `updated_at` of rooms. The object `Db.Store` holds the current database. The request handlers are methods that change it (`modifies s`). Each handler is stated against a function of the old database (`AfterSend`, `AfterAccept`, `AfterDeletePost`, ...), and the lemmas beside it prove what that function keeps or breaks.

`Db.TablesValid` is the invariant every handler keeps. It holds for the schema rules:
- the unique email and username;
- Friendship pairs unique;
- rows reference existing rows;
- a parent comment is older than its replies;
- readers of a message are never its sender.

It also holds for the counters the code does keep in step:
- a post's `likes_count`;
- a comment's `likes_count`;
- `posts_count`.

The counters the code does not keep are stated as separate predicates. Lemmas show how they drift:
- `comments_count` drifts when a comment with replies is deleted (the replies go by cascade, the counter moves by 1).
- `followers_count` / `following_count` never move on a Follow toggle.
- The same two counters are incremented again when the admin accepts a row that is already accepted. Rejecting an accepted row leaves them as they were.
- The accept action of the admin loses increments when two selected rows share a user. Each row saves copies of its users read before the loop (see Findings).

Every table's ids are issued from 1 upwards in creation order (no row has id 0), so "newest first" (`-created_at`) is descending id. A user's participants and search results are listed by the `User` ordering, which is also newest first.

Where the code and its documentation differ, the model follows the code:

- **Bulk accept in the admin.** The action is meant to count every accepted row. As written, a user at an end of several selected rows gets one increment (see Findings).
- **Message to a room the sender is not in.** The message endpoint is documented as refusing this with 404. As written, it answers 201 and stores nothing (see Findings).
- **Mark-read count.** The count it reports is `messages.count()` on a queryset the loop has already evaluated, so it is the number of messages the loop marked.
- **Unknown participant ids.** These are skipped when a room is created.
- **Direct-room lookup.** It matches any direct room that contains both users (containment, not the exact pair). It picks the most recently saved one.

## Model

| member | source | states |
|---|---|---|
| Common.Toggle | friends/views.py:158-174 | the `get_or_create` / delete-if-existing toggle: x is a member afterwards exactly when it was not, and every other row stays |
| Common.ToggleTwice | posts/views.py:79-100 | toggling the same row twice gives back the original relation |
| Common.PairsWithToggle | posts/views.py:79-100 | toggling the row (a, b) changes the number of rows aimed at b by +1 when it was absent and -1 when present, and leaves the number of rows aimed at any other c alone |
| Common.PairsFromToggle | friends/views.py:158-174 | the same for the rows leaving a (whom a follows) |
| Common.Ascending | chat/models.py:81 | `order_by('created_at')`: exactly the kept ids below n, strictly ascending |
| Common.Descending | posts/models.py:28 | `order_by('-created_at')`: exactly the kept ids below n, strictly descending |
| Common.AscendingEmpty | chat/serializers.py:35-38 | a filtered listing is empty exactly when no id below n is kept |
| Common.Latest | chat/serializers.py:35 | `.last()`: a kept id with no kept id after it, and None exactly when nothing is kept |
| Text.Strip | accounts/models.py:50 | Python's `strip()`: a piece `s[i..i+len]` of the input with nothing but whitespace before and after it and no whitespace at either of its own ends; empty exactly when the input is all whitespace |
| Text.FramedUnique | accounts/models.py:50 | two such whitespace-framed pieces with non-space ends are the same piece at the same place, so the contract of `Strip` fixes its result |
| Text.StripKeepsNul | posts/serializers.py:26-31 | U+0000 is not whitespace, so a text field holds one after trimming exactly when the raw text does; the serializers' null-character check therefore refuses any text containing one |
| Text.Lower | accounts/views.py:144-150 | case folding keeps the length and folds each character on its own |
| Text.ContainsIgnoreCase | accounts/views.py:144-150 | `icontains`: true exactly when the folded needle occurs in the folded haystack |
| Text.Preview | posts/admin.py:14 | `s[:50] + '...'` for texts over 50 characters, otherwise the text itself; never more than 53 characters, and it starts with the text's first min(len, 50) characters |
| Text.PreviewsAgree | posts/admin.py:14 | two texts with the same preview agree on their first 50 characters |
| Text.Join | chat/admin.py:13 | `", ".join(...)`: empty for no parts, the single part for one part, for two or more the first part and the separator followed by the join of the remaining parts, and the length of all the parts and separators together |
| Text.JoinOfFew | chat/admin.py:13 | two parts join to "a, b" and three to "a, b, c" |
| Text.NatToStringRoundTrip | chat/models.py:40 | the decimal rendering of a room id reads back as the id |
| AccountsModels.FullName | accounts/models.py:49-50 | `get_full_name`: the username when first and last name are blank; otherwise the stripped "first last", which has no whitespace at either end and is the piece of "first last" framed by whitespace alone; never empty for a non-empty username |
| AccountsModels.PostsCountMoved | posts/views.py:33-34 | `posts_count += / -= 1`: one user's counter moves by delta, identity columns and every other user stay |
| AccountsModels.UsersValidAfterCounters | accounts/models.py:7 | rewriting counters keeps email and username unique |
| AccountsModels.NewUserKeepsUsersValid | accounts/models.py:7 | a new row with an email and username no other row has keeps both columns unique |
| AccountsViews.UserLabelsDistinct | accounts/models.py:46-47 | `__str__` is the username, and usernames are unique, so two users never share a label |
| AccountsViews.Owner | accounts/views.py:59 | `User.objects.get(email=...)` and the same lookup by username: a user whose column holds the value, and None exactly when no user has it |
| AccountsViews.OwnerIsUnique | accounts/models.py:7 | in a valid store, looking up a user's own email or username finds that user and no other |
| AccountsViews.RegistrationCheck | accounts/serializers.py:28-38 | registration is accepted exactly when the passwords pass, username and email are not blank, none of username, email, first and last name holds a U+0000 once stripped, and neither the stripped email nor the stripped username is taken; a taken one is refused as a duplicate |
| AccountsViews.NulFieldRefused | accounts/serializers.py:31-33 | an accepted registration has no U+0000 in any of its four text fields, and the trimmed fields are free of it exactly when the raw ones are |
| AccountsViews.RegisteredUserIsFound | accounts/serializers.py:40-43 | after an accepted registration, looking up the stripped email or the stripped username finds the new user under the next id |
| AccountsViews.NewUserIsFound | accounts/models.py:7 | a user saved under the next id with an email and username nobody has is the one found for both |
| AccountsViews.RegisterKeepsValid | accounts/serializers.py:40-43 | saving the new user under the next id keeps every table valid |
| AccountsViews.Register | accounts/views.py:21-36 | a refused request changes nothing; an accepted one stores the new user, its four text fields stripped, with all counters at 0 and offline, under the next id |
| AccountsViews.LoginFallsBackToUsername | accounts/views.py:54-62 | when `authenticate` refuses the email itself, the outcome is that of a second attempt with the username of the account registered with that email |
| AccountsViews.WithOnline | accounts/views.py:68-70 | sets `is_online` of one user and changes no other row or column |
| AccountsViews.OnlineKeepsValid | accounts/views.py:93-95 | changing `is_online` keeps every table valid |
| AccountsViews.Login | accounts/views.py:43-84 | a missing or empty field gives 400; a login no `authenticate` attempt accepts gives 401; in both cases nothing changes. Otherwise the accepted user, and only that user, is marked online |
| AccountsViews.Logout | accounts/views.py:91-111 | the caller is always marked offline; the answer is an error exactly when a non-empty refresh token is refused |
| AccountsViews.SearchUsers | accounts/views.py:141-151 | no user for an empty query; otherwise exactly the users whose username, first or last name contains the query ignoring case, newest first |
| AccountsViews.SearchFindsUsername | accounts/views.py:144-145 | searching for a user's username, in any letter case, finds that user |
| FriendsModels.AcceptCounters | friends/models.py:46-49 | `accept` adds exactly 1 to the sender's `following_count` and 1 to the recipient's `followers_count`; no other user changes |
| FriendsModels.WithStatusKeepsFriendshipsValid | friends/models.py:34 | a status change keeps ordered pairs unique and the endpoints valid |
| FriendsModels.AcceptedFromAfterAccept | friends/models.py:42 | accepting a row that was not accepted adds it to its sender's accepted rows and to nobody else's |
| FriendsModels.AcceptedToAfterAccept | friends/models.py:42 | the same for the recipient's accepted rows |
| FriendsModels.AcceptPendingKeepsFriendCounters | friends/models.py:40-49 | accepting a pending row keeps the counters equal to the number of accepted rows sent and received |
| FriendsModels.AcceptAgainInflatesFriendCounters | friends/models.py:40-49 | `accept` does not look at the prior status, so accepting an accepted row leaves the counters one too high |
| FriendsModels.RejectAcceptedLeavesFriendCounters | friends/models.py:51-54 | `reject` touches no counter, so rejecting an accepted row leaves the counters too high |
| FriendsModels.FollowToggleBreaksFollowCounters | friends/views.py:158-174 | the follow toggle changes the Follow rows but no counter, so counters that matched the Follow rows no longer do |
| Db.GroupsMakeValid | posts/models.py:5-105 | the database invariant is the conjunction of its per-table groups |
| Db.ChatChangeKeepsValid | chat/models.py:5-84 | a change confined to rooms, messages and the clock that keeps the chat tables valid keeps the whole database valid |
| Db.UserRecordsKeepValid | accounts/models.py:25-32 | rewriting user records while keeping ids, unique columns and `posts_count` keeps every table valid |
| Db.StatusChangeKeepsValid | friends/models.py:7-12 | giving a Friendship row any of the four states keeps every table valid |
| Db.AcceptedKeepsValid | friends/models.py:40-49 | `accept` keeps every table valid |
| Db.Store.constructor | accounts/models.py:25-27 | an empty database, every id counter at 1, satisfies the invariant |
| Db.Store.AcceptFriendship | friends/models.py:40-49 | `Friendship.accept`: the row becomes accepted and the sender's and recipient's counters go up by 1, whatever the prior status; nothing else changes |
| Db.Store.AcceptFriendshipWith | friends/models.py:40-49 | `Friendship.accept` on a row that carries its own copies of its two users: the row becomes accepted and each copy, with its counter moved by one, overwrites that user's row |
| Db.AcceptedWithKeepsValid | friends/models.py:40-49 | saving such copies keeps every table valid, however stale their friend counters are |
| FriendsModels.AcceptCopies | friends/models.py:46-49 | the sender's row becomes the sender's copy with one more following and the recipient's row the recipient's copy with one more follower; no other user changes |
| Db.Store.RejectFriendship | friends/models.py:51-54 | `Friendship.reject`: the row becomes rejected and nothing else changes |
| FriendsViews.RequestTarget | friends/views.py:17-49 | the checks in the code's order: a missing or zero `to_user` gives 400, an unknown user 404, the caller 400, and an existing row for the same ordered pair, in any status, 400; otherwise the target. A reverse-direction row does not block |
| FriendsViews.EveryOtherUserCanBeAsked | friends/views.py:17-23 | ids start at 1, so the missing-or-zero check turns no existing user away: any other user not asked yet is a valid target |
| FriendsViews.RequestKeepsValid | friends/views.py:51-55 | a pending row for a new ordered pair keeps ordered pairs unique and every table valid |
| FriendsViews.RequestKeepsFriendCounters | friends/views.py:51-55 | a new pending row counts for nobody, so counters that matched the accepted rows still match |
| FriendsViews.SendFriendRequest | friends/views.py:16-60 | a refused request changes nothing; a successful one adds exactly one row (caller, target, pending) under the next id |
| FriendsViews.AcceptRequest | friends/views.py:79-97 | succeeds exactly when the id is a pending row addressed to the caller (404 with no change otherwise, so a second accept fails), and then does `accept` |
| FriendsViews.RejectRequest | friends/views.py:104-122 | the same lookup, and the row becomes rejected with no counter change |
| FriendsViews.RejectPendingKeepsFriendCounters | friends/models.py:51-54 | rejecting a pending row keeps the counters equal to the accepted rows |
| FriendsViews.HandlersKeepFriendCounters | friends/views.py:81-92 | the handlers only process pending rows, so through them the counters stay equal to the accepted rows |
| FriendsViews.FollowTarget | friends/views.py:144-156 | unknown target gives 404, the caller gives 400, otherwise the target |
| FriendsViews.FollowToggleKeepsValid | friends/models.py:72 | toggling a Follow row between two distinct users keeps every table valid |
| FriendsViews.ToggleFollow | friends/views.py:143-174 | refusals change nothing; otherwise the (caller, target) row is removed when present (`following` false) or added when absent (true), and no counter changes |
| FriendsViews.IncomingRequests | friends/views.py:68-72 | exactly the pending rows addressed to the caller, newest first |
| FriendsViews.FriendsList | friends/views.py:130-136 | exactly the accepted rows with the caller at either end, newest first |
| FriendsViews.IncomingAndFriendsDisjoint | friends/views.py:68-72 | no row is both an incoming request and a friendship of the caller |
| FriendsViews.Followers | friends/views.py:182-184 | exactly the Follow rows aimed at the user |
| FriendsViews.Following | friends/views.py:192-194 | exactly the Follow rows leaving the user |
| FriendsViews.FollowListsAfterToggle | friends/views.py:158-174 | a toggle moves the caller in or out of the target's followers, and the target in or out of the caller's following, together |
| FriendsAdmin.WithStatusAll | friends/admin.py:14-16 | after the walk every selected row has the given status and every other row is as it was |
| FriendsAdmin.AdminRows | friends/admin.py:10-15 | the queryset's rows are selected ids (`pk__in`) that name rows of the table |
| FriendsAdmin.AdminRowsOrder | friends/admin.py:10 | the queryset lists each row once, newest first, and in a valid database holds exactly the selected rows |
| FriendsAdmin.AcceptAllCountersOf | friends/admin.py:14-16 | accepting the rows one at a time on the current user rows grows each user's counters by the number of rows they sent or received, whatever those rows' statuses were |
| FriendsAdmin.AcceptAllEffect | friends/admin.py:14-17 | that walk in full: every row accepted, the counters increased once per row, and nothing else changed |
| FriendsAdmin.AcceptAllStep | friends/admin.py:15-16 | one more iteration of that walk is one more `Friendship.accept` on the current rows |
| FriendsAdmin.AcceptRequests | friends/admin.py:14-17 | as intended: the walk over the queryset, newest first, ends in the state `AcceptAll` describes; the reported count is the number of rows in the queryset |
| FriendsAdmin.StaleAcceptCountersOf | friends/admin.py:14-16 | as written, a user's row ends as it was before the loop, moved by one for the last row that has the user at one end (one more following if they sent it, one more follower if they received it); a user no row touches keeps their row |
| FriendsAdmin.StaleAgreesAt | friends/admin.py:14-16 | a user's row as written equals the intended one exactly when at most one row has the user at one end; as written, the user keeps one of the increments the rows call for and loses the rest |
| FriendsAdmin.AcceptAllAsWrittenDiffers | friends/admin.py:14-16 | the action as written stores what the intended walk stores exactly when no user is at an end of two selected rows |
| FriendsAdmin.AcceptAllAsWrittenLosesCounts | friends/admin.py:14-16 | distinct pending rows with a shared user: the intended walk keeps the counters equal to the accepted rows, and the action as written leaves them short |
| FriendsAdmin.AcceptAllAsWrittenCounterexample | friends/admin.py:14-16 | users 1, 2 and 3 and pending requests 1→2 and 1→3, both selected: the rows are walked as [2, 1], and user 1 ends with one following, not two |
| FriendsAdmin.AcceptAllAsWrittenStep | friends/models.py:40-49 | one iteration as written is `accept` on the user copies read before the loop; they agree with the current user rows on everything except the friend counters |
| FriendsAdmin.AcceptRequestsAsWritten | friends/admin.py:14-17 | as written: the loop over the queryset, newest first, saves each row's user copies read before the loop; it ends in the state `AcceptAllAsWritten` describes, and the count is the number of rows in the queryset |
| FriendsAdmin.RejectRequests | friends/admin.py:21-24 | every row of the queryset becomes rejected, accepted ones included; no counter moves; the reported count is the number of rows in the queryset |
| FriendsAdmin.AcceptAllPendingKeepsFriendCounters | friends/admin.py:14-16 | as intended, a selection of distinct pending rows keeps the counters equal to the accepted rows |
| FriendsAdmin.AcceptAllOfAcceptedInflates | friends/admin.py:14-16 | as intended, for any selection of rows between distinct users that holds an already accepted row, the row's sender ends with `following_count` above their accepted sent rows and its receiver with `followers_count` above their accepted received rows |
| FriendsAdmin.SelectedSetsBound | friends/admin.py:14-16 | the per-user counts of selected rows are at least the number of distinct rows the user sent or received |
| FriendsAdmin.AcceptedAfterAll | friends/admin.py:14-16 | after the walk, a user's accepted sent rows are those accepted before plus the selected rows they sent, and likewise for received rows |
| PostsModels.OwnedBy | accounts/models.py:27 | exactly the posts the user owns |
| PostsModels.CommentsOn | posts/models.py:65-69 | exactly the comments on the post, replies included |
| PostsModels.RepliesOf | posts/models.py:71-77 | exactly the comments whose parent is the comment |
| PostsModels.Cascade | posts/models.py:71-77 | what `on_delete=CASCADE` removes: the roots and every comment whose parent is removed, and nothing else |
| PostsModels.CascadeLeavesNoOrphans | posts/models.py:71-77 | after the cascade no remaining comment names a removed parent |
| PostsModels.CascadeOnlyDescendants | posts/models.py:71-77 | a comment without replies removes only itself |
| PostsModels.LikeMoved | posts/views.py:87-96 | `likes_count` of one post goes down by 1 when the Like row was there and up by 1 when it was not; every other field of that post and every other post stay |
| PostsModels.LikeToggleKeepsLikeCounts | posts/views.py:79-100 | if `likes_count` equals the number of Like rows before a toggle, it still does afterwards |
| PostsModels.LikeToggleKeepsPostRefs | posts/models.py:51 | the toggle keeps Like rows unique and referencing existing rows, and leaves owners and `posts_count` alone |
| PostsModels.CommentLikeMoved | posts/views.py:157-167 | the same for one comment's `likes_count`: -1 when the CommentLike row was there, +1 when not; author, post, parent and text stay, and so does every other comment |
| PostsModels.CommentLikeToggleKeepsCounts | posts/views.py:152-171 | comment `likes_count` stays equal to the number of CommentLike rows through a toggle |
| PostsModels.CommentLikeToggleKeepsRefs | posts/models.py:105 | the toggle keeps CommentLike rows unique and referencing existing rows |
| PostsModels.CommentsCountMoved | posts/views.py:122-123 | `comments_count` of one post moves by delta; its owner, caption, visibility, `likes_count` and `shares_count` stay, and every other post stays |
| PostsModels.AddCommentKeepsCommentCounts | posts/views.py:116-123 | a new comment, top-level or reply, with +1 on its post keeps `comments_count` equal to the comments on the post |
| PostsModels.DeleteLeafKeepsCommentCounts | posts/views.py:132-136 | deleting a comment without replies, with -1, keeps `comments_count` in step |
| PostsModels.DeleteWithReplyBreaksCommentCounts | posts/views.py:132-136 | deleting a comment with a reply on the same post subtracts 1 while at least 2 comments go, so the counter no longer matches |
| PostsModels.NewPostKeepsPostCounts | posts/views.py:30-34 | a new post and +1 on its owner keep `posts_count` equal to the posts owned |
| PostsModels.NewPostKeepsPostRefs | posts/models.py:7-11 | a new post under the next id, with an existing owner, keeps the post and Like rows valid |
| PostsModels.NewPostKeepsLikeCounts | posts/models.py:17 | a new post starts with `likes_count` 0 and no Like, so the like counters stay in step |
| PostsModels.RemovePostKeepsPostCounts | posts/views.py:48-52 | deleting a post with -1 on its owner keeps `posts_count` in step |
| PostsModels.RemovePostKeepsPostRefs | posts/models.py:43-47 | deleting a post with its Like rows leaves no Like on a missing post |
| PostsModels.RemovePostKeepsLikeCounts | posts/models.py:43-47 | the remaining posts keep their like counters in step |
| PostsModels.LikesWithout | posts/models.py:43-47 | the Like rows a post delete leaves: exactly those of other posts |
| PostsModels.CommentLikesWithout | posts/models.py:97-101 | the CommentLike rows a comment delete leaves: exactly those of comments that stay |
| PostsModels.LikesWithoutKeepsOthers | posts/models.py:43-47 | other posts keep all their Like rows |
| PostsModels.CommentLikesWithoutKeepsOthers | posts/models.py:97-101 | comments that stay keep all their CommentLike rows |
| PostsModels.PostCountsAfterUserUpdate | accounts/models.py:27 | rewriting users without touching `posts_count` keeps the post counters |
| PostsModels.PostRecordsKeepCounts | posts/models.py:17 | rewriting posts without changing owners or `likes_count` keeps both counters |
| PostsModels.CommentRecordsKeepValid | posts/models.py:58-79 | rewriting comments without changing author, post or parent keeps the arena valid |
| PostsModels.NewUserKeepsPostCounts | accounts/models.py:27 | a new user with `posts_count` 0 owns no post, so the counters stay in step |
| PostsViews.CleanCaption | posts/models.py:12 | an absent caption is the default ""; a given one is stripped and accepted exactly when it fits in 2200 characters and holds no U+0000 |
| PostsViews.NulCaptionRefused | posts/serializers.py:26-31 | a caption containing U+0000 anywhere is refused with 400, `"a\u0000"` among them |
| PostsViews.PublicFlag | posts/models.py:22 | `is_public` defaults to true |
| PostsViews.CreatePostKeepsValid | posts/views.py:30-34 | creating a post keeps every table valid, `posts_count` included |
| PostsViews.CreatePost | posts/views.py:30-34 | an invalid caption gives 400 with no change; otherwise a post with every counter at 0 is stored under the next id and its owner's `posts_count` goes up by 1 |
| PostsViews.DeletePostKeepsValid | posts/views.py:48-52 | deleting a post with its likes, comments and their replies keeps every table valid |
| PostsViews.DeletePostLeavesNothingOnIt | posts/models.py:43-47 | no Like row and no comment is left on a deleted post |
| PostsViews.DeletePost | posts/views.py:48-52 | unknown id gives 404 with no change; otherwise the post goes with its cascade and its owner's `posts_count` goes down by 1, whoever the caller is |
| PostsViews.TogglePostLikeTwice | posts/views.py:79-100 | liking twice gives back the database as it was before the first like |
| PostsViews.TogglePostLikeKeepsValid | posts/views.py:79-100 | the toggle keeps every table valid, `likes_count` included |
| PostsViews.TogglePostLike | posts/views.py:69-100 | unknown post gives 404 with no change; otherwise the Like row is removed (`liked` false, -1) or added (true, +1) |
| PostsViews.ToggleCommentLikeTwice | posts/views.py:152-171 | toggling a comment like twice gives back the database |
| PostsViews.ToggleCommentLikeKeepsValid | posts/views.py:152-171 | the toggle keeps every table valid, comment `likes_count` included |
| PostsViews.ToggleCommentLike | posts/views.py:143-171 | unknown comment gives 404 with no change; otherwise the same toggle on CommentLike and the comment's `likes_count` |
| PostsViews.CleanComment | posts/serializers.py:50-57 | a comment request is accepted exactly when it names an existing post, a non-blank text of at most 500 characters with no U+0000, and no parent or an existing one |
| PostsViews.NulCommentRefused | posts/serializers.py:50-57 | comment text containing U+0000 anywhere is refused with 400 |
| PostsViews.AddCommentKeepsValid | posts/views.py:116-123 | storing a comment and +1 on its post keeps every table valid |
| PostsViews.AddComment | posts/views.py:116-123 | an invalid request gives 400 and an unknown post in the URL fails with no change; otherwise the comment is stored under the next id on the URL's post and that post's `comments_count` goes up by 1 |
| PostsViews.SaveComment | posts/views.py:119-123 | `serializer.save(...)` then `comments_count += 1`: the store becomes `AfterAddComment` of the old one and stays valid |
| PostsViews.DeleteCommentKeepsValid | posts/views.py:132-136 | deleting a comment with its replies and their likes keeps every table valid |
| PostsViews.DeleteComment | posts/views.py:132-136 | unknown id gives 404 with no change; otherwise the comment and every reply below it go, and its post's `comments_count` goes down by exactly 1 |
| PostsViews.CommentHandlersAndCommentCounts | posts/views.py:116-136 | through the handlers, `comments_count` stays equal to the comments on a post while leaves are deleted, and drifts once a comment with a reply is |
| PostsViews.Feed | posts/views.py:23-28 | exactly the caller's own posts and every public post, newest first |
| PostsViews.UserPosts | posts/views.py:60-62 | exactly the user's posts, public or not, newest first |
| PostsViews.PrivatePostVisibility | posts/views.py:26-28 | a private post is in its owner's feed and nobody else's |
| PostsViews.TopLevelComments | posts/views.py:108-114 | exactly the post's comments with no parent, newest first |
| PostsSerializers.PostLikeToggleFlipsIsLiked | posts/serializers.py:19-23 | `is_liked` is the existence of the viewer's Like row: a toggle flips it for that user and post only, and it is false with no viewer |
| PostsSerializers.CommentLikeToggleFlipsIsLiked | posts/serializers.py:64-68 | the same for comments and CommentLike rows |
| PostsSerializers.Replies | posts/serializers.py:61 | `obj.replies.all()`: exactly the comments whose parent is c, newest first |
| PostsSerializers.ThreadChild | posts/serializers.py:59-62 | each nested reply is the serialized tree of a direct child, and it is newer than its parent |
| PostsSerializers.ThreadIsCascade | posts/serializers.py:59-62 | the ids in the nested reply tree under a comment are exactly what deleting that comment removes by cascade |
| PostsSerializers.ReplyShownUnderParent | posts/serializers.py:59-62 | a reply is shown under its parent and never at the top of its own post's listing |
| PostsSerializers.CommentListing | posts/views.py:108-114 | one serialized tree per top-level comment of the post |
| PostsAdmin.CaptionPreview | posts/admin.py:13-14 | the caption unchanged up to 50 characters, otherwise its first 50 followed by "..."; at most 53 characters |
| PostsAdmin.TextPreview | posts/admin.py:35-36 | the same rule on comment text |
| ChatModels.ParseRoomType | chat/models.py:12-16 | absent gives direct; a given string is stored as it is, and reads back under its own name |
| ChatModels.RoomTypeRoundTrip | chat/models.py:7-16 | parsing the name of a stored room type gives that type back |
| ChatModels.ParticipantOrder | chat/models.py:18-21 | `participants.all()`: every participant once, newest user first |
| ChatModels.RoomLabel | chat/models.py:35-40 | a direct room with two or more participants is "newest & second newest"; otherwise the name, or "Room " followed by decimal digits without a leading zero that read back as the id |
| ChatModels.PairHeadsAreNewest | chat/models.py:37 | the first two listed participants are the two newest |
| ChatModels.UnnamedRoomLabelsDistinct | chat/models.py:40 | two unnamed rooms that are not labelled by participants never share a label |
| ChatModels.MessageLabel | chat/models.py:83-84 | "sender: " followed by at most the first 50 characters of the content |
| ChatModels.InsertByRecency | chat/models.py:33 | insertion into a newest-save-first listing keeps it sorted, adds exactly the new room, and keeps a listing without repeats free of repeats |
| ChatModels.InsertByRecencyAddsOne | chat/models.py:33 | the insertion adds one copy of the new room to the multiset of the listing |
| ChatModels.ByRecency | chat/models.py:33 | `-updated_at`: the same rooms, sorted newest save first, without repeats when the input has none |
| ChatModels.ByRecencyPermutes | chat/models.py:33 | the sorted listing is a permutation of its input |
| ChatModels.Resolved | chat/views.py:63-68 | the requested ids that name users; the others are skipped |
| ChatModels.ReadTargets | chat/views.py:139-141 | exactly the room's messages sent by someone else that the reader has not read, oldest first |
| ChatModels.MarkReadIdempotent | chat/views.py:139-146 | after marking, nothing is left to mark: a second call marks nothing |
| ChatModels.MarkedReadKeepsMessagesValid | chat/views.py:143-146 | marking keeps readers users other than the sender |
| ChatModels.MarkOneMore | chat/views.py:143-146 | one loop iteration adds the reader to `read_by` and sets `is_read` on one more target, and on nothing else |
| ChatModels.NewRoomKeepsRoomsValid | chat/views.py:55-62 | a room saved under the next id holding its creator keeps the room table valid |
| ChatModels.TouchedRoomKeepsRoomsValid | chat/views.py:122 | `room.save()` refreshing `updated_at` keeps the room table valid |
| ChatModels.NewMessageKeepsMessagesValid | chat/models.py:70-75 | a new message, unread and read by nobody, keeps the message table valid |
| ChatViews.DirectMatch | chat/views.py:39-47 | `.first()` of the direct rooms holding both users: such a room saved no earlier than any other, and None exactly when there is none |
| ChatViews.DirectMatchSymmetric | chat/views.py:41-46 | the lookup finds the same room whichever of the two users asks |
| ChatViews.NewRoom | chat/views.py:55-68 | the new room: the requested type and name, created by the caller, with the caller and exactly the requested ids that name users |
| ChatViews.CreateRoomKeepsValid | chat/views.py:55-68 | saving the new room keeps every table valid |
| ChatViews.CreateRoom | chat/views.py:27-73 | no ids gives 400 with no change; a direct request with one id that finds a room returns it with no change; otherwise a new room is saved under the next id |
| ChatViews.AddParticipants | chat/views.py:61-68 | the loop adds the caller and each requested id that names a user; duplicates collapse |
| ChatViews.CreatedDirectRoomIsFound | chat/views.py:39-52 | after a direct room with another user is created, the same request from either user finds that room |
| ChatViews.SendCheck | chat/views.py:107-117 | a missing or unknown room, or content the serializer refuses, gives 400; a room the caller is not in gives 404; otherwise the room |
| ChatViews.SendKeepsValid | chat/views.py:119-122 | storing the message and refreshing the room keeps every table valid |
| ChatViews.SendAsWrittenDiffers | chat/views.py:107-122 | as written, a caller outside the room gets 201 and nothing is stored; in the other cases the written code agrees with the intended one |
| ChatViews.SendAsWrittenCounterexample | chat/views.py:111-117 | a concrete store where a non-participant is answered 201 and no message appears |
| ChatViews.CleanContent | chat/models.py:67 | the text a send stores: "" when the serializer's `content` field is left out, otherwise the sent text with surrounding whitespace stripped, refused exactly when that holds a U+0000; the stored text has no whitespace at either end and no U+0000 |
| ChatViews.NulContentRefused | chat/serializers.py:5-15 | content containing U+0000 anywhere is refused, so the send answers 400 and stores nothing |
| ChatViews.SendMessage | chat/views.py:107-122 | as intended: refusals change nothing; otherwise exactly one message from the caller, holding the cleaned content, is stored in the room under the next id, and the room is saved again |
| ChatViews.MarkRoomRead | chat/views.py:129-151 | a room the caller is not in gives 404 with no change; otherwise every target is marked read by the caller and nothing else, and the count is the number marked |
| ChatViews.MarkEach | chat/views.py:143-146 | the loop marks exactly the targets |
| ChatViews.RoomList | chat/views.py:17-20 | exactly the caller's rooms, each once, newest save first |
| ChatViews.SentRoomListedFirst | chat/views.py:121-122 | sending a message puts its room at the head of every participant's room list |
| ChatViews.MessageList | chat/views.py:90-99 | nothing for a room the caller is not in; otherwise exactly the room's messages, oldest first |
| ChatViews.SentMessageListedLast | chat/views.py:119 | a sent message is listed last for every participant of the room |
| ChatSerializers.UnreadCount | chat/serializers.py:40-44 | 0 without an authenticated viewer |
| ChatSerializers.OwnMessagesCountAsUnread | chat/serializers.py:43 | nobody is in `read_by` of their own message, so the viewer's own messages always count as unread |
| ChatSerializers.UnreadAfterMarkRead | chat/serializers.py:43 | right after marking a room read, the unread count is the number of messages the viewer sent there |
| ChatSerializers.MarkReadIsLocal | chat/views.py:139-146 | marking by one reader in one room changes nobody else's unread messages, and nothing in other rooms |
| ChatSerializers.LastMessage | chat/serializers.py:34-38 | None exactly when the room has no message; otherwise a message of the room with no later one |
| ChatSerializers.SentMessageIsLast | chat/serializers.py:35 | the message just sent is the room's last message |
| ChatAdmin.ContentPreview | chat/admin.py:25-26 | the content unchanged up to 50 characters, otherwise its first 50 followed by "..."; at most 53 characters |
| ChatAdmin.Shown | chat/admin.py:13 | `participants.all()[:3]`: the first min(n, 3) participants in listing order |
| ChatAdmin.ParticipantsLabel | chat/admin.py:12-13 | "" for no participants; for one, two or three shown, exactly their usernames in listing order joined by ", " |
| ChatAdmin.ParticipantsLabelMatchesRoomLabel | chat/admin.py:13 | for a direct room of two, the admin column and the room label name the same two users in the same order |

## Left out

- Passwords, `authenticate` and JWT tokens are foreign library calls. `authenticate` and the refresh-token blacklist are parameters, and `validate_password` together with the password match is a boolean parameter of registration.
- `max_length` of usernames, names and room fields is not modelled.
- Images, videos, chat files and `message_type` are file fields and choices that no modelled logic reads.
- Post, comment and profile updates (PUT/PATCH) are not modelled. Neither are the user profile, user detail and room detail views: they only read a row or write serializer fields.
- Pagination (`PAGE_SIZE`) and the response body shapes are not modelled. Every listing except the two Follow listings is the full ordered sequence of ids.
- Timestamps are ids and a logical clock. Ties between rooms saved at the same instant are not ordered the way a database would order them.
- Concurrency, race windows and transactions are left out: each handler is one atomic step.
- Settings, URL routing, the management command and the HTTP test script are not modelled.
- Counters are unbounded integers. The 32-bit width of `IntegerField` is not modelled.
- Case folding covers ASCII letters only. Django's `icontains` follows the database's collation.
- Participant ids in a room request are natural numbers. Requests carrying other JSON values are not modelled.
- FriendsViews.RequestTarget: `to_user` is an integer or absent. A non-numeric value makes `User.objects.get(id=...)` raise `ValueError`, which answers 500; that case is not modelled.
- ChatViews.CreateRoom: `room_type` and `name` are strings or absent. An explicit JSON `null` for either is written into a NOT NULL column and answers 500; that case is not modelled.
- AccountsViews.Logout: `token_blacklist` is not among the installed apps in `social_backend/settings.py`, so `token.blacklist()` raises and every logout carrying a non-empty refresh token answers 400 (the user still goes offline). With these settings only the `blacklist` parameter that refuses every token is reachable; the model keeps the parameter general.
- A user who is deleted, and the cascades that follow from it, are not modelled. No modelled handler deletes a user.
- FriendsViews.Followers: the Follow table is a set of (follower, following) pairs with no creation time, so the `-created_at` order of the listing is not modelled; the contract states which rows are listed.
- FriendsViews.Following: the same; the rows are given as a set, not in `-created_at` order.
- AccountsViews.RegistrationCheck: the username validator of `AbstractUser` (letters, digits and @.+-_ only) and the format check of `EmailField` are not modelled; password trimming and `validate_password` are inside the `passwordOk` parameter.
- AccountsViews.Register: `create_user` lower-cases the domain of the email and applies Unicode normalisation to the username; neither is modelled, so the stored text is the stripped input.
- ChatSerializers.UnreadCount: its own contract states only the anonymous case; the count itself is what `OwnMessagesCountAsUnread` and `UnreadAfterMarkRead` state.
- The admin changelist's search and filters choose which ids can be selected. The model takes the selected ids as given.
- ChatViews.CleanContent: a JSON `null` content, which the serializer refuses, is not modelled; the field is either left out or a string.
- PostsSerializers.CommentListing: its contract states the number and kind of the trees, and `ThreadIsCascade` and `ThreadChild` state their contents.

## Findings

| source | as written | input that shows it | evidently intended | confidence | as-written member | corrected member |
|---|---|---|---|---|---|---|
| chat/views.py:107-122 | `perform_create` returns a 404 `Response` for a room the caller is not in, but `CreateAPIView.create` ignores the return value and answers 201 with the serializer's data, while no message is saved | users 1 and 2, room 1 a direct room whose only participant is user 1; user 2 sends "hi" to room 1 | the request is answered 404 and nothing is stored | not executed | ChatViews.SendAsWritten | ChatViews.SendMessage |
| friends/admin.py:14-17 | The changelist shows `from_user` and `to_user`, so its queryset joins each row to its two users. `for friendship in queryset` loads every row with its own copies of both users before the first `accept`. Each `accept` saves those copies as whole rows (friends/models.py:46-49). A later row therefore overwrites what an earlier one saved for a user the rows share | users 1, 2 and 3 with zero counters; pending requests 1 (from 1 to 2) and 2 (from 1 to 3), both selected | user 1's `following_count` grows by 2, one per accepted request | not executed | FriendsAdmin.AcceptRequestsAsWritten | FriendsAdmin.AcceptRequests |
