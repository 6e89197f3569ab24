/** The post, like and comment endpoints: creation with the serializer's field rules, the
    like toggles with their counters, deletion with everything it cascades to, and the
    listings. */
module PostsViews {
  import opened Common
  import opened Text
  import opened AccountsModels
  import opened PostsModels
  import opened Db

  /** The caption a create request stores: the model default "" when the field is absent,
      otherwise the field with surrounding whitespace stripped, refused when what is left is
      longer than 2200 characters or holds a U+0000. */
  function CleanCaption(field: Option<string>): (r: Result<string>)
    ensures field.None? ==> r == Ok("")
    ensures field.Some? ==> (r.Ok? <==> |Strip(field.value)| <= CaptionMaxLength && NulFree(Strip(field.value)))
    ensures r.Ok? && field.Some? ==> r.value == Strip(field.value)
    ensures r.Ok? ==> |r.value| <= CaptionMaxLength && NulFree(r.value) && (r.value == [] || !IsSpace(r.value[0]))
    ensures r.Err? ==> r.error == Invalid
  {
    match field
    case None => Ok("")
    case Some(c) => if |Strip(c)| <= CaptionMaxLength && NulFree(Strip(c)) then Ok(Strip(c)) else Err(Invalid)
  }

  /** A caption holding a U+0000 anywhere is refused, whatever whitespace frames it. */
  lemma NulCaptionRefused(c: string)
    ensures CleanCaption(Some(c)).Ok? ==> NulFree(c)
    ensures !NulFree(c) ==> CleanCaption(Some(c)) == Err(Invalid)
    ensures CleanCaption(Some("a\0")) == Err(Invalid)
  {
    StripKeepsNul(c);
    StripKeepsNul("a\0");
    assert !NulFree("a\0") by { assert "a\0"[1] == '\0'; }
  }

  /** `is_public` defaults to true. */
  function PublicFlag(field: Option<bool>): (r: bool)
    ensures field.None? ==> r
    ensures field.Some? ==> r == field.value
  {
    match field
    case None => true
    case Some(b) => b
  }

  /** The database after `caller` creates a post: the row under the next id, and one more on
      the caller's `posts_count`. */
  function AfterCreatePost(t: Tables, caller: UserId, caption: string, isPublic: bool): Tables
    requires caller in t.users
  {
    t.(posts := t.posts[t.nextPostId := NewPost(caller, caption, isPublic)],
       nextPostId := t.nextPostId + 1,
       users := PostsCountMoved(t.users, caller, 1))
  }

  /** The post tables stay consistent when a post is created: the owner's `posts_count`
      follows the new row, and the new post starts with no likes. */
  lemma CreatePostKeepsPosts(t: Tables, caller: UserId, caption: string, isPublic: bool)
    requires PostsOk(t) && caller in t.users
    ensures PostsOk(AfterCreatePost(t, caller, caption, isPublic))
  {
    var post := NewPost(caller, caption, isPublic);
    assert t.nextPostId !in t.posts && PostsCountMoved(t.users, caller, 1).Keys == t.users.Keys;
    NewPostKeepsPostRefs(t.users.Keys, t.posts, t.nextPostId, t.likes, post);
    NewPostKeepsPostCounts(t.users, t.posts, t.nextPostId, post);
    NewPostKeepsLikeCounts(t.posts, t.likes, t.nextPostId, post);
  }

  /** Creating a post keeps every table valid. */
  lemma CreatePostKeepsValid(t: Tables, caller: UserId, caption: string, isPublic: bool)
    requires TablesValid(t) && caller in t.users
    ensures TablesValid(AfterCreatePost(t, caller, caption, isPublic))
  {
    var t' := AfterCreatePost(t, caller, caption, isPublic);
    CreatePostKeepsPosts(t, caller, caption, isPublic);
    UsersValidAfterCounters(t.users, t'.users, t.nextUserId);
    FriendsOkAfter(t, t');
    CommentsOkAfter(t, t');
    ChatOkAfter(t, t');
    GroupsMakeValid(t');
  }

  /** `PostListCreateView.perform_create`: the serializer validates the caption and the post
      is saved for the caller (201), whose `posts_count` grows by one; a refused caption
      changes nothing. */
  method CreatePost(s: Store, caller: UserId, caption: Option<string>, isPublic: Option<bool>) returns (r: Result<PostId>)
    requires s.Valid() && caller in s.db.users
    modifies s
    ensures s.Valid()
    ensures r.Err? ==> CleanCaption(caption) == Err(r.error) && s.db == old(s.db)
    ensures r.Ok? ==>
      CleanCaption(caption).Ok? && r.value == old(s.db).nextPostId &&
      s.db == AfterCreatePost(old(s.db), caller, CleanCaption(caption).value, PublicFlag(isPublic))
  {
    var cleaned := CleanCaption(caption);
    if cleaned.Err? {
      return Err(cleaned.error);
    }
    CreatePostKeepsValid(s.db, caller, cleaned.value, PublicFlag(isPublic));
    r := Ok(s.db.nextPostId);
    s.db := AfterCreatePost(s.db, caller, cleaned.value, PublicFlag(isPublic));
  }

  /** The comments a delete of post p removes: its own comments and every reply below them,
      wherever that reply was posted. */
  function CommentsGoneWithPost(t: Tables, p: PostId): set<CommentId>
    requires ParentsPrecede(t.comments)
  {
    Cascade(t.comments, CommentsOn(t.comments, p), t.nextCommentId)
  }

  /** The database after post p is deleted: one less on its owner's `posts_count`, and the
      post, its likes, the comments it cascades to and their likes removed. */
  function AfterDeletePost(t: Tables, p: PostId): Tables
    requires p in t.posts && t.posts[p].owner in t.users && ParentsPrecede(t.comments)
  {
    var owner, gone := t.posts[p].owner, CommentsGoneWithPost(t, p);
    t.(users := PostsCountMoved(t.users, owner, -1),
       posts := t.posts - {p},
       likes := LikesWithout(t.likes, p),
       comments := t.comments - gone,
       commentLikes := CommentLikesWithout(t.commentLikes, gone))
  }

  /** A valid arena has parents older than their replies. */
  lemma ValidParentsPrecede(t: Tables)
    requires TablesValid(t)
    ensures ParentsPrecede(t.comments)
  {
  }

  /** After a post's delete, the posts and likes reference existing rows and both counters
      are in step. */
  lemma DeletePostKeepsPosts(t: Tables, p: PostId)
    requires PostsOk(t) && p in t.posts && ParentsPrecede(t.comments)
    ensures PostsOk(AfterDeletePost(t, p))
  {
    assert PostsCountMoved(t.users, t.posts[p].owner, -1).Keys == t.users.Keys;
    RemovePostKeepsPostRefs(t.users.Keys, t.posts, t.nextPostId, t.likes, p);
    RemovePostKeepsPostCounts(t.users, t.posts, p);
    RemovePostKeepsLikeCounts(t.posts, t.likes, p);
  }

  /** After a post's delete, no comment is left on it or below a removed comment, and the
      comment likes stay in step. */
  lemma DeletePostKeepsComments(t: Tables, p: PostId)
    requires CommentsOk(t) && PostsValid(t.posts, t.nextPostId, t.users.Keys) && p in t.posts && ParentsPrecede(t.comments)
    ensures CommentsOk(AfterDeletePost(t, p))
  {
    var t' := AfterDeletePost(t, p);
    var roots, gone := CommentsOn(t.comments, p), CommentsGoneWithPost(t, p);
    assert t'.users.Keys == t.users.Keys;
    CascadeLeavesNoOrphans(t.comments, t.nextCommentId, roots, t.users.Keys, t.posts.Keys, t'.posts.Keys);
    forall c | c in t'.comments ensures t'.comments[c].likesCount == |PairsWith(t'.commentLikes, c)| {
      CommentLikesWithoutKeepsOthers(t.commentLikes, gone, c);
    }
  }

  lemma DeletePostKeepsValid(t: Tables, p: PostId)
    requires TablesValid(t) && p in t.posts && ParentsPrecede(t.comments)
    ensures TablesValid(AfterDeletePost(t, p))
  {
    var t' := AfterDeletePost(t, p);
    DeletePostKeepsPosts(t, p);
    DeletePostKeepsComments(t, p);
    assert t'.users.Keys == t.users.Keys;
    UsersValidAfterCounters(t.users, t'.users, t.nextUserId);
    FriendsOkAfter(t, t');
    ChatOkAfter(t, t');
    GroupsMakeValid(t');
  }

  /** `PostDetailView.perform_destroy`: any authenticated user may delete any post; its
      owner's `posts_count` drops by one and the delete cascades. An unknown id is 404. */
  method DeletePost(s: Store, caller: UserId, id: PostId) returns (r: Result<PostId>)
    requires s.Valid()
    modifies s
    ensures s.Valid()
    ensures r.Ok? <==> id in old(s.db).posts
    ensures r.Err? ==> r.error == NotFound && s.db == old(s.db)
    ensures r.Ok? ==>
      r.value == id && ParentsPrecede(old(s.db).comments) && old(s.db).posts[id].owner in old(s.db).users &&
      s.db == AfterDeletePost(old(s.db), id)
  {
    if id !in s.db.posts {
      return Err(NotFound);
    }
    ValidParentsPrecede(s.db);
    DeletePostKeepsValid(s.db, id);
    r := Ok(id);
    s.db := AfterDeletePost(s.db, id);
  }

  /** Deleting a post removes all of its like rows and every comment on it. */
  lemma DeletePostLeavesNothingOnIt(t: Tables, p: PostId)
    requires TablesValid(t) && p in t.posts && ParentsPrecede(t.comments)
    ensures PairsWith(AfterDeletePost(t, p).likes, p) == {}
    ensures CommentsOn(AfterDeletePost(t, p).comments, p) == {}
  {
    var t' := AfterDeletePost(t, p);
    forall c | c in t'.comments ensures t'.comments[c].post != p {
      assert c in t.comments && c < t.nextCommentId;
    }
  }

  /** The database after `user` toggles a like on post p, with `likes_count` moved the same
      way. */
  function AfterTogglePostLike(t: Tables, user: UserId, p: PostId): Tables
    requires p in t.posts
  {
    t.(likes := Toggle(t.likes, (user, p)), posts := LikeMoved(t.posts, t.likes, user, p))
  }

  /** Liking twice gives back the database before the first like. */
  lemma TogglePostLikeTwice(t: Tables, user: UserId, p: PostId)
    requires p in t.posts
    ensures AfterTogglePostLike(AfterTogglePostLike(t, user, p), user, p) == t
  {
    ToggleTwice(t.likes, (user, p));
  }

  /** The toggle keeps the post tables consistent: the like counter follows the row, and no
      owner changes. */
  lemma TogglePostLikeKeepsPosts(t: Tables, user: UserId, p: PostId)
    requires PostsOk(t) && user in t.users && p in t.posts
    ensures PostsOk(AfterTogglePostLike(t, user, p))
  {
    LikeToggleKeepsPostRefs(t.users, t.posts, t.nextPostId, t.likes, user, p);
    LikeToggleKeepsLikeCounts(t.posts, t.likes, user, p);
  }

  lemma TogglePostLikeKeepsValid(t: Tables, user: UserId, p: PostId)
    requires TablesValid(t) && user in t.users && p in t.posts
    ensures TablesValid(AfterTogglePostLike(t, user, p))
  {
    var t' := AfterTogglePostLike(t, user, p);
    TogglePostLikeKeepsPosts(t, user, p);
    assert t'.posts.Keys == t.posts.Keys;
    FriendsOkAfter(t, t');
    CommentsOkAfter(t, t');
    ChatOkAfter(t, t');
    GroupsMakeValid(t');
  }

  /** `LikePostView.post`: `get_or_create` of the caller's Like on the post, deleted again
      when it existed, with `likes_count` following; the answer says whether the caller now
      likes the post (201 when liked, 200 when unliked). An unknown id is 404. */
  method TogglePostLike(s: Store, caller: UserId, id: PostId) returns (r: Result<bool>)
    requires s.Valid() && caller in s.db.users
    modifies s
    ensures s.Valid()
    ensures r.Ok? <==> id in old(s.db).posts
    ensures r.Err? ==> r.error == NotFound && s.db == old(s.db)
    ensures r.Ok? ==>
      (r.value <==> (caller, id) !in old(s.db).likes) && (r.value <==> (caller, id) in s.db.likes) &&
      s.db == AfterTogglePostLike(old(s.db), caller, id) &&
      s.db.posts[id].likesCount == |PairsWith(s.db.likes, id)|
  {
    if id !in s.db.posts {
      return Err(NotFound);
    }
    TogglePostLikeKeepsValid(s.db, caller, id);
    r := Ok((caller, id) !in s.db.likes);
    s.db := AfterTogglePostLike(s.db, caller, id);
  }

  /** The same toggle for comments and CommentLike rows. */
  function AfterToggleCommentLike(t: Tables, user: UserId, c: CommentId): Tables
    requires c in t.comments
  {
    t.(commentLikes := Toggle(t.commentLikes, (user, c)), comments := CommentLikeMoved(t.comments, t.commentLikes, user, c))
  }

  lemma ToggleCommentLikeTwice(t: Tables, user: UserId, c: CommentId)
    requires c in t.comments
    ensures AfterToggleCommentLike(AfterToggleCommentLike(t, user, c), user, c) == t
  {
    ToggleTwice(t.commentLikes, (user, c));
  }

  lemma ToggleCommentLikeKeepsComments(t: Tables, user: UserId, c: CommentId)
    requires CommentsOk(t) && user in t.users && c in t.comments
    ensures CommentsOk(AfterToggleCommentLike(t, user, c))
  {
    CommentLikeToggleKeepsRefs(t.users.Keys, t.posts.Keys, t.comments, t.nextCommentId, t.commentLikes, user, c);
    CommentLikeToggleKeepsCounts(t.comments, t.commentLikes, user, c);
  }

  lemma ToggleCommentLikeKeepsValid(t: Tables, user: UserId, c: CommentId)
    requires TablesValid(t) && user in t.users && c in t.comments
    ensures TablesValid(AfterToggleCommentLike(t, user, c))
  {
    var t' := AfterToggleCommentLike(t, user, c);
    ToggleCommentLikeKeepsComments(t, user, c);
    PostsOkAfter(t, t');
    FriendsOkAfter(t, t');
    ChatOkAfter(t, t');
    GroupsMakeValid(t');
  }

  /** `LikeCommentView.post`. */
  method ToggleCommentLike(s: Store, caller: UserId, id: CommentId) returns (r: Result<bool>)
    requires s.Valid() && caller in s.db.users
    modifies s
    ensures s.Valid()
    ensures r.Ok? <==> id in old(s.db).comments
    ensures r.Err? ==> r.error == NotFound && s.db == old(s.db)
    ensures r.Ok? ==>
      (r.value <==> (caller, id) !in old(s.db).commentLikes) && (r.value <==> (caller, id) in s.db.commentLikes) &&
      s.db == AfterToggleCommentLike(old(s.db), caller, id) &&
      s.db.comments[id].likesCount == |PairsWith(s.db.commentLikes, id)|
  {
    if id !in s.db.comments {
      return Err(NotFound);
    }
    ToggleCommentLikeKeepsValid(s.db, caller, id);
    r := Ok((caller, id) !in s.db.commentLikes);
    s.db := AfterToggleCommentLike(s.db, caller, id);
  }

  /** The comment serializer's verdict on a create request, as the text to store: `post`
      must name an existing post, `text` must be present, not blank, at most 500 characters
      and free of U+0000 once stripped, and `parent`, when given, must name an existing comment (on
      any post). */
  function CleanComment(t: Tables, post: Option<int>, text: Option<string>, parent: Option<int>): (r: Result<string>)
    ensures r.Ok? <==>
      post.Some? && post.value >= 0 && post.value in t.posts &&
      text.Some? && Strip(text.value) != [] && |Strip(text.value)| <= CommentMaxLength &&
      NulFree(Strip(text.value)) &&
      (parent.Some? ==> parent.value >= 0 && parent.value in t.comments)
    ensures r.Ok? ==> r.value == Strip(text.value) && |r.value| <= CommentMaxLength && NulFree(r.value)
    ensures r.Err? ==> r.error == Invalid
  {
    if post.None? || post.value < 0 || post.value !in t.posts then Err(Invalid)
    else if text.None? || Strip(text.value) == [] || |Strip(text.value)| > CommentMaxLength then Err(Invalid)
    else if !NulFree(Strip(text.value)) then Err(Invalid)
    else if parent.Some? && (parent.value < 0 || parent.value !in t.comments) then Err(Invalid)
    else Ok(Strip(text.value))
  }

  /** Comment text holding a U+0000 anywhere is refused. */
  lemma NulCommentRefused(t: Tables, post: Option<int>, text: string, parent: Option<int>)
    ensures CleanComment(t, post, Some(text), parent).Ok? ==> NulFree(text)
    ensures !NulFree(text) ==> CleanComment(t, post, Some(text), parent) == Err(Invalid)
  {
    StripKeepsNul(text);
  }

  /** The parent a validated request names. */
  function ParentOf(parent: Option<int>): Option<CommentId>
  {
    match parent
    case None => None
    case Some(k) => if k >= 0 then Some(k) else None
  }

  /** The database after `caller` comments `text` on post p: the row under the next id and
      one more on p's `comments_count`. */
  function AfterAddComment(t: Tables, caller: UserId, p: PostId, text: string, parent: Option<CommentId>): Tables
    requires p in t.posts
  {
    t.(comments := t.comments[t.nextCommentId := NewComment(caller, p, text, parent)],
       nextCommentId := t.nextCommentId + 1,
       posts := CommentsCountMoved(t.posts, p, 1))
  }

  /** A new comment moves only `comments_count`, so the post tables stay consistent. */
  lemma AddCommentKeepsPosts(t: Tables, caller: UserId, p: PostId, text: string, parent: Option<CommentId>)
    requires PostsOk(t) && p in t.posts
    ensures PostsOk(AfterAddComment(t, caller, p, text, parent))
  {
    var t' := AfterAddComment(t, caller, p, text, parent);
    assert t'.posts.Keys == t.posts.Keys;
    PostRecordsKeepCounts(t.users, t.posts, t'.posts, t.likes);
  }

  /** The new comment is saved under an unused id, after its parent, and without likes. */
  lemma AddCommentKeepsComments(t: Tables, caller: UserId, p: PostId, text: string, parent: Option<CommentId>)
    requires CommentsOk(t) && caller in t.users && p in t.posts
    requires parent.Some? ==> parent.value in t.comments
    ensures CommentsOk(AfterAddComment(t, caller, p, text, parent))
  {
    var t' := AfterAddComment(t, caller, p, text, parent);
    var id := t.nextCommentId;
    assert id !in t.comments && t'.posts.Keys == t.posts.Keys;
    assert PairsWith(t.commentLikes, id) == {};
  }

  lemma AddCommentKeepsValid(t: Tables, caller: UserId, p: PostId, text: string, parent: Option<CommentId>)
    requires TablesValid(t) && caller in t.users && p in t.posts
    requires parent.Some? ==> parent.value in t.comments
    ensures TablesValid(AfterAddComment(t, caller, p, text, parent))
  {
    var t' := AfterAddComment(t, caller, p, text, parent);
    AddCommentKeepsPosts(t, caller, p, text, parent);
    AddCommentKeepsComments(t, caller, p, text, parent);
    FriendsOkAfter(t, t');
    ChatOkAfter(t, t');
    GroupsMakeValid(t');
  }

  /** `CommentListCreateView.perform_create`: after the serializer accepts the request, the
      post of the URL is fetched without a guard, so an unknown URL post is an uncaught
      exception (500). The comment is stored on the URL post, whatever `post` field the body
      named, and that post's `comments_count` grows by one. */
  method AddComment(s: Store, caller: UserId, urlPost: PostId, post: Option<int>, text: Option<string>, parent: Option<int>)
    returns (r: Result<CommentId>)
    requires s.Valid() && caller in s.db.users
    modifies s
    ensures s.Valid()
    ensures r == Err(Invalid) <==> CleanComment(old(s.db), post, text, parent).Err?
    ensures r == Err(Unhandled) <==> CleanComment(old(s.db), post, text, parent).Ok? && urlPost !in old(s.db).posts
    ensures r.Err? ==> s.db == old(s.db)
    ensures r.Ok? ==>
      CleanComment(old(s.db), post, text, parent).Ok? && urlPost in old(s.db).posts &&
      r.value == old(s.db).nextCommentId &&
      s.db == AfterAddComment(old(s.db), caller, urlPost, CleanComment(old(s.db), post, text, parent).value, ParentOf(parent))
  {
    var cleaned := CleanComment(s.db, post, text, parent);
    if cleaned.Err? {
      return Err(Invalid);
    }
    if urlPost !in s.db.posts {
      return Err(Unhandled);
    }
    r := Ok(s.db.nextCommentId);
    SaveComment(s, caller, urlPost, cleaned.value, ParentOf(parent));
  }

  /** `serializer.save(author=..., post=...)` followed by the `comments_count` update. */
  method SaveComment(s: Store, caller: UserId, p: PostId, text: string, parent: Option<CommentId>)
    requires s.Valid() && caller in s.db.users && p in s.db.posts
    requires parent.Some? ==> parent.value in s.db.comments
    modifies s
    ensures s.Valid()
    ensures s.db == AfterAddComment(old(s.db), caller, p, text, parent)
  {
    AddCommentKeepsValid(s.db, caller, p, text, parent);
    s.db := AfterAddComment(s.db, caller, p, text, parent);
  }

  /** The database after comment c is deleted: one less on its post's `comments_count`, and
      the comment, every reply below it and their likes removed. */
  function AfterDeleteComment(t: Tables, c: CommentId): Tables
    requires c in t.comments && t.comments[c].post in t.posts && ParentsPrecede(t.comments)
  {
    var p, gone := t.comments[c].post, Cascade(t.comments, {c}, t.nextCommentId);
    t.(posts := CommentsCountMoved(t.posts, p, -1),
       comments := t.comments - gone,
       commentLikes := CommentLikesWithout(t.commentLikes, gone))
  }

  /** A comment delete moves only `comments_count`, so the post tables stay consistent. */
  lemma DeleteCommentKeepsPosts(t: Tables, c: CommentId)
    requires PostsOk(t) && c in t.comments && t.comments[c].post in t.posts && ParentsPrecede(t.comments)
    ensures PostsOk(AfterDeleteComment(t, c))
  {
    var t' := AfterDeleteComment(t, c);
    assert t'.posts.Keys == t.posts.Keys;
    PostRecordsKeepCounts(t.users, t.posts, t'.posts, t.likes);
  }

  /** The delete removes every reply below the comment, so no remaining comment has a
      missing parent, and the remaining comments keep their likes. */
  lemma DeleteCommentKeepsComments(t: Tables, c: CommentId)
    requires CommentsOk(t) && c in t.comments && ParentsPrecede(t.comments)
    ensures CommentsOk(AfterDeleteComment(t, c))
  {
    var t' := AfterDeleteComment(t, c);
    var gone := Cascade(t.comments, {c}, t.nextCommentId);
    assert t'.posts.Keys == t.posts.Keys;
    CascadeLeavesNoOrphans(t.comments, t.nextCommentId, {c}, t.users.Keys, t.posts.Keys, t.posts.Keys);
    forall k | k in t'.comments ensures t'.comments[k].likesCount == |PairsWith(t'.commentLikes, k)| {
      CommentLikesWithoutKeepsOthers(t.commentLikes, gone, k);
    }
  }

  lemma DeleteCommentKeepsValid(t: Tables, c: CommentId)
    requires TablesValid(t) && c in t.comments && ParentsPrecede(t.comments)
    ensures TablesValid(AfterDeleteComment(t, c))
  {
    var t' := AfterDeleteComment(t, c);
    DeleteCommentKeepsPosts(t, c);
    DeleteCommentKeepsComments(t, c);
    FriendsOkAfter(t, t');
    ChatOkAfter(t, t');
    GroupsMakeValid(t');
  }

  /** `CommentDetailView.perform_destroy`: any authenticated user may delete any comment;
      its post's `comments_count` drops by one although the delete also removes every reply
      below it. An unknown id is 404. */
  method DeleteComment(s: Store, caller: UserId, id: CommentId) returns (r: Result<CommentId>)
    requires s.Valid()
    modifies s
    ensures s.Valid()
    ensures r.Ok? <==> id in old(s.db).comments
    ensures r.Err? ==> r.error == NotFound && s.db == old(s.db)
    ensures r.Ok? ==>
      r.value == id && ParentsPrecede(old(s.db).comments) && old(s.db).comments[id].post in old(s.db).posts &&
      s.db == AfterDeleteComment(old(s.db), id)
  {
    if id !in s.db.comments {
      return Err(NotFound);
    }
    ValidParentsPrecede(s.db);
    DeleteCommentKeepsValid(s.db, id);
    r := Ok(id);
    s.db := AfterDeleteComment(s.db, id);
  }

  /** Through the handlers, `comments_count` stays equal to the comments on the post as long
      as each deleted comment has no reply; deleting a comment with a reply on the same post
      makes it overstate them. */
  lemma CommentHandlersAndCommentCounts(t: Tables, c: CommentId, reply: CommentId)
    requires CommentsOk(t) && CommentCountsMatch(t.posts, t.comments)
    requires c in t.comments
    ensures RepliesOf(t.comments, c) == {} ==>
      CommentCountsMatch(AfterDeleteComment(t, c).posts, AfterDeleteComment(t, c).comments)
    ensures reply in t.comments && t.comments[reply].parent == Some(c) && t.comments[reply].post == t.comments[c].post ==>
      !CommentCountsMatch(AfterDeleteComment(t, c).posts, AfterDeleteComment(t, c).comments)
  {
    if RepliesOf(t.comments, c) == {} {
      DeleteLeafKeepsCommentCounts(t.posts, t.comments, t.nextCommentId, c);
    }
    if reply in t.comments && t.comments[reply].parent == Some(c) && t.comments[reply].post == t.comments[c].post {
      DeleteWithReplyBreaksCommentCounts(t.posts, t.comments, t.nextCommentId, c, reply);
    }
  }

  /** `PostListCreateView.get_queryset`: the caller's own posts and every public post, newest
      first. */
  function Feed(t: Tables, caller: UserId): (r: seq<PostId>)
    ensures forall p :: p in r <==>
      p < t.nextPostId && p in t.posts && (t.posts[p].owner == caller || t.posts[p].isPublic)
    ensures forall i, j :: 0 <= i < j < |r| ==> r[i] > r[j]
  {
    Descending(t.nextPostId, p => p in t.posts && (t.posts[p].owner == caller || t.posts[p].isPublic))
  }

  /** `UserPostsView.get_queryset`: every post of the user, public or not, newest first. */
  function UserPosts(t: Tables, user: UserId): (r: seq<PostId>)
    ensures forall p :: p in r <==> p < t.nextPostId && p in t.posts && t.posts[p].owner == user
    ensures forall i, j :: 0 <= i < j < |r| ==> r[i] > r[j]
  {
    Descending(t.nextPostId, p => p in t.posts && t.posts[p].owner == user)
  }

  /** A private post appears in its owner's feed and in nobody else's, while it is still
      listed on its owner's page to every caller. */
  lemma PrivatePostVisibility(t: Tables, p: PostId, caller: UserId)
    requires p < t.nextPostId && p in t.posts && !t.posts[p].isPublic
    ensures p in Feed(t, caller) <==> t.posts[p].owner == caller
    ensures p in UserPosts(t, t.posts[p].owner)
  {
  }

  /** `CommentListCreateView.get_queryset`: the top-level comments of the post, newest
      first; replies are reached through their parent. */
  function TopLevelComments(t: Tables, post: PostId): (r: seq<CommentId>)
    ensures forall c :: c in r <==>
      c < t.nextCommentId && c in t.comments && t.comments[c].post == post && t.comments[c].parent.None?
    ensures forall i, j :: 0 <= i < j < |r| ==> r[i] > r[j]
  {
    Descending(t.nextCommentId, c => c in t.comments && t.comments[c].post == post && t.comments[c].parent.None?)
  }
}
