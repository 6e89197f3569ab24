/** Post, Like, Comment and CommentLike rows: defaults, the uniqueness of likes, the
    self-referencing `parent` of a comment and what a deletion cascades to, together with the
    cached counters and the invariants that do or do not tie them to the rows. */
module PostsModels {
  import opened Common
  import opened AccountsModels

  type PostId = nat
  type CommentId = nat

  /** `max_length` of `Post.caption` and of `Comment.text`. */
  const CaptionMaxLength: nat := 2200
  const CommentMaxLength: nat := 500

  datatype Post = Post(
    owner: UserId,
    caption: string,
    isPublic: bool,
    likesCount: int,
    commentsCount: int,
    sharesCount: int)

  /** A post row as it is first saved: the owner comes from the request, every counter is 0. */
  function NewPost(owner: UserId, caption: string, isPublic: bool): Post
  {
    Post(owner, caption, isPublic, 0, 0, 0)
  }

  datatype Comment = Comment(
    author: UserId,
    post: PostId,
    text: string,
    parent: Option<CommentId>,
    likesCount: int)

  function NewComment(author: UserId, post: PostId, text: string, parent: Option<CommentId>): Comment
  {
    Comment(author, post, text, parent, 0)
  }

  /** Post ids come from the counter and every post has an existing owner. */
  ghost predicate PostsValid(posts: map<PostId, Post>, next: nat, userIds: set<UserId>)
  {
    forall p :: p in posts ==> p < next && posts[p].owner in userIds
  }

  /** Like rows join an existing user and an existing post; the set makes (user, post) unique. */
  ghost predicate LikesValid(likes: set<(UserId, PostId)>, userIds: set<UserId>, postIds: set<PostId>)
  {
    forall l :: l in likes ==> l.0 in userIds && l.1 in postIds
  }

  /** The cached `likes_count` of every post is the number of its Like rows. */
  ghost predicate LikeCountsMatch(posts: map<PostId, Post>, likes: set<(UserId, PostId)>)
  {
    forall p :: p in posts ==> posts[p].likesCount == |PairsWith(likes, p)|
  }

  /** The posts a user owns. */
  function OwnedBy(posts: map<PostId, Post>, u: UserId): (r: set<PostId>)
    ensures forall p :: p in r <==> p in posts && posts[p].owner == u
  {
    set p | p in posts && posts[p].owner == u
  }

  /** The cached `posts_count` of every user is the number of posts they own. */
  ghost predicate PostCountsMatch(users: map<UserId, User>, posts: map<PostId, Post>)
  {
    forall u :: u in users ==> users[u].postsCount == |OwnedBy(posts, u)|
  }

  /** Rewriting user records without touching `posts_count` keeps the post counters. */
  lemma PostCountsAfterUserUpdate(users: map<UserId, User>, users': map<UserId, User>, posts: map<PostId, Post>)
    requires PostCountsMatch(users, posts)
    requires users'.Keys == users.Keys && forall u :: u in users ==> users'[u].postsCount == users[u].postsCount
    ensures PostCountsMatch(users', posts)
  {
  }

  /** Comment ids come from the counter; author and post exist; a parent exists and is older
      than its reply, because a reply can only name a comment that was already saved. */
  ghost predicate CommentsValid(comments: map<CommentId, Comment>, next: nat, userIds: set<UserId>, postIds: set<PostId>)
  {
    forall c :: c in comments ==>
      c < next && comments[c].author in userIds && comments[c].post in postIds &&
      (comments[c].parent.Some? ==> comments[c].parent.value < c && comments[c].parent.value in comments)
  }

  ghost predicate CommentLikesValid(commentLikes: set<(UserId, CommentId)>, userIds: set<UserId>, commentIds: set<CommentId>)
  {
    forall l :: l in commentLikes ==> l.0 in userIds && l.1 in commentIds
  }

  /** The cached `likes_count` of every comment is the number of its CommentLike rows. */
  ghost predicate CommentLikeCountsMatch(comments: map<CommentId, Comment>, commentLikes: set<(UserId, CommentId)>)
  {
    forall c :: c in comments ==> comments[c].likesCount == |PairsWith(commentLikes, c)|
  }

  /** The comments on a post, top-level and replies alike. */
  function CommentsOn(comments: map<CommentId, Comment>, p: PostId): (r: set<CommentId>)
    ensures forall c :: c in r <==> c in comments && comments[c].post == p
  {
    set c | c in comments && comments[c].post == p
  }

  /** The reading of `comments_count` as the number of comments on the post. */
  ghost predicate CommentCountsMatch(posts: map<PostId, Post>, comments: map<CommentId, Comment>)
  {
    forall p :: p in posts ==> posts[p].commentsCount == |CommentsOn(comments, p)|
  }

  /** Every parent is older than its replies. */
  ghost predicate ParentsPrecede(comments: map<CommentId, Comment>)
  {
    forall c :: c in comments && comments[c].parent.Some? ==> comments[c].parent.value < c
  }

  /** The comments below id n that a delete of `roots` removes: the roots themselves and,
      through `on_delete=CASCADE` on `parent`, every reply to a removed comment. Because a
      parent is older than its replies, one pass in id order reaches the whole closure. */
  function Cascade(comments: map<CommentId, Comment>, roots: set<CommentId>, n: nat): (r: set<CommentId>)
    requires ParentsPrecede(comments)
    ensures forall c :: c in r ==> c in comments && c < n
    ensures forall c :: c in roots && c in comments && c < n ==> c in r
    ensures forall c :: c in r ==> c in roots || (comments[c].parent.Some? && comments[c].parent.value in r)
    ensures forall c :: c in comments && c < n && comments[c].parent.Some? && comments[c].parent.value in r ==> c in r
  {
    if n == 0 then {}
    else
      var below := Cascade(comments, roots, n - 1);
      var c := n - 1;
      if c in comments && (c in roots || (comments[c].parent.Some? && comments[c].parent.value in below))
      then below + {c}
      else below
  }

  /** Deleting the rows `gone` of a comment arena whose parents precede their replies leaves
      no reply pointing at a deleted parent, provided `gone` is closed under replies. */
  lemma CascadeLeavesNoOrphans(comments: map<CommentId, Comment>, next: nat, roots: set<CommentId>, userIds: set<UserId>, postIds: set<PostId>, postIds': set<PostId>)
    requires CommentsValid(comments, next, userIds, postIds)
    requires ParentsPrecede(comments)
    requires forall c :: c in comments && c !in Cascade(comments, roots, next) ==> comments[c].post in postIds'
    ensures CommentsValid(comments - Cascade(comments, roots, next), next, userIds, postIds')
  {
  }

  /** The post row p with `likes_count` moved by one in the direction of a toggle of the
      Like (u, p). */
  function LikeMoved(posts: map<PostId, Post>, likes: set<(UserId, PostId)>, u: UserId, p: PostId): (r: map<PostId, Post>)
    requires p in posts
    ensures r.Keys == posts.Keys
    ensures forall q :: q in posts && q != p ==> r[q] == posts[q]
    ensures r[p].likesCount == posts[p].likesCount + (if (u, p) in likes then -1 else 1)
    ensures r[p] == posts[p].(likesCount := r[p].likesCount)
  {
    posts[p := posts[p].(likesCount := posts[p].likesCount + (if (u, p) in likes then -1 else 1))]
  }

  /** Moving `likes_count` changes no owner, and the toggled Like joins existing rows. */
  lemma LikeToggleKeepsPostRefs(users: map<UserId, User>, posts: map<PostId, Post>, next: nat, likes: set<(UserId, PostId)>, u: UserId, p: PostId)
    requires PostsValid(posts, next, users.Keys) && LikesValid(likes, users.Keys, posts.Keys) && PostCountsMatch(users, posts)
    requires u in users && p in posts
    ensures PostsValid(LikeMoved(posts, likes, u, p), next, users.Keys)
    ensures LikesValid(Toggle(likes, (u, p)), users.Keys, posts.Keys)
    ensures PostCountsMatch(users, LikeMoved(posts, likes, u, p))
  {
    PostOwnersKeepCounts(users, posts, LikeMoved(posts, likes, u, p));
  }

  /** Toggling the Like (u, p) and moving `likes_count` of p by one in the direction of the
      toggle keeps every post's counter equal to its Like rows. */
  lemma LikeToggleKeepsLikeCounts(posts: map<PostId, Post>, likes: set<(UserId, PostId)>, u: UserId, p: PostId)
    requires LikeCountsMatch(posts, likes) && p in posts
    ensures LikeCountsMatch(LikeMoved(posts, likes, u, p), Toggle(likes, (u, p)))
  {
    var posts' := LikeMoved(posts, likes, u, p);
    forall q | q in posts' ensures posts'[q].likesCount == |PairsWith(Toggle(likes, (u, p)), q)| {
      PairsWithToggle(likes, u, p, q);
    }
  }

  /** The comment row c with `likes_count` moved by one in the direction of a toggle of the
      CommentLike (u, c). */
  function CommentLikeMoved(comments: map<CommentId, Comment>, commentLikes: set<(UserId, CommentId)>, u: UserId, c: CommentId): (r: map<CommentId, Comment>)
    requires c in comments
    ensures r.Keys == comments.Keys
    ensures forall k :: k in comments && k != c ==> r[k] == comments[k]
    ensures r[c].likesCount == comments[c].likesCount + (if (u, c) in commentLikes then -1 else 1)
    ensures r[c] == comments[c].(likesCount := r[c].likesCount)
  {
    comments[c := comments[c].(likesCount := comments[c].likesCount + (if (u, c) in commentLikes then -1 else 1))]
  }

  /** The same for comments and the CommentLike rows. */
  lemma CommentLikeToggleKeepsCounts(comments: map<CommentId, Comment>, commentLikes: set<(UserId, CommentId)>, u: UserId, c: CommentId)
    requires CommentLikeCountsMatch(comments, commentLikes) && c in comments
    ensures CommentLikeCountsMatch(CommentLikeMoved(comments, commentLikes, u, c), Toggle(commentLikes, (u, c)))
  {
    var comments' := CommentLikeMoved(comments, commentLikes, u, c);
    forall k | k in comments' ensures comments'[k].likesCount == |PairsWith(Toggle(commentLikes, (u, c)), k)| {
      PairsWithToggle(commentLikes, u, c, k);
    }
  }

  /** The post records with `comments_count` of p moved by `delta`; nothing else changes. */
  function CommentsCountMoved(posts: map<PostId, Post>, p: PostId, delta: int): (r: map<PostId, Post>)
    requires p in posts
    ensures r.Keys == posts.Keys
    ensures forall q :: q in posts && q != p ==> r[q] == posts[q]
    ensures r[p].commentsCount == posts[p].commentsCount + delta
    ensures r[p].owner == posts[p].owner && r[p].caption == posts[p].caption && r[p].isPublic == posts[p].isPublic
    ensures r[p].likesCount == posts[p].likesCount && r[p].sharesCount == posts[p].sharesCount
  {
    posts[p := posts[p].(commentsCount := posts[p].commentsCount + delta)]
  }

  /** Saving a new comment on p, top-level or reply, and adding 1 to p's `comments_count`
      keeps the counters equal to the comments. */
  lemma AddCommentKeepsCommentCounts(posts: map<PostId, Post>, comments: map<CommentId, Comment>, id: CommentId, c: Comment)
    requires CommentCountsMatch(posts, comments) && id !in comments && c.post in posts
    ensures CommentCountsMatch(
      CommentsCountMoved(posts, c.post, 1),
      comments[id := c])
  {
    forall p | p in posts {
      CommentsOnAfterAdd(comments, id, c, p);
    }
  }

  lemma CommentsOnAfterAdd(comments: map<CommentId, Comment>, id: CommentId, c: Comment, p: PostId)
    requires id !in comments
    ensures CommentsOn(comments[id := c], p) == if p == c.post then CommentsOn(comments, p) + {id} else CommentsOn(comments, p)
  {
  }

  lemma CommentsOnAfterRemove(comments: map<CommentId, Comment>, id: CommentId, p: PostId)
    requires id in comments
    ensures CommentsOn(comments, p) == if p == comments[id].post then CommentsOn(comments - {id}, p) + {id} else CommentsOn(comments - {id}, p)
  {
  }

  /** The replies of a comment: the comments whose `parent` is it. */
  function RepliesOf(comments: map<CommentId, Comment>, c: CommentId): (r: set<CommentId>)
    ensures forall k :: k in r <==> k in comments && comments[k].parent == Some(c)
  {
    set k | k in comments && comments[k].parent == Some(c)
  }

  /** Deleting a comment without replies and subtracting 1 from its post keeps the counters
      equal to the comments. */
  lemma DeleteLeafKeepsCommentCounts(posts: map<PostId, Post>, comments: map<CommentId, Comment>, next: nat, id: CommentId)
    requires CommentCountsMatch(posts, comments)
    requires id in comments && id < next && comments[id].post in posts && RepliesOf(comments, id) == {}
    requires ParentsPrecede(comments) && forall k :: k in comments ==> k < next
    ensures Cascade(comments, {id}, next) == {id}
    ensures CommentCountsMatch(
      CommentsCountMoved(posts, comments[id].post, -1),
      comments - {id})
  {
    var p0 := comments[id].post;
    var gone := Cascade(comments, {id}, next);
    forall k | k in gone ensures k == id {
      if k != id {
        assert comments[k].parent.value in gone;
        CascadeOnlyDescendants(comments, id, next, k);
      }
    }
    forall p | p in posts {
      CommentsOnAfterRemove(comments, id, p);
    }
  }

  /** In an arena where parents precede replies, a comment other than `root` that the delete
      of `root` removes has an ancestor chain reaching `root`; in particular `root` has a
      reply. */
  lemma {:induction false} CascadeOnlyDescendants(comments: map<CommentId, Comment>, root: CommentId, n: nat, k: CommentId)
    requires ParentsPrecede(comments)
    requires k in Cascade(comments, {root}, n) && k != root
    ensures RepliesOf(comments, root) != {}
    decreases k
  {
    var parent := comments[k].parent.value;
    if parent == root {
      assert k in RepliesOf(comments, root);
    } else {
      CascadeOnlyDescendants(comments, root, n, parent);
    }
  }

  /** Deleting a comment that has a reply on the same post subtracts 1 from that post while
      at least two comments disappear, so counters that matched before no longer match. */
  lemma DeleteWithReplyBreaksCommentCounts(posts: map<PostId, Post>, comments: map<CommentId, Comment>, next: nat, id: CommentId, reply: CommentId)
    requires CommentCountsMatch(posts, comments) && ParentsPrecede(comments)
    requires id in comments && comments[id].post in posts
    requires reply in comments && reply < next && comments[reply].parent == Some(id) && comments[reply].post == comments[id].post
    requires id < next
    ensures !CommentCountsMatch(
      CommentsCountMoved(posts, comments[id].post, -1),
      comments - Cascade(comments, {id}, next))
  {
    var p0 := comments[id].post;
    var gone := Cascade(comments, {id}, next);
    assert id in gone && reply in gone;
    var after := CommentsOn(comments - gone, p0);
    assert after + {id, reply} <= CommentsOn(comments, p0);
    assert id != reply;
    assert after !! {id, reply};
    assert |after + {id, reply}| == |after| + 2;
    SubsetCardinality(after + {id, reply}, CommentsOn(comments, p0));
  }

  /** Saving a new post under an unused id and adding 1 to its owner's `posts_count` keeps
      every user's counter equal to the posts they own. */
  lemma NewPostKeepsPostCounts(users: map<UserId, User>, posts: map<PostId, Post>, id: PostId, post: Post)
    requires PostCountsMatch(users, posts) && id !in posts && post.owner in users
    ensures PostCountsMatch(PostsCountMoved(users, post.owner, 1), posts[id := post])
  {
    var users' := PostsCountMoved(users, post.owner, 1);
    forall u | u in users' ensures users'[u].postsCount == |OwnedBy(posts[id := post], u)| {
      OwnedByAfterAdd(posts, id, post, u);
    }
  }

  /** A new post under the next id, owned by an existing user, keeps the post and Like rows
      referencing existing rows. */
  lemma NewPostKeepsPostRefs(userIds: set<UserId>, posts: map<PostId, Post>, next: nat, likes: set<(UserId, PostId)>, post: Post)
    requires PostsValid(posts, next, userIds) && LikesValid(likes, userIds, posts.Keys) && post.owner in userIds
    ensures PostsValid(posts[next := post], next + 1, userIds)
    ensures LikesValid(likes, userIds, posts[next := post].Keys)
  {
  }

  lemma OwnedByAfterAdd(posts: map<PostId, Post>, id: PostId, post: Post, u: UserId)
    requires id !in posts
    ensures |OwnedBy(posts[id := post], u)| == |OwnedBy(posts, u)| + if post.owner == u then 1 else 0
  {
    if u == post.owner {
      assert OwnedBy(posts[id := post], u) == OwnedBy(posts, u) + {id};
    } else {
      assert OwnedBy(posts[id := post], u) == OwnedBy(posts, u);
    }
  }

  /** A new post without likes, under an id no Like row names, keeps `likes_count` in step. */
  lemma NewPostKeepsLikeCounts(posts: map<PostId, Post>, likes: set<(UserId, PostId)>, id: PostId, post: Post)
    requires LikeCountsMatch(posts, likes) && post.likesCount == 0
    requires forall l :: l in likes ==> l.1 != id
    ensures LikeCountsMatch(posts[id := post], likes)
  {
    assert PairsWith(likes, id) == {};
  }

  /** Comment rows that are valid against some posts stay valid against more posts. */
  lemma CommentsValidMorePosts(comments: map<CommentId, Comment>, next: nat, userIds: set<UserId>, postIds: set<PostId>, postIds': set<PostId>)
    requires CommentsValid(comments, next, userIds, postIds) && postIds <= postIds'
    ensures CommentsValid(comments, next, userIds, postIds')
  {
  }

  /** Removing post p takes one post from its owner's posts and none from anybody else's. */
  lemma OwnedByAfterRemove(posts: map<PostId, Post>, p: PostId, u: UserId)
    requires p in posts
    ensures |OwnedBy(posts - {p}, u)| == |OwnedBy(posts, u)| - if posts[p].owner == u then 1 else 0
  {
    if u == posts[p].owner {
      assert OwnedBy(posts, u) == OwnedBy(posts - {p}, u) + {p};
    } else {
      assert OwnedBy(posts - {p}, u) == OwnedBy(posts, u);
    }
  }

  /** Deleting a post and taking 1 from its owner's `posts_count` keeps every counter equal
      to the posts its user owns. */
  lemma RemovePostKeepsPostCounts(users: map<UserId, User>, posts: map<PostId, Post>, p: PostId)
    requires PostCountsMatch(users, posts) && p in posts && posts[p].owner in users
    ensures PostCountsMatch(PostsCountMoved(users, posts[p].owner, -1), posts - {p})
  {
    var users' := PostsCountMoved(users, posts[p].owner, -1);
    forall u | u in users' ensures users'[u].postsCount == |OwnedBy(posts - {p}, u)| {
      OwnedByAfterRemove(posts, p, u);
    }
  }

  /** Rewriting post records without changing their owners keeps the owners' posts. */
  lemma OwnedBySameOwners(posts: map<PostId, Post>, posts': map<PostId, Post>, u: UserId)
    requires posts'.Keys == posts.Keys && forall q :: q in posts ==> posts'[q].owner == posts[q].owner
    ensures OwnedBy(posts', u) == OwnedBy(posts, u)
  {
  }

  /** Rewriting post records without changing their owners keeps `posts_count` in step. */
  lemma PostOwnersKeepCounts(users: map<UserId, User>, posts: map<PostId, Post>, posts': map<PostId, Post>)
    requires PostCountsMatch(users, posts)
    requires posts'.Keys == posts.Keys && forall q :: q in posts ==> posts'[q].owner == posts[q].owner
    ensures PostCountsMatch(users, posts')
  {
    forall u | u in users ensures users[u].postsCount == |OwnedBy(posts', u)| {
      OwnedBySameOwners(posts, posts', u);
    }
  }

  /** Rewriting post records without changing their owners or `likes_count` keeps both
      counter invariants. */
  lemma PostRecordsKeepCounts(users: map<UserId, User>, posts: map<PostId, Post>, posts': map<PostId, Post>, likes: set<(UserId, PostId)>)
    requires PostCountsMatch(users, posts) && LikeCountsMatch(posts, likes)
    requires posts'.Keys == posts.Keys
    requires forall q :: q in posts ==> posts'[q].owner == posts[q].owner && posts'[q].likesCount == posts[q].likesCount
    ensures PostCountsMatch(users, posts') && LikeCountsMatch(posts', likes)
  {
    forall u | u in users ensures users[u].postsCount == |OwnedBy(posts', u)| {
      OwnedBySameOwners(posts, posts', u);
    }
  }

  /** Rewriting comment records without changing their author, post or parent keeps them
      valid. */
  lemma CommentRecordsKeepValid(comments: map<CommentId, Comment>, comments': map<CommentId, Comment>, next: nat, userIds: set<UserId>, postIds: set<PostId>)
    requires CommentsValid(comments, next, userIds, postIds)
    requires comments'.Keys == comments.Keys
    requires forall c :: c in comments ==>
      comments'[c].author == comments[c].author && comments'[c].post == comments[c].post && comments'[c].parent == comments[c].parent
    ensures CommentsValid(comments', next, userIds, postIds)
  {
  }

  /** Like rows other than those of post p. */
  function LikesWithout(likes: set<(UserId, PostId)>, p: PostId): (r: set<(UserId, PostId)>)
    ensures forall l :: l in r <==> l in likes && l.1 != p
  {
    set l | l in likes && l.1 != p
  }

  /** CommentLike rows other than those of the comments `gone`. */
  function CommentLikesWithout(commentLikes: set<(UserId, CommentId)>, gone: set<CommentId>): (r: set<(UserId, CommentId)>)
    ensures forall l :: l in r <==> l in commentLikes && l.1 !in gone
  {
    set l | l in commentLikes && l.1 !in gone
  }

  /** Like rows of posts other than p survive its delete. */
  lemma LikesWithoutKeepsOthers(likes: set<(UserId, PostId)>, p: PostId, q: PostId)
    requires q != p
    ensures PairsWith(LikesWithout(likes, p), q) == PairsWith(likes, q)
  {
  }

  /** CommentLike rows of comments outside `gone` survive the delete of `gone`. */
  lemma CommentLikesWithoutKeepsOthers(commentLikes: set<(UserId, CommentId)>, gone: set<CommentId>, k: CommentId)
    requires k !in gone
    ensures PairsWith(CommentLikesWithout(commentLikes, gone), k) == PairsWith(commentLikes, k)
  {
  }

  /** Deleting post p with its Like rows keeps the remaining rows referencing existing rows. */
  lemma RemovePostKeepsPostRefs(userIds: set<UserId>, posts: map<PostId, Post>, next: nat, likes: set<(UserId, PostId)>, p: PostId)
    requires PostsValid(posts, next, userIds) && LikesValid(likes, userIds, posts.Keys)
    ensures PostsValid(posts - {p}, next, userIds)
    ensures LikesValid(LikesWithout(likes, p), userIds, (posts - {p}).Keys)
  {
  }

  /** Deleting post p with its Like rows keeps every remaining post's `likes_count` in step. */
  lemma RemovePostKeepsLikeCounts(posts: map<PostId, Post>, likes: set<(UserId, PostId)>, p: PostId)
    requires LikeCountsMatch(posts, likes)
    ensures LikeCountsMatch(posts - {p}, LikesWithout(likes, p))
  {
    forall q | q in posts - {p} ensures (posts - {p})[q].likesCount == |PairsWith(LikesWithout(likes, p), q)| {
      LikesWithoutKeepsOthers(likes, p, q);
    }
  }

  /** A CommentLike toggle by an existing user moves a counter only, so comments and
      CommentLike rows keep referencing existing rows. */
  lemma CommentLikeToggleKeepsRefs(userIds: set<UserId>, postIds: set<PostId>, comments: map<CommentId, Comment>, next: nat,
                                   commentLikes: set<(UserId, CommentId)>, u: UserId, c: CommentId)
    requires CommentsValid(comments, next, userIds, postIds) && CommentLikesValid(commentLikes, userIds, comments.Keys)
    requires u in userIds && c in comments
    ensures CommentsValid(CommentLikeMoved(comments, commentLikes, u, c), next, userIds, postIds)
    ensures CommentLikesValid(Toggle(commentLikes, (u, c)), userIds, CommentLikeMoved(comments, commentLikes, u, c).Keys)
  {
    CommentRecordsKeepValid(comments, CommentLikeMoved(comments, commentLikes, u, c), next, userIds, postIds);
  }

  /** A new user owns no post, so a registration with `posts_count` 0 keeps the counters. */
  lemma NewUserKeepsPostCounts(users: map<UserId, User>, posts: map<PostId, Post>, next: nat, id: UserId, u: User)
    requires PostCountsMatch(users, posts) && PostsValid(posts, next, users.Keys)
    requires id !in users && u.postsCount == 0
    ensures PostCountsMatch(users[id := u], posts)
  {
    assert OwnedBy(posts, id) == {};
  }
}
