/** What the post and comment serializers compute beyond the stored columns: whether the
    viewer likes the row, and the tree of replies nested under a comment. The viewer is
    `None` for an anonymous request. */
module PostsSerializers {
  import opened Common
  import opened AccountsModels
  import opened PostsModels
  import opened Db
  import opened PostsViews

  /** `PostSerializer.get_is_liked`: a Like row of the viewer on the post exists. */
  function PostIsLiked(t: Tables, viewer: Option<UserId>, p: PostId): bool
  {
    viewer.Some? && (viewer.value, p) in t.likes
  }

  /** `CommentSerializer.get_is_liked`: a CommentLike row of the viewer on the comment exists. */
  function CommentIsLiked(t: Tables, viewer: Option<UserId>, c: CommentId): bool
  {
    viewer.Some? && (viewer.value, c) in t.commentLikes
  }

  /** A like toggle flips `is_liked` for the user who toggled, on that post only; every other
      viewer and post reads as before, and an anonymous viewer never likes anything. */
  lemma PostLikeToggleFlipsIsLiked(t: Tables, user: UserId, p: PostId, viewer: Option<UserId>, q: PostId)
    requires p in t.posts
    ensures PostIsLiked(AfterTogglePostLike(t, user, p), viewer, q) ==
      if viewer == Some(user) && q == p then !PostIsLiked(t, viewer, q) else PostIsLiked(t, viewer, q)
    ensures !PostIsLiked(t, None, q)
  {
  }

  lemma CommentLikeToggleFlipsIsLiked(t: Tables, user: UserId, c: CommentId, viewer: Option<UserId>, k: CommentId)
    requires c in t.comments
    ensures CommentIsLiked(AfterToggleCommentLike(t, user, c), viewer, k) ==
      if viewer == Some(user) && k == c then !CommentIsLiked(t, viewer, k) else CommentIsLiked(t, viewer, k)
    ensures !CommentIsLiked(t, None, k)
  {
  }

  /** A serialized comment: its columns, the viewer's `is_liked`, and its serialized replies. */
  datatype CommentView = CommentView(
    id: CommentId,
    post: PostId,
    text: string,
    parent: Option<CommentId>,
    likesCount: int,
    isLiked: bool,
    replies: seq<CommentView>)

  /** `obj.replies.all()`: the comments whose parent is c, newest first. */
  function Replies(t: Tables, c: CommentId): (r: seq<CommentId>)
    ensures forall k :: k in r <==> k < t.nextCommentId && k in t.comments && t.comments[k].parent == Some(c)
    ensures forall i, j :: 0 <= i < j < |r| ==> r[i] > r[j]
  {
    Descending(t.nextCommentId, k => k in t.comments && t.comments[k].parent == Some(c))
  }

  /** `CommentSerializer(c).data`: the comment with `get_replies` serializing each reply the
      same way, to any depth. A reply is always newer than its parent, which bounds the
      recursion. */
  function Thread(t: Tables, viewer: Option<UserId>, c: CommentId): CommentView
    requires c in t.comments && ParentsPrecede(t.comments)
    decreases t.nextCommentId - c
  {
    var row, kids := t.comments[c], Replies(t, c);
    CommentView(c, row.post, row.text, row.parent, row.likesCount, CommentIsLiked(t, viewer, c),
      seq(|kids|, i requires 0 <= i < |kids| => Thread(t, viewer, kids[i])))
  }

  /** Every comment id shown in a serialized tree. */
  function ThreadIds(v: CommentView): set<CommentId>
    decreases v
  {
    {v.id} + (set i, x | 0 <= i < |v.replies| && x in ThreadIds(v.replies[i]) :: x)
  }

  /** A comment shown in one of the reply trees is shown in the whole tree. */
  lemma InReplyIds(v: CommentView, i: nat, x: CommentId)
    requires i < |v.replies| && x in ThreadIds(v.replies[i])
    ensures x in ThreadIds(v)
  {
  }

  /** A comment shown in a tree other than at its root is shown in one of its reply trees. */
  lemma ReplyIdsOf(v: CommentView, x: CommentId)
    requires x in ThreadIds(v) && x != v.id
    ensures exists i :: 0 <= i < |v.replies| && x in ThreadIds(v.replies[i])
  {
  }

  /** `CommentListCreateView` answering a list request: every top-level comment of the post,
      newest first, each with its tree of replies. */
  function CommentListing(t: Tables, viewer: Option<UserId>, post: PostId): (r: seq<CommentView>)
    requires ParentsPrecede(t.comments)
    ensures |r| == |TopLevelComments(t, post)|
    ensures forall i :: 0 <= i < |r| ==> r[i].post == post && r[i].parent.None?
  {
    var roots := TopLevelComments(t, post);
    seq(|roots|, i requires 0 <= i < |roots| => Thread(t, viewer, roots[i]))
  }

  /** The i-th reply shown under c is the serialized tree of a reply to c. */
  lemma ThreadChild(t: Tables, viewer: Option<UserId>, c: CommentId, i: nat)
    requires c in t.comments && ParentsPrecede(t.comments)
    requires i < |Thread(t, viewer, c).replies|
    ensures i < |Replies(t, c)|
    ensures var k := Replies(t, c)[i];
      k in t.comments && t.comments[k].parent == Some(c) && c < k < t.nextCommentId &&
      Thread(t, viewer, c).replies[i] == Thread(t, viewer, k)
  {
    assert Replies(t, c)[i] in Replies(t, c);
  }

  /** A comment shown in the tree under c is removed by a delete of `roots` once c is. */
  lemma {:induction false} ThreadWithinCascade(t: Tables, viewer: Option<UserId>, c: CommentId, roots: set<CommentId>, x: CommentId)
    requires c in t.comments && ParentsPrecede(t.comments)
    requires c in Cascade(t.comments, roots, t.nextCommentId)
    requires x in ThreadIds(Thread(t, viewer, c))
    ensures x in Cascade(t.comments, roots, t.nextCommentId)
    decreases t.nextCommentId - c
  {
    var r := Thread(t, viewer, c);
    if x != c {
      ReplyIdsOf(r, x);
      var i :| 0 <= i < |r.replies| && x in ThreadIds(r.replies[i]);
      ThreadChild(t, viewer, c, i);
      ThreadWithinCascade(t, viewer, Replies(t, c)[i], roots, x);
    }
  }

  /** A reply to a comment shown in the tree under c is shown there too. */
  lemma {:induction false} ReplyInThread(t: Tables, viewer: Option<UserId>, c: CommentId, p: CommentId, k: CommentId)
    requires c in t.comments && ParentsPrecede(t.comments)
    requires p in ThreadIds(Thread(t, viewer, c))
    requires k in t.comments && k < t.nextCommentId && t.comments[k].parent == Some(p)
    ensures k in ThreadIds(Thread(t, viewer, c))
    decreases t.nextCommentId - c
  {
    var r, kids := Thread(t, viewer, c), Replies(t, c);
    if p == c {
      assert k in kids;
      var i :| 0 <= i < |kids| && kids[i] == k;
      ThreadChild(t, viewer, c, i);
      InReplyIds(r, i, k);
    } else {
      ReplyIdsOf(r, p);
      var i :| 0 <= i < |r.replies| && p in ThreadIds(r.replies[i]);
      ThreadChild(t, viewer, c, i);
      ReplyInThread(t, viewer, kids[i], p, k);
      InReplyIds(r, i, k);
    }
  }

  /** Every comment that a delete of c removes is shown in the tree under c. */
  lemma {:induction false} CascadeWithinThread(t: Tables, viewer: Option<UserId>, c: CommentId, k: CommentId)
    requires c in t.comments && ParentsPrecede(t.comments)
    requires k in Cascade(t.comments, {c}, t.nextCommentId)
    ensures k in ThreadIds(Thread(t, viewer, c))
    decreases k
  {
    if k != c {
      var p := t.comments[k].parent.value;
      CascadeWithinThread(t, viewer, c, p);
      ReplyInThread(t, viewer, c, p, k);
    }
  }

  /** The tree of replies the serializer nests under a comment holds exactly the comments
      that deleting it removes through `on_delete=CASCADE`. */
  lemma ThreadIsCascade(t: Tables, viewer: Option<UserId>, c: CommentId)
    requires c in t.comments && c < t.nextCommentId && ParentsPrecede(t.comments)
    ensures ThreadIds(Thread(t, viewer, c)) == Cascade(t.comments, {c}, t.nextCommentId)
  {
    forall x | x in ThreadIds(Thread(t, viewer, c))
      ensures x in Cascade(t.comments, {c}, t.nextCommentId)
    {
      ThreadWithinCascade(t, viewer, c, {c}, x);
    }
    forall k | k in Cascade(t.comments, {c}, t.nextCommentId)
      ensures k in ThreadIds(Thread(t, viewer, c))
    {
      CascadeWithinThread(t, viewer, c, k);
    }
  }

  /** A reply may name a parent on another post; it is then shown under that parent, in the
      listing of the parent's post, and never at the top of its own post's listing. */
  lemma ReplyShownUnderParent(t: Tables, viewer: Option<UserId>, c: CommentId, k: CommentId)
    requires c in t.comments && ParentsPrecede(t.comments)
    requires k in t.comments && k < t.nextCommentId && t.comments[k].parent == Some(c)
    ensures k in ThreadIds(Thread(t, viewer, c))
    ensures k !in TopLevelComments(t, t.comments[k].post)
  {
    assert c in ThreadIds(Thread(t, viewer, c));
    ReplyInThread(t, viewer, c, c, k);
  }
}
