/** The database as one value: every table of the core, the next id of each table, and a
    logical clock standing for `updated_at` of chat rooms. `TablesValid` collects the schema
    rules and the counter invariants the code keeps; the counters it does not keep are stated,
    and shown to drift, in the models modules. The `Store` object holds the current database
    and is what the request handlers change. */
module Db {
  import opened Common
  import opened AccountsModels
  import opened FriendsModels
  import opened PostsModels
  import opened ChatModels

  datatype Tables = Tables(
    users: map<UserId, User>, nextUserId: nat,
    friendships: map<FriendshipId, Friendship>, nextFriendshipId: nat,
    follows: set<(UserId, UserId)>,
    posts: map<PostId, Post>, nextPostId: nat,
    likes: set<(UserId, PostId)>,
    comments: map<CommentId, Comment>, nextCommentId: nat,
    commentLikes: set<(UserId, CommentId)>,
    rooms: map<RoomId, Room>, nextRoomId: nat,
    messages: map<MessageId, Message>, nextMessageId: nat,
    clock: nat)

  /** Friendship and Follow rows join existing users. */
  ghost predicate FriendsOk(t: Tables)
  {
    FriendshipsValid(t.friendships, t.nextFriendshipId, t.users.Keys) && FollowsValid(t.follows, t.users.Keys)
  }

  /** Posts and Like rows reference existing rows; `likes_count` and `posts_count` are in step. */
  ghost predicate PostsOk(t: Tables)
  {
    PostsValid(t.posts, t.nextPostId, t.users.Keys) &&
    LikesValid(t.likes, t.users.Keys, t.posts.Keys) && LikeCountsMatch(t.posts, t.likes) &&
    PostCountsMatch(t.users, t.posts)
  }

  /** Comments and CommentLike rows reference existing rows; comment `likes_count` is in step. */
  ghost predicate CommentsOk(t: Tables)
  {
    CommentsValid(t.comments, t.nextCommentId, t.users.Keys, t.posts.Keys) &&
    CommentLikesValid(t.commentLikes, t.users.Keys, t.comments.Keys) &&
    CommentLikeCountsMatch(t.comments, t.commentLikes)
  }

  /** Rooms and messages reference existing rows. */
  ghost predicate ChatOk(t: Tables)
  {
    RoomsValid(t.rooms, t.nextRoomId, t.users.Keys, t.clock) &&
    MessagesValid(t.messages, t.nextMessageId, t.rooms.Keys, t.users.Keys)
  }

  ghost predicate TablesValid(t: Tables)
  {
    UsersValid(t.users, t.nextUserId) && FriendsOk(t) && PostsOk(t) && CommentsOk(t) && ChatOk(t)
  }

  /** A fresh database with no rows; every auto-increment counter issues 1 first. */
  function EmptyTables(): Tables
  {
    Tables(map[], 1, map[], 1, {}, map[], 1, {}, map[], 1, {}, map[], 1, map[], 1, 0)
  }

  /** The invariant is the conjunction of its groups. */
  lemma GroupsMakeValid(t: Tables)
    requires UsersValid(t.users, t.nextUserId) && FriendsOk(t) && PostsOk(t) && CommentsOk(t) && ChatOk(t)
    ensures TablesValid(t)
  {
  }

  /** The groups of the invariant depend only on the tables they name and on which user ids
      (and, for comments, post ids) exist; these lemmas carry a group over a change that
      leaves its tables alone and removes no user. */
  lemma FriendsOkAfter(t: Tables, t': Tables)
    requires FriendsOk(t)
    requires t'.friendships == t.friendships && t'.nextFriendshipId == t.nextFriendshipId && t'.follows == t.follows
    requires t.users.Keys <= t'.users.Keys
    ensures FriendsOk(t')
  {
  }

  lemma ChatOkAfter(t: Tables, t': Tables)
    requires ChatOk(t)
    requires t'.rooms == t.rooms && t'.nextRoomId == t.nextRoomId && t'.clock == t.clock
    requires t'.messages == t.messages && t'.nextMessageId == t.nextMessageId
    requires t.users.Keys <= t'.users.Keys
    ensures ChatOk(t')
  {
  }

  lemma CommentsOkAfter(t: Tables, t': Tables)
    requires CommentsOk(t)
    requires t'.comments == t.comments && t'.nextCommentId == t.nextCommentId && t'.commentLikes == t.commentLikes
    requires t.users.Keys <= t'.users.Keys && t.posts.Keys <= t'.posts.Keys
    ensures CommentsOk(t')
  {
  }

  lemma PostsOkAfter(t: Tables, t': Tables)
    requires PostsOk(t)
    requires t'.posts == t.posts && t'.nextPostId == t.nextPostId && t'.likes == t.likes
    requires t'.users.Keys == t.users.Keys && forall u :: u in t.users ==> t'.users[u].postsCount == t.users[u].postsCount
    ensures PostsOk(t')
  {
    PostCountsAfterUserUpdate(t.users, t'.users, t.posts);
  }

  /** A change confined to rooms, messages, their next ids and the clock keeps every table
      valid when it keeps the chat tables valid. */
  lemma ChatChangeKeepsValid(t: Tables, t': Tables)
    requires TablesValid(t) && ChatOk(t')
    requires t' == t.(rooms := t'.rooms, nextRoomId := t'.nextRoomId, messages := t'.messages,
                      nextMessageId := t'.nextMessageId, clock := t'.clock)
    ensures TablesValid(t')
  {
    FriendsOkAfter(t, t');
    PostsOkAfter(t, t');
    CommentsOkAfter(t, t');
    GroupsMakeValid(t');
  }

  /** Rewriting user records while keeping ids, unique columns and `posts_count` keeps every
      table valid (login, logout and friendship acceptance do this). */
  lemma UserRecordsKeepValid(t: Tables, users': map<UserId, User>)
    requires TablesValid(t)
    requires users'.Keys == t.users.Keys
    requires forall u :: u in t.users ==> SameIdentity(users'[u], t.users[u]) && users'[u].postsCount == t.users[u].postsCount
    ensures TablesValid(t.(users := users'))
  {
    UsersValidAfterCounters(t.users, users', t.nextUserId);
    PostCountsAfterUserUpdate(t.users, users', t.posts);
  }

  /** A status change of a Friendship row keeps every table valid. */
  lemma StatusChangeKeepsValid(t: Tables, id: FriendshipId, s: Status)
    requires TablesValid(t) && id in t.friendships
    ensures TablesValid(t.(friendships := WithStatus(t.friendships, id, s)))
  {
    WithStatusKeepsFriendshipsValid(t.friendships, t.nextFriendshipId, t.users.Keys, id, s);
  }

  /** The database after `Friendship.accept` on row `id`. */
  function AfterAccept(t: Tables, id: FriendshipId): Tables
    requires id in t.friendships && t.friendships[id].fromUser in t.users && t.friendships[id].toUser in t.users
  {
    t.(friendships := WithStatus(t.friendships, id, Accepted), users := AcceptCounters(t.users, t.friendships[id]))
  }

  lemma AcceptedKeepsValid(t: Tables, id: FriendshipId)
    requires TablesValid(t) && id in t.friendships
    ensures TablesValid(AfterAccept(t, id))
  {
    var users' := AcceptCounters(t.users, t.friendships[id]);
    WithStatusKeepsFriendshipsValid(t.friendships, t.nextFriendshipId, t.users.Keys, id, Accepted);
    UsersValidAfterCounters(t.users, users', t.nextUserId);
    PostCountsAfterUserUpdate(t.users, users', t.posts);
  }

  /** The database after `Friendship.accept` on row `id` whose two user instances are the
      copies `from` and `to`, each saved whole. */
  function AfterAcceptWith(t: Tables, id: FriendshipId, from: User, to: User): Tables
    requires id in t.friendships && t.friendships[id].fromUser in t.users && t.friendships[id].toUser in t.users
  {
    t.(friendships := WithStatus(t.friendships, id, Accepted),
       users := AcceptCopies(t.users, t.friendships[id], from, to))
  }

  /** Row `id` exists and `from` and `to` are copies of the rows of its two users. */
  predicate CopiesOfEnds(t: Tables, id: FriendshipId, from: User, to: User)
  {
    id in t.friendships && t.friendships[id].fromUser in t.users && t.friendships[id].toUser in t.users &&
    CopyOf(from, t.users[t.friendships[id].fromUser]) && CopyOf(to, t.users[t.friendships[id].toUser])
  }

  /** Saving copies of the two users keeps every table valid, however stale their friend
      counters are. */
  lemma AcceptedWithKeepsValid(t: Tables, id: FriendshipId, from: User, to: User)
    requires TablesValid(t) && CopiesOfEnds(t, id, from, to)
    ensures TablesValid(AfterAcceptWith(t, id, from, to))
  {
    var users' := AcceptCopies(t.users, t.friendships[id], from, to);
    WithStatusKeepsFriendshipsValid(t.friendships, t.nextFriendshipId, t.users.Keys, id, Accepted);
    UsersValidAfterCounters(t.users, users', t.nextUserId);
    PostCountsAfterUserUpdate(t.users, users', t.posts);
  }

  class Store {
    var db: Tables

    ghost predicate Valid()
      reads this
    {
      TablesValid(db)
    }

    /** An empty database. */
    constructor ()
      ensures Valid() && db == EmptyTables()
    {
      db := EmptyTables();
    }

    /** `Friendship.accept`: the row becomes accepted, the sender's `following_count` and the
        recipient's `followers_count` go up by one, whatever the row's status was. */
    method AcceptFriendship(id: FriendshipId)
      requires Valid() && id in db.friendships
      modifies this
      ensures Valid()
      ensures db == AfterAccept(old(db), id)
    {
      AcceptedKeepsValid(db, id);
      db := db.(friendships := WithStatus(db.friendships, id, Accepted),
                users := AcceptCounters(db.users, db.friendships[id]));
    }

    /** `Friendship.accept` on a row instance that carries its own copies of the two users:
        the row becomes accepted and each copy, with its counter moved by one, overwrites
        that user's row. */
    method AcceptFriendshipWith(id: FriendshipId, from: User, to: User)
      requires Valid() && CopiesOfEnds(db, id, from, to)
      modifies this
      ensures Valid()
      ensures db == AfterAcceptWith(old(db), id, from, to)
    {
      AcceptedWithKeepsValid(db, id, from, to);
      db := db.(friendships := WithStatus(db.friendships, id, Accepted),
                users := AcceptCopies(db.users, db.friendships[id], from, to));
    }

    /** `Friendship.reject`: the row becomes rejected and nothing else changes. */
    method RejectFriendship(id: FriendshipId)
      requires Valid() && id in db.friendships
      modifies this
      ensures Valid()
      ensures db == old(db).(friendships := WithStatus(old(db).friendships, id, Rejected))
    {
      StatusChangeKeepsValid(db, id, Rejected);
      db := db.(friendships := WithStatus(db.friendships, id, Rejected));
    }
  }
}
