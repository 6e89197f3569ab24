/** Friendship (request state machine) and Follow (one-way toggle) rows, with the counter
    effect of `Friendship.accept` and the invariants the counters do or do not keep. */
module FriendsModels {
  import opened Common
  import opened AccountsModels

  type FriendshipId = nat

  /** The four declared states; a new row is Pending. Nothing in the code ever sets Blocked. */
  datatype Status = Pending | Accepted | Rejected | Blocked

  datatype Friendship = Friendship(fromUser: UserId, toUser: UserId, status: Status)

  /** At most one row per ordered (from_user, to_user) pair. */
  ghost predicate PairsUnique(fs: map<FriendshipId, Friendship>)
  {
    forall i, j :: SamePair(fs, i, j) ==> i == j
  }

  /** Two rows for the same ordered pair. */
  predicate SamePair(fs: map<FriendshipId, Friendship>, i: FriendshipId, j: FriendshipId)
  {
    i in fs && j in fs && fs[i].fromUser == fs[j].fromUser && fs[i].toUser == fs[j].toUser
  }

  /** Ids come from the counter, both endpoints are users, nobody befriends themself
      (the send handler refuses it), and ordered pairs are unique. */
  ghost predicate FriendshipsValid(fs: map<FriendshipId, Friendship>, next: nat, userIds: set<UserId>)
  {
    (forall id :: id in fs ==>
       id < next && fs[id].fromUser in userIds && fs[id].toUser in userIds && fs[id].fromUser != fs[id].toUser) &&
    PairsUnique(fs)
  }

  /** A row for the ordered pair (from, to) exists, whatever its status. */
  predicate HasRequest(fs: map<FriendshipId, Friendship>, from: UserId, to: UserId)
  {
    exists id | id in fs :: fs[id].fromUser == from && fs[id].toUser == to
  }

  /** Follow rows join two distinct users; the set itself makes (follower, following) unique. */
  ghost predicate FollowsValid(follows: set<(UserId, UserId)>, userIds: set<UserId>)
  {
    forall p :: p in follows ==> p.0 in userIds && p.1 in userIds && p.0 != p.1
  }

  /** The counter effect of `Friendship.accept` on the two user instances the row holds:
      `from` gets one more following and is saved whole, then `to` gets one more follower and
      is saved whole. Every other user row stays. */
  function AcceptCopies(users: map<UserId, User>, f: Friendship, from: User, to: User): (r: map<UserId, User>)
    requires f.fromUser in users && f.toUser in users
    ensures r.Keys == users.Keys
    ensures f.fromUser != f.toUser ==> r[f.fromUser] == from.(followingCount := from.followingCount + 1)
    ensures r[f.toUser] == to.(followersCount := to.followersCount + 1)
    ensures forall u :: u in users && u != f.fromUser && u != f.toUser ==> r[u] == users[u]
  {
    users[f.fromUser := from.(followingCount := from.followingCount + 1)]
         [f.toUser := to.(followersCount := to.followersCount + 1)]
  }

  /** The counter effect of `Friendship.accept`: the sender follows one more, the recipient
      has one more follower, and nobody else changes. It does not look at the status. Sender
      and recipient are loaded as two separate records and saved in that order, so were they
      the same user only the recipient's write would survive. */
  function AcceptCounters(users: map<UserId, User>, f: Friendship): (r: map<UserId, User>)
    requires f.fromUser in users && f.toUser in users
    ensures r.Keys == users.Keys
    ensures f.fromUser != f.toUser ==>
      r[f.fromUser] == users[f.fromUser].(followingCount := users[f.fromUser].followingCount + 1)
    ensures r[f.toUser] == users[f.toUser].(followersCount := users[f.toUser].followersCount + 1)
    ensures forall u :: u in users && u != f.fromUser && u != f.toUser ==> r[u] == users[u]
  {
    var from, to := users[f.fromUser], users[f.toUser];
    users[f.fromUser := from.(followingCount := from.followingCount + 1)]
         [f.toUser := to.(followersCount := to.followersCount + 1)]
  }

  function WithStatus(fs: map<FriendshipId, Friendship>, id: FriendshipId, s: Status): map<FriendshipId, Friendship>
    requires id in fs
  {
    fs[id := fs[id].(status := s)]
  }

  /** A status change keeps the table valid: endpoints and ids stay as they were. */
  lemma WithStatusKeepsFriendshipsValid(fs: map<FriendshipId, Friendship>, next: nat, userIds: set<UserId>, id: FriendshipId, s: Status)
    requires FriendshipsValid(fs, next, userIds) && id in fs
    ensures FriendshipsValid(WithStatus(fs, id, s), next, userIds)
  {
    var fs' := WithStatus(fs, id, s);
    forall i, j | SamePair(fs', i, j)
      ensures i == j
    {
      assert SamePair(fs, i, j);
    }
  }

  /** Accepted rows sent by u and accepted rows received by u. */
  function AcceptedFrom(fs: map<FriendshipId, Friendship>, u: UserId): set<FriendshipId>
  {
    set id | id in fs && fs[id].status == Accepted && fs[id].fromUser == u
  }

  function AcceptedTo(fs: map<FriendshipId, Friendship>, u: UserId): set<FriendshipId>
  {
    set id | id in fs && fs[id].status == Accepted && fs[id].toUser == u
  }

  /** The reading of the counters that the accept path maintains: following_count counts the
      accepted requests a user sent, followers_count the accepted requests they received. */
  ghost predicate FriendCountersMatch(users: map<UserId, User>, fs: map<FriendshipId, Friendship>)
  {
    forall u :: u in users ==>
      users[u].followingCount == |AcceptedFrom(fs, u)| && users[u].followersCount == |AcceptedTo(fs, u)|
  }

  /** Marking a row that was not accepted as Accepted adds it to its sender's accepted rows
      and to no one else's. */
  lemma AcceptedFromAfterAccept(fs: map<FriendshipId, Friendship>, id: FriendshipId, u: UserId)
    requires id in fs && fs[id].status != Accepted
    ensures AcceptedFrom(WithStatus(fs, id, Accepted), u) ==
      if fs[id].fromUser == u then AcceptedFrom(fs, u) + {id} else AcceptedFrom(fs, u)
  {
  }

  lemma AcceptedToAfterAccept(fs: map<FriendshipId, Friendship>, id: FriendshipId, u: UserId)
    requires id in fs && fs[id].status != Accepted
    ensures AcceptedTo(WithStatus(fs, id, Accepted), u) ==
      if fs[id].toUser == u then AcceptedTo(fs, u) + {id} else AcceptedTo(fs, u)
  {
  }

  /** Accepting a pending request through the handler keeps the counters equal to the
      accepted rows. */
  lemma AcceptPendingKeepsFriendCounters(users: map<UserId, User>, fs: map<FriendshipId, Friendship>, id: FriendshipId)
    requires FriendCountersMatch(users, fs)
    requires id in fs && fs[id].status == Pending
    requires fs[id].fromUser in users && fs[id].toUser in users && fs[id].fromUser != fs[id].toUser
    ensures FriendCountersMatch(AcceptCounters(users, fs[id]), WithStatus(fs, id, Accepted))
  {
    var users', fs' := AcceptCounters(users, fs[id]), WithStatus(fs, id, Accepted);
    forall u | u in users'
      ensures users'[u].followingCount == |AcceptedFrom(fs', u)|
      ensures users'[u].followersCount == |AcceptedTo(fs', u)|
    {
      AcceptedFromAfterAccept(fs, id, u);
      AcceptedToAfterAccept(fs, id, u);
    }
  }

  /** Accepting a row that is already accepted (what the bulk admin action does) still adds
      to both counters, so they no longer equal the accepted rows. */
  lemma AcceptAgainInflatesFriendCounters(users: map<UserId, User>, fs: map<FriendshipId, Friendship>, id: FriendshipId)
    requires FriendCountersMatch(users, fs)
    requires id in fs && fs[id].status == Accepted
    requires fs[id].fromUser in users && fs[id].toUser in users && fs[id].fromUser != fs[id].toUser
    ensures !FriendCountersMatch(AcceptCounters(users, fs[id]), WithStatus(fs, id, Accepted))
  {
    var f := fs[id];
    assert WithStatus(fs, id, Accepted) == fs;
    assert AcceptCounters(users, f)[f.fromUser].followingCount == |AcceptedFrom(fs, f.fromUser)| + 1;
  }

  /** Rejecting an accepted row subtracts nothing, so the counters overstate the accepted rows. */
  lemma RejectAcceptedLeavesFriendCounters(users: map<UserId, User>, fs: map<FriendshipId, Friendship>, id: FriendshipId)
    requires FriendCountersMatch(users, fs)
    requires id in fs && fs[id].status == Accepted && fs[id].fromUser in users
    ensures !FriendCountersMatch(users, WithStatus(fs, id, Rejected))
  {
    var u := fs[id].fromUser;
    assert AcceptedFrom(fs, u) == AcceptedFrom(WithStatus(fs, id, Rejected), u) + {id};
  }

  /** The reading of followers_count / following_count as the number of Follow rows. */
  ghost predicate FollowCountersMatch(users: map<UserId, User>, follows: set<(UserId, UserId)>)
  {
    forall u :: u in users ==>
      users[u].followersCount == |PairsWith(follows, u)| && users[u].followingCount == |PairsFrom(follows, u)|
  }

  /** The follow toggle changes the Follow rows but no counter, so counters that matched the
      Follow rows before a toggle never match them after it. */
  lemma FollowToggleBreaksFollowCounters(users: map<UserId, User>, follows: set<(UserId, UserId)>, a: UserId, b: UserId)
    requires FollowCountersMatch(users, follows) && b in users
    ensures !FollowCountersMatch(users, Toggle(follows, (a, b)))
  {
    PairsWithToggle(follows, a, b, b);
  }
}
