/** The friend-request and follow endpoints: the checks each handler makes in order, the row
    it writes, and the listings it answers with. */
module FriendsViews {
  import opened Common
  import opened AccountsModels
  import opened FriendsModels
  import opened Db

  /** The target of a request to befriend `to` (the `to_user` field), or the reason it is
      refused, checked in the handler's order: a missing or zero id, an id that names no
      user, the caller themself, and an existing row from the caller to the target in any
      status. A row in the opposite direction does not block the request. */
  function RequestTarget(t: Tables, caller: UserId, to: Option<int>): (r: Result<UserId>)
    ensures r == Err(MissingField) <==> to.None? || to.value == 0
    ensures r == Err(NotFound) <==> to.Some? && to.value != 0 && (to.value < 0 || to.value !in t.users)
    ensures r == Err(SelfReference) <==> to.Some? && to.value != 0 && to.value in t.users && to.value == caller
    ensures r == Err(Duplicate) <==>
      to.Some? && to.value > 0 && to.value in t.users && to.value != caller && HasRequest(t.friendships, caller, to.value)
    ensures r.Ok? <==>
      to.Some? && to.value > 0 && to.value in t.users && to.value != caller && !HasRequest(t.friendships, caller, to.value)
    ensures r.Ok? ==> r.value == to.value
  {
    if to.None? || to.value == 0 then Err(MissingField)
    else if to.value < 0 || to.value !in t.users then Err(NotFound)
    else if to.value == caller then Err(SelfReference)
    else if HasRequest(t.friendships, caller, to.value) then Err(Duplicate)
    else Ok(to.value)
  }

  /** In a valid database no user has id 0, so the check for a missing or zero id turns no
      user away: every other user the caller has not asked yet can be asked. */
  lemma EveryOtherUserCanBeAsked(t: Tables, caller: UserId, to: UserId)
    requires TablesValid(t) && to in t.users && to != caller && !HasRequest(t.friendships, caller, to)
    ensures RequestTarget(t, caller, Some(to)) == Ok(to)
  {
  }

  /** The database after a new pending request from `from` to `to`. */
  function AfterRequest(t: Tables, from: UserId, to: UserId): Tables
  {
    t.(friendships := t.friendships[t.nextFriendshipId := Friendship(from, to, Pending)],
       nextFriendshipId := t.nextFriendshipId + 1)
  }

  /** A request that passed the checks keeps every table valid, the uniqueness of ordered pairs
      included. */
  lemma RequestKeepsValid(t: Tables, from: UserId, to: UserId)
    requires TablesValid(t)
    requires from in t.users && to in t.users && from != to && !HasRequest(t.friendships, from, to)
    ensures TablesValid(AfterRequest(t, from, to))
  {
    var fs, id := t.friendships, t.nextFriendshipId;
    var fs' := fs[id := Friendship(from, to, Pending)];
    forall i, j | SamePair(fs', i, j)
      ensures i == j
    {
      if i != id && j != id {
        assert SamePair(fs, i, j);
      }
    }
  }

  /** A pending row counts for nobody, so counters that matched the accepted rows still do. */
  lemma RequestKeepsFriendCounters(t: Tables, from: UserId, to: UserId)
    requires FriendCountersMatch(t.users, t.friendships)
    requires t.nextFriendshipId !in t.friendships
    ensures FriendCountersMatch(AfterRequest(t, from, to).users, AfterRequest(t, from, to).friendships)
  {
    var fs' := AfterRequest(t, from, to).friendships;
    forall u | u in t.users
      ensures AcceptedFrom(fs', u) == AcceptedFrom(t.friendships, u)
      ensures AcceptedTo(fs', u) == AcceptedTo(t.friendships, u)
    {
    }
  }

  /** `SendFriendRequestView.post`: on success a pending row from the caller to the target is
      created under the next id (answered with 201); on a refusal nothing changes. */
  method SendFriendRequest(s: Store, caller: UserId, to: Option<int>) returns (r: Result<FriendshipId>)
    requires s.Valid() && caller in s.db.users
    modifies s
    ensures s.Valid()
    ensures r.Err? ==> RequestTarget(old(s.db), caller, to) == Err(r.error) && s.db == old(s.db)
    ensures r.Ok? ==>
      RequestTarget(old(s.db), caller, to).Ok? && r.value == old(s.db).nextFriendshipId &&
      s.db == AfterRequest(old(s.db), caller, RequestTarget(old(s.db), caller, to).value)
  {
    var target := RequestTarget(s.db, caller, to);
    if target.Err? {
      return Err(target.error);
    }
    RequestKeepsValid(s.db, caller, target.value);
    r := Ok(s.db.nextFriendshipId);
    s.db := AfterRequest(s.db, caller, target.value);
  }

  /** The row `id` is a pending request addressed to the caller: the only rows the accept and
      reject endpoints find. */
  predicate PendingFor(t: Tables, caller: UserId, id: FriendshipId)
  {
    id in t.friendships && t.friendships[id].toUser == caller && t.friendships[id].status == Pending
  }

  /** `AcceptFriendRequestView.post`: a pending request addressed to the caller is accepted,
      with the counter effect of `Friendship.accept`; any other id is answered with 404. */
  method AcceptRequest(s: Store, caller: UserId, id: FriendshipId) returns (r: Result<FriendshipId>)
    requires s.Valid()
    modifies s
    ensures s.Valid()
    ensures r.Ok? <==> PendingFor(old(s.db), caller, id)
    ensures r.Err? ==> r.error == NotFound && s.db == old(s.db)
    ensures r.Ok? ==> r.value == id && s.db == AfterAccept(old(s.db), id)
  {
    if !PendingFor(s.db, caller, id) {
      return Err(NotFound);
    }
    s.AcceptFriendship(id);
    r := Ok(id);
  }

  /** `RejectFriendRequestView.post`: the same lookup, and the request becomes rejected. */
  method RejectRequest(s: Store, caller: UserId, id: FriendshipId) returns (r: Result<FriendshipId>)
    requires s.Valid()
    modifies s
    ensures s.Valid()
    ensures r.Ok? <==> PendingFor(old(s.db), caller, id)
    ensures r.Err? ==> r.error == NotFound && s.db == old(s.db)
    ensures r.Ok? ==>
      r.value == id && s.db == old(s.db).(friendships := WithStatus(old(s.db).friendships, id, Rejected))
  {
    if !PendingFor(s.db, caller, id) {
      return Err(NotFound);
    }
    s.RejectFriendship(id);
    r := Ok(id);
  }

  /** Rejecting a pending request leaves the accepted rows, and so the counters' reading, as
      they were. */
  lemma RejectPendingKeepsFriendCounters(users: map<UserId, User>, fs: map<FriendshipId, Friendship>, id: FriendshipId)
    requires FriendCountersMatch(users, fs)
    requires id in fs && fs[id].status == Pending
    ensures FriendCountersMatch(users, WithStatus(fs, id, Rejected))
  {
    var fs' := WithStatus(fs, id, Rejected);
    forall u | u in users
      ensures AcceptedFrom(fs', u) == AcceptedFrom(fs, u) && AcceptedTo(fs', u) == AcceptedTo(fs, u)
    {
    }
  }

  /** Every request the three handlers process is pending, so along any sequence of sends,
      accepts and rejects through the API the counters keep matching the accepted rows. */
  lemma HandlersKeepFriendCounters(t: Tables, caller: UserId, id: FriendshipId)
    requires TablesValid(t) && FriendCountersMatch(t.users, t.friendships)
    requires PendingFor(t, caller, id)
    ensures FriendCountersMatch(AfterAccept(t, id).users, AfterAccept(t, id).friendships)
    ensures FriendCountersMatch(t.users, WithStatus(t.friendships, id, Rejected))
  {
    AcceptPendingKeepsFriendCounters(t.users, t.friendships, id);
    RejectPendingKeepsFriendCounters(t.users, t.friendships, id);
  }

  /** The reason a follow toggle toward `target` is refused, or Ok when it goes ahead. */
  function FollowTarget(t: Tables, caller: UserId, target: UserId): (r: Result<UserId>)
    ensures r == Err(NotFound) <==> target !in t.users
    ensures r == Err(SelfReference) <==> target in t.users && target == caller
    ensures r.Ok? <==> target in t.users && target != caller
    ensures r.Ok? ==> r.value == target
  {
    if target !in t.users then Err(NotFound)
    else if target == caller then Err(SelfReference)
    else Ok(target)
  }

  /** Toggling a follow between two distinct users keeps every table valid. */
  lemma FollowToggleKeepsValid(t: Tables, a: UserId, b: UserId)
    requires TablesValid(t) && a in t.users && b in t.users && a != b
    ensures TablesValid(t.(follows := Toggle(t.follows, (a, b))))
  {
  }

  /** `FollowUserView.post`: `get_or_create` then delete when the row existed. The answer says
      whether the caller now follows the target (201 when a row was created, 200 when one was
      deleted). No counter changes. */
  method ToggleFollow(s: Store, caller: UserId, target: UserId) returns (r: Result<bool>)
    requires s.Valid() && caller in s.db.users
    modifies s
    ensures s.Valid()
    ensures r.Err? ==> FollowTarget(old(s.db), caller, target) == Err(r.error) && s.db == old(s.db)
    ensures r.Ok? ==> FollowTarget(old(s.db), caller, target).Ok?
    ensures r.Ok? ==>
      (r.value <==> (caller, target) !in old(s.db).follows) &&
      s.db == old(s.db).(follows := Toggle(old(s.db).follows, (caller, target)))
  {
    var checked := FollowTarget(s.db, caller, target);
    if checked.Err? {
      return Err(checked.error);
    }
    FollowToggleKeepsValid(s.db, caller, target);
    r := Ok((caller, target) !in s.db.follows);
    s.db := s.db.(follows := Toggle(s.db.follows, (caller, target)));
  }

  /** `FriendRequestListView`: the pending requests addressed to the caller, newest first. */
  function IncomingRequests(t: Tables, caller: UserId): (r: seq<FriendshipId>)
    ensures forall id :: id in r <==>
      id < t.nextFriendshipId && id in t.friendships && t.friendships[id].toUser == caller && t.friendships[id].status == Pending
    ensures forall i, j :: 0 <= i < j < |r| ==> r[i] > r[j]
  {
    Descending(t.nextFriendshipId, id => id in t.friendships && t.friendships[id].toUser == caller && t.friendships[id].status == Pending)
  }

  /** `FriendsListView`: the accepted rows the caller sent or received, newest first. */
  function FriendsList(t: Tables, caller: UserId): (r: seq<FriendshipId>)
    ensures forall id :: id in r <==>
      id < t.nextFriendshipId && id in t.friendships && t.friendships[id].status == Accepted &&
      (t.friendships[id].fromUser == caller || t.friendships[id].toUser == caller)
    ensures forall i, j :: 0 <= i < j < |r| ==> r[i] > r[j]
  {
    Descending(t.nextFriendshipId, id => id in t.friendships && t.friendships[id].status == Accepted &&
      (t.friendships[id].fromUser == caller || t.friendships[id].toUser == caller))
  }

  /** The caller's incoming requests and their friends never overlap: a row is listed by at
      most one of the two endpoints. */
  lemma IncomingAndFriendsDisjoint(t: Tables, caller: UserId, id: FriendshipId)
    ensures !(id in IncomingRequests(t, caller) && id in FriendsList(t, caller))
  {
  }

  /** `FollowersListView` and `FollowingListView`: the Follow rows targeting, and the rows
      leaving, the user of the URL. The id is not looked up. */
  function Followers(t: Tables, user: UserId): (r: set<(UserId, UserId)>)
    ensures forall p :: p in r <==> p in t.follows && p.1 == user
  {
    PairsWith(t.follows, user)
  }

  function Following(t: Tables, user: UserId): (r: set<(UserId, UserId)>)
    ensures forall p :: p in r <==> p in t.follows && p.0 == user
  {
    PairsFrom(t.follows, user)
  }

  /** Following someone puts the caller among their followers and the target among the
      caller's followings; unfollowing takes both out again. */
  lemma FollowListsAfterToggle(t: Tables, caller: UserId, target: UserId)
    ensures var t' := t.(follows := Toggle(t.follows, (caller, target)));
      ((caller, target) in Followers(t', target) <==> (caller, target) !in Followers(t, target)) &&
      ((caller, target) in Following(t', caller) <==> (caller, target) !in Following(t, caller))
  {
  }
}
