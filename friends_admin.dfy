/** The two bulk actions of the Friendship admin page. Each walks the rows of its queryset,
    newest first, and calls `accept` or `reject` on every one, whatever its status, then
    reports how many rows the queryset held. */
module FriendsAdmin {
  import opened Common
  import opened AccountsModels
  import opened FriendsModels
  import opened Db

  /** Every selected id is a row of the table whose two endpoints are distinct users. */
  predicate Selectable(t: Tables, selection: seq<FriendshipId>)
  {
    forall id :: id in selection ==> Countable(t.users, t.friendships, id)
  }

  /** How many of the selected rows were sent by u, and how many were addressed to u. */
  function SentBy(fs: map<FriendshipId, Friendship>, selection: seq<FriendshipId>, u: UserId): (r: nat)
    ensures r <= |selection|
  {
    if selection == [] then 0
    else
      var last := selection[|selection| - 1];
      SentBy(fs, selection[..|selection| - 1], u) + (if last in fs && fs[last].fromUser == u then 1 else 0)
  }

  function SentTo(fs: map<FriendshipId, Friendship>, selection: seq<FriendshipId>, u: UserId): (r: nat)
    ensures r <= |selection|
  {
    if selection == [] then 0
    else
      var last := selection[|selection| - 1];
      SentTo(fs, selection[..|selection| - 1], u) + (if last in fs && fs[last].toUser == u then 1 else 0)
  }

  /** The Friendship rows after each selected row is given status `s` in turn: the selected
      rows have it and every other row is as it was. */
  function WithStatusAll(fs: map<FriendshipId, Friendship>, selection: seq<FriendshipId>, s: Status): (r: map<FriendshipId, Friendship>)
    requires forall id :: id in selection ==> id in fs
    ensures r.Keys == fs.Keys
    ensures forall id :: id in fs ==> r[id] == if id in selection then fs[id].(status := s) else fs[id]
  {
    if selection == [] then fs
    else
      var init, last := selection[..|selection| - 1], selection[|selection| - 1];
      assert forall id :: id in selection <==> id in init || id == last;
      WithStatus(WithStatusAll(fs, init, s), last, s)
  }

  /** The user rows after `accept` has counted each selected row in turn (a row that does
      not join two distinct users is passed over; a selectable selection has none). */
  function AcceptAllCounters(users: map<UserId, User>, fs: map<FriendshipId, Friendship>, selection: seq<FriendshipId>): (r: map<UserId, User>)
    ensures r.Keys == users.Keys
  {
    if selection == [] then users
    else
      var prev, last := AcceptAllCounters(users, fs, selection[..|selection| - 1]), selection[|selection| - 1];
      if Countable(users, fs, last) then AcceptCounters(prev, fs[last]) else prev
  }

  /** The row joins two distinct users. */
  predicate Countable(users: map<UserId, User>, fs: map<FriendshipId, Friendship>, id: FriendshipId)
  {
    id in fs && fs[id].fromUser in users && fs[id].toUser in users && fs[id].fromUser != fs[id].toUser
  }

  /** After the walk, u's `following_count` has grown by the number of selected rows u sent
      and `followers_count` by the number u received, a row counting once per time it is
      selected and whatever status it had; nothing else about u changes. */
  lemma {:induction false} AcceptAllCountersOf(users: map<UserId, User>, fs: map<FriendshipId, Friendship>, selection: seq<FriendshipId>, u: UserId)
    requires forall id :: id in selection ==> Countable(users, fs, id)
    requires u in users
    ensures AcceptAllCounters(users, fs, selection)[u] ==
      users[u].(followingCount := users[u].followingCount + SentBy(fs, selection, u),
                followersCount := users[u].followersCount + SentTo(fs, selection, u))
  {
    if selection != [] {
      var init, last := selection[..|selection| - 1], selection[|selection| - 1];
      assert last in selection;
      assert forall id :: id in init ==> id in selection;
      AcceptAllCountersOf(users, fs, init, u);
      var prev := AcceptAllCounters(users, fs, init);
      var f, v := fs[last], prev[u];
      var r := AcceptCounters(prev, f);
      assert SentBy(fs, selection, u) == SentBy(fs, init, u) + (if f.fromUser == u then 1 else 0);
      assert SentTo(fs, selection, u) == SentTo(fs, init, u) + (if f.toUser == u then 1 else 0);
      assert AcceptAllCounters(users, fs, selection) == r;
      if u == f.fromUser {
        assert r[u] == v.(followingCount := v.followingCount + 1);
      } else if u == f.toUser {
        assert r[u] == v.(followersCount := v.followersCount + 1);
      } else {
        assert r[u] == v;
      }
    }
  }

  /** The database after `accept` on each selected row in turn. */
  function AcceptAll(t: Tables, selection: seq<FriendshipId>): Tables
    requires Selectable(t, selection)
  {
    t.(friendships := WithStatusAll(t.friendships, selection, Accepted),
       users := AcceptAllCounters(t.users, t.friendships, selection))
  }

  /** What the accept action does, in full: every selected row becomes accepted and the
      others keep their status, each user's two counters grow by the selected rows they sent
      and received, and no other table changes. */
  lemma AcceptAllEffect(t: Tables, selection: seq<FriendshipId>)
    requires Selectable(t, selection)
    ensures var r := AcceptAll(t, selection);
      r == t.(users := r.users, friendships := r.friendships) &&
      r.friendships.Keys == t.friendships.Keys && r.users.Keys == t.users.Keys &&
      (forall id :: id in t.friendships ==>
         r.friendships[id] == if id in selection then t.friendships[id].(status := Accepted) else t.friendships[id]) &&
      (forall u :: u in t.users ==>
         r.users[u] == t.users[u].(followingCount := t.users[u].followingCount + SentBy(t.friendships, selection, u),
                                   followersCount := t.users[u].followersCount + SentTo(t.friendships, selection, u)))
  {
    forall u | u in t.users {
      AcceptAllCountersOf(t.users, t.friendships, selection, u);
    }
  }

  /** `accept` reads only the two endpoints of a row. */
  lemma AcceptCountersEndpoints(users: map<UserId, User>, f: Friendship, g: Friendship)
    requires f.fromUser in users && f.toUser in users
    requires f.fromUser == g.fromUser && f.toUser == g.toUser
    ensures AcceptCounters(users, f) == AcceptCounters(users, g)
  {
  }

  /** Accepting one more row extends the walk by one `Friendship.accept`. */
  lemma AcceptAllStep(t: Tables, selection: seq<FriendshipId>, i: nat)
    requires Selectable(t, selection) && i < |selection|
    ensures Selectable(t, selection[..i]) && Selectable(t, selection[..i + 1])
    ensures AcceptAll(t, selection[..i + 1]) == AfterAccept(AcceptAll(t, selection[..i]), selection[i])
  {
    PrefixMembers(selection, i);
    PrefixMembers(selection, i + 1);
    var id := selection[i];
    var before := AcceptAll(t, selection[..i]);
    WithStatusAllStep(t.friendships, selection, i, Accepted);
    AcceptAllCountersStep(t.users, t.friendships, selection, i);
    AcceptCountersEndpoints(before.users, t.friendships[id], before.friendships[id]);
  }

  lemma PrefixMembers(selection: seq<FriendshipId>, i: nat)
    requires i <= |selection|
    ensures forall x :: x in selection[..i] ==> x in selection
    ensures i < |selection| ==> selection[i] in selection && selection[..i + 1][..i] == selection[..i]
  {
  }

  lemma WithStatusAllStep(fs: map<FriendshipId, Friendship>, selection: seq<FriendshipId>, i: nat, s: Status)
    requires forall id :: id in selection ==> id in fs
    requires i < |selection|
    ensures forall id :: id in selection[..i + 1] ==> id in fs
    ensures WithStatusAll(fs, selection[..i + 1], s) == WithStatus(WithStatusAll(fs, selection[..i], s), selection[i], s)
  {
    PrefixMembers(selection, i + 1);
    var prefix := selection[..i + 1];
    assert prefix[..i] == selection[..i] && prefix[i] == selection[i];
  }

  lemma AcceptAllCountersStep(users: map<UserId, User>, fs: map<FriendshipId, Friendship>, selection: seq<FriendshipId>, i: nat)
    requires forall id :: id in selection ==> Countable(users, fs, id)
    requires i < |selection|
    ensures Countable(users, fs, selection[i])
    ensures AcceptAllCounters(users, fs, selection[..i + 1]) ==
      AcceptCounters(AcceptAllCounters(users, fs, selection[..i]), fs[selection[i]])
  {
    PrefixMembers(selection, i);
    var prefix := selection[..i + 1];
    assert prefix[..i] == selection[..i] && prefix[i] == selection[i];
  }

  /** The database after `reject` on each selected row in turn: only statuses change. */
  function RejectAll(t: Tables, selection: seq<FriendshipId>): Tables
    requires forall id :: id in selection ==> id in t.friendships
  {
    t.(friendships := WithStatusAll(t.friendships, selection, Rejected))
  }

  /** A valid database makes every selection of its rows selectable. */
  lemma ValidSelectable(t: Tables, selection: seq<FriendshipId>)
    requires TablesValid(t)
    requires forall id :: id in selection ==> id in t.friendships
    ensures Selectable(t, selection)
  {
  }

  /** The rows of the action's queryset: the selected ids (`pk__in`) that name rows of the
      table, in the admin's `-created_at` order, which is newest id first. */
  function AdminRows(t: Tables, selected: set<FriendshipId>): (r: seq<FriendshipId>)
    ensures forall id :: id in r ==> id in selected && id in t.friendships
  {
    Descending(t.nextFriendshipId, id => id in selected && id in t.friendships)
  }

  /** The queryset lists each row once, newest first, and in a valid database it holds
      exactly the selected rows. */
  lemma AdminRowsOrder(t: Tables, selected: set<FriendshipId>)
    ensures var r := AdminRows(t, selected);
      (forall i, j :: 0 <= i < j < |r| ==> r[i] > r[j]) && Distinct(r) &&
      (TablesValid(t) ==> forall id :: id in r <==> id in selected && id in t.friendships)
  {
  }

  /** `FriendshipAdmin.accept_requests` as it is meant to work: each row of the queryset,
      newest first, is accepted on the user rows as they stand when it is reached, and the
      reported count is the number of rows the queryset held. */
  method AcceptRequests(s: Store, selected: set<FriendshipId>) returns (count: nat)
    requires s.Valid()
    modifies s
    ensures s.Valid()
    ensures var rows := AdminRows(old(s.db), selected);
      Selectable(old(s.db), rows) && s.db == AcceptAll(old(s.db), rows) && count == |rows|
  {
    var rows := AdminRows(s.db, selected);
    ValidSelectable(s.db, rows);
    var i := 0;
    while i < |rows|
      invariant 0 <= i <= |rows|
      invariant s.Valid()
      invariant s.db == AcceptAll(old(s.db), rows[..i])
    {
      AcceptAllStep(old(s.db), rows, i);
      s.AcceptFriendship(rows[i]);
      i := i + 1;
    }
    assert rows[..i] == rows;
    count := |rows|;
  }

  /** Row `id` has u at one of its two ends. */
  predicate Touches(fs: map<FriendshipId, Friendship>, id: FriendshipId, u: UserId)
  {
    id in fs && (fs[id].fromUser == u || fs[id].toUser == u)
  }

  /** The last of the rows that has u at one of its ends, if any. */
  function LastTouch(fs: map<FriendshipId, Friendship>, rows: seq<FriendshipId>, u: UserId): (r: Option<FriendshipId>)
    ensures r.Some? ==> r.value in rows && Touches(fs, r.value, u)
    ensures r.None? <==> forall id :: id in rows ==> !Touches(fs, id, u)
  {
    if rows == [] then None
    else
      var init, last := rows[..|rows| - 1], rows[|rows| - 1];
      assert forall id :: id in rows <==> id in init || id == last;
      if Touches(fs, last, u) then Some(last) else LastTouch(fs, init, u)
  }

  /** The user rows as the action saves them. The changelist shows `from_user` and
      `to_user`, so its queryset joins each row to copies of its two users, all read before
      the loop; `accept` raises the counter it needs on those copies and saves each copy as a
      whole row. */
  function StaleAcceptCounters(users: map<UserId, User>, fs: map<FriendshipId, Friendship>, rows: seq<FriendshipId>): (r: map<UserId, User>)
    requires forall id :: id in rows ==> Countable(users, fs, id)
    ensures r.Keys == users.Keys
  {
    if rows == [] then users
    else
      var init, last := rows[..|rows| - 1], rows[|rows| - 1];
      assert last in rows && forall id :: id in init ==> id in rows;
      assert Countable(users, fs, last);
      var f := fs[last];
      AcceptCopies(StaleAcceptCounters(users, fs, init), f, users[f.fromUser], users[f.toUser])
  }

  /** As the action runs, a user's row ends as it was before the loop, moved by one for the
      last row that has them at one end: one more following if they sent it, one more
      follower if they received it; a user no row touches keeps their row. */
  lemma {:induction false} StaleAcceptCountersOf(users: map<UserId, User>, fs: map<FriendshipId, Friendship>, rows: seq<FriendshipId>, u: UserId)
    requires forall id :: id in rows ==> Countable(users, fs, id)
    requires u in users
    ensures var r, last := StaleAcceptCounters(users, fs, rows)[u], LastTouch(fs, rows, u);
      (last.None? ==> r == users[u]) &&
      (last.Some? && fs[last.value].fromUser == u ==> r == users[u].(followingCount := users[u].followingCount + 1)) &&
      (last.Some? && fs[last.value].toUser == u ==> r == users[u].(followersCount := users[u].followersCount + 1))
  {
    if rows != [] {
      StaleAcceptCountersLast(users, fs, rows, u);
      StaleAcceptCountersOf(users, fs, rows[..|rows| - 1], u);
    }
  }

  /** The last row of the walk decides u's row when it touches u, and passes it on
      otherwise. */
  lemma StaleAcceptCountersLast(users: map<UserId, User>, fs: map<FriendshipId, Friendship>, rows: seq<FriendshipId>, u: UserId)
    requires forall id :: id in rows ==> Countable(users, fs, id)
    requires rows != [] && u in users
    ensures var init, last := rows[..|rows| - 1], rows[|rows| - 1];
      (forall id :: id in init ==> Countable(users, fs, id)) && Countable(users, fs, last) &&
      LastTouch(fs, rows, u) == (if Touches(fs, last, u) then Some(last) else LastTouch(fs, init, u)) &&
      StaleAcceptCounters(users, fs, rows)[u] ==
        if fs[last].fromUser == u then users[u].(followingCount := users[u].followingCount + 1)
        else if fs[last].toUser == u then users[u].(followersCount := users[u].followersCount + 1)
        else StaleAcceptCounters(users, fs, init)[u]
  {
    var init, last := rows[..|rows| - 1], rows[|rows| - 1];
    assert last in rows && forall id :: id in init ==> id in rows;
    var f, prev := fs[last], StaleAcceptCounters(users, fs, init);
    assert StaleAcceptCounters(users, fs, rows) == AcceptCopies(prev, f, users[f.fromUser], users[f.toUser]);
  }

  /** No row touches u exactly when u sent none of them and received none. */
  lemma {:induction false} TouchCounts(fs: map<FriendshipId, Friendship>, rows: seq<FriendshipId>, u: UserId)
    ensures LastTouch(fs, rows, u).None? <==> SentBy(fs, rows, u) + SentTo(fs, rows, u) == 0
  {
    if rows != [] {
      TouchCounts(fs, rows[..|rows| - 1], u);
    }
  }

  /** A row sent by u counts for u among the rows sent, one addressed to u among the rows
      received. */
  lemma {:induction false} TouchCounted(fs: map<FriendshipId, Friendship>, rows: seq<FriendshipId>, u: UserId, id: FriendshipId)
    requires id in rows && id in fs
    ensures fs[id].fromUser == u ==> SentBy(fs, rows, u) >= 1
    ensures fs[id].toUser == u ==> SentTo(fs, rows, u) >= 1
  {
    var init, last := rows[..|rows| - 1], rows[|rows| - 1];
    if id != last {
      assert id in init by {
        assert rows == init + [last];
      }
      TouchCounted(fs, init, u, id);
    }
  }

  /** The database after the accept action as written. */
  function AcceptAllAsWritten(t: Tables, rows: seq<FriendshipId>): Tables
    requires Selectable(t, rows)
  {
    t.(friendships := WithStatusAll(t.friendships, rows, Accepted),
       users := StaleAcceptCounters(t.users, t.friendships, rows))
  }

  /** A user's row as written and as intended agree exactly when at most one row has them
      at one end; as written, the user keeps one of the counter increments the rows call
      for and loses the others. */
  lemma StaleAgreesAt(users: map<UserId, User>, fs: map<FriendshipId, Friendship>, rows: seq<FriendshipId>, u: UserId)
    requires forall id :: id in rows ==> Countable(users, fs, id)
    requires u in users
    ensures StaleAcceptCounters(users, fs, rows)[u] == AcceptAllCounters(users, fs, rows)[u] <==>
      SentBy(fs, rows, u) + SentTo(fs, rows, u) <= 1
    ensures var stale, intended, calls := StaleAcceptCounters(users, fs, rows)[u], AcceptAllCounters(users, fs, rows)[u],
        SentBy(fs, rows, u) + SentTo(fs, rows, u);
      (intended.followingCount + intended.followersCount) - (stale.followingCount + stale.followersCount) ==
        if calls == 0 then 0 else calls - 1
  {
    StaleAcceptCountersOf(users, fs, rows, u);
    AcceptAllCountersOf(users, fs, rows, u);
    TouchCounts(fs, rows, u);
    var stale, intended := StaleAcceptCounters(users, fs, rows)[u], AcceptAllCounters(users, fs, rows)[u];
    var v, sent, received := users[u], SentBy(fs, rows, u), SentTo(fs, rows, u);
    CountersDecideRow(stale, intended, v);
    assert intended.followingCount == v.followingCount + sent && intended.followersCount == v.followersCount + received;
    var last := LastTouch(fs, rows, u);
    if last.None? {
      assert sent == 0 && received == 0 && stale == v;
    } else if fs[last.value].fromUser == u {
      TouchCounted(fs, rows, u, last.value);
      assert sent >= 1;
      assert stale.followingCount == v.followingCount + 1 && stale.followersCount == v.followersCount;
    } else {
      assert Countable(users, fs, last.value);
      TouchCounted(fs, rows, u, last.value);
      assert received >= 1;
      assert stale.followingCount == v.followingCount && stale.followersCount == v.followersCount + 1;
    }
  }

  /** Two rows that differ from v at most in the friend counters are equal exactly when
      their counters are. */
  lemma CountersDecideRow(a: User, b: User, v: User)
    requires a == v.(followingCount := a.followingCount, followersCount := a.followersCount)
    requires b == v.(followingCount := b.followingCount, followersCount := b.followersCount)
    ensures a == b <==> a.followingCount == b.followingCount && a.followersCount == b.followersCount
  {
  }

  /** As written, the action stores what accepting the rows one at a time stores exactly when
      no user is at an end of more than one of them. */
  lemma AcceptAllAsWrittenDiffers(t: Tables, rows: seq<FriendshipId>)
    requires Selectable(t, rows)
    ensures AcceptAllAsWritten(t, rows) == AcceptAll(t, rows) <==>
      forall u :: u in t.users ==> SentBy(t.friendships, rows, u) + SentTo(t.friendships, rows, u) <= 1
  {
    var fs := t.friendships;
    var stale, intended := StaleAcceptCounters(t.users, fs, rows), AcceptAllCounters(t.users, fs, rows);
    if forall u :: u in t.users ==> SentBy(fs, rows, u) + SentTo(fs, rows, u) <= 1 {
      forall u | u in t.users
        ensures stale[u] == intended[u]
      {
        StaleAgreesAt(t.users, fs, rows, u);
      }
      assert stale == intended;
    } else {
      var u :| u in t.users && SentBy(fs, rows, u) + SentTo(fs, rows, u) > 1;
      StaleAgreesAt(t.users, fs, rows, u);
    }
  }

  /** Accepting distinct pending rows as written leaves the counters short of the accepted
      rows as soon as one user is at an end of two of them, where accepting them one at a
      time keeps the counters in step. */
  lemma AcceptAllAsWrittenLosesCounts(t: Tables, rows: seq<FriendshipId>, u: UserId)
    requires Selectable(t, rows) && FriendCountersMatch(t.users, t.friendships)
    requires forall id :: id in rows ==> t.friendships[id].status == Pending
    requires Distinct(rows)
    requires u in t.users && SentBy(t.friendships, rows, u) + SentTo(t.friendships, rows, u) >= 2
    ensures FriendCountersMatch(AcceptAll(t, rows).users, AcceptAll(t, rows).friendships)
    ensures !FriendCountersMatch(AcceptAllAsWritten(t, rows).users, AcceptAllAsWritten(t, rows).friendships)
  {
    AcceptAllPendingKeepsFriendCounters(t, rows);
    StaleAgreesAt(t.users, t.friendships, rows, u);
    var fs := AcceptAll(t, rows).friendships;
    var stale, intended := AcceptAllAsWritten(t, rows).users[u], AcceptAll(t, rows).users[u];
    assert intended.followingCount == |AcceptedFrom(fs, u)| && intended.followersCount == |AcceptedTo(fs, u)|;
    assert stale.followingCount != |AcceptedFrom(fs, u)| || stale.followersCount != |AcceptedTo(fs, u)|;
  }

  /** Users 1, 2 and 3 without friends, and pending requests 1 (from 1 to 2) and 2 (from 1
      to 3). */
  function TwoRequestsFromOne(): Tables
  {
    EmptyTables().(
      users := map[1 := NewUser("ann", "a@x", "", ""), 2 := NewUser("bob", "b@x", "", ""),
                   3 := NewUser("cy", "c@x", "", "")],
      nextUserId := 4,
      friendships := map[1 := Friendship(1, 2, Pending), 2 := Friendship(1, 3, Pending)],
      nextFriendshipId := 3)
  }

  lemma TwoRequestsFromOneValid()
    ensures TablesValid(TwoRequestsFromOne())
  {
    var t := TwoRequestsFromOne();
    forall a, b | EmailClash(t.users, a, b)
      ensures a == b
    {
      assert t.users[a].email[0] == t.users[b].email[0];
    }
    forall a, b | UsernameClash(t.users, a, b)
      ensures a == b
    {
      assert t.users[a].username[0] == t.users[b].username[0];
    }
    assert UsersValid(t.users, t.nextUserId);
    forall i, j | SamePair(t.friendships, i, j)
      ensures i == j
    {
      assert t.friendships[i].toUser == t.friendships[j].toUser;
    }
    assert FriendsOk(t);
    NoContentOk(t);
    GroupsMakeValid(t);
  }

  /** Tables without posts, comments, rooms or messages, whose users own no posts, keep the
      content groups of the invariant. */
  lemma NoContentOk(t: Tables)
    requires t.posts == map[] && t.likes == {} && t.comments == map[] && t.commentLikes == {}
    requires t.rooms == map[] && t.messages == map[]
    requires forall u :: u in t.users ==> t.users[u].postsCount == 0
    ensures PostsOk(t) && CommentsOk(t) && ChatOk(t)
  {
  }

  /** A queryset of two rows lists the newer one first. */
  lemma AdminRowsOfTwo(t: Tables, selected: set<FriendshipId>, a: FriendshipId, b: FriendshipId)
    requires a < b < t.nextFriendshipId && a in t.friendships && b in t.friendships
    requires forall id :: id in selected && id in t.friendships <==> id == a || id == b
    ensures AdminRows(t, selected) == [b, a]
  {
    var r := AdminRows(t, selected);
    AdminRowsOrder(t, selected);
    assert b in r && a in r;
    assert forall k :: 0 <= k < |r| ==> r[k] == a || r[k] == b;
    assert r[0] == b;
    assert r[1] == a;
    assert r[|r| - 1] == a;
    assert |r| == 2;
  }

  /** The queryset of the two requests, newest first. */
  lemma TwoRequestsRows()
    ensures AdminRows(TwoRequestsFromOne(), {1, 2}) == [2, 1]
  {
    AdminRowsOfTwo(TwoRequestsFromOne(), {1, 2}, 1, 2);
  }

  /** User 1's following count after each walk of the two requests. */
  lemma TwoRequestsFollowing()
    ensures var t := TwoRequestsFromOne();
      Selectable(t, [2, 1]) &&
      AcceptAllAsWritten(t, [2, 1]).users[1].followingCount == 1 &&
      AcceptAll(t, [2, 1]).users[1].followingCount == 2
  {
    var t := TwoRequestsFromOne();
    AcceptAllCountersOf(t.users, t.friendships, [2, 1], 1);
  }

  /** With both requests selected, the action walks row 2 and then row 1, and user 1 ends
      with one following where the two accepted requests call for two. */
  lemma AcceptAllAsWrittenCounterexample()
    ensures var t := TwoRequestsFromOne();
      TablesValid(t) && AdminRows(t, {1, 2}) == [2, 1] && Selectable(t, [2, 1]) &&
      AcceptAllAsWritten(t, [2, 1]).users[1].followingCount == 1 &&
      AcceptAll(t, [2, 1]).users[1].followingCount == 2
  {
    TwoRequestsFromOneValid();
    TwoRequestsRows();
    TwoRequestsFollowing();
  }

  /** Accepting one more row as written: `accept` on the copies of its users read before the
      loop, which agree with the rows as they stand on everything but the friend counters. */
  lemma AcceptAllAsWrittenStep(t: Tables, rows: seq<FriendshipId>, i: nat)
    requires Selectable(t, rows) && i < |rows|
    ensures Selectable(t, rows[..i]) && Selectable(t, rows[..i + 1]) && Countable(t.users, t.friendships, rows[i])
    ensures var before, f := AcceptAllAsWritten(t, rows[..i]), t.friendships[rows[i]];
      CopiesOfEnds(before, rows[i], t.users[f.fromUser], t.users[f.toUser]) &&
      AcceptAllAsWritten(t, rows[..i + 1]) == AfterAcceptWith(before, rows[i], t.users[f.fromUser], t.users[f.toUser])
  {
    PrefixMembers(rows, i);
    PrefixMembers(rows, i + 1);
    WithStatusAllStep(t.friendships, rows, i, Accepted);
    StaleAcceptCountersStep(t.users, t.friendships, rows, i);
    var f := t.friendships[rows[i]];
    var before := AcceptAllAsWritten(t, rows[..i]);
    StaleKeepsCopies(t.users, t.friendships, rows[..i], f.fromUser);
    StaleKeepsCopies(t.users, t.friendships, rows[..i], f.toUser);
    AcceptCopiesEndpoints(before.users, f, before.friendships[rows[i]], t.users[f.fromUser], t.users[f.toUser]);
  }

  lemma StaleAcceptCountersStep(users: map<UserId, User>, fs: map<FriendshipId, Friendship>, rows: seq<FriendshipId>, i: nat)
    requires forall id :: id in rows ==> Countable(users, fs, id)
    requires i < |rows|
    ensures Countable(users, fs, rows[i]) && forall id :: id in rows[..i] ==> Countable(users, fs, id)
    ensures var f := fs[rows[i]];
      StaleAcceptCounters(users, fs, rows[..i + 1]) ==
      AcceptCopies(StaleAcceptCounters(users, fs, rows[..i]), f, users[f.fromUser], users[f.toUser])
  {
    PrefixMembers(rows, i);
    var prefix := rows[..i + 1];
    assert prefix[..i] == rows[..i] && prefix[i] == rows[i];
  }

  /** Whatever the walk saves for u is a copy of u's row from before the loop. */
  lemma StaleKeepsCopies(users: map<UserId, User>, fs: map<FriendshipId, Friendship>, rows: seq<FriendshipId>, u: UserId)
    requires forall id :: id in rows ==> Countable(users, fs, id)
    requires u in users
    ensures CopyOf(users[u], StaleAcceptCounters(users, fs, rows)[u])
  {
    StaleAcceptCountersOf(users, fs, rows, u);
    var last := LastTouch(fs, rows, u);
    if last.Some? {
      assert Countable(users, fs, last.value);
    }
  }

  /** Saving copies for a row depends only on the row's two ends. */
  lemma AcceptCopiesEndpoints(users: map<UserId, User>, f: Friendship, g: Friendship, from: User, to: User)
    requires f.fromUser in users && f.toUser in users
    requires f.fromUser == g.fromUser && f.toUser == g.toUser
    ensures AcceptCopies(users, f, from, to) == AcceptCopies(users, g, from, to)
  {
  }

  /** `FriendshipAdmin.accept_requests` as written: the loop runs `accept` on the rows of the
      queryset newest first, each saving the copies of its users read before the loop, so a
      row overwrites what an earlier row saved for a user they share. */
  method AcceptRequestsAsWritten(s: Store, selected: set<FriendshipId>) returns (count: nat)
    requires s.Valid()
    modifies s
    ensures s.Valid()
    ensures var rows := AdminRows(old(s.db), selected);
      Selectable(old(s.db), rows) && s.db == AcceptAllAsWritten(old(s.db), rows) && count == |rows|
  {
    var rows := AdminRows(s.db, selected);
    ValidSelectable(s.db, rows);
    var fs, copies := s.db.friendships, s.db.users;
    var i := 0;
    while i < |rows|
      invariant 0 <= i <= |rows|
      invariant s.Valid()
      invariant s.db == AcceptAllAsWritten(old(s.db), rows[..i])
    {
      AcceptAllAsWrittenStep(old(s.db), rows, i);
      var f := fs[rows[i]];
      s.AcceptFriendshipWith(rows[i], copies[f.fromUser], copies[f.toUser]);
      i := i + 1;
    }
    assert rows[..i] == rows;
    count := |rows|;
  }

  /** `FriendshipAdmin.reject_requests`: each row of the queryset is rejected. */
  method RejectRequests(s: Store, selected: set<FriendshipId>) returns (count: nat)
    requires s.Valid()
    modifies s
    ensures s.Valid()
    ensures var rows := AdminRows(old(s.db), selected); s.db == RejectAll(old(s.db), rows) && count == |rows|
  {
    var t := s.db;
    var rows := AdminRows(t, selected);
    var i := 0;
    while i < |rows|
      invariant 0 <= i <= |rows|
      invariant s.Valid()
      invariant s.db == RejectAll(t, rows[..i])
    {
      WithStatusAllStep(t.friendships, rows, i, Rejected);
      s.RejectFriendship(rows[i]);
      i := i + 1;
    }
    assert rows[..i] == rows;
    count := |rows|;
  }

  /** Accepting a selection of distinct pending rows keeps the counters equal to the accepted
      rows, as the handler does one row at a time. */
  lemma {:induction false} AcceptAllPendingKeepsFriendCounters(t: Tables, selection: seq<FriendshipId>)
    requires Selectable(t, selection) && FriendCountersMatch(t.users, t.friendships)
    requires forall id :: id in selection ==> t.friendships[id].status == Pending
    requires Distinct(selection)
    ensures FriendCountersMatch(AcceptAll(t, selection).users, AcceptAll(t, selection).friendships)
  {
    if selection != [] {
      var n := |selection| - 1;
      var init, last := selection[..n], selection[n];
      AcceptAllStep(t, selection, n);
      DistinctPrefix(selection, n);
      AcceptAllPendingKeepsFriendCounters(t, init);
      var before := AcceptAll(t, init);
      assert before.friendships[last].status == Pending;
      AcceptPendingKeepsFriendCounters(before.users, before.friendships, last);
      assert selection[..n + 1] == selection;
    }
  }

  lemma DistinctPrefix(selection: seq<FriendshipId>, n: nat)
    requires Distinct(selection) && n < |selection|
    ensures Distinct(selection[..n]) && selection[n] !in selection[..n]
    ensures forall x :: x in selection[..n] ==> x in selection
  {
    var init := selection[..n];
    assert forall i :: 0 <= i < n ==> init[i] == selection[i];
  }

  /** The distinct selected rows that u sent. */
  function SentRows(fs: map<FriendshipId, Friendship>, selection: seq<FriendshipId>, u: UserId): set<FriendshipId>
  {
    set k | k in selection && k in fs && fs[k].fromUser == u
  }

  /** The distinct selected rows addressed to u. */
  function ReceivedRows(fs: map<FriendshipId, Friendship>, selection: seq<FriendshipId>, u: UserId): set<FriendshipId>
  {
    set k | k in selection && k in fs && fs[k].toUser == u
  }

  /** `SentBy` and `SentTo` count a row once per time it is selected, so they are at least
      the number of distinct rows. */
  lemma {:induction false} SelectedSetsBound(fs: map<FriendshipId, Friendship>, selection: seq<FriendshipId>, u: UserId)
    ensures |SentRows(fs, selection, u)| <= SentBy(fs, selection, u)
    ensures |ReceivedRows(fs, selection, u)| <= SentTo(fs, selection, u)
  {
    if selection != [] {
      var init, last := selection[..|selection| - 1], selection[|selection| - 1];
      SelectedSetsBound(fs, init, u);
      assert forall k :: k in selection <==> k in init || k == last;
      var from, to := SentRows(fs, init, u), ReceivedRows(fs, init, u);
      if last in fs && fs[last].fromUser == u {
        assert SentRows(fs, selection, u) == from + {last};
        assert |from + {last}| <= |from| + 1;
      } else {
        assert SentRows(fs, selection, u) == from;
      }
      if last in fs && fs[last].toUser == u {
        assert ReceivedRows(fs, selection, u) == to + {last};
        assert |to + {last}| <= |to| + 1;
      } else {
        assert ReceivedRows(fs, selection, u) == to;
      }
    }
  }

  /** As intended, a selection holding a row that is already accepted overstates the counters
      afterwards: that row's sender ends with a `following_count` above the number of
      accepted rows they sent, and its receiver with a `followers_count` above the number
      they received, because the row is counted again although it was already counted. */
  lemma AcceptAllOfAcceptedInflates(t: Tables, selection: seq<FriendshipId>, id: FriendshipId)
    requires Selectable(t, selection) && FriendCountersMatch(t.users, t.friendships)
    requires id in selection && t.friendships[id].status == Accepted
    ensures var r, f := AcceptAll(t, selection), t.friendships[id];
      r.users[f.fromUser].followingCount > |AcceptedFrom(r.friendships, f.fromUser)| &&
      r.users[f.toUser].followersCount > |AcceptedTo(r.friendships, f.toUser)|
    ensures !FriendCountersMatch(AcceptAll(t, selection).users, AcceptAll(t, selection).friendships)
  {
    var fs, f := t.friendships, t.friendships[id];
    var u, v := f.fromUser, f.toUser;
    var r := AcceptAll(t, selection);
    assert Countable(t.users, fs, id);
    AcceptAllCountersOf(t.users, fs, selection, u);
    AcceptAllCountersOf(t.users, fs, selection, v);
    assert r.users[u].followingCount == t.users[u].followingCount + SentBy(fs, selection, u);
    assert r.users[v].followersCount == t.users[v].followersCount + SentTo(fs, selection, v);
    assert t.users[u].followingCount == |AcceptedFrom(fs, u)| && t.users[v].followersCount == |AcceptedTo(fs, v)|;
    AcceptedAfterAll(fs, selection, u, v);
    SelectedSetsBound(fs, selection, u);
    SelectedSetsBound(fs, selection, v);
    UnionOvercount(AcceptedFrom(fs, u), SentRows(fs, selection, u), id);
    UnionOvercount(AcceptedTo(fs, v), ReceivedRows(fs, selection, v), id);
  }

  /** After the walk, u's accepted sent rows are the ones before it plus the selected ones u
      sent, and v's accepted received rows likewise. */
  lemma AcceptedAfterAll(fs: map<FriendshipId, Friendship>, selection: seq<FriendshipId>, u: UserId, v: UserId)
    requires forall id :: id in selection ==> id in fs
    ensures AcceptedFrom(WithStatusAll(fs, selection, Accepted), u) == AcceptedFrom(fs, u) + SentRows(fs, selection, u)
    ensures AcceptedTo(WithStatusAll(fs, selection, Accepted), v) == AcceptedTo(fs, v) + ReceivedRows(fs, selection, v)
  {
    var r := WithStatusAll(fs, selection, Accepted);
    forall k | k in fs
      ensures r[k].fromUser == fs[k].fromUser && r[k].toUser == fs[k].toUser
      ensures r[k].status == Accepted <==> k in selection || fs[k].status == Accepted
    {
    }
  }

  /** A union of two sets sharing an element has fewer elements than the two together. */
  lemma UnionOvercount(a: set<FriendshipId>, b: set<FriendshipId>, x: FriendshipId)
    requires x in a && x in b
    ensures |a + b| < |a| + |b|
  {
    assert x in a * b;
    assert |a + b| + |a * b| == |a| + |b|;
  }
}
