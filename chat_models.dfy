/** ChatRoom and Message rows, the two `__str__` labels, the recency order of rooms, and the
    effect of a reader marking a room's messages as read. */
module ChatModels {
  import opened Common
  import opened Text
  import opened AccountsModels

  type RoomId = nat
  type MessageId = nat

  /** The declared choices are direct and group; `objects.create` stores whatever string the
      request sent, which `Unlisted` keeps. */
  datatype RoomType = Direct | Group | Unlisted(raw: string)

  function RoomTypeName(t: RoomType): string
  {
    match t
    case Direct => "direct"
    case Group => "group"
    case Unlisted(raw) => raw
  }

  /** The `room_type` request field; it defaults to direct when absent. */
  function ParseRoomType(field: Option<string>): (r: RoomType)
    ensures field.None? ==> r == Direct
    ensures field.Some? ==> RoomTypeName(r) == field.value
    ensures r.Unlisted? ==> r.raw != "direct" && r.raw != "group"
  {
    match field
    case None => Direct
    case Some(s) => if s == "direct" then Direct else if s == "group" then Group else Unlisted(s)
  }

  /** Distinct stored room types have distinct names, so parsing a name gives the type back. */
  lemma RoomTypeRoundTrip(t: RoomType)
    requires t.Unlisted? ==> t.raw != "direct" && t.raw != "group"
    ensures ParseRoomType(Some(RoomTypeName(t))) == t
  {
  }

  /** `updated_at` is a logical time: the value of the store clock when the row was last saved. */
  datatype Room = Room(
    roomType: RoomType,
    name: string,
    participants: set<UserId>,
    createdBy: UserId,
    updatedAt: nat)

  datatype Message = Message(
    room: RoomId,
    sender: UserId,
    content: string,
    isRead: bool,
    readBy: set<UserId>)

  /** A message as it is first saved: unread and read by nobody. */
  function NewMessage(room: RoomId, sender: UserId, content: string): Message
  {
    Message(room, sender, content, false, {})
  }

  /** Room ids come from the counter; participants are users and include the creator; every
      save time lies before the clock, and no two rooms were saved at the same time. */
  ghost predicate RoomsValid(rooms: map<RoomId, Room>, next: nat, userIds: set<UserId>, clock: nat)
  {
    (forall r :: r in rooms ==>
       r < next && rooms[r].participants <= userIds && rooms[r].createdBy in rooms[r].participants &&
       rooms[r].updatedAt < clock) &&
    (forall a, b :: SavedTogether(rooms, a, b) ==> a == b)
  }

  /** Two rooms last saved at the same instant. */
  predicate SavedTogether(rooms: map<RoomId, Room>, a: RoomId, b: RoomId)
  {
    a in rooms && b in rooms && rooms[a].updatedAt == rooms[b].updatedAt
  }

  /** Message ids come from the counter; room and sender exist; readers are users other than
      the sender, and `is_read` is set exactly when somebody has read the message. */
  ghost predicate MessagesValid(messages: map<MessageId, Message>, next: nat, roomIds: set<RoomId>, userIds: set<UserId>)
  {
    forall m :: m in messages ==>
      m < next && messages[m].room in roomIds && messages[m].sender in userIds &&
      messages[m].readBy <= userIds && messages[m].sender !in messages[m].readBy &&
      (messages[m].isRead <==> messages[m].readBy != {})
  }

  /** `participants.all()`: users are listed newest first (`ordering = ['-created_at']`),
      that is by descending id. */
  function ParticipantOrder(participants: set<UserId>, nUsers: nat): (r: seq<UserId>)
    ensures forall i :: 0 <= i < |r| ==> r[i] in participants
    ensures forall u :: u in participants && u < nUsers ==> u in r
    ensures forall i, j :: 0 <= i < j < |r| ==> r[i] > r[j]
  {
    Descending(nUsers, u => u in participants)
  }

  /** `ChatRoom.__str__`: the first two participants' usernames for a direct room that has two
      or more, and otherwise the name, or "Room <id>" when the name is empty. */
  function RoomLabel(room: Room, id: RoomId, users: map<UserId, User>, nUsers: nat): (r: string)
    requires room.participants <= users.Keys
    ensures
      var order := ParticipantOrder(room.participants, nUsers);
      (room.roomType == Direct && |order| >= 2 ==>
         exists a, b :: a in room.participants && b in room.participants && b < a &&
           (forall u :: u in room.participants && u < nUsers && u != a && u != b ==> u < b) &&
           r == users[a].username + " & " + users[b].username) &&
      (!(room.roomType == Direct && |order| >= 2) && room.name != [] ==> r == room.name) &&
      (!(room.roomType == Direct && |order| >= 2) && room.name == [] ==>
         IsPrefix("Room ", r) && |r| > 5 && (forall i :: 5 <= i < |r| ==> IsDigit(r[i])) &&
         (r[5] == '0' ==> r == "Room 0") && UnnamedRoomId(r) == id)
  {
    var order := ParticipantOrder(room.participants, nUsers);
    if room.roomType == Direct && |order| >= 2 then
      PairHeadsAreNewest(order, room.participants, nUsers);
      users[order[0]].username + " & " + users[order[1]].username
    else if room.name != [] then room.name
    else
      var unnamed := "Room " + NatToString(id);
      assert unnamed[5..] == NatToString(id);
      NatToStringRoundTrip(id);
      unnamed
  }

  /** Reads the id back out of a "Room <digits>" label. */
  function UnnamedRoomId(s: string): nat
  {
    if |s| >= 5 && forall i :: 5 <= i < |s| ==> IsDigit(s[i]) then ParseDecimal(s[5..]) else 0
  }

  /** The first two entries of the newest-first listing are the two newest participants. */
  lemma PairHeadsAreNewest(order: seq<UserId>, participants: set<UserId>, nUsers: nat)
    requires |order| >= 2
    requires order == ParticipantOrder(participants, nUsers)
    ensures order[0] in participants && order[1] in participants && order[1] < order[0]
    ensures forall u :: u in participants && u < nUsers && u != order[0] && u != order[1] ==> u < order[1]
  {
    forall u | u in participants && u < nUsers && u != order[0] && u != order[1]
      ensures u < order[1]
    {
      var i :| 0 <= i < |order| && order[i] == u;
      assert i >= 2;
    }
  }

  /** Two unnamed rooms that are not labelled by their participants have distinct labels. */
  lemma UnnamedRoomLabelsDistinct(a: Room, ida: RoomId, b: Room, idb: RoomId, users: map<UserId, User>, nUsers: nat)
    requires a.participants <= users.Keys && b.participants <= users.Keys
    requires a.roomType != Direct && b.roomType != Direct && a.name == [] && b.name == []
    requires ida != idb
    ensures RoomLabel(a, ida, users, nUsers) != RoomLabel(b, idb, users, nUsers)
  {
  }

  /** `Message.__str__`: the sender's username, a colon and at most 50 characters of content. */
  function MessageLabel(m: Message, users: map<UserId, User>): (r: string)
    requires m.sender in users
    ensures IsPrefix(users[m.sender].username + ": ", r)
    ensures |r| == |users[m.sender].username| + 2 + Min(|m.content|, PreviewLimit)
    ensures IsPrefix(r[|users[m.sender].username| + 2..], m.content)
  {
    var head := users[m.sender].username + ": ";
    var r := head + Take(m.content, PreviewLimit);
    assert r[..|head|] == head;
    assert r[|head|..] == Take(m.content, PreviewLimit);
    r
  }

  /** Newest save first, as the `-updated_at` ordering lists rooms. */
  ghost predicate SortedByRecency(rooms: map<RoomId, Room>, s: seq<RoomId>)
    requires forall i :: 0 <= i < |s| ==> s[i] in rooms
  {
    forall i, j :: 0 <= i < j < |s| ==> rooms[s[i]].updatedAt >= rooms[s[j]].updatedAt
  }

  function InsertByRecency(rooms: map<RoomId, Room>, id: RoomId, s: seq<RoomId>): (r: seq<RoomId>)
    requires id in rooms && forall i :: 0 <= i < |s| ==> s[i] in rooms
    requires SortedByRecency(rooms, s)
    ensures |r| == |s| + 1
    ensures forall x :: x in r <==> x == id || x in s
    ensures forall i :: 0 <= i < |r| ==> r[i] in rooms
    ensures id !in s && Distinct(s) ==> Distinct(r)
    ensures SortedByRecency(rooms, r)
  {
    if s == [] then [id]
    else if rooms[s[0]].updatedAt <= rooms[id].updatedAt then
      DistinctCons(id, s);
      [id] + s
    else
      var rest := InsertByRecency(rooms, id, s[1..]);
      assert s == [s[0]] + s[1..];
      DistinctTail(s);
      HeadStaysFirst(rooms, s, id, rest);
      DistinctCons(s[0], rest);
      [s[0]] + rest
  }

  lemma HeadStaysFirst(rooms: map<RoomId, Room>, s: seq<RoomId>, id: RoomId, rest: seq<RoomId>)
    requires s != [] && id in rooms && forall i :: 0 <= i < |s| ==> s[i] in rooms
    requires SortedByRecency(rooms, s) && rooms[s[0]].updatedAt > rooms[id].updatedAt
    requires forall i :: 0 <= i < |rest| ==> rest[i] in rooms
    requires forall x :: x in rest ==> x == id || x in s[1..]
    requires SortedByRecency(rooms, rest)
    ensures SortedByRecency(rooms, [s[0]] + rest)
  {
    var r := [s[0]] + rest;
    forall j | 0 <= j < |rest| ensures rooms[s[0]].updatedAt >= rooms[rest[j]].updatedAt {
      assert rest[j] in rest;
      if rest[j] != id {
        var k :| 0 <= k < |s[1..]| && s[1..][k] == rest[j];
        assert s[k + 1] == rest[j];
      }
    }
    forall i, j | 0 <= i < j < |r| ensures rooms[r[i]].updatedAt >= rooms[r[j]].updatedAt {
      if i > 0 {
        assert r[i] == rest[i - 1] && r[j] == rest[j - 1];
      } else {
        assert r[j] == rest[j - 1];
      }
    }
  }

  /** The rooms `ids` listed newest save first: Django's `order_by('-updated_at')`. */
  function ByRecency(rooms: map<RoomId, Room>, ids: seq<RoomId>): (r: seq<RoomId>)
    requires forall i :: 0 <= i < |ids| ==> ids[i] in rooms
    ensures |r| == |ids|
    ensures forall x :: x in r <==> x in ids
    ensures forall i :: 0 <= i < |r| ==> r[i] in rooms
    ensures Distinct(ids) ==> Distinct(r)
    ensures SortedByRecency(rooms, r)
  {
    if ids == [] then []
    else
      var tail := ByRecency(rooms, ids[1..]);
      assert ids == [ids[0]] + ids[1..];
      DistinctTail(ids);
      InsertByRecency(rooms, ids[0], tail)
  }

  /** Inserting by recency adds exactly the one id. */
  lemma {:induction false} InsertByRecencyAddsOne(rooms: map<RoomId, Room>, id: RoomId, s: seq<RoomId>)
    requires id in rooms && forall i :: 0 <= i < |s| ==> s[i] in rooms
    requires SortedByRecency(rooms, s)
    ensures multiset(InsertByRecency(rooms, id, s)) == multiset(s) + multiset{id}
  {
    if s != [] && rooms[s[0]].updatedAt > rooms[id].updatedAt {
      InsertByRecencyAddsOne(rooms, id, s[1..]);
      assert s == [s[0]] + s[1..];
    }
  }

  /** Ordering by recency permutes the listing: every id stays, as often as it occurred. */
  lemma {:induction false} ByRecencyPermutes(rooms: map<RoomId, Room>, ids: seq<RoomId>)
    requires forall i :: 0 <= i < |ids| ==> ids[i] in rooms
    ensures multiset(ByRecency(rooms, ids)) == multiset(ids)
  {
    if ids != [] {
      var tail := ByRecency(rooms, ids[1..]);
      ByRecencyPermutes(rooms, ids[1..]);
      InsertByRecencyAddsOne(rooms, ids[0], tail);
      calc {
        multiset(ByRecency(rooms, ids));
        multiset(InsertByRecency(rooms, ids[0], tail));
        multiset(tail) + multiset{ids[0]};
        { assert ids == [ids[0]] + ids[1..]; }
        multiset(ids);
      }
    }
  }

  /** The participants a room is created with: the creator plus every requested id that names
      a user; unknown ids are skipped and repeated ids collapse. */
  function Resolved(ids: seq<nat>, users: map<UserId, User>): (r: set<UserId>)
    ensures forall u :: u in r <==> u in ids && u in users
  {
    set u | u in ids && u in users
  }

  /** The messages of `room` that `reader` must still mark: sent by someone else and not yet
      read by the reader, oldest first (`ordering = ['created_at']`). */
  function ReadTargets(messages: map<MessageId, Message>, n: nat, room: RoomId, reader: UserId): (r: seq<MessageId>)
    ensures forall k :: k in r <==>
      k < n && k in messages && messages[k].room == room && messages[k].sender != reader && reader !in messages[k].readBy
    ensures forall i, j :: 0 <= i < j < |r| ==> r[i] < r[j]
    ensures r == [] <==> forall k :: 0 <= k < n && k in messages && messages[k].room == room && messages[k].sender != reader ==>
      reader in messages[k].readBy
  {
    var keep := k => k in messages && messages[k].room == room && messages[k].sender != reader && reader !in messages[k].readBy;
    AscendingEmpty(n, keep);
    Ascending(n, keep)
  }

  /** The messages after `reader` has been added to `read_by` of each of `targets`, with
      `is_read` set on them; every other message is as it was. */
  function MarkedRead(messages: map<MessageId, Message>, targets: seq<MessageId>, reader: UserId): (r: map<MessageId, Message>)
    ensures r.Keys == messages.Keys
  {
    map k | k in messages ::
      if k in targets then messages[k].(readBy := messages[k].readBy + {reader}, isRead := true) else messages[k]
  }

  /** Marking a room read and asking again what is left to mark gives nothing: a second call
      marks no message. */
  lemma MarkReadIdempotent(messages: map<MessageId, Message>, n: nat, room: RoomId, reader: UserId)
    ensures ReadTargets(MarkedRead(messages, ReadTargets(messages, n, room, reader), reader), n, room, reader) == []
  {
  }

  /** Marking keeps the message table valid: readers stay users other than the sender, and
      `is_read` stays equivalent to a non-empty `read_by`. */
  lemma MarkedReadKeepsMessagesValid(messages: map<MessageId, Message>, next: nat, roomIds: set<RoomId>, userIds: set<UserId>, room: RoomId, reader: UserId)
    requires MessagesValid(messages, next, roomIds, userIds) && reader in userIds
    ensures MessagesValid(MarkedRead(messages, ReadTargets(messages, next, room, reader), reader), next, roomIds, userIds)
  {
  }

  /** A room saved under the next id at the current clock, holding its creator and only
      users, keeps the room table valid once the clock moves on. */
  lemma NewRoomKeepsRoomsValid(rooms: map<RoomId, Room>, next: nat, userIds: set<UserId>, clock: nat, room: Room)
    requires RoomsValid(rooms, next, userIds, clock)
    requires room.participants <= userIds && room.createdBy in room.participants && room.updatedAt == clock
    ensures RoomsValid(rooms[next := room], next + 1, userIds, clock + 1)
  {
    var rooms' := rooms[next := room];
    forall a, b | SavedTogether(rooms', a, b) ensures a == b {
      if a != next && b != next {
        assert SavedTogether(rooms, a, b);
      }
    }
  }

  /** Saving room r again (`room.save()` refreshing `updated_at`) keeps the room table valid. */
  lemma TouchedRoomKeepsRoomsValid(rooms: map<RoomId, Room>, next: nat, userIds: set<UserId>, clock: nat, r: RoomId)
    requires RoomsValid(rooms, next, userIds, clock) && r in rooms
    ensures RoomsValid(rooms[r := rooms[r].(updatedAt := clock)], next, userIds, clock + 1)
  {
    var rooms' := rooms[r := rooms[r].(updatedAt := clock)];
    forall a, b | SavedTogether(rooms', a, b) ensures a == b {
      if a != r && b != r {
        assert SavedTogether(rooms, a, b);
      }
    }
  }

  /** A fresh message from a user to an existing room keeps the message table valid. */
  lemma NewMessageKeepsMessagesValid(messages: map<MessageId, Message>, next: nat, roomIds: set<RoomId>, userIds: set<UserId>, m: Message)
    requires MessagesValid(messages, next, roomIds, userIds)
    requires m.room in roomIds && m.sender in userIds && m.readBy == {} && !m.isRead
    ensures MessagesValid(messages[next := m], next + 1, roomIds, userIds)
  {
  }

  /** Marking one more of the targets: the loop body of the mark-read handler. */
  lemma MarkOneMore(messages: map<MessageId, Message>, targets: seq<MessageId>, i: nat, reader: UserId)
    requires i < |targets| && targets[i] in messages
    requires forall a, b :: 0 <= a < b < |targets| ==> targets[a] < targets[b]
    ensures var m := targets[i];
      MarkedRead(messages, targets[..i], reader)[m] == messages[m] &&
      MarkedRead(messages, targets[..i + 1], reader) ==
        MarkedRead(messages, targets[..i], reader)[m := messages[m].(readBy := messages[m].readBy + {reader}, isRead := true)]
  {
    var m := targets[i];
    assert m !in targets[..i];
    assert targets[..i + 1] == targets[..i] + [m];
  }
}
