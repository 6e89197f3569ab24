/** The chat endpoints: creating a room (finding an existing direct room first), sending a
    message, marking a room read, and the two listings. */
module ChatViews {
  import opened Common
  import opened AccountsModels
  import opened ChatModels
  import opened Db
  import opened Text

  /** The caller is a participant of `room`: the only rooms the chat endpoints find. */
  predicate Participates(t: Tables, caller: UserId, room: RoomId)
  {
    room in t.rooms && caller in t.rooms[room].participants
  }

  /** A direct room with both users among its participants (others may be there too). */
  predicate DirectWith(t: Tables, room: RoomId, a: UserId, b: UserId)
  {
    room in t.rooms && t.rooms[room].roomType == Direct &&
    a in t.rooms[room].participants && b in t.rooms[room].participants
  }

  /** The `.first()` of the direct rooms below n shared by `a` and `b` under the
      `-updated_at` ordering: the one saved last. */
  function DirectMatch(t: Tables, a: UserId, b: UserId, n: nat): (r: Option<RoomId>)
    ensures r.Some? ==> r.value < n && DirectWith(t, r.value, a, b)
    ensures r.Some? ==> forall k: RoomId :: k < n && DirectWith(t, k, a, b) ==> t.rooms[k].updatedAt <= t.rooms[r.value].updatedAt
    ensures r.None? <==> forall k: RoomId :: k < n ==> !DirectWith(t, k, a, b)
    decreases n
  {
    if n == 0 then None
    else
      var rest := DirectMatch(t, a, b, n - 1);
      if !DirectWith(t, n - 1, a, b) then rest
      else if rest.Some? && t.rooms[rest.value].updatedAt > t.rooms[n - 1].updatedAt then rest
      else Some(n - 1)
  }

  /** The lookup does not depend on who asks: B asking for a direct room with A finds the
      room A asked for with B. */
  lemma {:induction false} DirectMatchSymmetric(t: Tables, a: UserId, b: UserId, n: nat)
    ensures DirectMatch(t, a, b, n) == DirectMatch(t, b, a, n)
  {
    if n > 0 {
      DirectMatchSymmetric(t, a, b, n - 1);
    }
  }

  /** The room a creation request stores before any participant is added beyond `ids`: the
      caller and every id that names a user, created by the caller, saved now. */
  function NewRoom(t: Tables, caller: UserId, roomType: RoomType, name: string, ids: seq<nat>): (r: Room)
    ensures forall u :: u in r.participants <==> u == caller || (u in ids && u in t.users)
    ensures r.createdBy == caller && r.updatedAt == t.clock && r.roomType == roomType && r.name == name
  {
    Room(roomType, name, {caller} + Resolved(ids, t.users), caller, t.clock)
  }

  /** The database after `room` is saved under the next id. */
  function AfterCreateRoom(t: Tables, room: Room): Tables
  {
    t.(rooms := t.rooms[t.nextRoomId := room], nextRoomId := t.nextRoomId + 1, clock := t.clock + 1)
  }

  lemma CreateRoomKeepsChat(t: Tables, room: Room)
    requires ChatOk(t)
    requires room.participants <= t.users.Keys && room.createdBy in room.participants && room.updatedAt == t.clock
    ensures ChatOk(AfterCreateRoom(t, room))
  {
    NewRoomKeepsRoomsValid(t.rooms, t.nextRoomId, t.users.Keys, t.clock, room);
  }

  lemma CreateRoomKeepsValid(t: Tables, room: Room)
    requires TablesValid(t)
    requires room.participants <= t.users.Keys && room.createdBy in room.participants && room.updatedAt == t.clock
    ensures TablesValid(AfterCreateRoom(t, room))
  {
    CreateRoomKeepsChat(t, room);
    ChatChangeKeepsValid(t, AfterCreateRoom(t, room));
  }

  /** Whether a creation request looks for an existing direct room first: the requested type
      is direct (the default) and exactly one participant id was sent. */
  predicate LooksForDirect(roomType: Option<string>, ids: seq<nat>)
  {
    ParseRoomType(roomType) == Direct && |ids| == 1
  }

  /** `ChatRoomCreateView.post`. The answer carries the room id and whether it was created
      (201) rather than found (200). An empty participant list is refused (400). */
  method CreateRoom(s: Store, caller: UserId, roomType: Option<string>, ids: seq<nat>, name: string)
    returns (r: Result<(RoomId, bool)>)
    requires s.Valid() && caller in s.db.users
    modifies s
    ensures s.Valid()
    ensures r.Err? <==> ids == []
    ensures r.Err? ==> r.error == MissingField && s.db == old(s.db)
    ensures r.Ok? && !r.value.1 ==>
      LooksForDirect(roomType, ids) && DirectMatch(old(s.db), caller, ids[0], old(s.db).nextRoomId) == Some(r.value.0) &&
      s.db == old(s.db)
    ensures r.Ok? && r.value.1 ==>
      !(LooksForDirect(roomType, ids) && DirectMatch(old(s.db), caller, ids[0], old(s.db).nextRoomId).Some?) &&
      r.value.0 == old(s.db).nextRoomId &&
      s.db == AfterCreateRoom(old(s.db), NewRoom(old(s.db), caller, ParseRoomType(roomType), name, ids))
  {
    if ids == [] {
      return Err(MissingField);
    }
    if LooksForDirect(roomType, ids) {
      var existing := DirectMatch(s.db, caller, ids[0], s.db.nextRoomId);
      if existing.Some? {
        return Ok((existing.value, false));
      }
    }
    var members := AddParticipants(caller, ids, s.db.users);
    var room := Room(ParseRoomType(roomType), name, members, caller, s.db.clock);
    CreateRoomKeepsValid(s.db, room);
    r := Ok((s.db.nextRoomId, true));
    s.db := AfterCreateRoom(s.db, room);
  }

  /** The participant loop of the creation handler: the caller first, then each requested id
      whose `User.objects.get` succeeds; an unknown id is skipped. */
  method AddParticipants(caller: UserId, ids: seq<nat>, users: map<UserId, User>) returns (members: set<UserId>)
    ensures members == {caller} + Resolved(ids, users)
  {
    members := {caller};
    var i := 0;
    while i < |ids|
      invariant 0 <= i <= |ids|
      invariant members == {caller} + Resolved(ids[..i], users)
    {
      assert ids[..i + 1] == ids[..i] + [ids[i]];
      if ids[i] in users {
        members := members + {ids[i]};
      }
      i := i + 1;
    }
    assert ids[..i] == ids;
  }

  /** Once a direct room with another user has been created, the same request from either of
      the two finds it. */
  lemma CreatedDirectRoomIsFound(t: Tables, caller: UserId, other: UserId, name: string)
    requires TablesValid(t) && caller in t.users && other in t.users
    ensures var t' := AfterCreateRoom(t, NewRoom(t, caller, Direct, name, [other]));
      DirectMatch(t', caller, other, t'.nextRoomId) == Some(t.nextRoomId) &&
      DirectMatch(t', other, caller, t'.nextRoomId) == Some(t.nextRoomId)
  {
    var t' := AfterCreateRoom(t, NewRoom(t, caller, Direct, name, [other]));
    var id := t.nextRoomId;
    assert DirectWith(t', id, caller, other);
    var m := DirectMatch(t', caller, other, t'.nextRoomId);
    if m.value != id {
      assert false;
    }
    DirectMatchSymmetric(t', caller, other, t'.nextRoomId);
  }

  /** The content a send request stores: `content` is a text field the serializer may leave
      out (the model default "") or send blank, whose surrounding whitespace it strips, and
      which it refuses when what is left holds a U+0000. */
  function CleanContent(field: Option<string>): (r: Result<string>)
    ensures field.None? ==> r == Ok("")
    ensures field.Some? ==> (r.Ok? <==> NulFree(Strip(field.value)))
    ensures r.Ok? && field.Some? ==> r.value == Strip(field.value)
    ensures r.Ok? ==> NulFree(r.value) && (r.value == [] || (!IsSpace(r.value[0]) && !IsSpace(r.value[|r.value| - 1])))
    ensures r.Err? ==> r.error == Invalid
  {
    match field
    case None => Ok("")
    case Some(c) => if NulFree(Strip(c)) then Ok(Strip(c)) else Err(Invalid)
  }

  /** Message content holding a U+0000 anywhere is refused, so no such message is sent. */
  lemma NulContentRefused(t: Tables, caller: UserId, room: Option<nat>, c: string)
    ensures CleanContent(Some(c)).Ok? <==> NulFree(c)
    ensures !NulFree(c) ==> SendCheck(t, caller, room, Some(c)) == Err(Invalid)
    ensures CleanContent(Some("\0")) == Err(Invalid)
  {
    StripKeepsNul(c);
    StripKeepsNul("\0");
    assert !NulFree("\0") by { assert "\0"[0] == '\0'; }
  }

  /** The serializer's `room` field must name an existing room and its `content` must be
      clean (400 otherwise); the handler then looks the room up among the caller's rooms
      (404 otherwise). */
  function SendCheck(t: Tables, caller: UserId, room: Option<nat>, content: Option<string>): (r: Result<RoomId>)
    ensures r == Err(Invalid) <==> room.None? || room.value !in t.rooms || CleanContent(content).Err?
    ensures r == Err(NotFound) <==>
      room.Some? && room.value in t.rooms && CleanContent(content).Ok? && !Participates(t, caller, room.value)
    ensures r.Ok? <==> room.Some? && Participates(t, caller, room.value) && CleanContent(content).Ok?
    ensures r.Ok? ==> r.value == room.value
  {
    if room.None? || room.value !in t.rooms || CleanContent(content).Err? then Err(Invalid)
    else if !Participates(t, caller, room.value) then Err(NotFound)
    else Ok(room.value)
  }

  /** The database after the caller's message is saved in `room` and the room saved again. */
  function AfterSend(t: Tables, caller: UserId, room: RoomId, content: string): Tables
    requires room in t.rooms
  {
    t.(messages := t.messages[t.nextMessageId := NewMessage(room, caller, content)],
       nextMessageId := t.nextMessageId + 1,
       rooms := t.rooms[room := t.rooms[room].(updatedAt := t.clock)],
       clock := t.clock + 1)
  }

  lemma SendKeepsChat(t: Tables, caller: UserId, room: RoomId, content: string)
    requires ChatOk(t) && room in t.rooms && caller in t.users
    ensures ChatOk(AfterSend(t, caller, room, content))
  {
    TouchedRoomKeepsRoomsValid(t.rooms, t.nextRoomId, t.users.Keys, t.clock, room);
    NewMessageKeepsMessagesValid(t.messages, t.nextMessageId, t.rooms.Keys, t.users.Keys, NewMessage(room, caller, content));
  }

  lemma SendKeepsValid(t: Tables, caller: UserId, room: RoomId, content: string)
    requires TablesValid(t) && room in t.rooms && caller in t.users
    ensures TablesValid(AfterSend(t, caller, room, content))
  {
    SendKeepsChat(t, caller, room, content);
    ChatChangeKeepsValid(t, AfterSend(t, caller, room, content));
  }

  /** `MessageCreateView.perform_create` as written, with the status DRF answers: the 404
      `Response` built for a caller outside the room is a return value `CreateAPIView.create`
      discards, so the answer is 201 although nothing is stored. */
  function SendAsWritten(t: Tables, caller: UserId, room: Option<nat>, content: Option<string>): (int, Tables)
  {
    if room.None? || room.value !in t.rooms || CleanContent(content).Err? then (400, t)
    else if !Participates(t, caller, room.value) then (201, t)
    else (201, AfterSend(t, caller, room.value, CleanContent(content).value))
  }

  /** The code as written tells a caller outside the room that the message was created;
      everywhere else it agrees with the corrected handler. */
  lemma SendAsWrittenDiffers(t: Tables, caller: UserId, room: Option<nat>, content: Option<string>)
    ensures SendCheck(t, caller, room, content) == Err(NotFound) ==>
      SendAsWritten(t, caller, room, content) == (201, t)
    ensures SendCheck(t, caller, room, content).Ok? ==>
      SendAsWritten(t, caller, room, content) == (201, AfterSend(t, caller, room.value, CleanContent(content).value))
    ensures SendCheck(t, caller, room, content) == Err(Invalid) ==>
      SendAsWritten(t, caller, room, content) == (HttpStatus(Invalid), t)
  {
  }

  /** A concrete case in a valid database: user 2 sends to room 1, whose only participant is
      user 1. */
  lemma SendAsWrittenCounterexample()
    ensures var alice := NewUser("alice", "a@x", "", "");
      var bob := NewUser("bob", "b@x", "", "");
      var t := EmptyTables().(users := map[1 := alice, 2 := bob], nextUserId := 3,
        rooms := map[1 := Room(Direct, "", {1}, 1, 0)], nextRoomId := 2, clock := 1);
      TablesValid(t) && SendAsWritten(t, 2, Some(1), Some("hi")) == (201, t) && t.messages == map[] &&
      SendCheck(t, 2, Some(1), Some("hi")) == Err(NotFound)
  {
  }

  /** `MessageCreateView` as intended: the message is stored, sent by the caller, only in a
      room the caller participates in, and the room's activity time is refreshed (201); a
      room that does not exist or a content holding U+0000 is refused by the serializer (400)
      and a room outside the caller's rooms is answered with 404; a refusal changes nothing.
      The stored text is the content as the serializer cleans it. */
  method SendMessage(s: Store, caller: UserId, room: Option<nat>, content: Option<string>) returns (r: Result<MessageId>)
    requires s.Valid() && caller in s.db.users
    modifies s
    ensures s.Valid()
    ensures r.Err? ==> SendCheck(old(s.db), caller, room, content) == Err(r.error) && s.db == old(s.db)
    ensures r.Ok? ==>
      SendCheck(old(s.db), caller, room, content).Ok? && r.value == old(s.db).nextMessageId &&
      s.db == AfterSend(old(s.db), caller, room.value, CleanContent(content).value)
  {
    var checked := SendCheck(s.db, caller, room, content);
    if checked.Err? {
      return Err(checked.error);
    }
    var text := CleanContent(content).value;
    SendKeepsValid(s.db, caller, checked.value, text);
    r := Ok(s.db.nextMessageId);
    s.db := AfterSend(s.db, caller, checked.value, text);
  }

  /** `MarkMessagesReadView.post`: in a room of the caller, every message sent by someone else
      and not yet read by the caller gets the caller in `read_by` and `is_read` set, one
      message at a time; the answer counts them (the queryset's cached rows). Another room is
      answered with 404 and nothing changes. */
  method MarkRoomRead(s: Store, caller: UserId, room: RoomId) returns (r: Result<nat>)
    requires s.Valid() && caller in s.db.users
    modifies s
    ensures s.Valid()
    ensures r.Err? <==> !Participates(old(s.db), caller, room)
    ensures r.Err? ==> r.error == NotFound && s.db == old(s.db)
    ensures r.Ok? ==>
      var targets := ReadTargets(old(s.db).messages, old(s.db).nextMessageId, room, caller);
      r.value == |targets| && s.db == old(s.db).(messages := MarkedRead(old(s.db).messages, targets, caller))
  {
    if !Participates(s.db, caller, room) {
      return Err(NotFound);
    }
    var targets := ReadTargets(s.db.messages, s.db.nextMessageId, room, caller);
    var messages := MarkEach(s.db.messages, targets, caller);
    MarkedReadKeepsMessagesValid(s.db.messages, s.db.nextMessageId, s.db.rooms.Keys, s.db.users.Keys, room, caller);
    ChatChangeKeepsValid(s.db, s.db.(messages := messages));
    s.db := s.db.(messages := messages);
    r := Ok(|targets|);
  }

  /** The loop of the mark-read handler: `read_by.add(reader)` and `is_read = True` on each
      target in turn, each saved before the next. */
  method MarkEach(messages: map<MessageId, Message>, targets: seq<MessageId>, reader: UserId)
    returns (marked: map<MessageId, Message>)
    requires forall i :: 0 <= i < |targets| ==> targets[i] in messages
    requires forall a, b :: 0 <= a < b < |targets| ==> targets[a] < targets[b]
    ensures marked == MarkedRead(messages, targets, reader)
  {
    marked := messages;
    var i := 0;
    while i < |targets|
      invariant 0 <= i <= |targets|
      invariant marked == MarkedRead(messages, targets[..i], reader)
    {
      var m := targets[i];
      MarkOneMore(messages, targets, i, reader);
      marked := marked[m := marked[m].(readBy := marked[m].readBy + {reader}, isRead := true)];
      i := i + 1;
    }
    assert targets[..i] == targets;
  }

  /** `ChatRoomListView`: the caller's rooms, most recently saved first. */
  function RoomList(t: Tables, caller: UserId): (r: seq<RoomId>)
    ensures forall k: RoomId :: k in r <==> k < t.nextRoomId && Participates(t, caller, k)
    ensures forall i :: 0 <= i < |r| ==> r[i] in t.rooms
    ensures Distinct(r)
    ensures SortedByRecency(t.rooms, r)
  {
    ByRecency(t.rooms, Ascending(t.nextRoomId, (k: RoomId) => Participates(t, caller, k)))
  }

  /** Sending a message moves its room to the top of every participant's room list. */
  lemma SentRoomListedFirst(t: Tables, caller: UserId, room: RoomId, content: string, reader: UserId)
    requires TablesValid(t) && room in t.rooms && room < t.nextRoomId
    requires reader in t.rooms[room].participants
    ensures var l := RoomList(AfterSend(t, caller, room, content), reader); l != [] && l[0] == room
  {
    var t' := AfterSend(t, caller, room, content);
    var l := RoomList(t', reader);
    assert room in l;
    if l[0] != room {
      assert false;
    }
  }

  /** `MessageListView`: the messages of a room of the caller, oldest first; nothing for any
      other room. */
  function MessageList(t: Tables, caller: UserId, room: RoomId): (r: seq<MessageId>)
    ensures !Participates(t, caller, room) ==> r == []
    ensures Participates(t, caller, room) ==>
      forall k: MessageId :: k in r <==> k < t.nextMessageId && k in t.messages && t.messages[k].room == room
    ensures forall i, j :: 0 <= i < j < |r| ==> r[i] < r[j]
  {
    if Participates(t, caller, room) then Ascending(t.nextMessageId, k => k in t.messages && t.messages[k].room == room)
    else []
  }

  /** A sent message is listed, as the newest, for every participant of its room. */
  lemma SentMessageListedLast(t: Tables, caller: UserId, room: RoomId, content: string, reader: UserId)
    requires room in t.rooms && reader in t.rooms[room].participants
    ensures var l := MessageList(AfterSend(t, caller, room, content), reader, room);
      l != [] && l[|l| - 1] == t.nextMessageId
  {
    var t' := AfterSend(t, caller, room, content);
    var l := MessageList(t', reader, room);
    assert t.nextMessageId in l;
  }
}
