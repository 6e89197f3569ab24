/** What the room serializer computes beyond the stored columns: how many of the room's
    messages the viewer has not read, and the room's last message. The viewer is `None` for
    a request without an authenticated user. */
module ChatSerializers {
  import opened Common
  import opened AccountsModels
  import opened ChatModels
  import opened Db
  import opened ChatViews

  /** The messages of `room` whose `read_by` does not hold `reader`. */
  function UnreadIn(messages: map<MessageId, Message>, room: RoomId, reader: UserId): set<MessageId>
  {
    set k | k in messages && messages[k].room == room && reader !in messages[k].readBy
  }

  /** The messages of `room` that `sender` sent. */
  function SentIn(messages: map<MessageId, Message>, room: RoomId, sender: UserId): set<MessageId>
  {
    set k | k in messages && messages[k].room == room && messages[k].sender == sender
  }

  /** `ChatRoomSerializer.get_unread_count`. */
  function UnreadCount(t: Tables, viewer: Option<UserId>, room: RoomId): (r: nat)
    ensures viewer.None? ==> r == 0
  {
    if viewer.None? then 0 else |UnreadIn(t.messages, room, viewer.value)|
  }

  /** Nobody is in `read_by` of their own message, so a viewer's own messages always count
      as unread for them. */
  lemma OwnMessagesCountAsUnread(t: Tables, viewer: UserId, room: RoomId)
    requires TablesValid(t)
    ensures SentIn(t.messages, room, viewer) <= UnreadIn(t.messages, room, viewer)
    ensures |SentIn(t.messages, room, viewer)| <= UnreadCount(t, Some(viewer), room)
  {
    SubsetCardinality(SentIn(t.messages, room, viewer), UnreadIn(t.messages, room, viewer));
  }

  /** After the viewer marks a room read, exactly their own messages of the room remain unread
      for them: the unread count of a room right after marking it is the number of messages
      the viewer sent there, not zero. */
  lemma UnreadAfterMarkRead(t: Tables, viewer: UserId, room: RoomId)
    requires TablesValid(t)
    ensures var t' := t.(messages := MarkedRead(t.messages, ReadTargets(t.messages, t.nextMessageId, room, viewer), viewer));
      UnreadIn(t'.messages, room, viewer) == SentIn(t.messages, room, viewer) &&
      UnreadCount(t', Some(viewer), room) == |SentIn(t.messages, room, viewer)|
  {
    var targets := ReadTargets(t.messages, t.nextMessageId, room, viewer);
    var marked := MarkedRead(t.messages, targets, viewer);
    assert UnreadIn(marked, room, viewer) == SentIn(t.messages, room, viewer);
  }

  /** Marking by one reader in one room leaves every other reader's and every other room's
      unread messages as they were. */
  lemma MarkReadIsLocal(messages: map<MessageId, Message>, n: nat, room: RoomId, reader: UserId, room2: RoomId, other: UserId)
    requires room2 != room || other != reader
    ensures UnreadIn(MarkedRead(messages, ReadTargets(messages, n, room, reader), reader), room2, other) ==
      UnreadIn(messages, room2, other)
  {
  }

  /** `ChatRoomSerializer.get_last_message`: the room's newest message, or nothing for a room
      without messages. */
  function LastMessage(t: Tables, room: RoomId): (r: Option<MessageId>)
    ensures r.None? <==> forall k: MessageId :: k in t.messages && k < t.nextMessageId ==> t.messages[k].room != room
    ensures r.Some? ==> r.value in t.messages && t.messages[r.value].room == room
    ensures r.Some? ==> forall k: MessageId :: k in t.messages && r.value < k < t.nextMessageId ==> t.messages[k].room != room
  {
    var keep := (k: MessageId) => k in t.messages && t.messages[k].room == room;
    var r := Latest(t.nextMessageId, keep);
    assert r.Some? ==> keep(r.value);
    assert r.None? ==> forall k: MessageId :: k in t.messages && k < t.nextMessageId ==> !keep(k);
    assert r.Some? ==> forall k: MessageId :: k in t.messages && r.value < k < t.nextMessageId ==> !keep(k);
    r
  }

  /** The message just sent is the room's last message. */
  lemma SentMessageIsLast(t: Tables, caller: UserId, room: RoomId, content: string)
    requires room in t.rooms
    ensures LastMessage(AfterSend(t, caller, room, content), room) == Some(t.nextMessageId)
  {
  }
}
