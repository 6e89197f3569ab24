/** The admin list columns of rooms and messages. */
module ChatAdmin {
  import opened Text
  import opened AccountsModels
  import opened ChatModels

  /** `MessageAdmin.content_preview`: the content, cut to its first 50 characters followed by
      "..." when it is longer. */
  function ContentPreview(m: Message): (r: string)
    ensures |m.content| <= PreviewLimit ==> r == m.content
    ensures |m.content| > PreviewLimit ==> r == m.content[..PreviewLimit] + "..."
    ensures |r| <= PreviewLimit + 3
  {
    Preview(m.content)
  }

  /** The usernames of `ids`, in order. */
  function Usernames(ids: seq<UserId>, users: map<UserId, User>): (r: seq<string>)
    requires forall i :: 0 <= i < |ids| ==> ids[i] in users
    ensures |r| == |ids| && forall i :: 0 <= i < |r| ==> r[i] == users[ids[i]].username
  {
    seq(|ids|, i requires 0 <= i < |ids| => users[ids[i]].username)
  }

  /** The participants the admin column shows: the first three of `participants.all()`. */
  function Shown(room: Room, nUsers: nat): (r: seq<UserId>)
    ensures |r| <= 3 && forall i :: 0 <= i < |r| ==> r[i] in room.participants
    ensures var order := ParticipantOrder(room.participants, nUsers);
      |r| == Min(|order|, 3) && r == order[..|r|]
  {
    var order := ParticipantOrder(room.participants, nUsers);
    order[..Min(|order|, 3)]
  }

  /** `ChatRoomAdmin.get_participants`: the shown participants' usernames joined by ", ". */
  function ParticipantsLabel(room: Room, users: map<UserId, User>, nUsers: nat): (r: string)
    requires room.participants <= users.Keys
    ensures room.participants == {} ==> r == ""
    ensures var shown := Shown(room, nUsers);
      (|shown| == 1 ==> r == users[shown[0]].username) &&
      (|shown| == 2 ==> r == users[shown[0]].username + ", " + users[shown[1]].username) &&
      (|shown| == 3 ==>
         r == users[shown[0]].username + ", " + users[shown[1]].username + ", " + users[shown[2]].username)
  {
    var names := Usernames(Shown(room, nUsers), users);
    JoinOfFew(names, ", ");
    Join(names, ", ")
  }

  /** For a direct room of two, the admin column and the room's label name the same two
      users in the same order, joined by ", " and by " & ". */
  lemma ParticipantsLabelMatchesRoomLabel(room: Room, id: RoomId, users: map<UserId, User>, nUsers: nat)
    requires room.participants <= users.Keys && room.roomType == Direct
    requires |ParticipantOrder(room.participants, nUsers)| == 2
    ensures var order := ParticipantOrder(room.participants, nUsers);
      var a, b := users[order[0]].username, users[order[1]].username;
      ParticipantsLabel(room, users, nUsers) == a + ", " + b &&
      RoomLabel(room, id, users, nUsers) == a + " & " + b
  {
    var order := ParticipantOrder(room.participants, nUsers);
    var shown := Shown(room, nUsers);
    assert shown == order;
    var names := Usernames(shown, users);
    assert names[1..] == [names[1]];
    PairHeadsAreNewest(order, room.participants, nUsers);
  }
}
