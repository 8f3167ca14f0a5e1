/**
 * The peer-side chat client: the current user, the known rooms, the room the
 * user is in, the visible message list and the invite links it made. Every
 * operation updates these fields step by step and hands messages to its
 * network manager. Each operation is specified by a step function over the
 * client's state that also lists the sends it makes, in order.
 */
module ChatClient {
  import opened Wrappers
  import opened Models
  import opened Network

  /** The observable fields of `ChatClient`. */
  datatype ClientState = ClientState(
    currentUser: Option<User>,
    rooms: seq<Room>,
    currentRoom: Option<Room>,
    messages: seq<ChatMessage>,
    inviteLinks: seq<ChatLink>)

  /** One `sendMessage(_:to:)` on the manager; `to == None` is a send to every peer. */
  datatype Send = Send(message: NetworkMessage, to: Option<PeerConnection>)

  /** A step's new state and the sends it made, in order. */
  datatype Step = Step(state: ClientState, sends: seq<Send>)

  /** The transmissions a sequence of sends produces on the manager. */
  function Transmitted(connections: seq<PeerConnection>, sends: seq<Send>, encode: NetworkMessage -> Option<Payload>): seq<Transmission> {
    if |sends| == 0 then []
    else Transmitted(connections, sends[..|sends| - 1], encode)
         + Outgoing(connections, sends[|sends| - 1].message, sends[|sends| - 1].to, encode)
  }

  lemma TransmittedOne(connections: seq<PeerConnection>, s: Send, encode: NetworkMessage -> Option<Payload>)
    ensures Transmitted(connections, [s], encode) == Outgoing(connections, s.message, s.to, encode)
  {
    assert [s][..0] == [];
  }

  lemma TransmittedTwo(connections: seq<PeerConnection>, s: Send, t: Send, encode: NetworkMessage -> Option<Payload>)
    ensures Transmitted(connections, [s, t], encode)
            == Outgoing(connections, s.message, s.to, encode) + Outgoing(connections, t.message, t.to, encode)
  {
    assert [s, t][..1] == [s];
    TransmittedOne(connections, s, encode);
  }

  // ------------------------------------------------------------------ lookups

  predicate HasId(rooms: seq<Room>, id: Uuid) {
    exists i :: 0 <= i < |rooms| && rooms[i].id == id
  }

  /** No two known rooms share an id. */
  predicate DistinctIds(rooms: seq<Room>) {
    forall i, j :: 0 <= i < j < |rooms| ==> rooms[i].id != rooms[j].id
  }

  /** `rooms.firstIndex(where: { $0.id == id })`. */
  function IndexOfRoom(rooms: seq<Room>, id: Uuid): (r: Option<nat>)
    ensures r.Some? ==> r.value < |rooms| && rooms[r.value].id == id
    ensures r.Some? ==> forall j :: 0 <= j < r.value ==> rooms[j].id != id
    ensures r.None? <==> !HasId(rooms, id)
  {
    if |rooms| == 0 then None
    else if rooms[0].id == id then Some(0)
    else
      match IndexOfRoom(rooms[1..], id)
      case None =>
        assert forall i :: 1 <= i < |rooms| ==> rooms[i] == rooms[1..][i - 1];
        None
      case Some(i) => Some(i + 1)
  }

  /** `rooms.first(where: { $0.id == id })`. */
  function RoomWithId(rooms: seq<Room>, id: Uuid): (r: Option<Room>)
    ensures r.Some? <==> HasId(rooms, id)
    ensures r.Some? ==> r.value.id == id && r.value in rooms
  {
    match IndexOfRoom(rooms, id)
    case None => None
    case Some(i) => Some(rooms[i])
  }

  /** A link the code opens at `now`: the same code, not expired. */
  predicate Opens(link: ChatLink, code: string, now: Date) {
    link.inviteCode == code && !link.IsExpired(now)
  }

  /** `inviteLinks.first(where: { $0.inviteCode == code && !$0.isExpired })`. */
  function LiveLink(links: seq<ChatLink>, code: string, now: Date): (r: Option<ChatLink>)
    ensures r.Some? ==> exists i :: 0 <= i < |links| && links[i] == r.value && Opens(links[i], code, now)
                                    && forall j :: 0 <= j < i ==> !Opens(links[j], code, now)
    ensures r.None? <==> forall i :: 0 <= i < |links| ==> !Opens(links[i], code, now)
  {
    if |links| == 0 then None
    else if Opens(links[0], code, now) then
      assert links[0] == links[0];
      Some(links[0])
    else
      var rest := LiveLink(links[1..], code, now);
      assert forall i :: 1 <= i < |links| ==> links[i] == links[1..][i - 1];
      if rest.Some? then
        var i :| 0 <= i < |links[1..]| && links[1..][i] == rest.value && Opens(links[1..][i], code, now)
                 && forall j :: 0 <= j < i ==> !Opens(links[1..][j], code, now);
        assert links[i + 1] == rest.value;
        rest
      else rest
  }

  // ------------------------------------------------------------- room updates

  /** `rooms[index].addParticipant(user)` at the first room with that id, if any. */
  function AddToRoom(rooms: seq<Room>, id: Uuid, user: User): (r: seq<Room>)
    ensures |r| == |rooms| && forall k :: 0 <= k < |r| ==> r[k].id == rooms[k].id
  {
    match IndexOfRoom(rooms, id)
    case None => rooms
    case Some(i) => rooms[i := rooms[i].AddParticipant(user)]
  }

  /** `rooms[index].removeParticipant(user)` at the first room with that id, if any. */
  function RemoveFromRoom(rooms: seq<Room>, id: Uuid, user: User): (r: seq<Room>)
    ensures |r| == |rooms| && forall k :: 0 <= k < |r| ==> r[k].id == rooms[k].id
  {
    match IndexOfRoom(rooms, id)
    case None => rooms
    case Some(i) => rooms[i := rooms[i].RemoveParticipant(user)]
  }

  /**
   * Only the first room with that id changes, and only in its participants,
   * which gain the user; with no such room nothing changes.
   */
  lemma AddToRoomEffect(rooms: seq<Room>, id: Uuid, user: User)
    ensures var r := AddToRoom(rooms, id, user);
            && (!HasId(rooms, id) ==> r == rooms)
            && (forall k :: 0 <= k < |rooms| && IndexOfRoom(rooms, id) != Some(k) ==> r[k] == rooms[k])
            && (HasId(rooms, id) ==>
                  var i := IndexOfRoom(rooms, id).value;
                  r[i].participants == rooms[i].participants + {user} && r[i].(participants := rooms[i].participants) == rooms[i])
  {
  }

  /** A newcomer who joins and then leaves the same room leaves the room list as it was. */
  lemma AddThenRemove(rooms: seq<Room>, id: Uuid, user: User)
    requires forall k :: 0 <= k < |rooms| && rooms[k].id == id ==> user !in rooms[k].participants
    ensures RemoveFromRoom(AddToRoom(rooms, id, user), id, user) == rooms
  {
    var added := AddToRoom(rooms, id, user);
    match IndexOfRoom(rooms, id)
    case None =>
    case Some(i) =>
      assert IndexOfRoom(added, id) == Some(i) by {
        var j := IndexOfRoom(added, id);
        assert added[i].id == id;
        assert j.Some? && j.value <= i;
        assert forall k :: 0 <= k < i ==> added[k].id == rooms[k].id;
      }
      AddRemove(rooms[i], user);
      assert RemoveFromRoom(added, id, user) == added[i := added[i].RemoveParticipant(user)];
      assert added[i].RemoveParticipant(user) == rooms[i];
  }

  /** `if !rooms.contains(where: { $0.id == room.id }) { rooms.append(room) }`. */
  function AddIfNew(rooms: seq<Room>, room: Room): seq<Room> {
    if HasId(rooms, room.id) then rooms else rooms + [room]
  }

  /** The merge loop of `roomList`: each listed room is added when its id is new, in list order. */
  function MergeRooms(rooms: seq<Room>, incoming: seq<Room>): seq<Room> {
    if |incoming| == 0 then rooms
    else AddIfNew(MergeRooms(rooms, incoming[..|incoming| - 1]), incoming[|incoming| - 1])
  }

  /**
   * Merging keeps the known rooms as a prefix; it adds only listed rooms
   * whose ids were not known, never two with the same id, and afterwards
   * every listed id is known.
   */
  lemma {:induction false} MergeRoomsEffect(rooms: seq<Room>, incoming: seq<Room>)
    ensures var r := MergeRooms(rooms, incoming);
            && |rooms| <= |r| && r[..|rooms|] == rooms
            && (forall k :: |rooms| <= k < |r| ==> r[k] in incoming && !HasId(rooms, r[k].id))
            && (forall k, l :: |rooms| <= k < l < |r| ==> r[k].id != r[l].id)
            && (forall i :: 0 <= i < |incoming| ==> HasId(r, incoming[i].id))
    decreases |incoming|
  {
    if |incoming| > 0 {
      var init := incoming[..|incoming| - 1];
      var last := incoming[|incoming| - 1];
      var m := MergeRooms(rooms, init);
      MergeRoomsEffect(rooms, init);
      assert forall i :: 0 <= i < |init| ==> init[i] == incoming[i];
      if !HasId(m, last.id) {
        var r := m + [last];
        assert r[..|rooms|] == m[..|rooms|];
        assert forall k :: 0 <= k < |m| ==> r[k] == m[k];
        forall k | 0 <= k < |rooms|
          ensures rooms[k].id != last.id
        {
          assert m[k] == rooms[k];
        }
        forall i | 0 <= i < |incoming|
          ensures HasId(r, incoming[i].id)
        {
          if i < |init| {
            var w :| 0 <= w < |m| && m[w].id == init[i].id;
            assert r[w].id == incoming[i].id;
          } else {
            assert r[|m|].id == incoming[i].id;
          }
        }
      }
    }
  }

  /** Rooms with distinct ids stay distinct after a merge. */
  lemma MergeKeepsDistinct(rooms: seq<Room>, incoming: seq<Room>)
    requires DistinctIds(rooms)
    ensures DistinctIds(MergeRooms(rooms, incoming))
  {
    MergeRoomsEffect(rooms, incoming);
    var r := MergeRooms(rooms, incoming);
    forall i, j | 0 <= i < j < |r|
      ensures r[i].id != r[j].id
    {
      if j < |rooms| {
        assert r[i] == rooms[i] && r[j] == rooms[j];
      } else if i < |rooms| {
        assert r[i] == rooms[i];
      }
    }
  }

  // ---------------------------------------------------------------- messages

  /** `messages.filter { $0.roomId == roomId }`. */
  function RoomMessages(messages: seq<ChatMessage>, roomId: Uuid): (r: seq<ChatMessage>)
    ensures |r| <= |messages|
    ensures forall i :: 0 <= i < |r| ==> r[i].roomId == roomId
  {
    if |messages| == 0 then []
    else
      var init := RoomMessages(messages[..|messages| - 1], roomId);
      if messages[|messages| - 1].roomId == roomId then init + [messages[|messages| - 1]] else init
  }

  /** The filter keeps exactly the messages of that room. */
  lemma {:induction false} RoomMessagesExact(messages: seq<ChatMessage>, roomId: Uuid, m: ChatMessage)
    ensures m in RoomMessages(messages, roomId) <==> m in messages && m.roomId == roomId
    decreases |messages|
  {
    if |messages| > 0 {
      var init := messages[..|messages| - 1];
      RoomMessagesExact(init, roomId, m);
      assert messages == init + [messages[|messages| - 1]];
    }
  }

  /** The filter keeps the messages' order: filtering after appending filters before. */
  lemma RoomMessagesAppend(messages: seq<ChatMessage>, roomId: Uuid, m: ChatMessage)
    ensures RoomMessages(messages + [m], roomId) == RoomMessages(messages, roomId) + (if m.roomId == roomId then [m] else [])
  {
    assert (messages + [m])[..|messages|] == messages;
  }

  /** Filtering twice by the same room is filtering once. */
  lemma {:induction false} RoomMessagesIdempotent(messages: seq<ChatMessage>, roomId: Uuid)
    ensures RoomMessages(RoomMessages(messages, roomId), roomId) == RoomMessages(messages, roomId)
    decreases |messages|
  {
    if |messages| > 0 {
      var init := messages[..|messages| - 1];
      var last := messages[|messages| - 1];
      RoomMessagesIdempotent(init, roomId);
      if last.roomId == roomId {
        RoomMessagesAppend(RoomMessages(init, roomId), roomId, last);
      }
    }
  }

  /** The system messages the client writes for its own actions. */
  function Notice(content: string, user: User, roomId: Uuid, kind: MessageType, messageId: Uuid, now: Date): (m: ChatMessage)
    ensures m.sender == user && m.roomId == roomId && m.messageType == kind && m.content == content
  {
    NewMessage(content, user, roomId, kind, None, messageId, now)
  }

  // ------------------------------------------------------------------- steps

  /** `createRoom(name:)`, with the room's fresh id, the notice's fresh id and the time. */
  function CreateRoomStep(s: ClientState, name: string, roomId: Uuid, messageId: Uuid, now: Date): Step {
    match s.currentUser
    case None => Step(s, [])
    case Some(user) =>
      var room := NewRoom(roomId, name, now, user);
      Step(s.(rooms := s.rooms + [room],
              messages := s.messages + [Notice("Room '" + name + "' created", user, roomId, RoomCreated, messageId, now)]),
           [Send(RoomCreatedMessage(room), None)])
  }

  /**
   * Without a user nothing changes and nothing is sent; with one, a room
   * holding only that user is appended, announced to every peer and noted
   * in the message list.
   */
  lemma CreateRoomEffect(s: ClientState, name: string, roomId: Uuid, messageId: Uuid, now: Date)
    ensures s.currentUser.None? ==> CreateRoomStep(s, name, roomId, messageId, now) == Step(s, [])
    ensures s.currentUser.Some? ==>
              var st := CreateRoomStep(s, name, roomId, messageId, now);
              var room := st.state.rooms[|s.rooms|];
              && |st.state.rooms| == |s.rooms| + 1 && st.state.rooms[..|s.rooms|] == s.rooms
              && room.id == roomId && room.name == name && room.participants == {s.currentUser.value}
              && st.sends == [Send(RoomCreatedMessage(room), None)]
              && |st.state.messages| == |s.messages| + 1 && st.state.messages[..|s.messages|] == s.messages
              && st.state.messages[|s.messages|].messageType == RoomCreated && st.state.messages[|s.messages|].roomId == roomId
              && st.state.currentRoom == s.currentRoom && st.state.inviteLinks == s.inviteLinks
  {
    if s.currentUser.Some? {
      var st := CreateRoomStep(s, name, roomId, messageId, now);
      assert st.state.rooms[..|s.rooms|] == s.rooms;
      assert st.state.messages[..|s.messages|] == s.messages;
    }
  }

  /** `joinRoom(_:)`, with the notice's fresh id and the time. */
  function JoinStep(s: ClientState, room: Room, messageId: Uuid, now: Date): Step {
    match s.currentUser
    case None => Step(s, [])
    case Some(user) =>
      if user in room.participants then
        Step(s.(currentRoom := Some(room), messages := RoomMessages(s.messages, room.id)), [])
      else
        var note := Notice(user.username + " joined the room", user, room.id, UserJoined, messageId, now);
        Step(s.(currentRoom := Some(room), rooms := AddToRoom(s.rooms, room.id, user),
                messages := RoomMessages(s.messages + [note], room.id)),
             [Send(JoinRoom(room.id, user), None)])
  }

  /**
   * With a user, joining makes the room current and leaves only that room's
   * messages visible, keeping every one of them. The user is added, the join
   * announced and a notice shown exactly when the given room did not already
   * list the user. Without a user nothing happens.
   */
  lemma JoinEffect(s: ClientState, room: Room, messageId: Uuid, now: Date)
    ensures s.currentUser.None? ==> JoinStep(s, room, messageId, now) == Step(s, [])
    ensures s.currentUser.Some? ==>
              var user := s.currentUser.value;
              var st := JoinStep(s, room, messageId, now);
              && st.state.currentRoom == Some(room) && st.state.currentUser == s.currentUser
              && st.state.inviteLinks == s.inviteLinks
              && (forall m :: m in st.state.messages ==> m.roomId == room.id)
              && (forall m :: m in s.messages && m.roomId == room.id ==> m in st.state.messages)
              && (user in room.participants <==> st.sends == [])
              && (user in room.participants ==> st.state.rooms == s.rooms && |st.state.messages| <= |s.messages|)
              && (user !in room.participants ==>
                    && st.sends == [Send(JoinRoom(room.id, user), None)]
                    && st.state.rooms == AddToRoom(s.rooms, room.id, user)
                    && |st.state.messages| > 0 && st.state.messages[|st.state.messages| - 1].messageType == UserJoined)
  {
    if s.currentUser.Some? {
      var user := s.currentUser.value;
      var st := JoinStep(s, room, messageId, now);
      forall m | m in st.state.messages
        ensures m.roomId == room.id
      {
      }
      if user in room.participants {
        forall m | m in s.messages && m.roomId == room.id
          ensures m in st.state.messages
        {
          RoomMessagesExact(s.messages, room.id, m);
        }
      } else {
        var note := Notice(user.username + " joined the room", user, room.id, UserJoined, messageId, now);
        RoomMessagesAppend(s.messages, room.id, note);
        forall m | m in s.messages && m.roomId == room.id
          ensures m in st.state.messages
        {
          RoomMessagesExact(s.messages, room.id, m);
        }
      }
    }
  }

  /** `leaveRoom()`, with the notice's fresh id and the time. */
  function LeaveStep(s: ClientState, messageId: Uuid, now: Date): Step {
    if s.currentUser.None? || s.currentRoom.None? then Step(s, [])
    else
      var user := s.currentUser.value;
      var room := s.currentRoom.value;
      Step(s.(rooms := RemoveFromRoom(s.rooms, room.id, user), currentRoom := None, messages := []),
           [Send(LeaveRoom(room.id, user), None)])
  }

  /**
   * Leaving needs a user and a current room; then the user is taken out of
   * that room, the leave is announced, there is no current room and no
   * visible message (the notice is appended and cleared with the rest).
   */
  lemma LeaveEffect(s: ClientState, messageId: Uuid, now: Date)
    ensures s.currentUser.None? || s.currentRoom.None? ==> LeaveStep(s, messageId, now) == Step(s, [])
    ensures s.currentUser.Some? && s.currentRoom.Some? ==>
              var st := LeaveStep(s, messageId, now);
              && st.state.currentRoom.None? && st.state.messages == []
              && st.state.rooms == RemoveFromRoom(s.rooms, s.currentRoom.value.id, s.currentUser.value)
              && st.sends == [Send(LeaveRoom(s.currentRoom.value.id, s.currentUser.value), None)]
  {
  }

  /** A user who joins a room that did not list them and then leaves restores the room list. */
  lemma JoinThenLeave(s: ClientState, room: Room, m1: Uuid, t1: Date, m2: Uuid, t2: Date)
    requires s.currentUser.Some?
    requires forall k :: 0 <= k < |s.rooms| && s.rooms[k].id == room.id ==> s.currentUser.value !in s.rooms[k].participants
    requires s.currentUser.value !in room.participants
    ensures LeaveStep(JoinStep(s, room, m1, t1).state, m2, t2).state.rooms == s.rooms
    ensures LeaveStep(JoinStep(s, room, m1, t1).state, m2, t2).state.currentRoom.None?
  {
    AddThenRemove(s.rooms, room.id, s.currentUser.value);
  }

  /** `sendMessage(_:)`, with the message's fresh id and the time. */
  function SendStep(s: ClientState, content: string, messageId: Uuid, now: Date): Step {
    if s.currentUser.None? || s.currentRoom.None? then Step(s, [])
    else
      var message := NewMessage(content, s.currentUser.value, s.currentRoom.value.id, Text, None, messageId, now);
      Step(s.(messages := s.messages + [message]), [Send(ChatMessageSent(message), None)])
  }

  /** The message shown locally is the one sent to every peer: a text in the current room from the user. */
  lemma SendEffect(s: ClientState, content: string, messageId: Uuid, now: Date)
    ensures s.currentUser.None? || s.currentRoom.None? ==> SendStep(s, content, messageId, now) == Step(s, [])
    ensures s.currentUser.Some? && s.currentRoom.Some? ==>
              var st := SendStep(s, content, messageId, now);
              && |st.state.messages| == |s.messages| + 1 && st.state.messages[..|s.messages|] == s.messages
              && var m := st.state.messages[|s.messages|];
              && st.sends == [Send(ChatMessageSent(m), None)]
              && m.content == content && m.sender == s.currentUser.value
              && m.roomId == s.currentRoom.value.id && m.messageType == Text
              && st.state.rooms == s.rooms && st.state.currentRoom == s.currentRoom
  {
    if s.currentUser.Some? && s.currentRoom.Some? {
      var st := SendStep(s, content, messageId, now);
      assert st.state.messages[..|s.messages|] == s.messages;
    }
  }

  /** The room an invite code leads to: the first live link with that code, then the first room with its id. */
  function InviteTarget(s: ClientState, code: string, now: Date): Option<Room> {
    match LiveLink(s.inviteLinks, code, now)
    case None => None
    case Some(link) => RoomWithId(s.rooms, link.roomId)
  }

  /**
   * A code leads to a room exactly when some link it opens exists and the
   * first such link names a known room; the room reached has that id.
   */
  lemma InviteTargetIff(s: ClientState, code: string, now: Date)
    ensures InviteTarget(s, code, now).Some? <==>
              (exists i :: 0 <= i < |s.inviteLinks| && Opens(s.inviteLinks[i], code, now))
              && HasId(s.rooms, LiveLink(s.inviteLinks, code, now).value.roomId)
    ensures InviteTarget(s, code, now).Some? ==>
              InviteTarget(s, code, now).value.id == LiveLink(s.inviteLinks, code, now).value.roomId
              && InviteTarget(s, code, now).value in s.rooms
  {
  }

  /** Whether a message from a peer belongs in the visible list. */
  predicate Accepts(currentRoom: Option<Room>, m: ChatMessage) {
    (currentRoom.Some? && currentRoom.value.id == m.roomId) || currentRoom.None?
  }

  /** `networkManager(_:didReceiveMessage:from:)`. */
  function ReceiveStep(s: ClientState, message: NetworkMessage, peer: PeerConnection): Step {
    match message
    case ChatMessageSent(m) => Step(if Accepts(s.currentRoom, m) then s.(messages := s.messages + [m]) else s, [])
    case UserJoinedRoom(user, roomId) => Step(s.(rooms := AddToRoom(s.rooms, roomId, user)), [])
    case UserLeftRoom(user, roomId) => Step(s.(rooms := RemoveFromRoom(s.rooms, roomId, user)), [])
    case RoomCreatedMessage(room) => Step(s.(rooms := AddIfNew(s.rooms, room)), [])
    case RoomList(list) => Step(s.(rooms := MergeRooms(s.rooms, list)), [])
    case JoinRoom(roomId, user) => Step(s.(rooms := AddToRoom(s.rooms, roomId, user)), [])
    case LeaveRoom(roomId, user) => Step(s.(rooms := RemoveFromRoom(s.rooms, roomId, user)), [])
    case Ping => Step(s, [Send(Pong, Some(peer))])
    case Pong => Step(s, [])
  }

  /**
   * A peer's chat message is appended exactly when there is no current room
   * or it is for the current room, and otherwise dropped.
   */
  lemma ReceiveChatMessage(s: ClientState, m: ChatMessage, peer: PeerConnection)
    ensures var st := ReceiveStep(s, ChatMessageSent(m), peer);
            && st.sends == []
            && st.state.messages == s.messages + (if s.currentRoom.None? || s.currentRoom.value.id == m.roomId then [m] else [])
            && st.state.rooms == s.rooms && st.state.currentRoom == s.currentRoom
  {
  }

  /**
   * No incoming message ever makes two known rooms share an id: rooms only
   * arrive through `roomCreated` and `roomList`, which skip known ids, and
   * joins and leaves keep every id.
   */
  lemma ReceiveKeepsDistinct(s: ClientState, message: NetworkMessage, peer: PeerConnection)
    requires DistinctIds(s.rooms)
    ensures DistinctIds(ReceiveStep(s, message, peer).state.rooms)
  {
    match message
    case RoomCreatedMessage(room) =>
      assert AddIfNew(s.rooms, room) == MergeRooms(s.rooms, [room]) by {
        assert [room][..0] == [];
      }
      MergeKeepsDistinct(s.rooms, [room]);
    case RoomList(list) =>
      MergeKeepsDistinct(s.rooms, list);
    case _ =>
  }

  /** A room announcement or list never adds a room whose id is already known, and the known rooms stay first. */
  lemma ReceiveRoomsOnlyNew(s: ClientState, message: NetworkMessage, peer: PeerConnection)
    requires message.RoomCreatedMessage? || message.RoomList?
    ensures var r := ReceiveStep(s, message, peer).state.rooms;
            && |s.rooms| <= |r| && r[..|s.rooms|] == s.rooms
            && forall k :: |s.rooms| <= k < |r| ==> !HasId(s.rooms, r[k].id)
  {
    if message.RoomCreatedMessage? {
      assert AddIfNew(s.rooms, message.room) == MergeRooms(s.rooms, [message.room]) by {
        assert [message.room][..0] == [];
      }
      MergeRoomsEffect(s.rooms, [message.room]);
    } else {
      MergeRoomsEffect(s.rooms, message.rooms);
    }
  }

  /** A ping changes nothing and is answered by one pong to the peer it came from; no other message sends anything. */
  lemma PingAnswered(s: ClientState, message: NetworkMessage, peer: PeerConnection,
                     connections: seq<PeerConnection>, encode: NetworkMessage -> Option<Payload>)
    ensures message.Ping? ==> ReceiveStep(s, message, peer) == Step(s, [Send(Pong, Some(peer))])
    ensures message.Ping? && encode(Pong).Some? ==>
              Transmitted(connections, ReceiveStep(s, message, peer).sends, encode) == [Transmission(peer, Envelope(encode(Pong).value))]
    ensures !message.Ping? ==> ReceiveStep(s, message, peer).sends == []
  {
    if message.Ping? {
      TransmittedOne(connections, Send(Pong, Some(peer)), encode);
    }
  }

  /** `networkManager(_:didConnectToPeer:)`: the sends to a new peer. */
  function ConnectSends(s: ClientState, peer: PeerConnection): seq<Send> {
    (if |s.rooms| > 0 then [Send(RoomList(s.rooms), Some(peer))] else [])
    + (if s.currentUser.Some? && s.currentRoom.Some? then [Send(JoinRoom(s.currentRoom.value.id, s.currentUser.value), Some(peer))] else [])
  }

  /** A new peer is sent only to: the room list when there are rooms, then the user's current room. */
  lemma ConnectSendsToPeer(s: ClientState, peer: PeerConnection)
    ensures var sends := ConnectSends(s, peer);
            && (forall i :: 0 <= i < |sends| ==> sends[i].to == Some(peer))
            && (|s.rooms| > 0 <==> (|sends| > 0 && sends[0].message == RoomList(s.rooms)))
            && (s.currentUser.Some? && s.currentRoom.Some? <==> (|sends| > 0 && sends[|sends| - 1].message.JoinRoom?))
            && (s.currentUser.Some? && s.currentRoom.Some? ==>
                  sends[|sends| - 1].message == JoinRoom(s.currentRoom.value.id, s.currentUser.value))
  {
  }

  // ------------------------------------------------------------------ client

  class Client {
    var currentUser: Option<User>
    var rooms: seq<Room>
    var currentRoom: Option<Room>
    var messages: seq<ChatMessage>
    var inviteLinks: seq<ChatLink>
    const networkManager: NetworkManager

    function State(): ClientState
      reads this
    {
      ClientState(currentUser, rooms, currentRoom, messages, inviteLinks)
    }

    /** The manager's log grew by exactly the transmissions of `sends`, and its connections did not change. */
    twostate predicate SentExactly(sends: seq<Send>)
      reads this, networkManager
    {
      && networkManager.connections == old(networkManager.connections)
      && networkManager.cancelled == old(networkManager.cancelled)
      && networkManager.sent == old(networkManager.sent) + Transmitted(networkManager.connections, sends, networkManager.encode)
    }

    constructor (encode: NetworkMessage -> Option<Payload>)
      ensures State() == ClientState(None, [], None, [], [])
      ensures fresh(networkManager) && networkManager.connections == [] && networkManager.sent == []
      ensures networkManager.encode == encode
    {
      currentUser := None;
      rooms := [];
      currentRoom := None;
      messages := [];
      inviteLinks := [];
      networkManager := new NetworkManager(encode);
    }

    /** `setUsername(_:)`: a fresh user with the default emoji. */
    method SetUsername(username: string, freshId: Uuid, now: Date)
      modifies this
      ensures State() == old(State()).(currentUser := Some(NewUser(username, DefaultEmoji, freshId, now)))
    {
      currentUser := Some(NewUser(username, DefaultEmoji, freshId, now));
    }

    method CreateRoom(name: string, roomId: Uuid, messageId: Uuid, now: Date) returns (room: Option<Room>)
      modifies this, networkManager
      ensures State() == CreateRoomStep(old(State()), name, roomId, messageId, now).state
      ensures SentExactly(CreateRoomStep(old(State()), name, roomId, messageId, now).sends)
      ensures room == if old(currentUser).None? then None else Some(NewRoom(roomId, name, now, old(currentUser).value))
    {
      if currentUser.None? {
        return None;
      }
      var user := currentUser.value;
      var r := NewRoom(roomId, name, now, user);
      rooms := rooms + [r];
      networkManager.SendMessage(RoomCreatedMessage(r), None);
      TransmittedOne(networkManager.connections, Send(RoomCreatedMessage(r), None), networkManager.encode);
      messages := messages + [Notice("Room '" + name + "' created", user, r.id, RoomCreated, messageId, now)];
      return Some(r);
    }

    method JoinRoom(room: Room, messageId: Uuid, now: Date)
      modifies this, networkManager
      ensures State() == JoinStep(old(State()), room, messageId, now).state
      ensures SentExactly(JoinStep(old(State()), room, messageId, now).sends)
    {
      if currentUser.None? {
        return;
      }
      var user := currentUser.value;
      currentRoom := Some(room);
      if user !in room.participants {
        AddParticipantTo(room.id, user);
        networkManager.SendMessage(NetworkMessage.JoinRoom(room.id, user), None);
        TransmittedOne(networkManager.connections, Send(NetworkMessage.JoinRoom(room.id, user), None), networkManager.encode);
        messages := messages + [Notice(user.username + " joined the room", user, room.id, UserJoined, messageId, now)];
      }
      FilterMessagesForCurrentRoom();
    }

    /** `filterMessagesForCurrentRoom()`. */
    method FilterMessagesForCurrentRoom()
      modifies this
      ensures State() == old(State()).(messages := if currentRoom.None? then [] else RoomMessages(old(messages), currentRoom.value.id))
    {
      if currentRoom.None? {
        messages := [];
        return;
      }
      messages := RoomMessages(messages, currentRoom.value.id);
    }

    method LeaveRoom(messageId: Uuid, now: Date)
      modifies this, networkManager
      ensures State() == LeaveStep(old(State()), messageId, now).state
      ensures SentExactly(LeaveStep(old(State()), messageId, now).sends)
    {
      if currentUser.None? || currentRoom.None? {
        return;
      }
      var user := currentUser.value;
      var room := currentRoom.value;
      RemoveParticipantFrom(room.id, user);
      networkManager.SendMessage(NetworkMessage.LeaveRoom(room.id, user), None);
      TransmittedOne(networkManager.connections, Send(NetworkMessage.LeaveRoom(room.id, user), None), networkManager.encode);
      messages := messages + [Notice(user.username + " left the room", user, room.id, UserLeft, messageId, now)];
      currentRoom := None;
      messages := [];
    }

    method SendMessage(content: string, messageId: Uuid, now: Date)
      modifies this, networkManager
      ensures State() == SendStep(old(State()), content, messageId, now).state
      ensures SentExactly(SendStep(old(State()), content, messageId, now).sends)
    {
      if currentUser.None? || currentRoom.None? {
        return;
      }
      var message := NewMessage(content, currentUser.value, currentRoom.value.id, Text, None, messageId, now);
      messages := messages + [message];
      networkManager.SendMessage(ChatMessageSent(message), None);
      TransmittedOne(networkManager.connections, Send(ChatMessageSent(message), None), networkManager.encode);
    }

    /** `createInviteLink(for:expiresIn:)`, with the eight random draws of the code and the time. */
    method CreateInviteLink(room: Room, expiresIn: Option<real>, draws: seq<nat>, now: Date) returns (link: ChatLink)
      requires |draws| == 8
      modifies this
      ensures link == NewChatLink(room, expiresIn, draws, now)
      ensures State() == old(State()).(inviteLinks := old(inviteLinks) + [link])
    {
      link := NewChatLink(room, expiresIn, draws, now);
      inviteLinks := inviteLinks + [link];
    }

    method JoinRoomWithInviteCode(code: string, now: Date, messageId: Uuid) returns (joined: bool)
      modifies this, networkManager
      ensures joined <==> InviteTarget(old(State()), code, now).Some?
      ensures !joined ==> State() == old(State()) && SentExactly([])
      ensures joined ==>
                var room := InviteTarget(old(State()), code, now).value;
                State() == JoinStep(old(State()), room, messageId, now).state
                && SentExactly(JoinStep(old(State()), room, messageId, now).sends)
    {
      var link := LiveLink(inviteLinks, code, now);
      if link.None? {
        return false;
      }
      var room := RoomWithId(rooms, link.value.roomId);
      if room.None? {
        return false;
      }
      JoinRoom(room.value, messageId, now);
      return true;
    }

    /** `networkManager(_:didReceiveMessage:from:)`. */
    method DidReceiveMessage(message: NetworkMessage, peer: PeerConnection)
      modifies this, networkManager
      ensures State() == ReceiveStep(old(State()), message, peer).state
      ensures SentExactly(ReceiveStep(old(State()), message, peer).sends)
    {
      match message
      case ChatMessageSent(m) =>
        if (currentRoom.Some? && currentRoom.value.id == m.roomId) || currentRoom.None? {
          messages := messages + [m];
        }
      case UserJoinedRoom(user, roomId) =>
        AddParticipantTo(roomId, user);
      case UserLeftRoom(user, roomId) =>
        RemoveParticipantFrom(roomId, user);
      case RoomCreatedMessage(room) =>
        if !HasId(rooms, room.id) {
          rooms := rooms + [room];
        }
      case RoomList(list) =>
        MergeRoomList(list);
      case JoinRoom(roomId, user) =>
        AddParticipantTo(roomId, user);
      case LeaveRoom(roomId, user) =>
        RemoveParticipantFrom(roomId, user);
      case Ping =>
        networkManager.SendMessage(Pong, Some(peer));
        TransmittedOne(networkManager.connections, Send(Pong, Some(peer)), networkManager.encode);
      case Pong =>
    }

    /** `if let index = rooms.firstIndex(where: { $0.id == roomId }) { rooms[index].addParticipant(user) }`. */
    method AddParticipantTo(roomId: Uuid, user: User)
      modifies this
      ensures State() == old(State()).(rooms := AddToRoom(old(rooms), roomId, user))
    {
      var index := IndexOfRoom(rooms, roomId);
      if index.Some? {
        rooms := rooms[index.value := rooms[index.value].AddParticipant(user)];
      }
    }

    /** The same lookup followed by `removeParticipant(user)`. */
    method RemoveParticipantFrom(roomId: Uuid, user: User)
      modifies this
      ensures State() == old(State()).(rooms := RemoveFromRoom(old(rooms), roomId, user))
    {
      var index := IndexOfRoom(rooms, roomId);
      if index.Some? {
        rooms := rooms[index.value := rooms[index.value].RemoveParticipant(user)];
      }
    }

    /** The `roomList` loop: each listed room is appended unless its id is known. */
    method MergeRoomList(list: seq<Room>)
      modifies this
      ensures State() == old(State()).(rooms := MergeRooms(old(rooms), list))
    {
      for i := 0 to |list|
        invariant State() == old(State()).(rooms := MergeRooms(old(rooms), list[..i]))
      {
        assert list[..i + 1][..i] == list[..i];
        if !HasId(rooms, list[i].id) {
          rooms := rooms + [list[i]];
        }
      }
      assert list[..|list|] == list;
    }

    /** `networkManager(_:didConnectToPeer:)`: nothing changes but what is sent to the new peer. */
    method DidConnectToPeer(peer: PeerConnection)
      modifies networkManager
      ensures SentExactly(ConnectSends(State(), peer))
    {
      var sends: seq<Send> := [];
      if |rooms| > 0 {
        networkManager.SendMessage(RoomList(rooms), Some(peer));
        TransmittedOne(networkManager.connections, Send(RoomList(rooms), Some(peer)), networkManager.encode);
        sends := [Send(RoomList(rooms), Some(peer))];
      }
      if currentUser.Some? && currentRoom.Some? {
        var join := Send(NetworkMessage.JoinRoom(currentRoom.value.id, currentUser.value), Some(peer));
        networkManager.SendMessage(join.message, join.to);
        if |sends| == 0 {
          TransmittedOne(networkManager.connections, join, networkManager.encode);
        } else {
          TransmittedTwo(networkManager.connections, sends[0], join, networkManager.encode);
        }
        sends := sends + [join];
      }
      assert sends == ConnectSends(State(), peer);
    }
  }
}
