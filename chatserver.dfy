/**
 * The browser-facing chat server (`WebChatServer`): its room, user and
 * history dictionaries, and the handlers for the WebSocket commands that
 * create, join, leave, post to, clear and remove rooms, and for a client
 * going away.
 *
 * The server's dictionaries as one value (`Tables`) and one pure transition
 * per handler state what each handler does to them; the class's methods are
 * proved to perform exactly those transitions, and to send exactly the
 * messages the handlers send. A JSON payload is a `ServerMessage`, turned
 * into text by the given `render` function. Fresh UUIDs and the clock
 * reading are parameters, and so is the WebAuthn manager's stored emoji.
 */
module ChatServer {
  import opened Wrappers
  import opened Text
  import opened Models
  import opened Clients
  import Persistence

  const LobbyName: string := "Lobby"
  const LowerLobby: string := "lobby"
  const SystemUsername: string := "System"
  const DuplicateRoomError: string := "A room with this name already exists"
  const ClearHistoryDenied: string := "Only an admin can clear history."
  const RemoveRoomDenied: string := "Only an admin can remove rooms."

  /** The JSON objects the server sends, by their `type`. */
  datatype ServerMessage =
    | ErrorMsg(error: string)
    | RoomCreatedMsg(room: Room)
    | ChatMessageMsg(message: ChatMessage)
    | RoomJoinedMsg(room: Room, isAdmin: bool)
    | ChatHistoryClearedMsg(roomId: Uuid)
    | RoomRemovedMsg(roomId: Uuid)
    | UserCountMsg(count: nat)

  /** The server's dictionaries. */
  datatype Tables = Tables(
    rooms: map<Uuid, Room>,
    users: map<string, WebSocketClient>,
    userRooms: map<string, Uuid>,
    roomMessages: map<Uuid, seq<ChatMessage>>,
    userEmojis: map<string, string>,
    inviteLinks: map<string, ChatLink>)

  // ------------------------------------------------------------ invariants

  /** Every room is filed under its own id. */
  predicate Keyed(rooms: map<Uuid, Room>) {
    forall k :: k in rooms ==> rooms[k].id == k
  }

  /** Some room is named exactly "Lobby". */
  predicate HasLobby(rooms: map<Uuid, Room>) {
    exists k :: k in rooms && rooms[k].name == LobbyName
  }

  predicate Consistent(t: Tables) {
    Keyed(t.rooms) && HasLobby(t.rooms)
  }

  /** The same rooms under the same keys, with the same ids and names; only participants may differ. */
  predicate SameRooms(a: map<Uuid, Room>, b: map<Uuid, Room>) {
    a.Keys == b.Keys && forall k :: k in a ==> b[k].id == a[k].id && b[k].name == a[k].name
  }

  lemma SameRoomsConsistent(a: map<Uuid, Room>, b: map<Uuid, Room>)
    requires Keyed(a) && HasLobby(a) && SameRooms(a, b)
    ensures Keyed(b) && HasLobby(b)
  {
    var k :| k in a && a[k].name == LobbyName;
    assert k in b && b[k].name == LobbyName;
  }

  /** Room names differ pairwise, ignoring case. */
  predicate DistinctNames(rooms: map<Uuid, Room>) {
    forall j, k :: j in rooms && k in rooms && j != k ==> Lower(rooms[j].name) != Lower(rooms[k].name)
  }

  lemma LobbyLowered()
    ensures Lower(LobbyName) == LowerLobby
  {
  }

  // ------------------------------------------------------- leaving a room

  /**
   * `leaveUserFromRoom`: the room, if there is one, loses `user`. The
   * handlers pass a freshly made `User(username:)`, whose new id no
   * participant carries.
   */
  function WithoutParticipant(rooms: map<Uuid, Room>, roomId: Uuid, user: User): (r: map<Uuid, Room>)
    ensures SameRooms(rooms, r)
  {
    if roomId in rooms then rooms[roomId := rooms[roomId].RemoveParticipant(user)] else rooms
  }

  /** No participant of any room carries `user`'s id. */
  predicate Stranger(rooms: map<Uuid, Room>, user: User) {
    forall k, p :: k in rooms && p in rooms[k].participants ==> p.id != user.id
  }

  /**
   * Leaving with a freshly made user removes nobody: the participant sets
   * never shrink, since a `User` is equal only to a user with the same id.
   */
  lemma LeaveNeverShrinks(rooms: map<Uuid, Room>, roomId: Uuid, user: User)
    requires Stranger(rooms, user)
    ensures WithoutParticipant(rooms, roomId, user) == rooms
  {
    if roomId in rooms {
      var room := rooms[roomId];
      assert user !in room.participants;
      assert room.participants - {user} == room.participants;
      assert room.RemoveParticipant(user) == room;
    }
  }

  // ------------------------------------------------------- the transitions

  /** A name is refused when some room has it, ignoring case, or when it is "lobby" in any case. */
  predicate NameTaken(rooms: map<Uuid, Room>, name: string) {
    (exists k :: k in rooms && Lower(rooms[k].name) == Lower(name)) || Lower(name) == LowerLobby
  }

  /** The room `handleCreateRoom` makes: a fresh id, the time, and a fresh user of that name as creator. */
  function CreatedRoom(name: string, username: string, roomId: Uuid, creatorId: Uuid, now: Date): Room {
    NewRoom(roomId, name, now, NewUser(username, DefaultEmoji, creatorId, now))
  }

  /** `handleCreateRoom`: a refused name changes nothing; otherwise the room is added with an empty history. */
  function CreateStep(t: Tables, name: string, username: string, roomId: Uuid, creatorId: Uuid, now: Date): Tables {
    if NameTaken(t.rooms, name) then t
    else
      t.(rooms := t.rooms[roomId := CreatedRoom(name, username, roomId, creatorId, now)],
         roomMessages := t.roomMessages[roomId := []])
  }

  /**
   * A created room is new and its history empty, a refusal changes nothing,
   * and the names stay distinct; no room is created named "lobby" in any case.
   */
  lemma CreateStepEffect(t: Tables, name: string, username: string, roomId: Uuid, creatorId: Uuid, now: Date)
    requires Consistent(t) && roomId !in t.rooms
    ensures var r := CreateStep(t, name, username, roomId, creatorId, now);
            && Consistent(r)
            && (NameTaken(t.rooms, name) ==> r == t)
            && (!NameTaken(t.rooms, name) ==>
                  r.rooms.Keys == t.rooms.Keys + {roomId} && r.roomMessages[roomId] == []
                  && r.rooms[roomId].participants == {r.rooms[roomId].createdBy}
                  && Lower(r.rooms[roomId].name) != LowerLobby)
            && (DistinctNames(t.rooms) ==> DistinctNames(r.rooms))
  {
    var r := CreateStep(t, name, username, roomId, creatorId, now);
    if !NameTaken(t.rooms, name) {
      var k :| k in t.rooms && t.rooms[k].name == LobbyName;
      assert k != roomId && r.rooms[k] == t.rooms[k];
      if DistinctNames(t.rooms) {
        forall j, i | j in r.rooms && i in r.rooms && j != i
          ensures Lower(r.rooms[j].name) != Lower(r.rooms[i].name)
        {
          if j != roomId && i != roomId {
            assert r.rooms[j] == t.rooms[j] && r.rooms[i] == t.rooms[i];
          }
        }
      }
    }
  }

  /** `handleJoinRoom` once its guards hold: the users' new room and where each user now is. */
  function JoinStep(t: Tables, username: string, roomId: Uuid, leaveUser: User, joinUser: User): Tables
    requires roomId in t.rooms
  {
    var room := t.rooms[roomId];
    var left := if username in t.userRooms then WithoutParticipant(t.rooms, t.userRooms[username], leaveUser) else t.rooms;
    t.(rooms := left[roomId := room.AddParticipant(joinUser)], userRooms := t.userRooms[username := roomId])
  }

  /**
   * After a join the user is recorded in that room and only there, the room
   * has the joining user, nobody else moved, and the invariants hold. The
   * joined room is the copy taken before leaving, so rejoining the current
   * room drops the leave's effect.
   */
  lemma JoinStepEffect(t: Tables, username: string, roomId: Uuid, leaveUser: User, joinUser: User)
    requires Consistent(t) && roomId in t.rooms
    ensures var r := JoinStep(t, username, roomId, leaveUser, joinUser);
            && Consistent(r)
            && r.userRooms[username] == roomId
            && (forall u :: u != username ==> (u in r.userRooms <==> u in t.userRooms))
            && (forall u :: u != username && u in t.userRooms ==> r.userRooms[u] == t.userRooms[u])
            && r.rooms[roomId] == t.rooms[roomId].AddParticipant(joinUser)
            && r.(rooms := t.rooms, userRooms := t.userRooms) == t
  {
    var r := JoinStep(t, username, roomId, leaveUser, joinUser);
    var left := if username in t.userRooms then WithoutParticipant(t.rooms, t.userRooms[username], leaveUser) else t.rooms;
    assert SameRooms(t.rooms, left);
    assert SameRooms(t.rooms, r.rooms);
    SameRoomsConsistent(t.rooms, r.rooms);
  }

  /** With a freshly made leaving user a join only ever adds participants. */
  lemma JoinNeverShrinks(t: Tables, username: string, roomId: Uuid, leaveUser: User, joinUser: User)
    requires roomId in t.rooms && Stranger(t.rooms, leaveUser)
    ensures var r := JoinStep(t, username, roomId, leaveUser, joinUser);
            forall k, p :: k in t.rooms && p in t.rooms[k].participants ==> k in r.rooms && p in r.rooms[k].participants
  {
    if username in t.userRooms {
      LeaveNeverShrinks(t.rooms, t.userRooms[username], leaveUser);
    }
  }

  /** `handleLeaveRoom`: leaving the named room and forgetting the user's room. */
  function LeaveStep(t: Tables, username: string, roomId: Uuid, leaveUser: User): Tables {
    t.(rooms := WithoutParticipant(t.rooms, roomId, leaveUser), userRooms := t.userRooms - {username})
  }

  /** After a leave the user is in no room, every other user stays, and the invariants hold. */
  lemma LeaveStepEffect(t: Tables, username: string, roomId: Uuid, leaveUser: User)
    requires Consistent(t)
    ensures var r := LeaveStep(t, username, roomId, leaveUser);
            && Consistent(r) && username !in r.userRooms
            && (forall u :: u != username ==> (u in r.userRooms <==> u in t.userRooms))
            && (forall u :: u != username && u in t.userRooms ==> r.userRooms[u] == t.userRooms[u])
  {
    SameRoomsConsistent(t.rooms, WithoutParticipant(t.rooms, roomId, leaveUser));
  }

  /** `clientDidDisconnect` for a named client: it is forgotten, and leaves the room it was in. */
  function DisconnectStep(t: Tables, username: string, leaveUser: User): Tables {
    var gone := t.(users := t.users - {username});
    if username in t.userRooms then
      gone.(rooms := WithoutParticipant(t.rooms, t.userRooms[username], leaveUser), userRooms := t.userRooms - {username})
    else gone
  }

  lemma DisconnectStepEffect(t: Tables, username: string, leaveUser: User)
    requires Consistent(t)
    ensures var r := DisconnectStep(t, username, leaveUser);
            && Consistent(r) && username !in r.users && username !in r.userRooms
            && r.users == t.users - {username} && r.userRooms == t.userRooms - {username}
            && r.roomMessages == t.roomMessages
  {
    if username in t.userRooms {
      SameRoomsConsistent(t.rooms, WithoutParticipant(t.rooms, t.userRooms[username], leaveUser));
    }
  }

  /**
   * The emoji a message is sent with: the server's stored emoji for the
   * user, else the WebAuthn manager's, else the one the client sent, else
   * the default.
   */
  function MessageEmoji(stored: Option<string>, provided: Option<string>): string {
    match stored
    case Some(e) => e
    case None => provided.GetOr(DefaultEmoji)
  }

  /** The emoji to remember: one the client sent that differs from the emoji used. */
  function EmojiUpdate(stored: Option<string>, provided: Option<string>): Option<string> {
    if provided.Some? && provided.value != MessageEmoji(stored, provided) then provided else None
  }

  /** The remembered emoji changes only when one was stored and the client sent a different one. */
  lemma EmojiUpdateOnlyOverStored(stored: Option<string>, provided: Option<string>)
    ensures EmojiUpdate(stored, provided).Some? <==> stored.Some? && provided.Some? && provided.value != stored.value
    ensures EmojiUpdate(stored, provided).Some? ==> EmojiUpdate(stored, provided) == provided
  {
  }

  /** The server's remembered emoji for the user, else the WebAuthn manager's answer. */
  function StoredEmoji(userEmojis: map<string, string>, username: string, managerEmoji: Option<string>): Option<string> {
    if username in userEmojis then Some(userEmojis[username]) else managerEmoji
  }

  /** The text message `handleSendMessage` stores: from a fresh user with that name and emoji, in the room's id. */
  function PostedMessage(username: string, content: string, emoji: string, room: Room,
                         senderId: Uuid, messageId: Uuid, now: Date): (m: ChatMessage)
    ensures m.sender.username == username && m.sender.emoji == emoji && m.content == content
    ensures m.roomId == room.id && m.messageType == Text && m.attachment.None?
  {
    NewMessage(content, NewUser(username, emoji, senderId, now), room.id, Text, None, messageId, now)
  }

  function HistoryOf(messages: map<Uuid, seq<ChatMessage>>, roomId: Uuid): seq<ChatMessage> {
    if roomId in messages then messages[roomId] else []
  }

  /** `handleSendMessage` once its guards hold: the message is appended and a differing emoji remembered. */
  function SendStep(t: Tables, username: string, roomId: Uuid, message: ChatMessage, update: Option<string>): Tables {
    t.(roomMessages := t.roomMessages[roomId := HistoryOf(t.roomMessages, roomId) + [message]],
       userEmojis := if update.Some? then t.userEmojis[username := update.value] else t.userEmojis)
  }

  /** Exactly one message is appended to that room's history; no other history and no room changes. */
  lemma SendAppendsOne(t: Tables, username: string, roomId: Uuid, message: ChatMessage, update: Option<string>)
    requires Consistent(t)
    ensures var r := SendStep(t, username, roomId, message, update);
            && Consistent(r)
            && |r.roomMessages[roomId]| == |HistoryOf(t.roomMessages, roomId)| + 1
            && r.roomMessages[roomId][..|HistoryOf(t.roomMessages, roomId)|] == HistoryOf(t.roomMessages, roomId)
            && r.roomMessages[roomId][|HistoryOf(t.roomMessages, roomId)|] == message
            && (forall k :: k != roomId ==> HistoryOf(r.roomMessages, k) == HistoryOf(t.roomMessages, k))
            && r.rooms == t.rooms && r.users == t.users && r.userRooms == t.userRooms
  {
    var h := HistoryOf(t.roomMessages, roomId);
    assert (h + [message])[..|h|] == h;
  }

  /** `handleClearChatHistory` once its guards hold. */
  function ClearStep(t: Tables, roomId: Uuid): Tables {
    t.(roomMessages := t.roomMessages - {roomId})
  }

  /** `handleRemoveRoom` once its guards hold. */
  function RemoveStep(t: Tables, roomId: Uuid): Tables {
    t.(rooms := t.rooms - {roomId}, roomMessages := t.roomMessages - {roomId})
  }

  /** The Lobby is never removed: the guard refuses any room whose lower-cased name is "lobby". */
  lemma RemoveKeepsLobby(t: Tables, roomId: Uuid)
    requires Consistent(t) && roomId in t.rooms && Lower(t.rooms[roomId].name) != LowerLobby
    ensures Consistent(RemoveStep(t, roomId))
    ensures roomId !in RemoveStep(t, roomId).rooms && roomId !in RemoveStep(t, roomId).roomMessages
  {
    var k :| k in t.rooms && t.rooms[k].name == LobbyName;
    LobbyLowered();
    assert k != roomId;
    assert k in RemoveStep(t, roomId).rooms;
  }

  // --------------------------------------------------------------- startup

  /** The persisted rooms by id; a later room with the same id replaces an earlier one. */
  function RoomsById(rooms: seq<Room>): (r: map<Uuid, Room>)
    ensures Keyed(r)
    ensures forall i :: 0 <= i < |rooms| ==> rooms[i].id in r
    ensures forall k :: k in r ==> r[k] in rooms
  {
    if |rooms| == 0 then map[]
    else
      var last := rooms[|rooms| - 1];
      var r := RoomsById(rooms[..|rooms| - 1]);
      assert forall i :: 0 <= i < |rooms| - 1 ==> rooms[i] == rooms[..|rooms| - 1][i];
      r[last.id := last]
  }

  /** The unexpired persisted links by invite code. */
  function LiveLinks(links: seq<ChatLink>, now: Date): (r: map<string, ChatLink>)
    ensures forall k :: k in r ==> r[k].inviteCode == k && !r[k].IsExpired(now) && r[k] in links
    ensures forall i :: 0 <= i < |links| && !links[i].IsExpired(now) ==> links[i].inviteCode in r
  {
    if |links| == 0 then map[]
    else
      var last := links[|links| - 1];
      var r := LiveLinks(links[..|links| - 1], now);
      assert forall i :: 0 <= i < |links| - 1 ==> links[i] == links[..|links| - 1][i];
      if last.IsExpired(now) then r else r[last.inviteCode := last]
  }

  /** Each persisted room's history: its own messages in timestamp order (`loadMessages(for:)`). */
  function Histories(rooms: seq<Room>, all: seq<ChatMessage>): map<Uuid, seq<ChatMessage>> {
    if |rooms| == 0 then map[]
    else Histories(rooms[..|rooms| - 1], all)[rooms[|rooms| - 1].id := Persistence.RoomHistory(all, rooms[|rooms| - 1].id)]
  }

  /** Every persisted room has a history, and each history holds exactly that room's messages in timestamp order. */
  lemma {:induction false} HistoriesContents(rooms: seq<Room>, all: seq<ChatMessage>)
    ensures forall i :: 0 <= i < |rooms| ==> rooms[i].id in Histories(rooms, all)
    ensures forall k :: k in Histories(rooms, all) ==> Histories(rooms, all)[k] == Persistence.RoomHistory(all, k)
    decreases |rooms|
  {
    if |rooms| > 0 {
      var init := rooms[..|rooms| - 1];
      var id := rooms[|rooms| - 1].id;
      var h0 := Histories(init, all);
      var h := h0[id := Persistence.RoomHistory(all, id)];
      assert Histories(rooms, all) == h;
      HistoriesContents(init, all);
      forall i | 0 <= i < |rooms|
        ensures rooms[i].id in h
      {
        if i < |init| {
          assert rooms[i] == init[i];
        }
      }
      forall k | k in h
        ensures h[k] == Persistence.RoomHistory(all, k)
      {
        if k != id {
          assert h[k] == h0[k];
        }
      }
    }
  }

  /** The Lobby the server creates, by a fresh "System" user. */
  function Lobby(lobbyId: Uuid, systemUserId: Uuid, now: Date): Room {
    NewRoom(lobbyId, LobbyName, now, NewUser(SystemUsername, DefaultEmoji, systemUserId, now))
  }

  /** `init` with `loadPersistedData`: the Lobby is added only when no room is named exactly "Lobby". */
  function Bootstrap(persistedRooms: seq<Room>, persistedLinks: seq<ChatLink>, persistedMessages: seq<ChatMessage>,
                     lobbyId: Uuid, systemUserId: Uuid, now: Date): Tables
  {
    var loaded := RoomsById(persistedRooms);
    var histories := Histories(persistedRooms, persistedMessages);
    var links := LiveLinks(persistedLinks, now);
    if HasLobby(loaded) then Tables(loaded, map[], map[], histories, map[], links)
    else Tables(loaded[lobbyId := Lobby(lobbyId, systemUserId, now)], map[], map[], histories[lobbyId := []], map[], links)
  }

  /** The server always starts with a Lobby, and adds one, with an empty history, only if none was loaded. */
  lemma BootstrapLobby(persistedRooms: seq<Room>, persistedLinks: seq<ChatLink>, persistedMessages: seq<ChatMessage>,
                       lobbyId: Uuid, systemUserId: Uuid, now: Date)
    ensures var t := Bootstrap(persistedRooms, persistedLinks, persistedMessages, lobbyId, systemUserId, now);
            && Consistent(t)
            && (HasLobby(RoomsById(persistedRooms)) ==> t.rooms == RoomsById(persistedRooms))
            && (!HasLobby(RoomsById(persistedRooms)) ==>
                  t.rooms == RoomsById(persistedRooms)[lobbyId := Lobby(lobbyId, systemUserId, now)]
                  && t.roomMessages[lobbyId] == [] && t.rooms[lobbyId].name == LobbyName)
  {
    var loaded := RoomsById(persistedRooms);
    if !HasLobby(loaded) {
      var t := Bootstrap(persistedRooms, persistedLinks, persistedMessages, lobbyId, systemUserId, now);
      assert t.rooms[lobbyId].name == LobbyName;
    }
  }

  // ----------------------------------------------------------------- fan-out

  /** The same text to the named users' clients, in the given order. */
  function FanOut(names: seq<string>, users: map<string, WebSocketClient>, text: string): seq<Delivery>
    requires forall i :: 0 <= i < |names| ==> names[i] in users
  {
    if |names| == 0 then []
    else FanOut(names[..|names| - 1], users, text) + [Delivery(users[names[|names| - 1]], text)]
  }

  /** The fan-out delivers the text once to each named user's client, in order. */
  lemma {:induction false} FanOutDeliveries(names: seq<string>, users: map<string, WebSocketClient>, text: string)
    requires forall i :: 0 <= i < |names| ==> names[i] in users
    ensures |FanOut(names, users, text)| == |names|
    ensures forall i :: 0 <= i < |names| ==> FanOut(names, users, text)[i] == Delivery(users[names[i]], text)
    decreases |names|
  {
    if |names| > 0 {
      var init := names[..|names| - 1];
      FanOutDeliveries(init, users, text);
      assert forall i :: 0 <= i < |init| ==> FanOut(names, users, text)[i] == FanOut(init, users, text)[i];
    }
  }

  /** A user `broadcastToRoom` delivers to: in that room, and not the excluded user. */
  predicate InRoom(userRooms: map<string, Uuid>, username: string, roomId: Uuid, excludeUser: Option<string>) {
    username in userRooms && userRooms[username] == roomId && excludeUser != Some(username)
  }

  /** The texts of a room's history replay, one `chatMessage` per stored message. */
  function HistoryTexts(render: ServerMessage -> string, history: seq<ChatMessage>): (r: seq<string>)
    ensures |r| == |history|
    ensures forall i :: 0 <= i < |r| ==> r[i] == render(ChatMessageMsg(history[i]))
  {
    if |history| == 0 then []
    else HistoryTexts(render, history[..|history| - 1]) + [render(ChatMessageMsg(history[|history| - 1]))]
  }

  lemma FanOutSnoc(names: seq<string>, name: string, users: map<string, WebSocketClient>, text: string)
    requires forall i :: 0 <= i < |names| ==> names[i] in users
    requires name in users
    ensures FanOut(names + [name], users, text) == FanOut(names, users, text) + [Delivery(users[name], text)]
  {
    assert (names + [name])[..|names|] == names;
  }

  /** The deliveries of a history replay to one client. */
  function Replay(render: ServerMessage -> string, client: WebSocketClient, history: seq<ChatMessage>): seq<Delivery> {
    if |history| == 0 then []
    else Replay(render, client, history[..|history| - 1]) + [Delivery(client, render(ChatMessageMsg(history[|history| - 1])))]
  }

  /** The replay sends the history's texts to that client, in order. */
  lemma {:induction false} ReplayIsHistory(render: ServerMessage -> string, client: WebSocketClient, history: seq<ChatMessage>)
    ensures Replay(render, client, history) == ToClient(client, HistoryTexts(render, history))
    decreases |history|
  {
    if |history| > 0 {
      var init := history[..|history| - 1];
      ReplayIsHistory(render, client, init);
      var texts := HistoryTexts(render, init);
      var x := render(ChatMessageMsg(history[|history| - 1]));
      assert HistoryTexts(render, history) == texts + [x];
      assert (texts + [x])[..|texts|] == texts;
    }
  }

  /** `UUID(uuidString:)` accepts 8-4-4-4-12 hexadecimal digits, in either case. */
  predicate IsHexDigit(c: char) {
    '0' <= c <= '9' || 'a' <= c <= 'f' || 'A' <= c <= 'F'
  }

  predicate IsUuidString(s: string) {
    |s| == 36 && forall i :: 0 <= i < 36 ==>
      if i == 8 || i == 13 || i == 18 || i == 23 then s[i] == '-' else IsHexDigit(s[i])
  }

  /** The first loop of `loadPersistedData`: each persisted room under its id. */
  method LoadRooms(persistedRooms: seq<Room>) returns (loaded: map<Uuid, Room>)
    ensures loaded == RoomsById(persistedRooms)
  {
    loaded := map[];
    var i := 0;
    while i < |persistedRooms|
      invariant 0 <= i <= |persistedRooms|
      invariant loaded == RoomsById(persistedRooms[..i])
    {
      assert persistedRooms[..i + 1][..i] == persistedRooms[..i];
      loaded := loaded[persistedRooms[i].id := persistedRooms[i]];
      i := i + 1;
    }
    assert persistedRooms[..i] == persistedRooms;
  }

  /** The second loop: each unexpired link under its invite code. */
  method LoadLinks(persistedLinks: seq<ChatLink>, now: Date) returns (links: map<string, ChatLink>)
    ensures links == LiveLinks(persistedLinks, now)
  {
    links := map[];
    var i := 0;
    while i < |persistedLinks|
      invariant 0 <= i <= |persistedLinks|
      invariant links == LiveLinks(persistedLinks[..i], now)
    {
      assert persistedLinks[..i + 1][..i] == persistedLinks[..i];
      if !persistedLinks[i].IsExpired(now) {
        links := links[persistedLinks[i].inviteCode := persistedLinks[i]];
      }
      i := i + 1;
    }
    assert persistedLinks[..i] == persistedLinks;
  }

  /** The third loop: each persisted room's history. */
  method LoadHistories(persistedRooms: seq<Room>, persistedMessages: seq<ChatMessage>)
    returns (histories: map<Uuid, seq<ChatMessage>>)
    ensures histories == Histories(persistedRooms, persistedMessages)
  {
    histories := map[];
    var i := 0;
    while i < |persistedRooms|
      invariant 0 <= i <= |persistedRooms|
      invariant histories == Histories(persistedRooms[..i], persistedMessages)
    {
      assert persistedRooms[..i + 1][..i] == persistedRooms[..i];
      histories := histories[persistedRooms[i].id := Persistence.RoomHistory(persistedMessages, persistedRooms[i].id)];
      i := i + 1;
    }
    assert persistedRooms[..i] == persistedRooms;
  }

  // ---------------------------------------------------------------- server

  class WebChatServer {
    const webServer: WebServer
    const adminUsername: string
    const render: ServerMessage -> string
    var rooms: map<Uuid, Room>
    var users: map<string, WebSocketClient>
    var userRooms: map<string, Uuid>
    var roomMessages: map<Uuid, seq<ChatMessage>>
    var userEmojis: map<string, string>
    var inviteLinks: map<string, ChatLink>

    function State(): Tables
      reads this
    {
      Tables(rooms, users, userRooms, roomMessages, userEmojis, inviteLinks)
    }

    predicate Valid()
      reads this
    {
      Consistent(State())
    }

    /**
     * `init(rpId:adminUsername:...)`: loads the persisted rooms, the
     * unexpired links and each room's history, then adds the Lobby if no
     * room is named "Lobby".
     */
    constructor (adminUsername: string, render: ServerMessage -> string,
                 persistedRooms: seq<Room>, persistedLinks: seq<ChatLink>, persistedMessages: seq<ChatMessage>,
                 lobbyId: Uuid, systemUserId: Uuid, now: Date)
      ensures this.adminUsername == adminUsername && this.render == render
      ensures fresh(webServer) && webServer.clients == [] && webServer.sent == []
      ensures State() == Bootstrap(persistedRooms, persistedLinks, persistedMessages, lobbyId, systemUserId, now)
      ensures Valid()
    {
      var loaded := LoadRooms(persistedRooms);
      var links := LoadLinks(persistedLinks, now);
      var histories := LoadHistories(persistedRooms, persistedMessages);
      if !HasLobby(loaded) {
        var lobby := Lobby(lobbyId, systemUserId, now);
        loaded := loaded[lobbyId := lobby];
        histories := histories[lobbyId := []];
      }
      this.adminUsername := adminUsername;
      this.render := render;
      webServer := new WebServer();
      rooms := loaded;
      users := map[];
      userRooms := map[];
      roomMessages := histories;
      userEmojis := map[];
      inviteLinks := links;
      new;
      BootstrapLobby(persistedRooms, persistedLinks, persistedMessages, lobbyId, systemUserId, now);
    }

    /** `sendToClient(_:message:)`. */
    method SendToClient(client: WebSocketClient, message: ServerMessage)
      modifies webServer
      ensures webServer.sent == old(webServer.sent) + [Delivery(client, render(message))]
      ensures webServer.clients == old(webServer.clients)
    {
      webServer.Send(client, render(message));
    }

    /** `broadcast(_:)`: to every connected client, named or not. */
    method Broadcast(message: ServerMessage)
      modifies webServer
      ensures webServer.sent == old(webServer.sent) + ToEach(webServer.clients, render(message))
      ensures webServer.clients == old(webServer.clients)
    {
      webServer.Broadcast(render(message));
    }

    /**
     * `broadcastToRoom(_:message:excludeUser:)`: one delivery to each user
     * recorded in that room, other than the excluded one, in the dictionary's
     * (unspecified) order, which `order` names.
     */
    method BroadcastToRoom(roomId: Uuid, message: ServerMessage, excludeUser: Option<string>)
      returns (ghost order: seq<string>)
      modifies webServer
      ensures forall i, j :: 0 <= i < j < |order| ==> order[i] != order[j]
      ensures forall u :: u in order <==> u in users && InRoom(userRooms, u, roomId, excludeUser)
      ensures forall i :: 0 <= i < |order| ==> order[i] in users
      ensures webServer.sent == old(webServer.sent) + FanOut(order, users, render(message))
      ensures webServer.clients == old(webServer.clients)
    {
      var text := render(message);
      var members, placed := users, userRooms;
      var remaining := members.Keys;
      order := [];
      while remaining != {}
        invariant remaining <= members.Keys
        invariant forall i, j :: 0 <= i < j < |order| ==> order[i] != order[j]
        invariant forall u :: u in order <==> u in members && u !in remaining && InRoom(placed, u, roomId, excludeUser)
        invariant forall i :: 0 <= i < |order| ==> order[i] in members
        invariant webServer.sent == old(webServer.sent) + FanOut(order, members, text)
        invariant webServer.clients == old(webServer.clients)
        decreases remaining
        modifies webServer
      {
        var username :| username in remaining;
        if InRoom(placed, username, roomId, excludeUser) {
          webServer.Send(members[username], text);
          FanOutSnoc(order, username, members, text);
          order := order + [username];
        }
        remaining := remaining - {username};
      }
    }

    /** `leaveUserFromRoom(username:roomId:)`, with the fresh user it builds. */
    method LeaveUserFromRoom(username: string, roomId: Uuid, leaveId: Uuid, now: Date)
      modifies this
      ensures rooms == WithoutParticipant(old(rooms), roomId, NewUser(username, DefaultEmoji, leaveId, now))
      ensures users == old(users) && userRooms == old(userRooms) && roomMessages == old(roomMessages)
      ensures userEmojis == old(userEmojis) && inviteLinks == old(inviteLinks)
    {
      if roomId !in rooms {
        return;
      }
      var room := rooms[roomId];
      room := room.RemoveParticipant(NewUser(username, DefaultEmoji, leaveId, now));
      rooms := rooms[roomId := room];
    }

    /**
     * `handleCreateRoom`: needs a name and a named client. A taken name
     * sends the error to this client only; otherwise the room is added and
     * `roomCreated` goes to every client.
     */
    method HandleCreateRoom(name: Option<string>, client: WebSocketClient, roomId: Uuid, creatorId: Uuid, now: Date)
      requires Valid() && roomId !in rooms
      modifies this, webServer
      ensures Valid()
      ensures webServer.clients == old(webServer.clients)
      ensures name.None? || client.username.None? ==> State() == old(State()) && webServer.sent == old(webServer.sent)
      ensures name.Some? && client.username.Some? ==>
                && State() == CreateStep(old(State()), name.value, client.username.value, roomId, creatorId, now)
                && webServer.sent == old(webServer.sent) +
                     if NameTaken(old(rooms), name.value) then [Delivery(client, render(ErrorMsg(DuplicateRoomError)))]
                     else ToEach(webServer.clients, render(RoomCreatedMsg(CreatedRoom(name.value, client.username.value, roomId, creatorId, now))))
    {
      if name.None? || client.username.None? {
        return;
      }
      var roomName := name.value;
      var username := client.username.value;
      ghost var t0 := State();
      CreateStepEffect(t0, roomName, username, roomId, creatorId, now);
      if NameTaken(rooms, roomName) {
        SendToClient(client, ErrorMsg(DuplicateRoomError));
        return;
      }
      var room := CreatedRoom(roomName, username, roomId, creatorId, now);
      rooms := rooms[roomId := room];
      roomMessages := roomMessages[roomId := []];
      Broadcast(RoomCreatedMsg(room));
    }

    /**
     * `handleJoinRoom`: needs a room id naming a room and a named client.
     * The user leaves their current room, joins this one, and is sent the
     * room's stored messages in order, then `roomJoined`.
     */
    method HandleJoinRoom(roomId: Option<string>, client: WebSocketClient, leaveId: Uuid, joinId: Uuid, now: Date)
      requires Valid()
      modifies this, webServer, client
      ensures Valid()
      ensures webServer.clients == old(webServer.clients) && client.username == old(client.username)
      ensures !(roomId.Some? && client.username.Some? && roomId.value in old(rooms)) ==>
                State() == old(State()) && webServer.sent == old(webServer.sent) && client.currentRoom == old(client.currentRoom)
      ensures roomId.Some? && client.username.Some? && roomId.value in old(rooms) ==>
                var username := client.username.value;
                && State() == JoinStep(old(State()), username, roomId.value,
                                       NewUser(username, DefaultEmoji, leaveId, now), NewUser(username, DefaultEmoji, joinId, now))
                && client.currentRoom == Some(roomId.value)
                && webServer.sent == old(webServer.sent) + Replay(render, client, HistoryOf(old(roomMessages), roomId.value))
                                     + [Delivery(client, render(RoomJoinedMsg(rooms[roomId.value], username == adminUsername)))]
    {
      if roomId.None? || client.username.None? || roomId.value !in rooms {
        return;
      }
      var id := roomId.value;
      var username := client.username.value;
      var room := JoinUser(username, id, leaveId, joinId, now);
      client.currentRoom := Some(id);
      SendHistory(client, HistoryOf(roomMessages, id));
      SendToClient(client, RoomJoinedMsg(room, username == adminUsername));
    }

    /** The state changes of `handleJoinRoom`: leave the current room, then join this one. */
    method JoinUser(username: string, id: Uuid, leaveId: Uuid, joinId: Uuid, now: Date) returns (room: Room)
      requires Valid() && id in rooms
      modifies this
      ensures Valid()
      ensures State() == JoinStep(old(State()), username, id, NewUser(username, DefaultEmoji, leaveId, now), NewUser(username, DefaultEmoji, joinId, now))
      ensures id in rooms && room == rooms[id]
    {
      ghost var t0 := State();
      room := rooms[id];
      if username in userRooms {
        LeaveUserFromRoom(username, userRooms[username], leaveId, now);
      }
      var user := NewUser(username, DefaultEmoji, joinId, now);
      room := room.AddParticipant(user);
      rooms := rooms[id := room];
      userRooms := userRooms[username := id];
      JoinStepEffect(t0, username, id, NewUser(username, DefaultEmoji, leaveId, now), user);
    }

    /** The replay loop of `handleJoinRoom`: one `chatMessage` per stored message, in order. */
    method SendHistory(client: WebSocketClient, history: seq<ChatMessage>)
      modifies webServer
      ensures webServer.sent == old(webServer.sent) + Replay(render, client, history)
      ensures webServer.clients == old(webServer.clients)
    {
      var i := 0;
      while i < |history|
        invariant 0 <= i <= |history|
        invariant webServer.sent == old(webServer.sent) + Replay(render, client, history[..i])
        invariant webServer.clients == old(webServer.clients)
        modifies webServer
      {
        assert history[..i + 1][..i] == history[..i];
        SendToClient(client, ChatMessageMsg(history[i]));
        i := i + 1;
      }
      assert history[..i] == history;
    }

    /** `handleLeaveRoom`: needs a room id and a named client; the user leaves that room and is in none. */
    method HandleLeaveRoom(roomId: Option<string>, client: WebSocketClient, leaveId: Uuid, now: Date)
      requires Valid()
      modifies this, client
      ensures Valid() && client.username == old(client.username)
      ensures roomId.None? || client.username.None? ==> State() == old(State()) && client.currentRoom == old(client.currentRoom)
      ensures roomId.Some? && client.username.Some? ==>
                && State() == LeaveStep(old(State()), client.username.value, roomId.value,
                                        NewUser(client.username.value, DefaultEmoji, leaveId, now))
                && client.currentRoom.None?
    {
      if roomId.None? || client.username.None? {
        return;
      }
      var username := client.username.value;
      ghost var t0 := State();
      LeaveUserFromRoom(username, roomId.value, leaveId, now);
      userRooms := userRooms - {username};
      client.currentRoom := None;
      LeaveStepEffect(t0, username, roomId.value, NewUser(username, DefaultEmoji, leaveId, now));
    }

    /**
     * `handleSendMessage`: needs a room id naming a room, the content and a
     * named client. The message is stored at the end of the room's history
     * and sent to everyone in the room, the sender included.
     */
    method HandleSendMessage(roomId: Option<string>, content: Option<string>, providedEmoji: Option<string>,
                             client: WebSocketClient, managerEmoji: Option<string>, senderId: Uuid, messageId: Uuid, now: Date)
      returns (ghost order: seq<string>)
      requires Valid()
      modifies this, webServer
      ensures Valid() && webServer.clients == old(webServer.clients)
      ensures !(roomId.Some? && content.Some? && client.username.Some? && roomId.value in old(rooms)) ==>
                State() == old(State()) && webServer.sent == old(webServer.sent)
      ensures roomId.Some? && content.Some? && client.username.Some? && roomId.value in old(rooms) ==>
                var username := client.username.value;
                var stored := StoredEmoji(old(userEmojis), username, managerEmoji);
                var message := PostedMessage(username, content.value, MessageEmoji(stored, providedEmoji), old(rooms)[roomId.value], senderId, messageId, now);
                && State() == SendStep(old(State()), username, roomId.value, message, EmojiUpdate(stored, providedEmoji))
                && (forall i :: 0 <= i < |order| ==> order[i] in users)
                && (forall u :: u in order <==> u in users && InRoom(userRooms, u, roomId.value, None))
                && webServer.sent == old(webServer.sent) + FanOut(order, users, render(ChatMessageMsg(message)))
    {
      order := [];
      if roomId.None? || content.None? || client.username.None? || roomId.value !in rooms {
        return;
      }
      var message := StoreMessage(client.username.value, roomId.value, content.value, providedEmoji, managerEmoji, senderId, messageId, now);
      order := BroadcastToRoom(roomId.value, ChatMessageMsg(message), None);
    }

    /** The state changes of `handleSendMessage`: pick the emoji, remember a differing one, append the message. */
    method StoreMessage(username: string, id: Uuid, content: string, providedEmoji: Option<string>,
                        managerEmoji: Option<string>, senderId: Uuid, messageId: Uuid, now: Date)
      returns (message: ChatMessage)
      requires Valid() && id in rooms
      modifies this
      ensures Valid()
      ensures var stored := StoredEmoji(old(userEmojis), username, managerEmoji);
              && message == PostedMessage(username, content, MessageEmoji(stored, providedEmoji), old(rooms)[id], senderId, messageId, now)
              && State() == SendStep(old(State()), username, id, message, EmojiUpdate(stored, providedEmoji))
    {
      var stored := StoredEmoji(userEmojis, username, managerEmoji);
      message := PostedMessage(username, content, MessageEmoji(stored, providedEmoji), rooms[id], senderId, messageId, now);
      var update := EmojiUpdate(stored, providedEmoji);
      SendAppendsOne(State(), username, id, message, update);
      var next := SendStep(State(), username, id, message, update);
      userEmojis, roomMessages := next.userEmojis, next.roomMessages;
    }

    /**
     * `handleClearChatHistory`: a non-admin is told no; otherwise a room id
     * in UUID form has its history dropped and `chatHistoryCleared` goes to
     * the users in that room.
     */
    method HandleClearChatHistory(roomId: Option<string>, client: WebSocketClient) returns (ghost order: seq<string>)
      requires Valid()
      modifies this, webServer
      ensures Valid() && webServer.clients == old(webServer.clients)
      ensures client.username != Some(adminUsername) ==>
                State() == old(State()) && webServer.sent == old(webServer.sent) + [Delivery(client, render(ErrorMsg(ClearHistoryDenied)))]
      ensures client.username == Some(adminUsername) && !(roomId.Some? && IsUuidString(roomId.value)) ==>
                State() == old(State()) && webServer.sent == old(webServer.sent)
      ensures client.username == Some(adminUsername) && roomId.Some? && IsUuidString(roomId.value) ==>
                && State() == ClearStep(old(State()), roomId.value)
                && (forall i :: 0 <= i < |order| ==> order[i] in users)
                && (forall u :: u in order <==> u in users && InRoom(userRooms, u, roomId.value, None))
                && webServer.sent == old(webServer.sent) + FanOut(order, users, render(ChatHistoryClearedMsg(roomId.value)))
    {
      order := [];
      if client.username != Some(adminUsername) {
        SendToClient(client, ErrorMsg(ClearHistoryDenied));
        return;
      }
      if roomId.None? || !IsUuidString(roomId.value) {
        return;
      }
      roomMessages := roomMessages - {roomId.value};
      order := BroadcastToRoom(roomId.value, ChatHistoryClearedMsg(roomId.value), None);
    }

    /**
     * `handleRemoveRoom`: a non-admin is told no; a missing room or one whose
     * lower-cased name is "lobby" is kept; otherwise the room and its history
     * go and `roomRemoved` is sent to every client.
     */
    method HandleRemoveRoom(roomId: Option<string>, client: WebSocketClient)
      requires Valid()
      modifies this, webServer
      ensures Valid() && webServer.clients == old(webServer.clients)
      ensures client.username != Some(adminUsername) ==>
                State() == old(State()) && webServer.sent == old(webServer.sent) + [Delivery(client, render(ErrorMsg(RemoveRoomDenied)))]
      ensures client.username == Some(adminUsername) &&
              !(roomId.Some? && roomId.value in old(rooms) && Lower(old(rooms)[roomId.value].name) != LowerLobby) ==>
                State() == old(State()) && webServer.sent == old(webServer.sent)
      ensures client.username == Some(adminUsername) &&
              roomId.Some? && roomId.value in old(rooms) && Lower(old(rooms)[roomId.value].name) != LowerLobby ==>
                && State() == RemoveStep(old(State()), roomId.value)
                && webServer.sent == old(webServer.sent) + ToEach(webServer.clients, render(RoomRemovedMsg(roomId.value)))
    {
      if client.username != Some(adminUsername) {
        SendToClient(client, ErrorMsg(RemoveRoomDenied));
        return;
      }
      if roomId.None? || roomId.value !in rooms || Lower(rooms[roomId.value].name) == LowerLobby {
        return;
      }
      ghost var t0 := State();
      RemoveKeepsLobby(t0, roomId.value);
      rooms := rooms - {roomId.value};
      roomMessages := roomMessages - {roomId.value};
      Broadcast(RoomRemovedMsg(roomId.value));
    }

    /**
     * `webServer(_:clientDidDisconnect:)`: a named client is forgotten and
     * leaves its room; then the user count goes to every client.
     */
    method ClientDidDisconnect(client: WebSocketClient, leaveId: Uuid, now: Date)
      requires Valid()
      modifies this, webServer
      ensures Valid() && webServer.clients == old(webServer.clients)
      ensures client.username.None? ==> State() == old(State())
      ensures client.username.Some? ==>
                State() == DisconnectStep(old(State()), client.username.value, NewUser(client.username.value, DefaultEmoji, leaveId, now))
      ensures webServer.sent == old(webServer.sent) + ToEach(webServer.clients, render(UserCountMsg(|users|)))
    {
      if client.username.Some? {
        var username := client.username.value;
        ghost var t0 := State();
        users := users - {username};
        if username in userRooms {
          LeaveUserFromRoom(username, userRooms[username], leaveId, now);
          userRooms := userRooms - {username};
        }
        DisconnectStepEffect(t0, username, NewUser(username, DefaultEmoji, leaveId, now));
      }
      Broadcast(UserCountMsg(|users|));
    }
  }
}
