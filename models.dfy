/**
 * The value types shared by the server, the peer client and persistence.
 * A `UUID` is its `uuidString`; a `Date` is a number of seconds. Swift
 * synthesises equality over every stored field, and so does a datatype.
 */
module Models {
  import opened Wrappers
  import opened Seqs

  type Uuid = string
  type Date = real

  const DefaultEmoji: string := "\U{1F464}"

  datatype User = User(id: Uuid, username: string, joinedAt: Date, emoji: string)

  /** `User(username:emoji:)`: a fresh id and the current time. */
  function NewUser(username: string, emoji: string, freshId: Uuid, now: Date): (u: User)
    ensures u.username == username && u.emoji == emoji
    ensures u.id == freshId && u.joinedAt == now
  {
    User(freshId, username, now, emoji)
  }

  /** Two users made from the same name are different users, because their ids differ. */
  lemma UsersWithSameNameDiffer(name: string, emoji: string, id1: Uuid, id2: Uuid, t1: Date, t2: Date)
    requires id1 != id2
    ensures NewUser(name, emoji, id1, t1) != NewUser(name, emoji, id2, t2)
    ensures NewUser(name, emoji, id1, t1).username == NewUser(name, emoji, id2, t2).username
  {
  }

  datatype AdminUser = AdminUser(
    id: Uuid,
    username: string,
    credentialId: string,
    publicKey: string,
    signCount: nat,
    createdAt: Date,
    lastLoginAt: Option<Date>,
    lastLoginIP: Option<string>,
    isEnabled: bool,
    userNumber: int,
    emoji: string)

  const UInt32Max: int := 0xFFFF_FFFF

  /** The public initializer: enabled, never logged in. */
  function NewAdminUser(username: string, credentialId: string, publicKey: string, signCount: nat,
                        lastLoginIP: Option<string>, userNumber: int, emoji: string,
                        freshId: Uuid, now: Date): (a: AdminUser)
    requires signCount <= UInt32Max
    ensures a.isEnabled && a.lastLoginAt.None?
    ensures a.id == freshId && a.createdAt == now && a.username == username && a.userNumber == userNumber
  {
    AdminUser(freshId, username, credentialId, publicKey, signCount, now, None, lastLoginIP, true, userNumber, emoji)
  }

  /** `updatedWithLogin(ip:signCount:)`: a login changes the counter, the last-login time and address. */
  function UpdatedWithLogin(a: AdminUser, ip: Option<string>, signCount: nat, now: Date): (r: AdminUser)
    ensures r.signCount == signCount && r.lastLoginAt == Some(now) && r.lastLoginIP == ip
    ensures r.(signCount := a.signCount, lastLoginAt := a.lastLoginAt, lastLoginIP := a.lastLoginIP) == a
  {
    AdminUser(a.id, a.username, a.credentialId, a.publicKey, signCount, a.createdAt, Some(now), ip,
              a.isEnabled, a.userNumber, a.emoji)
  }

  function WithEnabledStatus(a: AdminUser, enabled: bool): (r: AdminUser)
    ensures r.isEnabled == enabled && r.(isEnabled := a.isEnabled) == a
  {
    AdminUser(a.id, a.username, a.credentialId, a.publicKey, a.signCount, a.createdAt, a.lastLoginAt,
              a.lastLoginIP, enabled, a.userNumber, a.emoji)
  }

  function WithEmoji(a: AdminUser, emoji: string): (r: AdminUser)
    ensures r.emoji == emoji && r.(emoji := a.emoji) == a
  {
    AdminUser(a.id, a.username, a.credentialId, a.publicKey, a.signCount, a.createdAt, a.lastLoginAt,
              a.lastLoginIP, a.isEnabled, a.userNumber, emoji)
  }

  /** A room is a value (a Swift struct): adding or removing a participant builds a new room. */
  datatype Room = Room(id: Uuid, name: string, createdAt: Date, participants: set<User>, createdBy: User)
  {
    function AddParticipant(u: User): (r: Room)
      ensures r.participants == participants + {u}
      ensures r.(participants := participants) == this
    {
      this.(participants := participants + {u})
    }

    function RemoveParticipant(u: User): (r: Room)
      ensures r.participants == participants - {u}
      ensures r.(participants := participants) == this
    {
      this.(participants := participants - {u})
    }
  }

  /** Both initializers start the participant set with the creator alone. */
  function NewRoom(id: Uuid, name: string, createdAt: Date, createdBy: User): (r: Room)
    ensures r.participants == {createdBy} && r.createdBy == createdBy
    ensures r.id == id && r.name == name
  {
    Room(id, name, createdAt, {createdBy}, createdBy)
  }

  /** Removing one member keeps every other member, the creator included. */
  lemma RemoveKeepsOthers(room: Room, gone: User, other: User)
    requires other in room.participants && other != gone
    ensures other in room.RemoveParticipant(gone).participants
  {
  }

  /** Adding then removing a user who was not a member gives the room back. */
  lemma AddRemove(room: Room, u: User)
    requires u !in room.participants
    ensures room.AddParticipant(u).RemoveParticipant(u) == room
  {
    assert room.participants + {u} - {u} == room.participants;
  }

  const ImagePrefix: string := "image/"

  datatype FileAttachment = FileAttachment(
    id: Uuid,
    fileName: string,
    originalFileName: string,
    mimeType: string,
    fileSize: int,
    filePath: string,
    uploadedAt: Date,
    isImage: bool,
    thumbnailPath: Option<string>)

  /** The initializer fixes `isImage` from the MIME type. */
  function NewFileAttachment(fileName: string, originalFileName: string, mimeType: string, fileSize: int,
                             filePath: string, thumbnailPath: Option<string>, freshId: Uuid, now: Date): (f: FileAttachment)
    ensures f.isImage <==> |mimeType| >= 6 && mimeType[..6] == ImagePrefix
    ensures f.mimeType == mimeType && f.fileSize == fileSize && f.fileName == fileName && f.filePath == filePath
  {
    FileAttachment(freshId, fileName, originalFileName, mimeType, fileSize, filePath, now,
                   HasPrefix(mimeType, ImagePrefix), thumbnailPath)
  }

  datatype MessageType = Text | Image | File | UserJoined | UserLeft | RoomCreated

  datatype ChatMessage = ChatMessage(
    id: Uuid,
    content: string,
    sender: User,
    roomId: Uuid,
    timestamp: Date,
    messageType: MessageType,
    attachment: Option<FileAttachment>)

  function NewMessage(content: string, sender: User, roomId: Uuid, messageType: MessageType,
                      attachment: Option<FileAttachment>, freshId: Uuid, now: Date): (m: ChatMessage)
    ensures m.content == content && m.roomId == roomId && m.messageType == messageType && m.timestamp == now
  {
    ChatMessage(freshId, content, sender, roomId, now, messageType, attachment)
  }

  /** The file-message initializer: the caption, or the file's name when there is none. */
  function FileMessage(attachment: FileAttachment, sender: User, roomId: Uuid, caption: string,
                       freshId: Uuid, now: Date): (m: ChatMessage)
    ensures m.content == (if caption == "" then attachment.originalFileName else caption)
    ensures m.messageType == (if attachment.isImage then Image else File)
    ensures m.attachment == Some(attachment) && m.roomId == roomId
  {
    ChatMessage(freshId, if |caption| == 0 then attachment.originalFileName else caption, sender, roomId, now,
                if attachment.isImage then Image else File, Some(attachment))
  }

  datatype ChatLink = ChatLink(roomId: Uuid, roomName: string, inviteCode: string, createdBy: User, expiresAt: Option<Date>)
  {
    /** Without an expiry a link never expires; otherwise it expires once `now` is past it. */
    predicate IsExpired(now: Date) {
      expiresAt.Some? && now > expiresAt.value
    }
  }

  const InviteAlphabet: string := "ABCDEFGHIJKLMNOPQRSTUVWXYZ0123456789"

  predicate IsInviteChar(c: char) {
    'A' <= c <= 'Z' || '0' <= c <= '9'
  }

  /** `generateInviteCode`: eight draws from the alphabet; `draws` are the random choices. */
  function InviteCode(draws: seq<nat>): (code: string)
    requires |draws| == 8
    ensures |code| == 8 && forall i :: 0 <= i < |code| ==> IsInviteChar(code[i])
  {
    assert forall k :: 0 <= k < |InviteAlphabet| ==> IsInviteChar(InviteAlphabet[k]);
    seq(8, i requires 0 <= i < 8 => InviteAlphabet[draws[i] % |InviteAlphabet|])
  }

  /** `ChatLink(room:expiresIn:)`: the expiry is `now` plus the interval, when one is given. */
  function NewChatLink(room: Room, expiresIn: Option<real>, draws: seq<nat>, now: Date): (l: ChatLink)
    requires |draws| == 8
    ensures l.roomId == room.id && l.roomName == room.name && l.createdBy == room.createdBy
    ensures expiresIn.None? ==> !l.IsExpired(now)
    ensures expiresIn.Some? ==> (l.IsExpired(now + expiresIn.value + 1.0) && (expiresIn.value > 0.0 ==> !l.IsExpired(now)))
    ensures l.inviteCode == InviteCode(draws)
    ensures l.expiresAt == if expiresIn.None? then None else Some(now + expiresIn.value)
    ensures expiresIn.None? ==> forall t: Date :: !l.IsExpired(t)
    ensures expiresIn.Some? ==> forall t: Date :: l.IsExpired(t) <==> t > now + expiresIn.value
  {
    ChatLink(room.id, room.name, InviteCode(draws), room.createdBy,
             match expiresIn case None => None case Some(d) => Some(now + d))
  }

  /** The peer-to-peer messages; their JSON form is not modelled. */
  datatype NetworkMessage =
    | ChatMessageSent(message: ChatMessage)
    | UserJoinedRoom(user: User, roomId: Uuid)
    | UserLeftRoom(user: User, roomId: Uuid)
    | RoomCreatedMessage(room: Room)
    | RoomList(rooms: seq<Room>)
    | JoinRoom(roomId: Uuid, user: User)
    | LeaveRoom(roomId: Uuid, user: User)
    | Ping
    | Pong
}
