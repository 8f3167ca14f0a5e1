/**
 * `PersistenceManager`: lists of rooms, messages, invite links, admin users
 * and standalone attachments kept under fixed keys of the user defaults. A
 * stored value is modelled as the decoded list itself (`Stored`); a key that
 * is missing or holds something else loads as the empty list, as a failed
 * decode does. Every save loads the list, edits it and writes it back.
 */
module Persistence {
  import opened Wrappers
  import opened Seqs
  import opened Models

  const RoomsKey: string := "MultiPeerChat_Rooms"
  const MessagesKey: string := "MultiPeerChat_Messages"
  const ChatLinksKey: string := "MultiPeerChat_ChatLinks"
  const AdminUsersKey: string := "MultiPeerChat_AdminUsers"
  const StandaloneKey: string := "MultiPeerChat_StandaloneAttachments"

  datatype Stored =
    | StoredRooms(rooms: seq<Room>)
    | StoredMessages(messages: seq<ChatMessage>)
    | StoredLinks(links: seq<ChatLink>)
    | StoredAdmins(users: seq<AdminUser>)
    | StoredAttachments(attachments: seq<FileAttachment>)

  // ------------------------------------------------------------ list edits

  /** `removeAll { $0.id == id }` on rooms. */
  function RoomsWithout(rooms: seq<Room>, id: Uuid): (r: seq<Room>)
    ensures forall x :: x in r <==> x in rooms && x.id != id
  {
    Filter(rooms, (x: Room) => x.id != id)
  }

  /** `removeAll { $0.roomId == roomId }` on messages. */
  function MessagesWithout(messages: seq<ChatMessage>, roomId: Uuid): (r: seq<ChatMessage>)
    ensures forall m :: m in r <==> m in messages && m.roomId != roomId
  {
    Filter(messages, (m: ChatMessage) => m.roomId != roomId)
  }

  /** `filter { $0.roomId == roomId }` on messages. */
  function MessagesOf(messages: seq<ChatMessage>, roomId: Uuid): (r: seq<ChatMessage>)
    ensures forall m :: m in r <==> m in messages && m.roomId == roomId
  {
    Filter(messages, (m: ChatMessage) => m.roomId == roomId)
  }

  function LinksWithout(links: seq<ChatLink>, inviteCode: string): (r: seq<ChatLink>)
    ensures forall l :: l in r <==> l in links && l.inviteCode != inviteCode
  {
    Filter(links, (l: ChatLink) => l.inviteCode != inviteCode)
  }

  /** `removeAll { $0.isExpired }` at time `now`. */
  function UnexpiredLinks(links: seq<ChatLink>, now: Date): (r: seq<ChatLink>)
    ensures forall l :: l in r <==> l in links && !l.IsExpired(now)
  {
    Filter(links, (l: ChatLink) => !l.IsExpired(now))
  }

  /** `removeAll { $0.id == user.id || $0.username == user.username }`. */
  function AdminsWithout(users: seq<AdminUser>, id: Uuid, username: string): (r: seq<AdminUser>)
    ensures forall u :: u in r <==> u in users && u.id != id && u.username != username
  {
    Filter(users, (u: AdminUser) => !(u.id == id || u.username == username))
  }

  function AdminsWithoutId(users: seq<AdminUser>, id: Uuid): (r: seq<AdminUser>)
    ensures forall u :: u in r <==> u in users && u.id != id
  {
    Filter(users, (u: AdminUser) => u.id != id)
  }

  function AttachmentsWithout(attachments: seq<FileAttachment>, id: Uuid): (r: seq<FileAttachment>)
    ensures forall a :: a in r <==> a in attachments && a.id != id
  {
    Filter(attachments, (a: FileAttachment) => a.id != id)
  }

  /** Standalone attachments uploaded at or after `cutoff` stay. */
  function AttachmentsSince(attachments: seq<FileAttachment>, cutoff: Date): (r: seq<FileAttachment>)
    ensures forall a :: a in r <==> a in attachments && a.uploadedAt >= cutoff
  {
    Filter(attachments, (a: FileAttachment) => !(a.uploadedAt < cutoff))
  }

  /** `saveRoom`'s edit: drop any room with the same id, then append the room. */
  function UpsertRoom(rooms: seq<Room>, room: Room): seq<Room> {
    RoomsWithout(rooms, room.id) + [room]
  }

  /**
   * After an upsert exactly one room has that id and it is the last one; the
   * earlier rooms are the others, in their old relative order.
   */
  lemma UpsertRoomUnique(rooms: seq<Room>, room: Room, before: seq<Room>, after: seq<Room>)
    requires rooms == before + after
    ensures var r := UpsertRoom(rooms, room);
            r[|r| - 1] == room && (forall i :: 0 <= i < |r| - 1 ==> r[i].id != room.id)
    ensures UpsertRoom(rooms, room)[..|UpsertRoom(rooms, room)| - 1] == RoomsWithout(before, room.id) + RoomsWithout(after, room.id)
    ensures forall x :: x in rooms && x.id != room.id ==> x in UpsertRoom(rooms, room)
  {
    var kept := RoomsWithout(rooms, room.id);
    var r := kept + [room];
    assert r[..|r| - 1] == kept;
    forall i | 0 <= i < |r| - 1
      ensures r[i].id != room.id
    {
      assert r[i] == kept[i] && kept[i] in kept;
    }
    FilterAppend(before, after, (x: Room) => x.id != room.id);
  }

  /** `saveChatLink`'s edit: drop any link with the same invite code, then append. */
  function UpsertLink(links: seq<ChatLink>, link: ChatLink): seq<ChatLink> {
    LinksWithout(links, link.inviteCode) + [link]
  }

  lemma UpsertLinkUnique(links: seq<ChatLink>, link: ChatLink)
    ensures var r := UpsertLink(links, link);
            r[|r| - 1] == link && (forall i :: 0 <= i < |r| - 1 ==> r[i].inviteCode != link.inviteCode)
    ensures forall l :: l in links && l.inviteCode != link.inviteCode ==> l in UpsertLink(links, link)
  {
    var kept := LinksWithout(links, link.inviteCode);
    var r := kept + [link];
    forall i | 0 <= i < |r| - 1
      ensures r[i].inviteCode != link.inviteCode
    {
      assert r[i] == kept[i] && kept[i] in kept;
    }
  }

  /** `saveAdminUser`'s edit: every record with the same id or the same name goes, then the user is appended. */
  function UpsertAdmin(users: seq<AdminUser>, user: AdminUser): seq<AdminUser> {
    AdminsWithout(users, user.id, user.username) + [user]
  }

  lemma UpsertAdminUnique(users: seq<AdminUser>, user: AdminUser)
    ensures var r := UpsertAdmin(users, user);
            r[|r| - 1] == user &&
            (forall i :: 0 <= i < |r| - 1 ==> r[i].id != user.id && r[i].username != user.username)
    ensures forall u :: u in users && u.id != user.id && u.username != user.username ==> u in UpsertAdmin(users, user)
  {
    var kept := AdminsWithout(users, user.id, user.username);
    var r := kept + [user];
    forall i | 0 <= i < |r| - 1
      ensures r[i].id != user.id && r[i].username != user.username
    {
      assert r[i] == kept[i] && kept[i] in kept;
    }
  }

  function UpsertAttachment(attachments: seq<FileAttachment>, a: FileAttachment): seq<FileAttachment> {
    AttachmentsWithout(attachments, a.id) + [a]
  }

  // -------------------------------------------------------------- ordering

  /** Non-decreasing timestamps. */
  predicate ByTime(s: seq<ChatMessage>) {
    forall i, j :: 0 <= i < j < |s| ==> s[i].timestamp <= s[j].timestamp
  }

  /** A message no later than every message of a sorted list can go in front of it. */
  lemma ByTimeCons(head: ChatMessage, tail: seq<ChatMessage>)
    requires ByTime(tail)
    requires forall i :: 0 <= i < |tail| ==> head.timestamp <= tail[i].timestamp
    ensures ByTime([head] + tail)
  {
    var s := [head] + tail;
    forall i, j | 0 <= i < j < |s|
      ensures s[i].timestamp <= s[j].timestamp
    {
      assert s[j] == tail[j - 1];
      if i > 0 {
        assert s[i] == tail[i - 1];
      }
    }
  }

  /** Insertion of `x` after every leading message not later than it. */
  function InsertByTime(x: ChatMessage, sorted: seq<ChatMessage>): (r: seq<ChatMessage>)
    ensures |r| == |sorted| + 1
  {
    if |sorted| == 0 then [x]
    else if x.timestamp < sorted[0].timestamp then [x] + sorted
    else [sorted[0]] + InsertByTime(x, sorted[1..])
  }

  /** Inserting into a sorted list keeps it sorted; nothing earlier than the old head appears but `x`. */
  lemma {:induction false} InsertByTimeSorted(x: ChatMessage, sorted: seq<ChatMessage>)
    requires ByTime(sorted)
    ensures ByTime(InsertByTime(x, sorted))
    ensures |sorted| > 0 ==> forall i :: 0 <= i < |sorted| + 1 ==>
              InsertByTime(x, sorted)[i] == x || InsertByTime(x, sorted)[i].timestamp >= sorted[0].timestamp
  {
    if |sorted| == 0 {
    } else if x.timestamp < sorted[0].timestamp {
      ByTimeCons(x, sorted);
    } else {
      var tail := sorted[1..];
      InsertByTimeSorted(x, tail);
      var rest := InsertByTime(x, tail);
      assert |tail| > 0 ==> sorted[0].timestamp <= tail[0].timestamp;
      assert forall i :: 0 <= i < |rest| ==> sorted[0].timestamp <= rest[i].timestamp;
      ByTimeCons(sorted[0], rest);
    }
  }

  /** Inserting adds exactly one copy of `x`. */
  lemma {:induction false} InsertByTimeCount(x: ChatMessage, sorted: seq<ChatMessage>)
    ensures multiset(InsertByTime(x, sorted)) == multiset(sorted) + multiset{x}
  {
    if |sorted| > 0 && x.timestamp >= sorted[0].timestamp {
      var tail := sorted[1..];
      assert sorted == [sorted[0]] + tail;
      InsertByTimeCount(x, tail);
    }
  }

  /** `sorted { $0.timestamp < $1.timestamp }`, as a stable insertion sort. */
  function SortByTime(s: seq<ChatMessage>): (r: seq<ChatMessage>)
    ensures ByTime(r) && multiset(r) == multiset(s) && |r| == |s|
  {
    if |s| == 0 then []
    else
      var n := |s| - 1;
      var front := SortByTime(s[..n]);
      InsertByTimeSorted(s[n], front);
      InsertByTimeCount(s[n], front);
      assert s == s[..n] + [s[n]];
      InsertByTime(s[n], front)
  }

  /** `loadMessages(for:)` over the stored list. */
  function RoomHistory(all: seq<ChatMessage>, roomId: Uuid): seq<ChatMessage> {
    SortByTime(MessagesOf(all, roomId))
  }

  /** A room's history is exactly its stored messages, each as often as stored, in timestamp order. */
  lemma RoomHistoryExact(all: seq<ChatMessage>, roomId: Uuid)
    ensures ByTime(RoomHistory(all, roomId))
    ensures multiset(RoomHistory(all, roomId)) == multiset(MessagesOf(all, roomId))
    ensures forall m :: m in RoomHistory(all, roomId) <==> m in all && m.roomId == roomId
  {
    var h := RoomHistory(all, roomId);
    forall m
      ensures m in h <==> m in MessagesOf(all, roomId)
    {
      assert m in h <==> m in multiset(h);
    }
  }

  // ----------------------------------------------------------------- queries

  /** `users.first { $0.username == username }`. */
  function AdminNamed(users: seq<AdminUser>, username: string): (r: Option<AdminUser>)
    ensures r.Some? ==> r.value in users && r.value.username == username
    ensures r.None? ==> forall u :: u in users ==> u.username != username
  {
    if |users| == 0 then None
    else if users[0].username == username then Some(users[0])
    else AdminNamed(users[1..], username)
  }

  /** The first matching record wins over later ones with the same name. */
  lemma AdminNamedFirst(before: seq<AdminUser>, user: AdminUser, after: seq<AdminUser>)
    requires forall u :: u in before ==> u.username != user.username
    ensures AdminNamed(before + [user] + after, user.username) == Some(user)
  {
    if |before| > 0 {
      assert (before + [user] + after)[1..] == before[1..] + [user] + after;
      AdminNamedFirst(before[1..], user, after);
    }
  }

  function AdminWithCredential(users: seq<AdminUser>, credentialId: string): (r: Option<AdminUser>)
    ensures r.Some? ==> r.value in users && r.value.credentialId == credentialId
    ensures r.None? ==> forall u :: u in users ==> u.credentialId != credentialId
  {
    if |users| == 0 then None
    else if users[0].credentialId == credentialId then Some(users[0])
    else AdminWithCredential(users[1..], credentialId)
  }

  /** `map { $0.userNumber }.max() ?? 0`, plus one. */
  function NextUserNumber(users: seq<AdminUser>): (r: int)
    ensures forall u :: u in users ==> u.userNumber < r
    ensures |users| == 0 ==> r == 1
    ensures |users| > 0 ==> exists u :: u in users && r == u.userNumber + 1
  {
    if |users| == 0 then 1
    else
      var rest := NextUserNumber(users[1..]);
      assert forall u :: u in users ==> u == users[0] || u in users[1..];
      if |users| == 1 || users[0].userNumber + 1 >= rest then users[0].userNumber + 1
      else
        var w :| w in users[1..] && rest == w.userNumber + 1;
        assert w in users;
        rest
  }

  /** `disableAdminUsersByIP`: the `map` that disables the users last seen at `ip`. */
  function DisabledAt(users: seq<AdminUser>, ip: string): (r: seq<AdminUser>)
    ensures |r| == |users|
    ensures forall i :: 0 <= i < |r| ==>
              r[i] == if users[i].lastLoginIP == Some(ip) then WithEnabledStatus(users[i], false) else users[i]
  {
    if |users| == 0 then []
    else
      var u := users[0];
      [if u.lastLoginIP == Some(ip) then WithEnabledStatus(u, false) else u] + DisabledAt(users[1..], ip)
  }

  /** Exactly the users last seen at `ip` end up disabled; every other field and every other user is kept. */
  lemma DisabledAtExactly(users: seq<AdminUser>, ip: string, i: nat)
    requires i < |users|
    ensures users[i].lastLoginIP == Some(ip) ==> !DisabledAt(users, ip)[i].isEnabled
    ensures users[i].lastLoginIP != Some(ip) ==> DisabledAt(users, ip)[i] == users[i]
    ensures DisabledAt(users, ip)[i].(isEnabled := users[i].isEnabled) == users[i]
  {
  }

  /** `compactMap { $0.attachment }`. */
  function AttachmentsOf(messages: seq<ChatMessage>): (r: seq<FileAttachment>)
    ensures forall a :: a in r <==> exists m :: m in messages && m.attachment == Some(a)
  {
    if |messages| == 0 then []
    else
      var rest := AttachmentsOf(messages[1..]);
      assert forall m :: m in messages <==> m == messages[0] || m in messages[1..];
      (if messages[0].attachment.Some? then [messages[0].attachment.value] else []) + rest
  }

  // ------------------------------------------------------------------- store

  class PersistenceManager {
    /** The user defaults. */
    var defaults: map<string, Stored>

    constructor (defaults: map<string, Stored>)
      ensures this.defaults == defaults
    {
      this.defaults := defaults;
    }

    function LoadRooms(): seq<Room>
      reads this
    {
      if RoomsKey in defaults && defaults[RoomsKey].StoredRooms? then defaults[RoomsKey].rooms else []
    }

    function LoadAllMessages(): seq<ChatMessage>
      reads this
    {
      if MessagesKey in defaults && defaults[MessagesKey].StoredMessages? then defaults[MessagesKey].messages else []
    }

    function LoadChatLinks(): seq<ChatLink>
      reads this
    {
      if ChatLinksKey in defaults && defaults[ChatLinksKey].StoredLinks? then defaults[ChatLinksKey].links else []
    }

    function LoadAdminUsers(): seq<AdminUser>
      reads this
    {
      if AdminUsersKey in defaults && defaults[AdminUsersKey].StoredAdmins? then defaults[AdminUsersKey].users else []
    }

    function LoadStandaloneAttachments(): seq<FileAttachment>
      reads this
    {
      if StandaloneKey in defaults && defaults[StandaloneKey].StoredAttachments? then defaults[StandaloneKey].attachments else []
    }

    /** `loadMessages(for:)`: exactly the room's stored messages, by non-decreasing timestamp. */
    function LoadMessages(roomId: Uuid): (r: seq<ChatMessage>)
      reads this
      ensures ByTime(r) && multiset(r) == multiset(MessagesOf(LoadAllMessages(), roomId))
    {
      RoomHistory(LoadAllMessages(), roomId)
    }

    method SaveRoom(room: Room)
      modifies this
      ensures defaults == old(defaults)[RoomsKey := StoredRooms(UpsertRoom(old(LoadRooms()), room))]
    {
      var rooms := LoadRooms();
      defaults := defaults[RoomsKey := StoredRooms(UpsertRoom(rooms, room))];
    }

    /** `deleteRoom`: the room and then, through `clearMessages`, every message of it. */
    method DeleteRoom(roomId: Uuid)
      modifies this
      ensures defaults == old(defaults)[RoomsKey := StoredRooms(RoomsWithout(old(LoadRooms()), roomId))]
                                       [MessagesKey := StoredMessages(MessagesWithout(old(LoadAllMessages()), roomId))]
    {
      var rooms := LoadRooms();
      defaults := defaults[RoomsKey := StoredRooms(RoomsWithout(rooms, roomId))];
      ClearMessages(roomId);
    }

    method SaveMessage(message: ChatMessage)
      modifies this
      ensures defaults == old(defaults)[MessagesKey := StoredMessages(old(LoadAllMessages()) + [message])]
    {
      var all := LoadAllMessages();
      defaults := defaults[MessagesKey := StoredMessages(all + [message])];
    }

    method ClearMessages(roomId: Uuid)
      modifies this
      ensures defaults == old(defaults)[MessagesKey := StoredMessages(MessagesWithout(old(LoadAllMessages()), roomId))]
    {
      var all := LoadAllMessages();
      defaults := defaults[MessagesKey := StoredMessages(MessagesWithout(all, roomId))];
    }

    method SaveChatLink(link: ChatLink)
      modifies this
      ensures defaults == old(defaults)[ChatLinksKey := StoredLinks(UpsertLink(old(LoadChatLinks()), link))]
    {
      var links := LoadChatLinks();
      defaults := defaults[ChatLinksKey := StoredLinks(UpsertLink(links, link))];
    }

    method DeleteChatLink(inviteCode: string)
      modifies this
      ensures defaults == old(defaults)[ChatLinksKey := StoredLinks(LinksWithout(old(LoadChatLinks()), inviteCode))]
    {
      var links := LoadChatLinks();
      defaults := defaults[ChatLinksKey := StoredLinks(LinksWithout(links, inviteCode))];
    }

    /** `cleanupExpiredLinks`: the list is written back only when some link had expired. */
    method CleanupExpiredLinks(now: Date)
      modifies this
      ensures (exists l :: l in old(LoadChatLinks()) && l.IsExpired(now)) ==>
                defaults == old(defaults)[ChatLinksKey := StoredLinks(UnexpiredLinks(old(LoadChatLinks()), now))]
      ensures (forall l :: l in old(LoadChatLinks()) ==> !l.IsExpired(now)) ==> defaults == old(defaults)
    {
      var links := LoadChatLinks();
      var kept := UnexpiredLinks(links, now);
      FilterShrinks(links, (l: ChatLink) => !l.IsExpired(now));
      if |kept| != |links| {
        defaults := defaults[ChatLinksKey := StoredLinks(kept)];
      }
    }

    /** `clearAllData`: four keys go; the standalone attachments stay. */
    method ClearAllData()
      modifies this
      ensures defaults == old(defaults) - {RoomsKey, MessagesKey, ChatLinksKey, AdminUsersKey}
      ensures LoadRooms() == [] && LoadAllMessages() == [] && LoadChatLinks() == [] && LoadAdminUsers() == []
      ensures LoadStandaloneAttachments() == old(LoadStandaloneAttachments())
    {
      defaults := defaults - {RoomsKey, MessagesKey, ChatLinksKey, AdminUsersKey};
    }

    /** `getAllAttachments`: the messages' attachments, then the standalone ones. */
    function GetAllAttachments(): (r: seq<FileAttachment>)
      reads this
      ensures forall a :: a in r <==>
                (a in LoadStandaloneAttachments() || exists m :: m in LoadAllMessages() && m.attachment == Some(a))
    {
      AttachmentsOf(LoadAllMessages()) + LoadStandaloneAttachments()
    }

    method SaveStandaloneAttachment(attachment: FileAttachment)
      modifies this
      ensures defaults == old(defaults)[StandaloneKey := StoredAttachments(UpsertAttachment(old(LoadStandaloneAttachments()), attachment))]
    {
      var attachments := LoadStandaloneAttachments();
      defaults := defaults[StandaloneKey := StoredAttachments(UpsertAttachment(attachments, attachment))];
    }

    /** The second half of `cleanupOrphanedFiles`: standalone attachments older than an hour go. */
    method CleanupStandaloneAttachments(now: Date)
      modifies this
      ensures defaults == old(defaults)[StandaloneKey := StoredAttachments(AttachmentsSince(old(LoadStandaloneAttachments()), now - 3600.0))]
    {
      var attachments := LoadStandaloneAttachments();
      defaults := defaults[StandaloneKey := StoredAttachments(AttachmentsSince(attachments, now - 3600.0))];
    }

    method SaveAdminUser(user: AdminUser)
      modifies this
      ensures defaults == old(defaults)[AdminUsersKey := StoredAdmins(UpsertAdmin(old(LoadAdminUsers()), user))]
    {
      var users := LoadAdminUsers();
      defaults := defaults[AdminUsersKey := StoredAdmins(UpsertAdmin(users, user))];
    }

    /** `deleteAdminUser`: the list is rewritten only when a user with that id exists. */
    method DeleteAdminUser(userId: Uuid)
      modifies this
      ensures (exists u :: u in old(LoadAdminUsers()) && u.id == userId) ==>
                defaults == old(defaults)[AdminUsersKey := StoredAdmins(AdminsWithoutId(old(LoadAdminUsers()), userId))]
      ensures (forall u :: u in old(LoadAdminUsers()) ==> u.id != userId) ==> defaults == old(defaults)
    {
      var users := LoadAdminUsers();
      if exists u :: u in users && u.id == userId {
        defaults := defaults[AdminUsersKey := StoredAdmins(AdminsWithoutId(users, userId))];
      }
    }

    function GetAdminUser(username: string): (r: Option<AdminUser>)
      reads this
      ensures r.Some? ==> r.value in LoadAdminUsers() && r.value.username == username
      ensures r.None? <==> forall u :: u in LoadAdminUsers() ==> u.username != username
    {
      AdminNamed(LoadAdminUsers(), username)
    }

    function GetAdminUserByCredential(credentialId: string): (r: Option<AdminUser>)
      reads this
      ensures r.Some? ==> r.value in LoadAdminUsers() && r.value.credentialId == credentialId
      ensures r.None? <==> forall u :: u in LoadAdminUsers() ==> u.credentialId != credentialId
    {
      AdminWithCredential(LoadAdminUsers(), credentialId)
    }

    function GetNextUserNumber(): (r: int)
      reads this
      ensures forall u :: u in LoadAdminUsers() ==> u.userNumber < r
      ensures LoadAdminUsers() == [] ==> r == 1
      ensures LoadAdminUsers() != [] ==> exists u :: u in LoadAdminUsers() && r == u.userNumber + 1
    {
      NextUserNumber(LoadAdminUsers())
    }

    method DisableAdminUsersByIP(ip: string)
      modifies this
      ensures defaults == old(defaults)[AdminUsersKey := StoredAdmins(DisabledAt(old(LoadAdminUsers()), ip))]
    {
      var users := LoadAdminUsers();
      defaults := defaults[AdminUsersKey := StoredAdmins(DisabledAt(users, ip))];
    }

    // ------------------------------------------------ the WebAuthn user manager

    /** The stored flag when a record for the name exists, and otherwise `true`. */
    function IsUserEnabled(username: string): (r: bool)
      reads this
      ensures (exists u :: u in LoadAdminUsers() && u.username == username) ==> r == GetAdminUser(username).value.isEnabled
      ensures (forall u :: u in LoadAdminUsers() ==> u.username != username) ==> r
    {
      match GetAdminUser(username)
      case Some(u) => u.isEnabled
      case None => true
    }

    /** Emoji are kept with the credentials elsewhere: there is never one here. */
    function GetUserEmoji(username: string): (r: Option<string>)
      ensures r.None?
    {
      None
    }

    method UpdateUserEmoji(username: string, emoji: string) returns (updated: bool)
      ensures !updated
    {
      updated := false;
    }

    method CreateUser(username: string, credentialId: string, publicKey: string, clientIP: Option<string>, emoji: string)
      ensures defaults == old(defaults)
    {
    }

    method UpdateUserLogin(username: string, signCount: nat, clientIP: Option<string>)
      ensures defaults == old(defaults)
    {
    }

    method DeleteUser(username: string)
      ensures defaults == old(defaults)
    {
    }
  }
}
