# MultiPeerChatCore in Dafny

A model of the core of MultiPeerChatCore, a Swift chat system with two faces:

- a browser-facing web server. It speaks HTTP and WebSocket, accepts file uploads, keeps admin sessions and runs chat rooms;
- a peer-to-peer client. It exchanges length-prefixed messages with other peers over TCP.

Both sides share value types and a store of rooms, messages, invite links, admin users and attachments.

The model follows the Swift code file by file. State that the Swift code updates in place becomes a Dafny `class`. Each such class is proved against pure step functions over its fields and an ordered log of what it sends. The pure parts of the code become functions and lemmas.

| module | file | models |
|---|---|---|
| `Wrappers`, `Bytes`, `Seqs`, `Text`, `Utf8`, `Paths` | `wrappers.dfy` … `paths.dfy` | Optional values; bytes and fixed-width layouts; byte and text searches; Foundation's `lowercased`, trimming and `Int(_:)`; UTF-8 as in RFC 3629; `NSString.pathExtension` |
| `Models` | `models.dfy` | `User`, `Room`, `AdminUser`, `FileAttachment`, `ChatMessage`, `ChatLink` (`Models.swift`) |
| `WebSocket` | `websocket.dfy` | the single-frame codec of `WebSocketClient` (section 5.2 of RFC 6455, with client masking as in section 5.3), its receive loop, and the opening handshake of section 4.2.2 of RFC 6455 |
| `Http` | `http.dfy` | dispatch of a connection's first read, POST bodies completed by Content-Length (section 6.2 of RFC 9112), the request-line guard, the route table, the framing of every response, and the attachment path of `handleFileServing` |
| `Multipart` | `multipart.dfy` | `processBinaryUpload`, the extraction of the first file part of a multipart/form-data body (RFC 7578) |
| `Assets` | `assets.dfy` | `getMimeType` and the ICO container of `generateFaviconICO` |
| `Clients` | `clients.dfy` | the web server's registry of live WebSocket clients and the log of texts sent to them |
| `Network` | `network.dfy` | `NetworkManager`: the 4-byte big-endian envelope, send targeting, the re-arming receive loop, and the connection list |
| `Persistence` | `persistence.dfy` | `PersistenceManager` and its WebAuthn extension over a map from key to stored list |
| `Admin` | `admin.dfy` | `AdminManager`: session ids from Cookie (section 4.2 of RFC 6265) and Bearer (section 2.1 of RFC 6750) headers, the client address from forwarding headers, and the session table |
| `ChatServer` | `chatserver.dfy` | `WebChatServer`: its room, user and history dictionaries and the handlers that change them |
| `ChatClient` | `chatclient.dfy` | `ChatClient`: the peer-side client state driven by user actions and incoming `NetworkMessage`s |
| `Files` | `files.dfy` | `ChatFileManager`: upload validation, extension choice and orphan selection |

Effects become inputs:

- A socket is a sequence of receive completions, and the sends go to an ordered log.
- A time is a number of seconds.
- UUIDs and random draws are supplied values.
- JSON encoding, SHA-1 and base64 are supplied functions.

## Model

| member | source | states |
|---|---|---|
| Bytes.XorTwice | Sources/MultiPeerChatCore/WebServer.swift:2933-2938 | unmasking a masked payload byte with the same key byte gives the byte back |
| Bytes.ReadBE32Inverse | Sources/MultiPeerChatCore/NetworkManager.swift:149 | reading back the 4-byte big-endian length prefix gives the length that was written |
| Bytes.ReadLE32Inverse | Sources/MultiPeerChatCore/WebServer.swift:1828-1839 | reading back a 4-byte little-endian field of the icon directory gives the value that was written |
| Text.Lower | Sources/MultiPeerChatCore/WebServer.swift:217 | lowercasing keeps the length and maps each character to its lower-case form (ASCII capitals gain 32, everything else is kept) |
| Text.LowerIdempotent | Sources/MultiPeerChatCore/WebServer.swift:858 | lowercasing an already lower-cased text changes nothing |
| Text.TrimWith | Sources/MultiPeerChatCore/WebServer.swift:235 | the trimmed text is the input with a run of stripped characters removed at each end, and neither end of the result is a stripped character |
| Text.ParseInt | Sources/MultiPeerChatCore/WebServer.swift:236 | `Int(String)` accepts only non-empty text, gives a value within the 64-bit range, and a non-negative one without a leading minus |
| Text.ParseDecimal | Sources/MultiPeerChatCore/WebServer.swift:509 | parsing the decimal rendering of a count that a 64-bit integer holds gives the count back |
| Text.DecimalInjective | Sources/MultiPeerChatCore/WebServer.swift:509 | different counts render as different decimal texts |
| Text.TrimSpacedDecimal | Sources/MultiPeerChatCore/WebServer.swift:234-236 | a header value written as a space and a count trims back to the count's digits |
| Paths.PathExtensionShape | Sources/MultiPeerChatCore/WebServer.swift:913 | a non-empty path extension contains no `.` or `/`, and the name ends with `.` followed by it |
| Paths.PathExtensionOf | Sources/MultiPeerChatCore/WebServer.swift:858 | a name built as `base.ext`, with `base` ending in a non-empty component, has path extension `ext` |
| Paths.LastComponent | Sources/MultiPeerChatCore/FileManager.swift:127 | the last path component is a suffix of the path and contains no `/` |
| Utf8.DecodeEncode | Sources/MultiPeerChatCore/WebServer.swift:808 | decoding the UTF-8 encoding of any text gives the text back |
| Utf8.EncodeDecode | Sources/MultiPeerChatCore/WebServer.swift:808 | bytes that decode are exactly the encoding of the text they decode to |
| Utf8.EncodeInjective | Sources/MultiPeerChatCore/WebServer.swift:780 | distinct texts have distinct encodings |
| Utf8.AsciiLength | Sources/MultiPeerChatCore/WebServer.swift:509 | an ASCII text has as many UTF-8 bytes as characters |
| Seqs.IndexOfFirst | Sources/MultiPeerChatCore/WebServer.swift:1096 | `Data.range(of:)` finds the first occurrence of the pattern, and finds nothing only when the pattern occurs nowhere |
| Seqs.IndexOfIs | Sources/MultiPeerChatCore/WebServer.swift:1096 | the earliest occurrence of a pattern is the one the search returns |
| Seqs.JoinSplit | Sources/MultiPeerChatCore/WebServer.swift:284 | joining the pieces of `components(separatedBy:)` with the separator gives the text back |
| Seqs.SplitJoin | Sources/MultiPeerChatCore/WebServer.swift:284 | pieces that do not hold the separator's first element, joined and split again, come back unchanged |
| Text.Decimal | Sources/MultiPeerChatCore/WebServer.swift:509 | string interpolation of a count gives decimal digits without a leading zero whose value is the count |
| Models.NewUser | Sources/MultiPeerChatCore/Models.swift:13-18 | a new user carries the given name and emoji, the fresh id and the creation time |
| Models.UsersWithSameNameDiffer | Sources/MultiPeerChatCore/Models.swift:7-18 | two users created from the same name share the name but are unequal, because equality covers the distinct ids |
| Models.NewAdminUser | Sources/MultiPeerChatCore/Models.swift:42-62 | a new administrator is enabled, has never logged in, and keeps the given name, number, id and creation time |
| Models.UpdatedWithLogin | Sources/MultiPeerChatCore/Models.swift:64-78 | a login sets the signature counter, the last-login time to now and the address, and leaves every other field as it was |
| Models.WithEnabledStatus | Sources/MultiPeerChatCore/Models.swift:80-94 | only the enabled flag changes, to the given value |
| Models.WithEmoji | Sources/MultiPeerChatCore/Models.swift:96-110 | only the emoji changes, to the given one |
| Models.Room.AddParticipant | Sources/MultiPeerChatCore/Models.swift:163-165 | the participant set gains the user (set insertion) and nothing else about the room changes |
| Models.Room.RemoveParticipant | Sources/MultiPeerChatCore/Models.swift:167-169 | the participant set loses the user (set removal) and nothing else about the room changes |
| Models.NewRoom | Sources/MultiPeerChatCore/Models.swift:147-161 | a new room's participants are exactly its creator, with the given id and name |
| Models.RemoveKeepsOthers | Sources/MultiPeerChatCore/Models.swift:167-169 | removing one user keeps every other participant |
| Models.AddRemove | Sources/MultiPeerChatCore/Models.swift:163-169 | adding and then removing a user who was not a participant gives back the same room |
| Models.NewFileAttachment | Sources/MultiPeerChatCore/Models.swift:184-194 | `isImage` holds exactly when the MIME type starts with `image/`; type, size, names and path are kept |
| Models.NewMessage | Sources/MultiPeerChatCore/Models.swift:223-231 | a new message keeps content, room and type, stamped with the current time |
| Models.FileMessage | Sources/MultiPeerChatCore/Models.swift:244-252 | the content is the caption, or the original file name when the caption is empty; the type is image or file after `isImage`; the attachment is set |
| Models.InviteCode | Sources/MultiPeerChatCore/Models.swift:271-274 | an invite code has eight characters, each an upper-case ASCII letter or a digit |
| Models.NewChatLink | Sources/MultiPeerChatCore/Models.swift:263-279 | a link names the room and its creator and carries the invite code drawn from `draws`; its expiry is now plus the interval, or absent without one; it is expired at exactly the times after now plus the interval, and never without an interval |
| WebSocket.UnmaskTwice | Sources/MultiPeerChatCore/WebServer.swift:2934-2938 | masking and unmasking with the same four-byte key gives the payload back |
| WebSocket.FrameLayout | Sources/MultiPeerChatCore/WebServer.swift:2899-2931 | an accepted header has at least two bytes, places the payload after the key when the mask bit is set, and the whole payload lies inside the buffer |
| WebSocket.ParseWebSocketFrame | Sources/MultiPeerChatCore/WebServer.swift:2898-2946 | the parser returns exactly the frame's text: the unmasked payload the header delimits, decoded as UTF-8, or nothing |
| WebSocket.ExtractPayload | Sources/MultiPeerChatCore/WebServer.swift:2899-2938 | the offset walk and the unmasking loop produce exactly the payload of the frame specification, or nothing where the guards refuse |
| WebSocket.UnmaskInPlace | Sources/MultiPeerChatCore/WebServer.swift:2934-2938 | after the loop each buffer byte is the old byte XOR the key byte at its index modulo 4 |
| WebSocket.FrameRefusals | Sources/MultiPeerChatCore/WebServer.swift:2899-2945 | no text is returned for fewer than two bytes, the 64-bit length form, an opcode other than 1, a short extended length, a short masking key, a short payload, or a payload that is not UTF-8 |
| WebSocket.FrameTextPayload | Sources/MultiPeerChatCore/WebServer.swift:2904-2942 | a returned text had opcode 1 and a length other than 127, and its UTF-8 form is exactly the unmasked payload at the delimited position |
| WebSocket.LengthField | Sources/MultiPeerChatCore/WebServer.swift:2955-2967 | the length field takes one byte or three bytes |
| WebSocket.CreateWebSocketFrame | Sources/MultiPeerChatCore/WebServer.swift:2948-2973 | the frame built byte by byte is the frame specification: `0x81`, an unmasked length field, then the UTF-8 payload |
| WebSocket.FrameHeader | Sources/MultiPeerChatCore/WebServer.swift:2952-2970 | a sent frame is a final text frame, unmasked; below 126 bytes the length is inline, up to 65535 it is the 16-bit form, and from 65536 on the 16-bit field says 65535 |
| WebSocket.UnmaskedFrameText | Sources/MultiPeerChatCore/WebServer.swift:2898-2973 | the parser reads back the payload of an unmasked text frame with a truthful length field |
| WebSocket.FrameRoundTrip | Sources/MultiPeerChatCore/WebServer.swift:2898-2973 | every text shorter than 65536 UTF-8 bytes that is sent as a frame parses back to the same text |
| WebSocket.FrameOversize | Sources/MultiPeerChatCore/WebServer.swift:2962-2967 | from 65536 bytes on, the receiver reads only the first 65535 payload bytes, so it never gets back the text that was sent |
| WebSocket.OversizePayload | Sources/MultiPeerChatCore/WebServer.swift:2962-2967 | an oversize frame's payload reads back only as its first 65535 bytes |
| WebSocket.FrameCutYieldsNothing | Sources/MultiPeerChatCore/WebServer.swift:2883-2931 | every receive is parsed as a whole frame, so a cut of a sent frame that keeps the two header bytes but not the whole frame gives no text |
| WebSocket.ClientFrameRoundTrip | Sources/MultiPeerChatCore/WebServer.swift:2898-2946 | a browser's masked text frame under 65536 bytes is unmasked back to its text |
| WebSocket.MaskedFrameText | Sources/MultiPeerChatCore/WebServer.swift:2911-2938 | a masked frame with a truthful 7-bit or 16-bit length reads back its unmasked payload |
| WebSocket.ClientFrameLong | Sources/MultiPeerChatCore/WebServer.swift:2915-2918 | a client frame that uses the 64-bit length form is refused, whatever it carries |
| WebSocket.ReceiveWebSocketFrames | Sources/MultiPeerChatCore/WebServer.swift:2882-2896 | the receive loop delivers the texts of the completions before the first one with no data or fewer than two bytes, in order, and disconnects exactly when such a completion arrives |
| WebSocket.Sent | Sources/MultiPeerChatCore/WebServer.swift:2869-2872 | sending messages one frame per receive gives one non-ending completion per message |
| WebSocket.DeliveredFrames | Sources/MultiPeerChatCore/WebServer.swift:2869-2896 | messages under 65536 bytes that are sent one frame per receive are delivered in the order sent |
| WebSocket.DeliveredAll | Sources/MultiPeerChatCore/WebServer.swift:2889-2894 | completions whose frames all parse deliver exactly those texts, in order |
| WebSocket.KeyFromLinesFinds | Sources/MultiPeerChatCore/WebServer.swift:1487-1495 | the key the server reads is the trimmed value of the first line starting with `Sec-WebSocket-Key:` |
| WebSocket.AcceptKey | Sources/MultiPeerChatCore/WebServer.swift:1535-1540 | the accept key is the base64 form of the SHA-1 digest of the UTF-8 bytes of the key followed by the GUID of section 4.2.2 of RFC 6455 |
| WebSocket.HandshakeResponseLines | Sources/MultiPeerChatCore/WebServer.swift:1500-1507 | splitting the 101 response at CRLF gives back the status line, the upgrade headers, the accept header and the blank line that ends the head |
| WebSocket.MaskedShort | Sources/MultiPeerChatCore/WebServer.swift:2908-2938 | a masked frame with a one-byte length yields the payload XOR-ed with the key |
| WebSocket.MaskedMedium | Sources/MultiPeerChatCore/WebServer.swift:2908-2938 | a masked frame with a 16-bit big-endian length yields the payload XOR-ed with the key |
| WebSocket.CutPayload | Sources/MultiPeerChatCore/WebServer.swift:2898-2945 | any prefix of a server frame shorter than the whole frame, and at least two bytes long, decodes to nothing |
| WebSocket.SentDecodes | Sources/MultiPeerChatCore/WebServer.swift:2898-2973 | every text sent in frames shorter than 65536 payload bytes decodes back to that text |
| WebSocket.DeliveredSnoc | Sources/MultiPeerChatCore/WebServer.swift:2882-2894 | each further read of two or more bytes delivers its text when the frame decodes, and delivers nothing otherwise |
| Http.ContentLengthAt | Sources/MultiPeerChatCore/WebServer.swift:230-239 | the first line starting with `content-length:` in any case decides the length, even when its value does not parse |
| Http.NoContentLength | Sources/MultiPeerChatCore/WebServer.swift:230-241 | a request with no `content-length:` line announces no length |
| Http.ContentLengthRoundTrip | Sources/MultiPeerChatCore/WebServer.swift:231-236 | the `Content-Length: n` line the server writes is recognised as a length line and read back as `n` |
| Http.NotContentLengthLine | Sources/MultiPeerChatCore/WebServer.swift:234 | a line whose ninth character is not `l` in either case is not taken for a length line |
| Http.RequestLineGuard | Sources/MultiPeerChatCore/WebServer.swift:284-288 | a request has no method and path exactly when its first line has no space |
| Http.RequestLineParsed | Sources/MultiPeerChatCore/WebServer.swift:284-291 | the request line `method path version` gives back that method and that path |
| Http.PublicPage | Sources/MultiPeerChatCore/WebServer.swift:298-327 | the public page routes never serve the admin panel or the admin script |
| Http.AdminPage | Sources/MultiPeerChatCore/WebServer.swift:329-372 | the admin panel and its script are served only for a valid session; the user list is handed on only for a valid session or while any session is live |
| Http.AssetRoute | Sources/MultiPeerChatCore/WebServer.swift:418-429 | the manifest, icon and file-tree routes serve only the manifest, browser configuration or preview pages, and never hand on to an admin API handler |
| Http.IconRoute | Sources/MultiPeerChatCore/WebServer.swift:430-477 | the icon routes serve only the preview page and never reach an admin API handler |
| Http.PrefixRoute | Sources/MultiPeerChatCore/WebServer.swift:478-489 | a path under one of the file trees goes to a non-admin handler; any other path is not found |
| Http.IconSize | Sources/MultiPeerChatCore/WebServer.swift:433-474 | a recognised icon path is `/icon-<size>.png` for one of the fourteen listed sizes, and every such path is recognised: there is no size exactly when no listed size's icon path is the request path |
| Http.IconSizeIn | Sources/MultiPeerChatCore/WebServer.swift:433-474 | the size found is the first of the listed sizes whose icon path is the request path, and none is found exactly when no listed size matches |
| Http.AdminNeedsSession | Sources/MultiPeerChatCore/WebServer.swift:296-417 | with no live admin session, no method and no path reaches the admin panel, the admin script or any admin API handler |
| Http.GetNeedsSession | Sources/MultiPeerChatCore/WebServer.swift:298-372 | with no live session, no GET route serves the admin pages or hands on to the admin API |
| Http.PostNeedsSession | Sources/MultiPeerChatCore/WebServer.swift:361-417 | with no live session, no POST route hands on to the admin API |
| Http.AnySessionOpensUsers | Sources/MultiPeerChatCore/WebServer.swift:364-366 | any live admin session opens the user list, whether or not the request carries it |
| Http.RenderFraming | Sources/MultiPeerChatCore/WebServer.swift:506-516 | splitting a rendered response at CRLF gives back its header lines, the empty line and the body, and its first length line carries the announced count |
| Http.PageFraming | Sources/MultiPeerChatCore/WebServer.swift:506-516 | every page or refusal announces the UTF-8 length of its body, and the body follows the seven header lines and the empty line |
| Http.PageHeadFacts | Sources/MultiPeerChatCore/WebServer.swift:506-513 | the page header holds seven lines without CR, the third being the length line and the first two not length lines |
| Http.ShortHeadFacts | Sources/MultiPeerChatCore/WebServer.swift:1452-1458 | the shorter header holds five lines without CR, the third being the length line |
| Http.ErrorFraming | Sources/MultiPeerChatCore/WebServer.swift:1444-1465 | an error response announces the UTF-8 length of its JSON body and carries that body after the five header lines |
| Http.FileFraming | Sources/MultiPeerChatCore/WebServer.swift:1408-1421 | a file response announces the file's size, and the file's bytes follow the header text unchanged |
| Http.FileHeadFacts | Sources/MultiPeerChatCore/WebServer.swift:1409-1417 | the file header holds no CR and has the length line third, after two lines that are not length lines |
| Http.PreflightFraming | Sources/MultiPeerChatCore/WebServer.swift:1467-1479 | the preflight response announces an empty body |
| Http.PreflightHeadFacts | Sources/MultiPeerChatCore/WebServer.swift:1468-1476 | the preflight header holds no CR and has its length line sixth, after five lines that are not length lines |
| Http.HandleHttpRequestReplies | Sources/MultiPeerChatCore/WebServer.swift:283-521 | a request gets no response exactly when its first line has no space, and every response written here announces the UTF-8 length of the body it carries |
| Http.FirstDispatch | Sources/MultiPeerChatCore/WebServer.swift:175-193 | a read with no data is ignored; a whole header block that announces an upload goes to the binary upload handler with all the data read; anything else is dispatched as text |
| Http.TextDispatch | Sources/MultiPeerChatCore/WebServer.swift:193-280 | a request naming `Upgrade: websocket` is upgraded, an `OPTIONS` request is answered as a preflight for its path, and only a POST may wait for more body |
| Http.PostDispatch | Sources/MultiPeerChatCore/WebServer.swift:228-255 | a POST is either handled at once as received or waits for more body |
| Http.PostDispatchRule | Sources/MultiPeerChatCore/WebServer.swift:228-256 | a POST waits for more body exactly when a length is announced, the header ends in the first read and fewer body bytes than announced follow it; the wait starts at the byte after the header end |
| Http.ReadRequestBody | Sources/MultiPeerChatCore/WebServer.swift:256-274 | receives are appended until the body reaches the announced length or a receive delivers nothing; the request handled is the text of all bytes read, and every earlier receive left the body short |
| Http.UploadStart | Sources/MultiPeerChatCore/WebServer.swift:1011-1064 | a missing header end is refused as an invalid format before a missing length is refused; otherwise the body so far is the data after the header end and the length is the announced one |
| Http.ReadUploadBody | Sources/MultiPeerChatCore/WebServer.swift:1041-1060 | each receive comes only while the body is short; the body handed on is everything received, and it is complete or the last receive delivered nothing |
| Http.FileFor | Sources/MultiPeerChatCore/WebServer.swift:1273-1290 | a file path serves only a stored attachment |
| Http.FirstNamed | Sources/MultiPeerChatCore/WebServer.swift:1278-1281 | the attachment found has the requested file name, and none is found exactly when no stored attachment has it |
| Http.FirstWithId | Sources/MultiPeerChatCore/WebServer.swift:1282-1285 | the attachment found has the requested id, and none is found exactly when no stored attachment has it |
| Http.FileForParts | Sources/MultiPeerChatCore/WebServer.swift:1274-1290 | two path parts look the file up by name, three by id, and any other count finds nothing |
| Http.FileForIdPath | Sources/MultiPeerChatCore/WebServer.swift:1282-1285 | `/files/<id>/<name>` serves the first attachment with that id, whatever the name |
| Http.FileForNamePath | Sources/MultiPeerChatCore/WebServer.swift:1278-1281 | `/files/<name>` serves the first attachment stored under that name |
| Http.PathPartsOfJoin | Sources/MultiPeerChatCore/WebServer.swift:1274 | the non-empty `/`-separated parts of a path built from non-empty pieces without `/` are those pieces |
| Network.Envelope | Sources/MultiPeerChatCore/NetworkManager.swift:149 | an envelope is four bytes longer than the encoded message |
| Network.EnvelopeRoundTrip | Sources/MultiPeerChatCore/NetworkManager.swift:149-229 | the receiver reads the envelope's 4-byte big-endian prefix back as the payload length, and the payload follows it |
| Network.ToAll | Sources/MultiPeerChatCore/NetworkManager.swift:155-157 | a broadcast writes the same bytes once to every connection, in list order |
| Network.OutgoingTargets | Sources/MultiPeerChatCore/NetworkManager.swift:143-159 | a message that does not encode sends nothing; a targeted send is one envelope to that connection; an untargeted one is the same envelope to every connection in list order |
| Network.Exchange | Sources/MultiPeerChatCore/NetworkManager.swift:211-249 | the receive loop consumes no more completions than it is given, and always first asks for exactly four bytes |
| Network.ExchangeStep | Sources/MultiPeerChatCore/NetworkManager.swift:221-246 | a good prefix followed by a decodable payload delivers that message, asks for the announced length, and goes on with the rest |
| Network.ReceiveMessages | Sources/MultiPeerChatCore/NetworkManager.swift:211-249 | the re-arming receive loop delivers exactly the messages, asks exactly the sizes, and ends exactly as the loop specification says |
| Network.Stream | Sources/MultiPeerChatCore/NetworkManager.swift:149-162 | messages sent one envelope at a time reach the peer as two reads each |
| Network.ExchangeStream | Sources/MultiPeerChatCore/NetworkManager.swift:143-249 | when decoding inverts encoding, the receiver delivers exactly the messages sent, in order, asks for each one's encoded length after its prefix, and is still waiting for the next prefix |
| Network.StreamHead | Sources/MultiPeerChatCore/NetworkManager.swift:149 | the stream of a first message is its length prefix, then its payload, then the rest |
| Network.BadPrefixEnds | Sources/MultiPeerChatCore/NetworkManager.swift:216-224 | a failed length read, or one that is not exactly four bytes, ends the loop at once with nothing delivered |
| Network.UndecodableEnds | Sources/MultiPeerChatCore/NetworkManager.swift:229-239 | a payload that does not decode ends the loop without re-arming |
| Network.NetworkManager.constructor | Sources/MultiPeerChatCore/NetworkManager.swift:19-27 | a new manager has no connections and has sent and cancelled nothing |
| Network.NetworkManager.SetupConnection | Sources/MultiPeerChatCore/NetworkManager.swift:176-177 | the connection is appended and nothing is sent or cancelled |
| Network.NetworkManager.RemoveConnection | Sources/MultiPeerChatCore/NetworkManager.swift:207-209 | every entry that is this connection object is removed and the others keep their order |
| Network.NetworkManager.StopListening | Sources/MultiPeerChatCore/NetworkManager.swift:82-90 | every connection is cancelled once, in list order, and then the list is empty |
| Network.NetworkManager.SendMessage | Sources/MultiPeerChatCore/NetworkManager.swift:143-159 | the transmissions written are exactly those of the outgoing specification, and the connection list is unchanged |
| Multipart.BoundaryIn | Sources/MultiPeerChatCore/WebServer.swift:1071-1082 | there is no boundary exactly when no header line both starts with `content-type:` in any case and contains `boundary=`; otherwise it is the value of such a line |
| Multipart.BoundaryInSkips | Sources/MultiPeerChatCore/WebServer.swift:1073-1078 | the first declaring line decides, whatever follows it |
| Multipart.BoundaryOfHeaders | Sources/MultiPeerChatCore/WebServer.swift:1071-1082 | a header block whose first declaring line is `line` yields that line's boundary |
| Multipart.BoundaryValueOf | Sources/MultiPeerChatCore/WebServer.swift:1075-1076 | the boundary is the text after the last `boundary=`, without surrounding spaces |
| Multipart.OccursInSuffix | Sources/MultiPeerChatCore/WebServer.swift:1104-1108 | a search in what follows the boundary finds an occurrence in the whole body, shifted |
| Multipart.MessagesDistinct | Sources/MultiPeerChatCore/WebServer.swift:1086-1204 | helper fact about the constant messages: each refusal answers with an error message of its own |
| Multipart.PartHeadersSpan | Sources/MultiPeerChatCore/WebServer.swift:1094-1115 | the part headers lie after the boundary bytes and end before a CRLFCRLF inside the body; only a missing boundary or a missing header end refuses them |
| Multipart.PartHeadersFormat | Sources/MultiPeerChatCore/WebServer.swift:1097-1100 | the body is refused as malformed exactly when the boundary bytes are empty or occur nowhere in it |
| Multipart.PartHeadersMissing | Sources/MultiPeerChatCore/WebServer.swift:1104-1112 | with the boundary found, the headers are refused exactly when no CRLFCRLF follows its first occurrence |
| Multipart.PartHeadersFirst | Sources/MultiPeerChatCore/WebServer.swift:1097-1115 | the part headers start right after the first occurrence of the boundary and end at the first CRLFCRLF after it |
| Multipart.CharCount | Sources/MultiPeerChatCore/WebServer.swift:1170-1175 | a text has at most as many Characters as scalars, and at least one when it is not empty |
| Multipart.CharCountNoCr | Sources/MultiPeerChatCore/WebServer.swift:1170 | without a CR every scalar is one Character |
| Multipart.LastLoneLf | Sources/MultiPeerChatCore/WebServer.swift:1174 | the `"\n"` Character found is the last one before the dash, and none is found only when there is none |
| Multipart.FirstLoneCr | Sources/MultiPeerChatCore/WebServer.swift:1143 | the `"\r"` Character found is the first one, and none is found only when there is none |
| Multipart.FirstLoneLf | Sources/MultiPeerChatCore/WebServer.swift:1145 | the `"\n"` Character found is the first one, and none is found only when there is none |
| Multipart.TrimLength | Sources/MultiPeerChatCore/WebServer.swift:1170-1176 | nothing is trimmed from data of at most `boundary.count + 10` bytes, and never more than that many from longer data |
| Multipart.FallbackTrim | Sources/MultiPeerChatCore/WebServer.swift:1168-1179 | the fallback only removes a suffix of at most `boundary.count + 10` bytes and leaves non-empty data non-empty |
| Multipart.Payload | Sources/MultiPeerChatCore/WebServer.swift:1158-1181 | the payload is a prefix of what follows the part headers |
| Multipart.PayloadEndsAtTerminator | Sources/MultiPeerChatCore/WebServer.swift:1162-1165 | when CR LF and the boundary follow the data and occur nowhere earlier, the payload is exactly the data |
| Multipart.PayloadWithoutTerminator | Sources/MultiPeerChatCore/WebServer.swift:1167-1181 | without CR LF and the boundary, the payload is what remains less at most `boundary.count + 10` bytes, and is empty only when that is |
| Multipart.DelimiterIsNotTerminator | Sources/MultiPeerChatCore/WebServer.swift:1162-1164 | the closing delimiter CR LF `--` boundary of section 5.1.1 of RFC 2046 is not the searched pattern at its own position unless the boundary is all dashes |
| Multipart.TerminatorAtDelimiter | Sources/MultiPeerChatCore/WebServer.swift:1162-1164 | finding the searched pattern where the closing delimiter starts means the boundary consists of dashes alone |
| Multipart.DelimiterBytes | Sources/MultiPeerChatCore/WebServer.swift:1162 | the searched pattern is the bytes of CR LF followed by those of the boundary |
| Multipart.FileNameIn | Sources/MultiPeerChatCore/WebServer.swift:1130-1136 | the file name read contains no quote |
| Multipart.FileNameOf | Sources/MultiPeerChatCore/WebServer.swift:1130-1136 | a name written `filename="name"` after the first `filename="` is read back as `name` |
| Multipart.MimeTypeIn | Sources/MultiPeerChatCore/WebServer.swift:1139-1154 | a declared type is read only when `Content-Type: ` occurs in some case |
| Multipart.MimeTypeAfter | Sources/MultiPeerChatCore/WebServer.swift:1139-1149 | the declared type is read from what follows the first case-insensitive `Content-Type: ` |
| Multipart.MimeValueUnbroken | Sources/MultiPeerChatCore/WebServer.swift:1143-1149 | a value with neither a `"\r"` nor a `"\n"` Character is only trimmed of white space and newlines |
| Multipart.MimeTypeLast | Sources/MultiPeerChatCore/WebServer.swift:1139-1149 | a Content-Type written last in the part headers is read back whole |
| Multipart.MimeTypeRunsOn | Sources/MultiPeerChatCore/WebServer.swift:1139-1149 | a Content-Type followed by CR LF and another header line is not cut at the CR LF and runs on to the end of the part headers |
| Multipart.CrlfUnbroken | Sources/MultiPeerChatCore/WebServer.swift:1143-1146 | two lines joined by CR LF hold no `"\r"` and no `"\n"` Character |
| Multipart.UploadMimeFor | Sources/MultiPeerChatCore/WebServer.swift:1187-1195 | every extension gets a non-empty type |
| Multipart.UploadMimeKnown | Sources/MultiPeerChatCore/WebServer.swift:1187-1195 | exactly the seven listed extensions get a specific type; every other one is a byte stream |
| Multipart.InferredMime | Sources/MultiPeerChatCore/WebServer.swift:1184-1198 | a file name always yields a non-empty type; a non-empty declared type is kept; without a file name the declared type stands |
| Multipart.InferredFromExtension | Sources/MultiPeerChatCore/WebServer.swift:1184-1197 | a file `base.ext` with no or an empty declared type gets the table's type for the lower-cased extension |
| Multipart.ProcessBinaryUpload | Sources/MultiPeerChatCore/WebServer.swift:1067-1206 | the upload is refused for a missing boundary exactly when no header line declares one, and an accepted upload has a non-empty type and non-empty data |
| Multipart.UploadWith | Sources/MultiPeerChatCore/WebServer.swift:1093-1206 | once the boundary is known, the part-header search's refusal passes through unchanged, and otherwise the decoded part decides |
| Multipart.UploadAt | Sources/MultiPeerChatCore/WebServer.swift:1115-1206 | part headers that are not UTF-8 are refused, and only they; decoded headers are refused for missing file data exactly when there is no file name or the payload is empty; an accepted upload carries the payload |
| Multipart.PartUpload | Sources/MultiPeerChatCore/WebServer.swift:1125-1206 | the part is refused, always for missing file data, exactly when it has no file name or its payload is empty; an accepted part carries the name read, a non-empty type and the payload |
| Multipart.PartUploadData | Sources/MultiPeerChatCore/WebServer.swift:1157-1181 | an accepted part's bytes are its payload |
| Multipart.UploadFormatRejection | Sources/MultiPeerChatCore/WebServer.swift:1094-1100 | with boundary `b`, the body is refused as malformed exactly when `b` encodes to nothing or its bytes occur nowhere |
| Multipart.UploadHeadersRejection | Sources/MultiPeerChatCore/WebServer.swift:1104-1112 | with the boundary first at `i`, the headers are refused exactly when no CRLFCRLF follows it |
| Multipart.SpanRefusal | Sources/MultiPeerChatCore/WebServer.swift:1097-1112 | the format and header refusals come exactly from the part-header search |
| Multipart.UploadEncodingRejection | Sources/MultiPeerChatCore/WebServer.swift:1115-1120 | once the part headers are found, they are refused for their encoding exactly when they are not UTF-8 |
| Multipart.UploadFileDataRejection | Sources/MultiPeerChatCore/WebServer.swift:1125-1206 | once the part headers are decoded, the upload is refused for missing file data exactly when they name no file or the payload is empty |
| Multipart.UploadLayout | Sources/MultiPeerChatCore/WebServer.swift:1097-1181 | an accepted upload's bytes start right after the first CRLFCRLF that follows the first boundary, run to the first CR LF + boundary when that occurs, and otherwise lack at most `boundary.count + 10` bytes of the rest |
| Multipart.UploadWithLayout | Sources/MultiPeerChatCore/WebServer.swift:1097-1181 | the same layout once the boundary is known |
| Multipart.UploadSpan | Sources/MultiPeerChatCore/WebServer.swift:1084-1093 | an accepted upload had a boundary, and the steps after it decided the outcome |
| Multipart.PayloadBounds | Sources/MultiPeerChatCore/WebServer.swift:1162-1181 | the payload runs to the first CR LF + boundary when that occurs, and otherwise lacks at most `boundary.count + 10` bytes of what remains |
| Assets.MimeTypeFor | Sources/MultiPeerChatCore/WebServer.swift:1364-1388 | every extension is served with a non-empty content type |
| Assets.MimeTypeKnown | Sources/MultiPeerChatCore/WebServer.swift:1364-1388 | exactly the thirteen listed extensions get a specific type; every other one is a byte stream |
| Assets.StaticMimeTypeOf | Sources/MultiPeerChatCore/WebServer.swift:1361-1364 | a file `base.ext` is served with the type of its lower-cased extension, so the case of the extension does not matter |
| Assets.LowerKeepsAbsent | Sources/MultiPeerChatCore/WebServer.swift:1362 | lower-casing adds no `.` and no `/` |
| Assets.NoExtensionIsStream | Sources/MultiPeerChatCore/WebServer.swift:1362-1387 | a name without an extension is served as a byte stream |
| Assets.FaviconIco | Sources/MultiPeerChatCore/WebServer.swift:1802-1845 | the icon file is the one-image header, the 32x32 directory entry, the PNG's size and the offset 22 as little-endian words, then the PNG |
| Assets.FaviconImageAtOffset | Sources/MultiPeerChatCore/WebServer.swift:1818-1842 | the bytes from the recorded offset on are exactly the PNG, as many as the recorded size |
| Clients.WebSocketClient.constructor | Sources/MultiPeerChatCore/WebServer.swift:2858-2867 | a new client has no user name and no room |
| Clients.ToEach | Sources/MultiPeerChatCore/WebServer.swift:165-169 | the same text goes once to each client of the list, in list order |
| Clients.ToClient | Sources/MultiPeerChatCore/WebServer.swift:2869-2872 | each text goes to the one client, in order |
| Clients.WebServer.constructor | Sources/MultiPeerChatCore/WebServer.swift:29 | a new server has no clients and has sent nothing |
| Clients.WebServer.ClientConnected | Sources/MultiPeerChatCore/WebServer.swift:1509-1512 | a fresh client with no user name and no room is appended to the registry, and nothing is sent |
| Clients.WebServer.ClientDisconnected | Sources/MultiPeerChatCore/WebServer.swift:1522-1523 | every entry that is this client object leaves the registry, the others keep their order, and nothing is sent |
| Clients.WebServer.Send | Sources/MultiPeerChatCore/WebServer.swift:2869-2872 | one text is sent to that client and the registry is unchanged |
| Clients.WebServer.Broadcast | Sources/MultiPeerChatCore/WebServer.swift:165-169 | the text goes once to every registered client, in registry order, and the registry is unchanged |
| Clients.DisconnectKeepsOthers | Sources/MultiPeerChatCore/WebServer.swift:1523 | removing a client registered once keeps every other client, in the same relative order |
| Persistence.RoomsWithout | Sources/MultiPeerChatCore/PersistenceManager.swift:51 | the rooms kept are exactly the stored rooms with another id |
| Persistence.MessagesWithout | Sources/MultiPeerChatCore/PersistenceManager.swift:73 | the messages kept are exactly the stored messages of other rooms |
| Persistence.MessagesOf | Sources/MultiPeerChatCore/PersistenceManager.swift:68 | the messages selected are exactly the stored messages of the room |
| Persistence.LinksWithout | Sources/MultiPeerChatCore/PersistenceManager.swift:119 | the links kept are exactly those with another invite code |
| Persistence.UnexpiredLinks | Sources/MultiPeerChatCore/PersistenceManager.swift:127 | the links kept are exactly those not expired at the given time |
| Persistence.AdminsWithout | Sources/MultiPeerChatCore/PersistenceManager.swift:208 | the users kept are exactly those matching neither the id nor the name |
| Persistence.AdminsWithoutId | Sources/MultiPeerChatCore/PersistenceManager.swift:244 | the users kept are exactly those with another id |
| Persistence.AttachmentsWithout | Sources/MultiPeerChatCore/PersistenceManager.swift:159 | the attachments kept are exactly those with another id |
| Persistence.AttachmentsSince | Sources/MultiPeerChatCore/PersistenceManager.swift:185-187 | the standalone attachments kept are exactly those uploaded at or after the cutoff |
| Persistence.UpsertRoomUnique | Sources/MultiPeerChatCore/PersistenceManager.swift:24-34 | after saving a room exactly one room has its id and it is last; the rooms before it are the other rooms in their old relative order |
| Persistence.UpsertLinkUnique | Sources/MultiPeerChatCore/PersistenceManager.swift:92-102 | after saving a link exactly one link has its invite code and it is last; every other link is kept |
| Persistence.UpsertAdminUnique | Sources/MultiPeerChatCore/PersistenceManager.swift:202-213 | after saving a user it is last, no earlier record shares its id or its name, and every record matching neither is kept |
| Persistence.ByTimeCons | Sources/MultiPeerChatCore/PersistenceManager.swift:68 | a message no later than every message of a sorted list can go in front of it |
| Persistence.InsertByTime | Sources/MultiPeerChatCore/PersistenceManager.swift:68 | insertion adds one element |
| Persistence.InsertByTimeSorted | Sources/MultiPeerChatCore/PersistenceManager.swift:68 | inserting into a sorted list keeps it sorted |
| Persistence.InsertByTimeCount | Sources/MultiPeerChatCore/PersistenceManager.swift:68 | inserting adds exactly one copy of the message |
| Persistence.SortByTime | Sources/MultiPeerChatCore/PersistenceManager.swift:68 | the sorted list has non-decreasing timestamps and is a permutation of its input |
| Persistence.RoomHistoryExact | Sources/MultiPeerChatCore/PersistenceManager.swift:66-69 | a room's history is exactly its stored messages, each as often as stored, by non-decreasing timestamp |
| Persistence.AdminNamed | Sources/MultiPeerChatCore/PersistenceManager.swift:250-253 | the user found has the name, and none is found only when no user has it |
| Persistence.AdminNamedFirst | Sources/MultiPeerChatCore/PersistenceManager.swift:252 | the first record with the name wins over later ones |
| Persistence.AdminWithCredential | Sources/MultiPeerChatCore/PersistenceManager.swift:255-258 | the user found has the credential id, and none is found only when no user has it |
| Persistence.NextUserNumber | Sources/MultiPeerChatCore/PersistenceManager.swift:260-264 | the next number is one more than the largest stored user number, and 1 with no users |
| Persistence.DisabledAt | Sources/MultiPeerChatCore/PersistenceManager.swift:266-275 | each user last seen at the address is replaced by its disabled copy, every other user is kept, and the order and count are unchanged |
| Persistence.DisabledAtExactly | Sources/MultiPeerChatCore/PersistenceManager.swift:268-273 | exactly the users last seen at the address end up disabled, and no other field changes |
| Persistence.AttachmentsOf | Sources/MultiPeerChatCore/PersistenceManager.swift:147 | the attachments collected are exactly those some stored message carries |
| Persistence.PersistenceManager.constructor | Sources/MultiPeerChatCore/PersistenceManager.swift:8-20 | the manager starts from the given user defaults |
| Persistence.PersistenceManager.LoadMessages | Sources/MultiPeerChatCore/PersistenceManager.swift:66-69 | the result is sorted by timestamp and is a permutation of the room's stored messages |
| Persistence.PersistenceManager.SaveRoom | Sources/MultiPeerChatCore/PersistenceManager.swift:24-34 | only the rooms key changes, to the upserted list |
| Persistence.PersistenceManager.DeleteRoom | Sources/MultiPeerChatCore/PersistenceManager.swift:49-56 | the room goes from the rooms key and every message of that room from the messages key; nothing else changes |
| Persistence.PersistenceManager.SaveMessage | Sources/MultiPeerChatCore/PersistenceManager.swift:60-64 | the message is appended to the stored messages and nothing else changes |
| Persistence.PersistenceManager.ClearMessages | Sources/MultiPeerChatCore/PersistenceManager.swift:71-75 | every message of the room goes and nothing else changes |
| Persistence.PersistenceManager.SaveChatLink | Sources/MultiPeerChatCore/PersistenceManager.swift:92-102 | only the links key changes, to the upserted list |
| Persistence.PersistenceManager.DeleteChatLink | Sources/MultiPeerChatCore/PersistenceManager.swift:117-121 | every link with the invite code goes and nothing else changes |
| Persistence.PersistenceManager.CleanupExpiredLinks | Sources/MultiPeerChatCore/PersistenceManager.swift:123-132 | when some link has expired, exactly the expired links go; when none has, the store is not written |
| Persistence.PersistenceManager.ClearAllData | Sources/MultiPeerChatCore/PersistenceManager.swift:136-141 | the rooms, messages, links and admin-user keys go, and the standalone attachments stay |
| Persistence.PersistenceManager.GetAllAttachments | Sources/MultiPeerChatCore/PersistenceManager.swift:145-153 | the attachments listed are exactly the standalone ones and those the stored messages carry |
| Persistence.PersistenceManager.SaveStandaloneAttachment | Sources/MultiPeerChatCore/PersistenceManager.swift:155-165 | only the standalone key changes: any attachment with the same id is replaced by the new one, appended last |
| Persistence.PersistenceManager.CleanupStandaloneAttachments | Sources/MultiPeerChatCore/PersistenceManager.swift:184-188 | standalone attachments uploaded more than an hour before `now` go, and nothing else changes |
| Persistence.PersistenceManager.SaveAdminUser | Sources/MultiPeerChatCore/PersistenceManager.swift:202-213 | only the admin-user key changes, to the list without any record matching the id or the name, with the user appended |
| Persistence.PersistenceManager.DeleteAdminUser | Sources/MultiPeerChatCore/PersistenceManager.swift:237-248 | when a user with the id exists it goes and the list is rewritten; otherwise nothing is written |
| Persistence.PersistenceManager.GetAdminUser | Sources/MultiPeerChatCore/PersistenceManager.swift:250-253 | the user found is stored under that name, and none is found exactly when no stored user has it |
| Persistence.PersistenceManager.GetAdminUserByCredential | Sources/MultiPeerChatCore/PersistenceManager.swift:255-258 | the user found holds the credential id, and none is found exactly when no stored user does |
| Persistence.PersistenceManager.GetNextUserNumber | Sources/MultiPeerChatCore/PersistenceManager.swift:260-264 | the next number is one more than the largest stored user number (it exceeds every stored number and is one more than some stored number), and is 1 when no users are stored |
| Persistence.PersistenceManager.DisableAdminUsersByIP | Sources/MultiPeerChatCore/PersistenceManager.swift:266-275 | only the admin-user key changes, to the list with the users last seen at the address disabled |
| Persistence.PersistenceManager.IsUserEnabled | Sources/MultiPeerChatCore/PersistenceManager+WebAuthn.swift:13-21 | a user with an admin record is enabled as that record says; a name without one is enabled |
| Persistence.PersistenceManager.GetUserEmoji | Sources/MultiPeerChatCore/PersistenceManager+WebAuthn.swift:24-27 | there is never an emoji here |
| Persistence.PersistenceManager.UpdateUserEmoji | Sources/MultiPeerChatCore/PersistenceManager+WebAuthn.swift:30-33 | an emoji update always reports failure and changes nothing |
| Persistence.PersistenceManager.CreateUser | Sources/MultiPeerChatCore/PersistenceManager+WebAuthn.swift:36-39 | creating a user leaves the store unchanged |
| Persistence.PersistenceManager.UpdateUserLogin | Sources/MultiPeerChatCore/PersistenceManager+WebAuthn.swift:42-45 | a login update leaves the store unchanged |
| Persistence.PersistenceManager.DeleteUser | Sources/MultiPeerChatCore/PersistenceManager+WebAuthn.swift:48-51 | deleting a user leaves the store unchanged |
| Admin.SessionLifetime | Sources/MultiPeerChatCore/AdminManager.swift:26-28 | a session expires exactly when more than 3600 seconds have passed since its login, and is live when it is created |
| Admin.FirstSome | Sources/MultiPeerChatCore/AdminManager.swift:40-57 | the value found is that of the first element that gives one, and none is found only when no element does |
| Admin.FirstSomeCons | Sources/MultiPeerChatCore/AdminManager.swift:40-57 | the first element that gives a value decides, whatever follows it |
| Admin.SessionIdPresent | Sources/MultiPeerChatCore/AdminManager.swift:37-60 | a request carries no session id exactly when no line is a cookie line holding a session cookie and no line is a bearer line |
| Admin.LowerHasPrefix | Sources/MultiPeerChatCore/AdminManager.swift:41-54 | a line whose head lower-cases to the header prefix matches it, and what the prefix drops is the rest of the line |
| Admin.TrimLeadingSpace | Sources/MultiPeerChatCore/AdminManager.swift:44 | helper fact used by `Admin.CookieParts`: trimming takes the space off the front of a cookie |
| Admin.SplitPair | Sources/MultiPeerChatCore/AdminManager.swift:44 | a name and a value joined by `=`, neither holding it, split back into the two |
| Admin.CookieNameHasNoEquals | Sources/MultiPeerChatCore/AdminManager.swift:45 | helper fact used by `Admin.SessionCookieOf`: the session cookie's name holds no `=` |
| Admin.CookieParts | Sources/MultiPeerChatCore/AdminManager.swift:44 | a cookie ` name=value` trims and splits into exactly its name and its value |
| Admin.SessionCookieOf | Sources/MultiPeerChatCore/AdminManager.swift:44-46 | the cookie `adminSessionId=value`, with no further `=`, gives that value |
| Admin.SingleCookieLine | Sources/MultiPeerChatCore/AdminManager.swift:41-48 | a cookie line holding one session cookie names its value |
| Admin.CookieLineNamesValue | Sources/MultiPeerChatCore/AdminManager.swift:41-48 | `Cookie: adminSessionId=value`, the header name in any case, names that value |
| Admin.CookieBeforeBearer | Sources/MultiPeerChatCore/AdminManager.swift:38-57 | the first session cookie is the session id, however many bearer lines come before or after it |
| Admin.BearerNotCookie | Sources/MultiPeerChatCore/AdminManager.swift:41-54 | a bearer line is not a cookie line |
| Admin.BearerFallback | Sources/MultiPeerChatCore/AdminManager.swift:52-57 | without a session cookie, the first bearer line, its prefix in any case, gives the trimmed token |
| Admin.HeaderField | Sources/MultiPeerChatCore/AdminManager.swift:69-73 | a line yields a header field exactly when it holds a colon |
| Admin.HeaderFieldOf | Sources/MultiPeerChatCore/AdminManager.swift:69-72 | `Name: value` with a colon-free name yields the trimmed, lower-cased name and the trimmed rest of the line, later colons included |
| Admin.HeadersAppend | Sources/MultiPeerChatCore/AdminManager.swift:67-74 | the header dictionary read from lines without an empty one carries on into the lines after them |
| Admin.HeadersStopAtBlank | Sources/MultiPeerChatCore/AdminManager.swift:68 | nothing after the first empty line is read |
| Admin.LaterHeaderWins | Sources/MultiPeerChatCore/AdminManager.swift:72 | a later line with the same lower-cased name overwrites the earlier value |
| Admin.ClientIpFromHeaders | Sources/MultiPeerChatCore/AdminManager.swift:76-102 | a request with `X-Forwarded-For` or `X-Real-IP` always yields an address; with neither, the connection's endpoint is the answer |
| Admin.ForwardedForWins | Sources/MultiPeerChatCore/AdminManager.swift:76-81 | with `X-Forwarded-For` present, neither `X-Real-IP` nor the connection's endpoint matters |
| Admin.RealIpOverEndpoint | Sources/MultiPeerChatCore/AdminManager.swift:83-86 | without `X-Forwarded-For`, the trimmed `X-Real-IP` value is the address, whatever the endpoint |
| Admin.ForwardedFirstHop | Sources/MultiPeerChatCore/AdminManager.swift:78 | of a forwarding chain `client, proxy, ...` the trimmed client address is taken |
| Admin.LiveSessions | Sources/MultiPeerChatCore/AdminManager.swift:188-194 | the sessions kept are exactly the unexpired ones, unchanged |
| Admin.LiveSessionsIdempotent | Sources/MultiPeerChatCore/AdminManager.swift:187-199 | cleaning up twice removes no more than once, and cleaning up keeps every session that gives access now |
| Admin.AdminManager.constructor | Sources/MultiPeerChatCore/AdminManager.swift:16-33 | a new manager has the configured name and no sessions |
| Admin.AdminManager.IsValidAdminSession | Sources/MultiPeerChatCore/AdminManager.swift:105-133 | a request is valid exactly when its session is live, belongs to the configured admin and is allowed; a live session failing either of the last two checks is removed, and nothing else changes |
| Admin.AdminManager.HasValidMeansAnyLive | Sources/MultiPeerChatCore/AdminManager.swift:135-156 | access is granted exactly when some session is live, whatever session the request names |
| Admin.AdminManager.CreateAdminSession | Sources/MultiPeerChatCore/AdminManager.swift:158-185 | a session is created exactly for the configured admin once authenticated, under the fresh id, stamped now, with the client address or `unknown`; otherwise the result is the empty id and nothing is stored |
| Admin.AdminManager.CleanupExpiredSessions | Sources/MultiPeerChatCore/AdminManager.swift:187-199 | exactly the expired sessions are removed |
| ChatServer.SameRoomsConsistent | Sources/MultiPeerChatCore/WebChatServer.swift:583-589 | changing only participants keeps every room filed under its own id and keeps a room named "Lobby" |
| ChatServer.WithoutParticipant | Sources/MultiPeerChatCore/WebChatServer.swift:583-589 | leaving a room keeps the same rooms under the same keys with the same ids and names |
| ChatServer.LeaveNeverShrinks | Sources/MultiPeerChatCore/WebChatServer.swift:583-589 | leaving with a freshly made user, whose id no participant carries, leaves every room as it was |
| ChatServer.CreateStepEffect | Sources/MultiPeerChatCore/WebChatServer.swift:248-271 | a name taken in any case, or "lobby" in any case, changes nothing; otherwise exactly the new room is added, with an empty history, its creator as only participant and a name that is not "lobby"; the Lobby stays and case-insensitively distinct names stay distinct |
| ChatServer.JoinStepEffect | Sources/MultiPeerChatCore/WebChatServer.swift:285-301 | after a join the user's room is the joined one, every other user's room is unchanged, the joined room is the room as it was read before the leave plus the new participant, only rooms and user rooms change, and the Lobby stays |
| ChatServer.JoinNeverShrinks | Sources/MultiPeerChatCore/WebChatServer.swift:285-301 | with the freshly made leaving user a join never removes any participant from any room |
| ChatServer.LeaveStepEffect | Sources/MultiPeerChatCore/WebChatServer.swift:355-362 | after a leave the user is in no room, every other user keeps their room, and the Lobby stays |
| ChatServer.DisconnectStepEffect | Sources/MultiPeerChatCore/WebChatServer.swift:184-201 | a disconnected user is gone from the users and the user rooms, nothing else is forgotten from either, the histories are untouched and the Lobby stays |
| ChatServer.EmojiUpdateOnlyOverStored | Sources/MultiPeerChatCore/WebChatServer.swift:370-379 | an emoji is remembered exactly when one was stored and the client sent a different one, and then it is the one sent |
| ChatServer.PostedMessage | Sources/MultiPeerChatCore/WebChatServer.swift:381-382 | the stored message is a text message without attachment, in the room's id, with the sender's name, the chosen emoji and the content |
| ChatServer.SendAppendsOne | Sources/MultiPeerChatCore/WebChatServer.swift:385-391 | sending appends exactly the one message to the end of that room's history, starting an empty one if needed; every other history, the rooms and the users are unchanged |
| ChatServer.RemoveKeepsLobby | Sources/MultiPeerChatCore/WebChatServer.swift:519-535 | removing a room whose lower-cased name is not "lobby" removes it and its history and never removes the Lobby |
| ChatServer.RoomsById | Sources/MultiPeerChatCore/WebChatServer.swift:74-78 | every persisted room is loaded under its own id, and every loaded room is a persisted one |
| ChatServer.LiveLinks | Sources/MultiPeerChatCore/WebChatServer.swift:80-85 | exactly the unexpired persisted links are loaded, each under its own invite code |
| ChatServer.HistoriesContents | Sources/MultiPeerChatCore/WebChatServer.swift:87-91 | every persisted room gets a history, and each history is exactly that room's stored messages in timestamp order |
| ChatServer.BootstrapLobby | Sources/MultiPeerChatCore/WebChatServer.swift:53-69 | the server starts with a room named "Lobby" and every room under its own id; a Lobby is added, with an empty history, only when none was loaded |
| ChatServer.FanOutDeliveries | Sources/MultiPeerChatCore/WebChatServer.swift:591-600 | a fan-out delivers the text once to each named user's client, in the given order |
| ChatServer.HistoryTexts | Sources/MultiPeerChatCore/WebChatServer.swift:303-344 | the replayed texts are one `chatMessage` per stored message, in history order |
| ChatServer.FanOutSnoc | Sources/MultiPeerChatCore/WebChatServer.swift:595-599 | reaching one more user in the loop adds exactly one delivery to that user's client at the end |
| ChatServer.ReplayIsHistory | Sources/MultiPeerChatCore/WebChatServer.swift:303-344 | the history replay sends the history's texts to the joining client only, in order |
| ChatServer.LoadRooms | Sources/MultiPeerChatCore/WebChatServer.swift:74-78 | the loop of loaded rooms computes the rooms by id, a later duplicate replacing an earlier one |
| ChatServer.LoadLinks | Sources/MultiPeerChatCore/WebChatServer.swift:80-85 | the loop over the persisted links keeps exactly the unexpired links |
| ChatServer.LoadHistories | Sources/MultiPeerChatCore/WebChatServer.swift:87-91 | the loop over the persisted rooms gives each its ordered history |
| ChatServer.WebChatServer.constructor | Sources/MultiPeerChatCore/WebChatServer.swift:31-99 | the new server holds the loaded tables with a Lobby, no users and no deliveries yet |
| ChatServer.WebChatServer.SendToClient | Sources/MultiPeerChatCore/WebChatServer.swift:609-614 | the rendered message goes to that client only, once |
| ChatServer.WebChatServer.Broadcast | Sources/MultiPeerChatCore/WebChatServer.swift:602-607 | the rendered message goes once to every connected client, named or not, in connection order |
| ChatServer.WebChatServer.BroadcastToRoom | Sources/MultiPeerChatCore/WebChatServer.swift:591-600 | the rendered message goes exactly once to each user recorded in that room other than the excluded one, and to nobody else |
| ChatServer.WebChatServer.LeaveUserFromRoom | Sources/MultiPeerChatCore/WebChatServer.swift:583-589 | a room that is not there is left alone; otherwise it loses the fresh user; nothing else changes |
| ChatServer.WebChatServer.HandleCreateRoom | Sources/MultiPeerChatCore/WebChatServer.swift:248-283 | without a name or a named client nothing happens; a taken name sends the duplicate-name error to this client only; otherwise the room is created and `roomCreated` goes to every client |
| ChatServer.WebChatServer.HandleJoinRoom | Sources/MultiPeerChatCore/WebChatServer.swift:285-353 | without a room id naming a room or a named client nothing happens; otherwise the user joins, the client's current room is set, and the client is sent the room's stored messages in order followed by `roomJoined` saying whether it is the admin |
| ChatServer.WebChatServer.JoinUser | Sources/MultiPeerChatCore/WebChatServer.swift:290-301 | the state changes of a join are the join transition, and the room returned is the joined room as now stored |
| ChatServer.WebChatServer.SendHistory | Sources/MultiPeerChatCore/WebChatServer.swift:303-344 | the loop sends the history replay to the client and nothing else |
| ChatServer.WebChatServer.HandleLeaveRoom | Sources/MultiPeerChatCore/WebChatServer.swift:355-362 | without a room id or a named client nothing happens; otherwise the user leaves that room and the client is in no room |
| ChatServer.WebChatServer.HandleSendMessage | Sources/MultiPeerChatCore/WebChatServer.swift:364-405 | without a room id naming a room, content or a named client nothing happens; otherwise the message with the chosen emoji is appended to the room's history and sent once to each user in the room, the sender included |
| ChatServer.WebChatServer.StoreMessage | Sources/MultiPeerChatCore/WebChatServer.swift:370-391 | the emoji is the stored one, else the WebAuthn one, else the one sent, else the default; a differing sent emoji is remembered and the message appended |
| ChatServer.WebChatServer.HandleClearChatHistory | Sources/MultiPeerChatCore/WebChatServer.swift:497-517 | a non-admin is sent the refusal and nothing changes; an admin's request without a room id in UUID form does nothing; otherwise that history is dropped and `chatHistoryCleared` goes to each user in the room |
| ChatServer.WebChatServer.HandleRemoveRoom | Sources/MultiPeerChatCore/WebChatServer.swift:519-542 | a non-admin is sent the refusal; a missing room or one named "lobby" in any case is kept; otherwise the room and its history are removed and `roomRemoved` goes to every client |
| ChatServer.WebChatServer.ClientDidDisconnect | Sources/MultiPeerChatCore/WebChatServer.swift:184-201 | a named client is forgotten and leaves the room it was in, the Lobby stays, and the new user count goes to every client |
| ChatClient.TransmittedOne | Sources/MultiPeerChatCore/NetworkManager.swift:143-159 | one client send produces exactly the manager's outgoing transmissions for that message and target |
| ChatClient.TransmittedTwo | Sources/MultiPeerChatCore/NetworkManager.swift:143-159 | two client sends produce the first send's transmissions followed by the second's |
| ChatClient.IndexOfRoom | Sources/MultiPeerChatCore/ChatClient.swift:75 | the index found holds a room with that id and no earlier room has it; no index exactly when no room has the id |
| ChatClient.RoomWithId | Sources/MultiPeerChatCore/ChatClient.swift:151 | a room is found exactly when some known room has the id, and it is a known room with that id |
| ChatClient.LiveLink | Sources/MultiPeerChatCore/ChatClient.swift:150 | the link found is the first one with that code that has not expired; none is found exactly when no link opens |
| ChatClient.AddToRoom | Sources/MultiPeerChatCore/ChatClient.swift:214-217 | adding a participant keeps the number of rooms and every room's id |
| ChatClient.RemoveFromRoom | Sources/MultiPeerChatCore/ChatClient.swift:219-222 | removing a participant keeps the number of rooms and every room's id |
| ChatClient.AddToRoomEffect | Sources/MultiPeerChatCore/ChatClient.swift:214-217 | with no room of that id nothing changes; otherwise only the first room with it changes, and only by gaining the user |
| ChatClient.AddThenRemove | Sources/MultiPeerChatCore/ChatClient.swift:214-222 | a user not yet in a room who is added and then removed leaves the room list as it was |
| ChatClient.MergeRoomsEffect | Sources/MultiPeerChatCore/ChatClient.swift:229-235 | merging a room list keeps the known rooms first, appends only listed rooms with unknown ids, never two with the same id, and afterwards every listed id is known |
| ChatClient.MergeKeepsDistinct | Sources/MultiPeerChatCore/ChatClient.swift:229-235 | known rooms with distinct ids keep distinct ids after a merge |
| ChatClient.RoomMessages | Sources/MultiPeerChatCore/ChatClient.swift:132-139 | the filtered list is no longer than the original and holds only that room's messages |
| ChatClient.RoomMessagesExact | Sources/MultiPeerChatCore/ChatClient.swift:132-139 | a message survives the filter exactly when it was there and is for that room |
| ChatClient.RoomMessagesAppend | Sources/MultiPeerChatCore/ChatClient.swift:132-139 | the filter keeps the messages' order |
| ChatClient.RoomMessagesIdempotent | Sources/MultiPeerChatCore/ChatClient.swift:132-139 | filtering twice by the same room is filtering once |
| ChatClient.Notice | Sources/MultiPeerChatCore/ChatClient.swift:56-61 | a notice carries the given text, sender, room and kind |
| ChatClient.CreateRoomEffect | Sources/MultiPeerChatCore/ChatClient.swift:47-66 | without a user nothing changes and nothing is sent; with one, a room named as asked, holding only that user, is appended, announced to every peer and noted by a `roomCreated` notice; the current room and the links stay |
| ChatClient.JoinEffect | Sources/MultiPeerChatCore/ChatClient.swift:68-94 | with a user the room becomes current and exactly that room's messages stay visible; the user is added, the join announced and a notice shown exactly when the room did not list the user; without a user nothing happens |
| ChatClient.LeaveEffect | Sources/MultiPeerChatCore/ChatClient.swift:96-118 | leaving needs a user and a current room; then the user leaves that room, the leave is announced to every peer, and there is no current room and no visible message |
| ChatClient.JoinThenLeave | Sources/MultiPeerChatCore/ChatClient.swift:68-118 | a user who joins a room that did not list them and then leaves restores the room list and is in no room |
| ChatClient.SendEffect | Sources/MultiPeerChatCore/ChatClient.swift:122-130 | sending needs a user and a current room; then exactly one text message from that user in that room is appended and the same message is sent to every peer |
| ChatClient.InviteTargetIff | Sources/MultiPeerChatCore/ChatClient.swift:149-157 | a code leads to a room exactly when some unexpired link has that code and the first such link names a known room, and the room reached has that id |
| ChatClient.ReceiveChatMessage | Sources/MultiPeerChatCore/ChatClient.swift:208-212 | a peer's chat message is appended exactly when there is no current room or it is for the current room; nothing is sent |
| ChatClient.ReceiveKeepsDistinct | Sources/MultiPeerChatCore/ChatClient.swift:206-254 | no incoming message makes two known rooms share an id |
| ChatClient.ReceiveRoomsOnlyNew | Sources/MultiPeerChatCore/ChatClient.swift:224-235 | a room announcement or list keeps the known rooms first and adds only rooms whose ids were unknown |
| ChatClient.PingAnswered | Sources/MultiPeerChatCore/ChatClient.swift:247-251 | a ping changes nothing and is answered by one pong framed to the peer it came from; no other message sends anything |
| ChatClient.ConnectSendsToPeer | Sources/MultiPeerChatCore/ChatClient.swift:256-266 | a new peer is sent, and only it, the room list when there are rooms, then the current room's join when there is a user in a room |
| ChatClient.Client.constructor | Sources/MultiPeerChatCore/ChatClient.swift:9-21 | a new client has no user, rooms, current room, messages or links, and a fresh manager that has sent nothing |
| ChatClient.Client.SetUsername | Sources/MultiPeerChatCore/ChatClient.swift:41-43 | the current user becomes a fresh user of that name, and nothing else changes |
| ChatClient.Client.CreateRoom | Sources/MultiPeerChatCore/ChatClient.swift:47-66 | performs the create step, sends exactly its messages, and returns the new room, or nothing without a user |
| ChatClient.Client.JoinRoom | Sources/MultiPeerChatCore/ChatClient.swift:68-94 | performs the join step and sends exactly its messages |
| ChatClient.Client.FilterMessagesForCurrentRoom | Sources/MultiPeerChatCore/ChatClient.swift:132-139 | without a current room no message stays; otherwise only the current room's |
| ChatClient.Client.LeaveRoom | Sources/MultiPeerChatCore/ChatClient.swift:96-118 | performs the leave step and sends exactly its messages |
| ChatClient.Client.SendMessage | Sources/MultiPeerChatCore/ChatClient.swift:122-130 | performs the send step and sends exactly its message |
| ChatClient.Client.CreateInviteLink | Sources/MultiPeerChatCore/ChatClient.swift:143-147 | the new link for that room is returned and appended to the links, and nothing else changes |
| ChatClient.Client.JoinRoomWithInviteCode | Sources/MultiPeerChatCore/ChatClient.swift:149-157 | joins, and answers true, exactly when the code leads to a room; otherwise nothing changes and nothing is sent |
| ChatClient.Client.DidReceiveMessage | Sources/MultiPeerChatCore/ChatClient.swift:206-254 | performs the receive step for that message and sends exactly its reply |
| ChatClient.Client.AddParticipantTo | Sources/MultiPeerChatCore/ChatClient.swift:214-217 | the first room with the id gains the user, if there is one |
| ChatClient.Client.RemoveParticipantFrom | Sources/MultiPeerChatCore/ChatClient.swift:219-222 | the first room with the id loses the user, if there is one |
| ChatClient.Client.MergeRoomList | Sources/MultiPeerChatCore/ChatClient.swift:229-235 | the loop appends the listed rooms with unknown ids, in list order |
| ChatClient.Client.DidConnectToPeer | Sources/MultiPeerChatCore/ChatClient.swift:256-266 | sends exactly the connect messages to the new peer and changes nothing |
| Files.ErrorDescription | Sources/MultiPeerChatCore/FileManager.swift:225-238 | the too-large message prints the 50 MB limit in whole megabytes |
| Files.SwitchExtensionWords | Sources/MultiPeerChatCore/FileManager.swift:144-158 | every extension the MIME switch returns is a non-empty word without a dot or a slash |
| Files.MimeExtensionCoversAllowed | Sources/MultiPeerChatCore/FileManager.swift:22-35 | the MIME switch gives an extension other than `bin` exactly for the allowed types |
| Files.FileExtension | Sources/MultiPeerChatCore/FileManager.swift:136-160 | the original name's own extension, lower-cased, wins; a name without one takes the extension of its MIME type |
| Files.MimeExtensionPlain | Sources/MultiPeerChatCore/FileManager.swift:144-159 | the MIME-derived extension is never empty and holds no dot or slash |
| Files.FileExtensionPlain | Sources/MultiPeerChatCore/FileManager.swift:136-160 | the chosen extension is never empty and holds no dot or slash |
| Files.StoredNameExtension | Sources/MultiPeerChatCore/FileManager.swift:62-63 | the stored name's extension is the chosen extension |
| Files.SaveRejectsLarge | Sources/MultiPeerChatCore/FileManager.swift:52-55 | an upload is refused as too large exactly when it is over 50 MiB, whatever its type |
| Files.SaveRejectsType | Sources/MultiPeerChatCore/FileManager.swift:57-60 | an upload within the cap is refused as unsupported exactly when its type is not allowed |
| Files.SavedAttachment | Sources/MultiPeerChatCore/FileManager.swift:50-83 | an upload is saved exactly when it is within the cap, of an allowed type and written; the attachment records the size, the stored name, the path under `uploads/`, the type and original name, and a thumbnail only for an image type |
| Files.AllowedImagesAreImages | Sources/MultiPeerChatCore/FileManager.swift:23-35 | every allowed image type is an allowed file type with the `image/` prefix |
| Files.OrphansExact | Sources/MultiPeerChatCore/FileManager.swift:118-132 | a directory entry is removed exactly when it is listed, is not `thumbnails`, and names no valid file or thumbnail |
| Files.CleanupKeepsValid | Sources/MultiPeerChatCore/FileManager.swift:118-132 | the cleanup never removes the thumbnails directory, a valid attachment's file, or the file its thumbnail path ends in |
| Files.CleanupOrphanedFiles | Sources/MultiPeerChatCore/FileManager.swift:118-132 | an unreadable directory removes nothing; otherwise the entries removed are exactly the orphans, in listing order |

## Left out

- Network.framework I/O is replaced by inputs: listener and connection start-up, state callbacks other than failed or cancelled, Bonjour advertising and browsing. Reads are sequences of completions and sends are logs.
- Dispatch queues, `@Published` properties, Combine observers and the periodic session-cleanup timer are UI and concurrency plumbing. So are counters such as `connectedClients`, `connectedUsers` and `totalRooms`.
- SHA-1 (CommonCrypto) and base64 are foreign calls. They are function parameters of the handshake, and the key-plus-GUID concatenation is kept.
- All JSON goes through supplied functions: `JSONSerialization` payloads, `Codable` encoding of `NetworkMessage`, and the stored lists. A server payload is the `ServerMessage` datatype, rendered by a given function.
- UserDefaults is a map from key to stored list. A missing key and a value that fails to decode both load as the empty list.
- The DogTagKit WebAuthn engine is not part of this model. Its emoji answer and the admin delegate's answers are parameters.
- Emoji colour analysis is left out: it renders images and samples pixels.
- The static page and asset text (`WebAdminContent.swift`, `StaticContentProvider.swift`, the SVG and manifest generators) is not part of this model. The HTTP model takes page bodies as a given function of the route.
- Regex routing through `String.matches` is modelled as explicit path predicates with the same accepted shapes.
- Lower-casing and case-insensitive comparison are modelled for ASCII letters only. Non-ASCII characters are kept unchanged.
- Of Swift's grapheme clusters, only CR LF is modelled as one Character. Every other scalar counts as one Character.
- Each receive is capped at 8192 bytes (`maximumLength`). The model takes completions of any length and does not restate that cap.
- `handleFileUploadRequest` is a near-duplicate of `processBinaryUpload` that nothing calls, so it is not modelled. Neither are `handleFileUploadSimple` and the super-test page generators.
- Upload error replies are modelled by kind (`Multipart.Message` gives their texts). The JSON success reply after an upload and the saving of the upload through the file manager are left out.
- `WebServer.stop()` and the rest of start-up and shutdown are network I/O.
- `handleUserJoin`, `handleSendFileMessage`, `handleCreateInvite`, `handleUpdateEmoji`, `handlePing`/`handlePong` and the JSON dispatch of `didReceiveMessage` are left out of the chat server. The named handlers are modelled as methods.
- The chat server's calls into persistence (`saveRoom`, `saveMessage`, `clearMessages`, `deleteRoom`, `cleanupExpiredLinks`) are left out of the server model, because persistence is modelled on its own in `Persistence`.
- `PersistenceManager.deleteMessagesWithAttachment` is outside the modelled core.
- Swift `Int` overflow traps are not modelled beyond the bounds the contracts state. Failures of JSON encoding, of file writes and of `removeItem` are either parameters or ignored, as in the source.
- The peer client's `isConnected`, `connectionStatus`, `parseInviteLink` (URL parsing), `startHosting`, `stopHosting`, `connectToPeer` and `discoverPeers` are left out: they are UI state and network I/O.
- The file manager's `getFileData`, `getThumbnailData`, `getFileURL`, `deleteFile` and `createThumbnail` are file reads, writes and image processing. Whether a write succeeded and what `createThumbnail` returns are parameters.
- The MIME switches are modelled as tables in switch order, looked up by first match. This gives the switches' own results.
- A `Network.Payload` is shorter than 2^32 bytes. Swift's `UInt32(data.count)` traps beyond that, and the model does not follow that trap.
- The envelope prefix is read as big-endian. The source's `load(as: UInt32.self).bigEndian` reads it that way on a little-endian host.
- Persistence.PersistenceManager.LoadMessages: Swift's `sorted` is not stable, so the order of stored messages with equal timestamps is not stated. The contract says only that the result is exactly the room's messages in non-decreasing timestamp order.
- ChatServer.WebChatServer.HandleCreateRoom: requires that the fresh room UUID is not already a room id. `UUID()` gives that in practice, but the source does not check it.
- ChatServer.WebChatServer.BroadcastToRoom: Swift's dictionary iteration order is unspecified, so the delivery order is a ghost `order` that the contract only constrains. The contract states who receives the message, not the order in which they receive it.
