/**
 * The WebSocket layer of the web server: the single-frame codec of
 * `WebSocketClient` (a subset of the base framing of section 5.2 of RFC 6455,
 * with client masking as in section 5.3), its receive loop, and the opening
 * handshake of section 4.2.2 of RFC 6455.
 */
module WebSocket {
  import opened Wrappers
  import opened Bytes
  import opened Seqs
  import opened Text
  import Utf8

  // ---------------------------------------------------------------- decoding

  /** `payload[i] ^= maskingKey[i % 4]` for every index. */
  function Unmask(raw: seq<byte>, key: seq<byte>): (r: seq<byte>)
    requires |key| == 4
    ensures |r| == |raw|
  {
    seq(|raw|, i requires 0 <= i < |raw| => Xor(raw[i], key[i % 4]))
  }

  /** Masking twice with the same key gives the payload back. */
  lemma UnmaskTwice(raw: seq<byte>, key: seq<byte>)
    requires |key| == 4
    ensures Unmask(Unmask(raw, key), key) == raw
  {
    forall i | 0 <= i < |raw|
      ensures Unmask(Unmask(raw, key), key)[i] == raw[i]
    {
      XorTwice(raw[i], key[i % 4]);
    }
  }

  /** `secondByte & 0x7F` */
  function BaseLength(data: seq<byte>): int
    requires |data| >= 2
  {
    data[1] as int % 128
  }

  /** `(secondByte & 0x80) != 0` */
  predicate IsMasked(data: seq<byte>)
    requires |data| >= 2
  {
    data[1] >= 128
  }

  /** `firstByte & 0x0F` */
  function Opcode(data: seq<byte>): int
    requires |data| >= 2
  {
    data[0] as int % 16
  }

  /** Where the masking key and the payload of an accepted header sit. */
  datatype Layout = Layout(keyAt: nat, start: nat, len: nat)

  /**
   * The header walk of `parseWebSocketFrame`: at least 2 bytes, base length
   * not 127, 2 more bytes for a 16-bit length, 4 more for a masking key, then
   * the whole payload.
   */
  function FrameLayout(data: seq<byte>): (r: Option<Layout>)
    ensures r.Some? ==> |data| >= 2 && r.value.start + r.value.len <= |data|
    ensures r.Some? ==> r.value.start == r.value.keyAt + (if IsMasked(data) then 4 else 0)
  {
    if |data| < 2 || BaseLength(data) == 127 then None
    else if BaseLength(data) == 126 && |data| < 4 then None
    else
      var len := if BaseLength(data) == 126 then ReadBE16(data[2], data[3]) else BaseLength(data);
      var keyAt := if BaseLength(data) == 126 then 4 else 2;
      var start := if IsMasked(data) then keyAt + 4 else keyAt;
      if |data| < start + len then None else Some(Layout(keyAt, start, len))
  }

  /**
   * The payload a received buffer carries when it is read as one whole text
   * frame, unmasked; `None` for every buffer `parseWebSocketFrame` refuses
   * before decoding.
   */
  function FramePayload(data: seq<byte>): Option<seq<byte>> {
    match FrameLayout(data)
    case None => None
    case Some(l) =>
      if Opcode(data) != 1 then None
      else if IsMasked(data) then Some(Unmask(data[l.start..l.start + l.len], data[l.keyAt..l.start]))
      else Some(data[l.start..l.start + l.len])
  }

  /** The text `parseWebSocketFrame` returns: the payload, if it is well-formed UTF-8. */
  function FrameText(data: seq<byte>): Option<string> {
    match FramePayload(data)
    case None => None
    case Some(p) => Utf8.Decode(p)
  }

  /** `parseWebSocketFrame`: the payload, decoded as UTF-8. */
  method ParseWebSocketFrame(data: seq<byte>) returns (r: Option<string>)
    ensures r == FrameText(data)
  {
    var payload := ExtractPayload(data);
    if payload.Some? {
      return Utf8.Decode(payload.value);
    }
    return None;
  }

  /** The offset walk and the in-place unmasking loop of `parseWebSocketFrame`. */
  method ExtractPayload(data: seq<byte>) returns (r: Option<seq<byte>>)
    ensures r == FramePayload(data)
  {
    if |data| < 2 {
      return None;
    }
    var opcode := data[0] as int % 16;
    var masked := data[1] >= 128;
    var payloadLength := data[1] as int % 128;
    var offset := 2;
    if payloadLength == 126 {
      if |data| < offset + 2 {
        return None;
      }
      payloadLength := data[offset] as int * 256 + data[offset + 1] as int;
      offset := offset + 2;
    } else if payloadLength == 127 {
      return None;
    }
    var maskingKey: seq<byte> := [];
    if masked {
      if |data| < offset + 4 {
        return None;
      }
      maskingKey := data[offset..offset + 4];
      offset := offset + 4;
    }
    if |data| < offset + payloadLength {
      return None;
    }
    var raw := data[offset..offset + payloadLength];
    var payload := new byte[payloadLength](i requires 0 <= i < payloadLength => raw[i]);
    assert payload[..] == raw;
    if masked {
      UnmaskInPlace(payload, maskingKey);
    }
    assert FrameLayout(data) == Some(Layout(offset - (if masked then 4 else 0), offset, payloadLength));
    if opcode == 1 {
      return Some(payload[..]);
    }
    return None;
  }

  /** The unmasking loop: `payload[i] ^= maskingKey[i % 4]` over the whole buffer. */
  method UnmaskInPlace(payload: array<byte>, maskingKey: seq<byte>)
    requires |maskingKey| == 4
    modifies payload
    ensures payload[..] == Unmask(old(payload[..]), maskingKey)
  {
    ghost var raw := payload[..];
    for i := 0 to payload.Length
      invariant payload[..i] == Unmask(raw, maskingKey)[..i]
      invariant payload[i..] == raw[i..]
    {
      payload[i] := Xor(payload[i], maskingKey[i % 4]);
    }
  }

  /** The conditions under which a buffer carries no text. */
  lemma FrameRefusals(data: seq<byte>)
    ensures |data| < 2 ==> FrameText(data).None?
    ensures |data| >= 2 && BaseLength(data) == 127 ==> FrameText(data).None?
    ensures |data| >= 2 && Opcode(data) != 1 ==> FrameText(data).None?
    ensures |data| >= 2 && BaseLength(data) == 126 && |data| < 4 ==> FrameText(data).None?
    ensures |data| >= 2 && BaseLength(data) < 126 && IsMasked(data) && |data| < 6 ==> FrameText(data).None?
    ensures |data| >= 2 && BaseLength(data) < 126 && |data| < 2 + BaseLength(data) ==> FrameText(data).None?
    ensures |data| >= 4 && BaseLength(data) == 126 && |data| < 4 + ReadBE16(data[2], data[3]) ==> FrameText(data).None?
    ensures FramePayload(data).Some? && Utf8.Decode(FramePayload(data).value).None? ==> FrameText(data).None?
  {
  }

  /** A decoded text's UTF-8 form is exactly the (unmasked) payload the header delimits. */
  lemma FrameTextPayload(data: seq<byte>)
    requires FrameText(data).Some?
    ensures |data| >= 2 && Opcode(data) == 1 && BaseLength(data) != 127
    ensures var len := if BaseLength(data) == 126 then ReadBE16(data[2], data[3]) else BaseLength(data);
            var keyAt := if BaseLength(data) == 126 then 4 else 2;
            var start := if IsMasked(data) then keyAt + 4 else keyAt;
            && start + len <= |data|
            && Utf8.Encode(FrameText(data).value)
               == (if IsMasked(data) then Unmask(data[start..start + len], data[keyAt..keyAt + 4])
                   else data[start..start + len])
  {
    var len := if BaseLength(data) == 126 then ReadBE16(data[2], data[3]) else BaseLength(data);
    var keyAt := if BaseLength(data) == 126 then 4 else 2;
    var start := if IsMasked(data) then keyAt + 4 else keyAt;
    Utf8.EncodeDecode(FramePayload(data).value);
  }

  // ---------------------------------------------------------------- encoding

  /** The length part of the header `createWebSocketFrame` writes. */
  function LengthField(n: nat): (r: seq<byte>)
    ensures |r| == 1 || |r| == 3
  {
    if n < 126 then [n as byte]
    else if n < 65536 then [126, (n / 256) as byte, (n % 256) as byte]
    else [126, 255, 255]
  }

  /** The frame sent for `message`: FIN and opcode 1, no mask, the length field and the payload. */
  function Frame(message: string): seq<byte> {
    [0x81] + LengthField(|Utf8.Encode(message)|) + Utf8.Encode(message)
  }

  /** `createWebSocketFrame`, appending to the `frame` buffer piece by piece. */
  method CreateWebSocketFrame(message: string) returns (frame: seq<byte>)
    ensures frame == Frame(message)
    ensures |frame| >= 2 && frame[0] == 0x81 && !IsMasked(frame)
  {
    var payload := Utf8.Encode(message);
    frame := [];
    frame := frame + [0x81];
    if |payload| < 126 {
      frame := frame + [|payload| as byte];
    } else if |payload| < 65536 {
      frame := frame + [126];
      frame := frame + [(|payload| / 256) as byte];
      frame := frame + [(|payload| % 256) as byte];
    } else {
      frame := frame + [126];
      frame := frame + [(65535 / 256) as byte];
      frame := frame + [(65535 % 256) as byte];
    }
    frame := frame + payload;
  }

  /** What the header of a sent frame says, case by case. */
  lemma FrameHeader(message: string)
    ensures var f := Frame(message); var n := |Utf8.Encode(message)|;
            && f[0] == 0x81 && Opcode(f) == 1 && !IsMasked(f)
            && (n < 126 ==> BaseLength(f) == n && f[2..] == Utf8.Encode(message))
            && (126 <= n < 65536 ==> BaseLength(f) == 126 && ReadBE16(f[2], f[3]) == n
                                     && f[4..] == Utf8.Encode(message))
            && (n >= 65536 ==> BaseLength(f) == 126 && ReadBE16(f[2], f[3]) == 65535
                               && f[4..] == Utf8.Encode(message))
  {
  }

  /** An unmasked text frame with a truthful length field carries exactly its payload. */
  lemma UnmaskedFrameText(p: seq<byte>)
    requires |p| < 65536
    ensures FramePayload([0x81] + LengthField(|p|) + p) == Some(p)
  {
    var n := |p|;
    if n < 126 {
      var f := [0x81, n as byte] + p;
      assert [0x81] + LengthField(n) + p == f;
      assert |f| == 2 + n && f[0] == 0x81 && f[1] == n as byte;
      assert f[2..2 + n] == p;
    } else {
      var f := [0x81, 126, (n / 256) as byte, (n % 256) as byte] + p;
      assert [0x81] + LengthField(n) + p == f;
      assert |f| == 4 + n && f[0] == 0x81 && f[1] == 126;
      assert ReadBE16(f[2], f[3]) == n;
      assert f[4..4 + n] == p;
    }
  }

  /** Every text whose UTF-8 form is shorter than 65536 bytes survives a send and a receive. */
  lemma FrameRoundTrip(message: string)
    requires |Utf8.Encode(message)| < 65536
    ensures FrameText(Frame(message)) == Some(message)
  {
    UnmaskedFrameText(Utf8.Encode(message));
    assert FramePayload(Frame(message)) == Some(Utf8.Encode(message));
    Utf8.DecodeEncode(message);
  }

  /**
   * From 65536 bytes on, the header claims 65535 bytes while the whole payload
   * follows: the receiver reads only the first 65535 bytes, never the text sent.
   */
  lemma FrameOversize(message: string)
    requires |Utf8.Encode(message)| >= 65536
    ensures FrameText(Frame(message)) == Utf8.Decode(Utf8.Encode(message)[..65535])
    ensures FrameText(Frame(message)) != Some(message)
  {
    var p := Utf8.Encode(message);
    OversizePayload(p);
    assert FramePayload(Frame(message)) == Some(p[..65535]);
    if FrameText(Frame(message)) == Some(message) {
      Utf8.EncodeDecode(p[..65535]);
    }
  }

  lemma OversizePayload(p: seq<byte>)
    requires |p| >= 65536
    ensures FramePayload([0x81] + LengthField(|p|) + p) == Some(p[..65535])
  {
    var f := [0x81, 126, 255, 255] + p;
    assert [0x81] + LengthField(|p|) + p == f;
    assert Opcode(f) == 1 && !IsMasked(f) && BaseLength(f) == 126;
    assert ReadBE16(f[2], f[3]) == 65535;
    assert f[4..4 + 65535] == p[..65535];
  }

  /**
   * Each receive is parsed as one whole frame: any cut of a sent frame that
   * keeps at least the two header bytes but not all of it yields nothing.
   */
  lemma FrameCutYieldsNothing(message: string, k: nat)
    requires |Utf8.Encode(message)| < 65536
    requires 2 <= k < |Frame(message)|
    ensures FrameText(Frame(message)[..k]) == None
  {
    CutPayload(Utf8.Encode(message), k);
  }

  lemma CutPayload(p: seq<byte>, k: nat)
    requires |p| < 65536
    requires 2 <= k < 1 + |LengthField(|p|)| + |p|
    ensures FramePayload(([0x81] + LengthField(|p|) + p)[..k]) == None
  {
    var n := |p|;
    var c := ([0x81] + LengthField(n) + p)[..k];
    assert c[0] == 0x81 && c[1] == LengthField(n)[0];
    assert !IsMasked(c);
    if n >= 126 && k >= 4 {
      assert c[2] == LengthField(n)[1] && c[3] == LengthField(n)[2];
      assert ReadBE16(c[2], c[3]) == n;
    }
  }

  /** A frame as a browser sends it: masked with `key` as section 5.3 of RFC 6455 requires. */
  function ClientFrame(message: string, key: seq<byte>): seq<byte>
    requires |key| == 4
  {
    MaskedFrame(Utf8.Encode(message), key)
  }

  /** The length part of a client header: the mask bit, then the 7-bit, 16-bit or 64-bit form. */
  function MaskedLengthField(n: nat): seq<byte> {
    if n < 126 then [(0x80 + n) as byte]
    else if n < 65536 then [0xFE, (n / 256) as byte, (n % 256) as byte]
    else [0xFF, 0, 0, 0, 0, 0, 0, 0, 0]
  }

  function MaskedFrame(p: seq<byte>, key: seq<byte>): seq<byte>
    requires |key| == 4
  {
    [0x81] + MaskedLengthField(|p|) + key + Unmask(p, key)
  }

  /** A masked client frame of under 65536 bytes is unmasked back to its text. */
  lemma ClientFrameRoundTrip(message: string, key: seq<byte>)
    requires |key| == 4 && |Utf8.Encode(message)| < 65536
    ensures FrameText(ClientFrame(message, key)) == Some(message)
  {
    MaskedFrameText(Utf8.Encode(message), key);
    Utf8.DecodeEncode(message);
  }

  lemma MaskedFrameText(p: seq<byte>, key: seq<byte>)
    requires |key| == 4 && |p| < 65536
    ensures FramePayload(MaskedFrame(p, key)) == Some(p)
  {
    var q := Unmask(p, key);
    if |p| < 126 {
      MaskedShort(q, key);
    } else {
      MaskedMedium(q, key);
    }
    UnmaskTwice(p, key);
  }

  lemma MaskedShort(q: seq<byte>, key: seq<byte>)
    requires |key| == 4 && |q| < 126
    ensures FramePayload([0x81] + [(0x80 + |q|) as byte] + key + q) == Some(Unmask(q, key))
  {
    var n := |q|;
    var f := [0x81] + [(0x80 + n) as byte] + key + q;
    assert |f| == 6 + n && f[0] == 0x81 && f[1] as int == 0x80 + n;
    assert Opcode(f) == 1 && IsMasked(f) && BaseLength(f) == n;
    assert f[2..6] == key;
    assert f[6..6 + n] == q;
  }

  lemma MaskedMedium(q: seq<byte>, key: seq<byte>)
    requires |key| == 4 && 126 <= |q| < 65536
    ensures var n := |q|;
            FramePayload([0x81] + [0xFE, (n / 256) as byte, (n % 256) as byte] + key + q) == Some(Unmask(q, key))
  {
    var n := |q|;
    var f := [0x81] + [0xFE, (n / 256) as byte, (n % 256) as byte] + key + q;
    assert |f| == 8 + n && f[0] == 0x81 && f[1] == 0xFE;
    assert Opcode(f) == 1 && IsMasked(f) && BaseLength(f) == 126;
    assert ReadBE16(f[2], f[3]) == n;
    assert f[4..8] == key;
    assert f[8..8 + n] == q;
  }

  /** A client frame with the 64-bit length form is refused whatever it carries. */
  lemma ClientFrameLong(message: string, key: seq<byte>)
    requires |key| == 4 && |Utf8.Encode(message)| >= 65536
    ensures FrameText(ClientFrame(message, key)) == None
  {
    var f := MaskedFrame(Utf8.Encode(message), key);
    assert f[1] == 0xFF;
    assert BaseLength(f) == 127;
  }

  // ---------------------------------------------------------------- receiving

  /** A receive completion that makes the client disconnect: no data, or fewer than 2 bytes. */
  predicate EndsReceiving(read: Option<seq<byte>>) {
    read.None? || |read.value| < 2
  }

  /** The texts delivered by a run of receive completions, none of which ends the loop. */
  function Delivered(completions: seq<Option<seq<byte>>>): seq<string>
    requires forall k :: 0 <= k < |completions| ==> !EndsReceiving(completions[k])
  {
    if |completions| == 0 then []
    else
      var last := completions[|completions| - 1];
      assert !EndsReceiving(last);
      var front := Delivered(completions[..|completions| - 1]);
      match FrameText(last.value)
      case Some(t) => front + [t]
      case None => front
  }

  /**
   * `receiveWebSocketFrame`, which re-arms itself after every completion
   * until one carries no data or fewer than 2 bytes; `completions` are the
   * completions in order, and when they run out the receive is still pending.
   */
  method ReceiveWebSocketFrames(completions: seq<Option<seq<byte>>>) returns (messages: seq<string>, disconnected: bool, stop: nat)
    ensures stop <= |completions|
    ensures forall k :: 0 <= k < stop ==> !EndsReceiving(completions[k])
    ensures disconnected <==> stop < |completions|
    ensures disconnected ==> EndsReceiving(completions[stop])
    ensures messages == Delivered(completions[..stop])
  {
    messages := [];
    var i := 0;
    while i < |completions| && !EndsReceiving(completions[i])
      invariant 0 <= i <= |completions|
      invariant forall k :: 0 <= k < i ==> !EndsReceiving(completions[k])
      invariant messages == Delivered(completions[..i])
    {
      var message := ParseWebSocketFrame(completions[i].value);
      assert completions[..i + 1][..i] == completions[..i];
      if message.Some? {
        messages := messages + [message.value];
      }
      i := i + 1;
    }
    stop := i;
    disconnected := i < |completions|;
  }

  /** The completions that carry `messages` one whole frame each. */
  function Sent(messages: seq<string>): (r: seq<Option<seq<byte>>>)
    ensures |r| == |messages|
    ensures forall k :: 0 <= k < |r| ==> !EndsReceiving(r[k])
  {
    if |messages| == 0 then []
    else Sent(messages[..|messages| - 1]) + [Some(Frame(messages[|messages| - 1]))]
  }

  /** Frames read one per completion are delivered in order. */
  lemma DeliveredFrames(messages: seq<string>)
    requires forall k :: 0 <= k < |messages| ==> |Utf8.Encode(messages[k])| < 65536
    ensures Delivered(Sent(messages)) == messages
  {
    SentDecodes(messages);
    DeliveredAll(Sent(messages), messages);
  }

  /** Each completion of `Sent` carries a frame that reads back as its message. */
  lemma SentDecodes(messages: seq<string>)
    requires forall k :: 0 <= k < |messages| ==> |Utf8.Encode(messages[k])| < 65536
    ensures forall k :: 0 <= k < |messages| ==>
              Sent(messages)[k].Some? && FrameText(Sent(messages)[k].value) == Some(messages[k])
  {
    forall k | 0 <= k < |messages|
      ensures Sent(messages)[k].Some? && FrameText(Sent(messages)[k].value) == Some(messages[k])
    {
      SentAt(messages, k);
      FrameRoundTrip(messages[k]);
    }
  }

  lemma {:induction false} SentAt(messages: seq<string>, k: nat)
    requires k < |messages|
    ensures Sent(messages)[k] == Some(Frame(messages[k]))
    decreases |messages|
  {
    if k < |messages| - 1 {
      SentAt(messages[..|messages| - 1], k);
    }
  }

  /** Completions whose frames all read back deliver exactly those texts, in order. */
  lemma {:induction false} DeliveredAll(completions: seq<Option<seq<byte>>>, texts: seq<string>)
    requires |completions| == |texts|
    requires forall k :: 0 <= k < |completions| ==> !EndsReceiving(completions[k])
    requires forall k :: 0 <= k < |completions| ==> completions[k].Some? && FrameText(completions[k].value) == Some(texts[k])
    ensures Delivered(completions) == texts
    decreases |completions|
  {
    if |completions| > 0 {
      var n := |completions| - 1;
      var front := completions[..n];
      assert forall k :: 0 <= k < n ==> front[k] == completions[k];
      DeliveredAll(front, texts[..n]);
      assert completions == front + [Some(completions[n].value)];
      DeliveredSnoc(front, completions[n].value);
      assert texts == texts[..n] + [texts[n]];
    }
  }

  lemma DeliveredSnoc(completions: seq<Option<seq<byte>>>, data: seq<byte>)
    requires forall k :: 0 <= k < |completions| ==> !EndsReceiving(completions[k])
    requires |data| >= 2
    ensures Delivered(completions + [Some(data)])
            == Delivered(completions) + (if FrameText(data).Some? then [FrameText(data).value] else [])
  {
    assert (completions + [Some(data)])[..|completions|] == completions;
  }

  // ---------------------------------------------------------------- handshake

  const KeyHeader: string := "Sec-WebSocket-Key:"

  /** The GUID section 4.2.2 of RFC 6455 appends to the client's key. */
  const AcceptGuid: string := "258EAFA5-E914-47DA-95CA-C5AB0DC85B11"

  /** The value of the first line that starts with `Sec-WebSocket-Key:` (case as written), trimmed; "" if none. */
  function KeyFromLines(lines: seq<string>): string {
    if |lines| == 0 then ""
    else if HasPrefix(lines[0], KeyHeader) then Trim(lines[0][|KeyHeader|..])
    else KeyFromLines(lines[1..])
  }

  /** The key `handleWebSocketUpgrade` reads from an upgrade request. */
  function WebSocketKey(request: string): string {
    KeyFromLines(Split(request, "\r\n"))
  }

  /** The key a client writes on the first key line is the key the server reads. */
  lemma {:induction false} KeyFromLinesFinds(before: seq<string>, key: string, after: seq<string>)
    requires forall k :: 0 <= k < |before| ==> !HasPrefix(before[k], KeyHeader)
    requires |key| > 0 ==> !IsWhitespace(key[0]) && !IsWhitespace(key[|key| - 1])
    ensures KeyFromLines(before + [KeyHeader + " " + key] + after) == key
  {
    var lines := before + [KeyHeader + " " + key] + after;
    if |before| == 0 {
      var line := KeyHeader + " " + key;
      assert lines[0] == line;
      assert line[..|KeyHeader|] == KeyHeader;
      assert line[|KeyHeader|..] == " " + key;
      assert TrimStart(" " + key, IsWhitespace) == TrimStart(key, IsWhitespace);
      TrimWithFixed(key, IsWhitespace);
    } else {
      assert lines[1..] == before[1..] + [KeyHeader + " " + key] + after;
      KeyFromLinesFinds(before[1..], key, after);
    }
  }

  /** `generateWebSocketAcceptKey`, with SHA-1 and base64 supplied by the caller. */
  function AcceptKey(key: string, sha1: seq<byte> -> seq<byte>, base64: seq<byte> -> string): (r: string)
    ensures r == base64(sha1(Utf8.Encode(key) + Utf8.Encode(AcceptGuid)))
  {
    Utf8.EncodeAppend(key, AcceptGuid);
    base64(sha1(Utf8.Encode(key + AcceptGuid)))
  }

  /** The lines of the 101 response of the opening handshake; the last two close the head. */
  function HandshakeLines(acceptKey: string): seq<string> {
    ["HTTP/1.1 101 Switching Protocols", "Upgrade: websocket", "Connection: Upgrade",
     "Sec-WebSocket-Accept: " + acceptKey, "", ""]
  }

  function HandshakeResponse(acceptKey: string): string {
    Join(HandshakeLines(acceptKey), "\r\n")
  }

  /** A client splitting the response at CRLF reads back the status line and the accept header. */
  lemma HandshakeResponseLines(acceptKey: string)
    requires '\r' !in acceptKey
    ensures Split(HandshakeResponse(acceptKey), "\r\n") == HandshakeLines(acceptKey)
    ensures Split(HandshakeResponse(acceptKey), "\r\n")[3] == "Sec-WebSocket-Accept: " + acceptKey
  {
    var lines := HandshakeLines(acceptKey);
    assert '\r' !in lines[3];
    SplitJoin(lines, "\r\n");
  }
}
