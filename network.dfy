/**
 * The peer-to-peer transport: every `NetworkMessage` travels as a 4-byte
 * big-endian length followed by its encoded bytes. The manager keeps the list
 * of open connections; what it writes goes to an ordered log of
 * transmissions, and what it reads comes from a sequence of receive
 * completions. The encoding itself (JSON) is a supplied function.
 */
module Network {
  import opened Wrappers
  import opened Bytes
  import opened Seqs
  import opened Models

  /** An open connection; only its identity matters. */
  class PeerConnection {
    constructor ()
    {
    }
  }

  /** An encoded message whose length fits the `UInt32` prefix (beyond it the conversion traps). */
  type Payload = s: seq<byte> | |s| < Two32

  /** `UInt32(data.count).bigEndian` followed by the data. */
  function Envelope(data: Payload): (r: seq<byte>)
    ensures |r| == 4 + |data|
  {
    BE32(|data|) + data
  }

  /** Reading the prefix back gives the payload length, and the payload follows it. */
  lemma EnvelopeRoundTrip(data: Payload)
    ensures ReadBE32(Envelope(data)[..4]) == |data|
    ensures Envelope(data)[4..] == data
  {
    var e := Envelope(data);
    assert e[..4] == BE32(|data|);
    ReadBE32Inverse(|data|);
  }

  /** One `connection.send(content:)`. */
  datatype Transmission = Transmission(to: PeerConnection, bytes: seq<byte>)

  function ToAll(connections: seq<PeerConnection>, bytes: seq<byte>): (r: seq<Transmission>)
    ensures |r| == |connections|
    ensures forall i :: 0 <= i < |r| ==> r[i] == Transmission(connections[i], bytes)
  {
    if |connections| == 0 then [] else ToAll(connections[..|connections| - 1], bytes) + [Transmission(connections[|connections| - 1], bytes)]
  }

  /** What `sendMessage(_:to:)` writes: nothing when encoding fails. */
  function Outgoing(connections: seq<PeerConnection>, message: NetworkMessage, to: Option<PeerConnection>,
                    encode: NetworkMessage -> Option<Payload>): seq<Transmission>
  {
    match encode(message)
    case None => []
    case Some(data) =>
      match to
      case Some(c) => [Transmission(c, Envelope(data))]
      case None => ToAll(connections, Envelope(data))
  }

  /**
   * A failed encoding sends nothing; a targeted send is one envelope to that
   * connection; an untargeted one is the same envelope once to every
   * connection, in list order.
   */
  lemma OutgoingTargets(connections: seq<PeerConnection>, message: NetworkMessage, to: Option<PeerConnection>,
                        encode: NetworkMessage -> Option<Payload>)
    ensures encode(message).None? ==> Outgoing(connections, message, to, encode) == []
    ensures encode(message).Some? && to.Some? ==>
              Outgoing(connections, message, to, encode) == [Transmission(to.value, Envelope(encode(message).value))]
    ensures encode(message).Some? && to.None? ==>
              var out := Outgoing(connections, message, to, encode);
              |out| == |connections| &&
              forall i :: 0 <= i < |out| ==> out[i].to == connections[i] && out[i].bytes == Envelope(encode(message).value)
  {
  }

  // ---------------------------------------------------------------- receiving

  /**
   * A run of `receiveMessage`: the messages handed to the delegate, the sizes
   * asked of `receive` in order, whether the loop ended (it did not re-arm),
   * and how many completions it consumed.
   */
  datatype Run = Run(messages: seq<NetworkMessage>, requests: seq<nat>, ended: bool, used: nat)

  /** A length read that ends the loop: a receive error or no data, or not exactly 4 bytes. */
  predicate BadPrefix(read: Option<seq<byte>>) {
    read.None? || |read.value| != 4
  }

  /**
   * The loop over `completions`, which alternate between the 4-byte length
   * read and the payload read. It asks for 4 bytes, then for exactly the
   * announced length, and re-arms only after decoding and dispatching a
   * message. When the completions run out the last receive is still pending.
   */
  function Exchange(completions: seq<Option<seq<byte>>>, decode: seq<byte> -> Option<NetworkMessage>): (r: Run)
    ensures r.used <= |completions|
    ensures |r.requests| > 0 && r.requests[0] == 4
    decreases |completions|
  {
    if |completions| == 0 then Run([], [4], false, 0)
    else if BadPrefix(completions[0]) then Run([], [4], true, 1)
    else
      var length := ReadBE32(completions[0].value);
      if |completions| == 1 then Run([], [4, length], false, 1)
      else if completions[1].None? || decode(completions[1].value).None? then Run([], [4, length], true, 2)
      else
        var rest := Exchange(completions[2..], decode);
        Run([decode(completions[1].value).value] + rest.messages, [4, length] + rest.requests, rest.ended, 2 + rest.used)
  }

  /** One full round of the loop: a good prefix and a decodable payload, then the rest. */
  lemma ExchangeStep(completions: seq<Option<seq<byte>>>, decode: seq<byte> -> Option<NetworkMessage>)
    requires |completions| >= 2 && !BadPrefix(completions[0])
    requires completions[1].Some? && decode(completions[1].value).Some?
    ensures var rest := Exchange(completions[2..], decode);
            Exchange(completions, decode)
            == Run([decode(completions[1].value).value] + rest.messages,
                   [4, ReadBE32(completions[0].value)] + rest.requests, rest.ended, 2 + rest.used)
  {
  }

  /** `receiveMessage(from:)` with its re-arming written as a loop. */
  method ReceiveMessages(completions: seq<Option<seq<byte>>>, decode: seq<byte> -> Option<NetworkMessage>)
      returns (messages: seq<NetworkMessage>, requests: seq<nat>, ended: bool)
    ensures Exchange(completions, decode).messages == messages
    ensures Exchange(completions, decode).requests == requests
    ensures Exchange(completions, decode).ended == ended
  {
    messages := [];
    requests := [];
    var i := 0;
    while true
      invariant 0 <= i <= |completions|
      invariant Exchange(completions, decode).messages == messages + Exchange(completions[i..], decode).messages
      invariant Exchange(completions, decode).requests == requests + Exchange(completions[i..], decode).requests
      invariant Exchange(completions, decode).ended == Exchange(completions[i..], decode).ended
      decreases |completions| - i
    {
      var rest := completions[i..];
      if i == |completions| {
        assert rest == [];
        assert messages + [] == messages;
        requests := requests + [4];
        ended := false;
        return;
      }
      if BadPrefix(completions[i]) {
        assert Exchange(rest, decode) == Run([], [4], true, 1);
        assert messages + [] == messages;
        requests := requests + [4];
        ended := true;
        return;
      }
      var length := ReadBE32(completions[i].value);
      if i + 1 == |completions| {
        assert Exchange(rest, decode) == Run([], [4, length], false, 1);
        assert messages + [] == messages;
        requests := requests + [4, length];
        ended := false;
        return;
      }
      var body := completions[i + 1];
      var message := if body.Some? then decode(body.value) else None;
      if message.None? {
        assert Exchange(rest, decode) == Run([], [4, length], true, 2);
        assert messages + [] == messages;
        requests := requests + [4, length];
        ended := true;
        return;
      }
      ExchangeStep(rest, decode);
      assert rest[2..] == completions[i + 2..];
      ghost var after := Exchange(completions[i + 2..], decode);
      assert messages + ([message.value] + after.messages) == (messages + [message.value]) + after.messages;
      assert requests + ([4, length] + after.requests) == (requests + [4, length]) + after.requests;
      messages := messages + [message.value];
      requests := requests + [4, length];
      i := i + 2;
    }
  }

  /** The completions a peer's reads see when it is sent `messages` one envelope at a time. */
  function Stream(messages: seq<NetworkMessage>, encode: NetworkMessage -> Option<Payload>): (r: seq<Option<seq<byte>>>)
    requires forall k :: 0 <= k < |messages| ==> encode(messages[k]).Some?
    ensures |r| == 2 * |messages|
  {
    if |messages| == 0 then []
    else
      var data := encode(messages[0]).value;
      [Some(BE32(|data|)), Some(data)] + Stream(messages[1..], encode)
  }

  /**
   * Framing round trip: when decoding inverts encoding, the loop delivers
   * exactly the messages sent, asks for each one's encoded length after its
   * prefix, and is still waiting for the next prefix.
   */
  lemma {:induction false} ExchangeStream(messages: seq<NetworkMessage>, encode: NetworkMessage -> Option<Payload>,
                                          decode: seq<byte> -> Option<NetworkMessage>)
    requires forall k :: 0 <= k < |messages| ==> encode(messages[k]).Some?
    requires forall k :: 0 <= k < |messages| ==> decode(encode(messages[k]).value) == Some(messages[k])
    ensures var r := Exchange(Stream(messages, encode), decode);
            r.messages == messages && !r.ended && r.used == 2 * |messages| && |r.requests| == 2 * |messages| + 1
    ensures forall k :: 0 <= k < |messages| ==>
              Exchange(Stream(messages, encode), decode).requests[2 * k + 1] == |encode(messages[k]).value|
  {
    if |messages| > 0 {
      var data := encode(messages[0]).value;
      var s := Stream(messages, encode);
      var tail := messages[1..];
      assert forall k :: 0 <= k < |tail| ==> tail[k] == messages[k + 1];
      ExchangeStream(tail, encode, decode);
      StreamHead(messages, encode);
      ReadBE32Inverse(|data|);
      ExchangeStep(s, decode);
      var r := Exchange(s, decode);
      var rt := Exchange(Stream(tail, encode), decode);
      assert r.requests == [4, |data|] + rt.requests;
      assert r.messages == [messages[0]] + tail;
      forall k | 0 <= k < |messages|
        ensures r.requests[2 * k + 1] == |encode(messages[k]).value|
      {
        if k > 0 {
          assert r.requests[2 * k + 1] == rt.requests[2 * (k - 1) + 1];
        }
      }
    }
  }

  lemma StreamHead(messages: seq<NetworkMessage>, encode: NetworkMessage -> Option<Payload>)
    requires forall k :: 0 <= k < |messages| ==> encode(messages[k]).Some?
    requires |messages| > 0
    ensures var s := Stream(messages, encode);
            var data := encode(messages[0]).value;
            s[0] == Some(BE32(|data|)) && s[1] == Some(data) && s[2..] == Stream(messages[1..], encode)
  {
    var s := Stream(messages, encode);
    var data := encode(messages[0]).value;
    assert s == [Some(BE32(|data|)), Some(data)] + Stream(messages[1..], encode);
  }

  /** A short or missing length read ends the loop there, having delivered nothing. */
  lemma BadPrefixEnds(read: Option<seq<byte>>, more: seq<Option<seq<byte>>>, decode: seq<byte> -> Option<NetworkMessage>)
    requires BadPrefix(read)
    ensures Exchange([read] + more, decode) == Run([], [4], true, 1)
  {
  }

  /** A payload that does not decode ends the loop without re-arming. */
  lemma UndecodableEnds(prefix: seq<byte>, body: seq<byte>, more: seq<Option<seq<byte>>>,
                        decode: seq<byte> -> Option<NetworkMessage>)
    requires |prefix| == 4 && decode(body).None?
    ensures Exchange([Some(prefix), Some(body)] + more, decode) == Run([], [4, ReadBE32(prefix)], true, 2)
  {
  }

  // ---------------------------------------------------------------- manager

  class NetworkManager {
    var connections: seq<PeerConnection>
    /** Every `send(content:)`, in order. */
    var sent: seq<Transmission>
    /** Every `cancel()` issued on a connection, in order. */
    var cancelled: seq<PeerConnection>
    /** `message.data`, the JSON encoding. */
    const encode: NetworkMessage -> Option<Payload>

    constructor (encode: NetworkMessage -> Option<Payload>)
      ensures connections == [] && sent == [] && cancelled == [] && this.encode == encode
    {
      connections := [];
      sent := [];
      cancelled := [];
      this.encode := encode;
    }

    /** `setupConnection`: the connection is appended (its receive loop is `ReceiveMessages`). */
    method SetupConnection(connection: PeerConnection)
      modifies this
      ensures connections == old(connections) + [connection]
      ensures sent == old(sent) && cancelled == old(cancelled)
    {
      connections := connections + [connection];
    }

    /** On `.failed` or `.cancelled`: `removeConnection`, by object identity. */
    method RemoveConnection(connection: PeerConnection)
      modifies this
      ensures connections == Without(old(connections), connection)
      ensures sent == old(sent) && cancelled == old(cancelled)
    {
      connections := Without(connections, connection);
    }

    /** `stopListening`: every connection is cancelled in list order, then the list is emptied. */
    method StopListening()
      modifies this
      ensures connections == [] && cancelled == old(cancelled) + old(connections) && sent == old(sent)
    {
      var i := 0;
      while i < |connections|
        invariant 0 <= i <= |connections|
        invariant connections == old(connections) && sent == old(sent)
        invariant cancelled == old(cancelled) + connections[..i]
      {
        assert connections[..i + 1] == connections[..i] + [connections[i]];
        cancelled := cancelled + [connections[i]];
        i := i + 1;
      }
      assert connections[..i] == connections;
      connections := [];
    }

    /** `sendMessage(_:to:)`. */
    method SendMessage(message: NetworkMessage, to: Option<PeerConnection>)
      modifies this
      ensures sent == old(sent) + Outgoing(connections, message, to, encode)
      ensures connections == old(connections) && cancelled == old(cancelled)
    {
      var data := encode(message);
      if data.None? {
        return;
      }
      var envelope := BE32(|data.value|) + data.value;
      if to.Some? {
        sent := sent + [Transmission(to.value, envelope)];
        return;
      }
      var i := 0;
      while i < |connections|
        invariant 0 <= i <= |connections|
        invariant connections == old(connections) && cancelled == old(cancelled)
        invariant sent == old(sent) + ToAll(connections[..i], envelope)
      {
        assert connections[..i + 1][..i] == connections[..i];
        sent := sent + [Transmission(connections[i], envelope)];
        i := i + 1;
      }
      assert connections[..i] == connections;
    }
  }
}
