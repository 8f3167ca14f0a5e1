/**
 * The web server's registry of live WebSocket clients (`clients`) and what
 * the clients are sent. A client's `send(_:)` writes one text frame
 * (`WebSocket.Frame`) on its connection; the model keeps one ordered log of
 * every text sent, to whom, in place of the connections.
 */
module Clients {
  import opened Wrappers
  import opened Seqs

  /** The two chat fields a `WebSocketClient` carries; both start unset. */
  class WebSocketClient {
    var username: Option<string>
    var currentRoom: Option<string>

    constructor ()
      ensures username.None? && currentRoom.None?
    {
      username := None;
      currentRoom := None;
    }
  }

  /** One `send(_:)`: the text that went to that client. */
  datatype Delivery = Delivery(to: WebSocketClient, text: string)

  /** The same text to each client of the list, in list order. */
  function ToEach(clients: seq<WebSocketClient>, text: string): (r: seq<Delivery>)
    ensures |r| == |clients|
    ensures forall i :: 0 <= i < |r| ==> r[i] == Delivery(clients[i], text)
  {
    if |clients| == 0 then [] else ToEach(clients[..|clients| - 1], text) + [Delivery(clients[|clients| - 1], text)]
  }

  /** Each text to one client, in order. */
  function ToClient(client: WebSocketClient, texts: seq<string>): (r: seq<Delivery>)
    ensures |r| == |texts|
    ensures forall i :: 0 <= i < |r| ==> r[i] == Delivery(client, texts[i])
  {
    if |texts| == 0 then [] else ToClient(client, texts[..|texts| - 1]) + [Delivery(client, texts[|texts| - 1])]
  }

  class WebServer {
    var clients: seq<WebSocketClient>
    var sent: seq<Delivery>

    constructor ()
      ensures clients == [] && sent == []
    {
      clients := [];
      sent := [];
    }

    /** After the handshake response: a new client is created and appended to `clients`. */
    method ClientConnected() returns (client: WebSocketClient)
      modifies this
      ensures fresh(client) && client.username.None? && client.currentRoom.None?
      ensures clients == old(clients) + [client] && sent == old(sent)
    {
      client := new WebSocketClient();
      clients := clients + [client];
    }

    /** `onDisconnect`: every entry that is this very client object goes; the others keep their order. */
    method ClientDisconnected(client: WebSocketClient)
      modifies this
      ensures clients == Without(old(clients), client) && sent == old(sent)
    {
      clients := Without(clients, client);
    }

    /** `client.send(text)`. */
    method Send(client: WebSocketClient, text: string)
      modifies this
      ensures sent == old(sent) + [Delivery(client, text)] && clients == old(clients)
    {
      sent := sent + [Delivery(client, text)];
    }

    /** `broadcast(_:)`: the text goes once to every registered client, in registry order. */
    method Broadcast(text: string)
      modifies this
      ensures clients == old(clients) && sent == old(sent) + ToEach(clients, text)
    {
      var i := 0;
      while i < |clients|
        invariant 0 <= i <= |clients|
        invariant clients == old(clients)
        invariant sent == old(sent) + ToEach(clients[..i], text)
      {
        assert clients[..i + 1][..i] == clients[..i];
        sent := sent + [Delivery(clients[i], text)];
        i := i + 1;
      }
      assert clients[..i] == clients;
    }
  }

  /** A disconnect keeps every other client, in the same relative order. */
  lemma DisconnectKeepsOthers(before: seq<WebSocketClient>, gone: WebSocketClient, after: seq<WebSocketClient>)
    requires gone !in before && gone !in after
    ensures Without(before + [gone] + after, gone) == before + after
  {
    var g := [gone];
    assert g[1..] == [];
    assert Without(g, gone) == [];
    WithoutAppend(before + g, after, gone);
    WithoutAppend(before, g, gone);
    WithoutAbsent(before, gone);
    WithoutAbsent(after, gone);
    assert Without(before + g, gone) == before;
  }
}
