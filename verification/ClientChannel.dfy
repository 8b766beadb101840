/** The two channels of the Python client: they cut a byte stream into messages, however it arrives. */
module ClientChannel {
  import opened Options
  import opened Frames

  /** What a socket does next: some bytes arrive, or for a while nothing does. A socket without events is closed. */
  datatype Event = Chunk(data: seq<Byte>) | Quiet

  function Arriving(events: seq<Event>): seq<Byte> {
    if events == [] then [] else (if events[0].Chunk? then events[0].data else []) + Arriving(events[1..])
  }

  lemma ArrivingFirst(event: Event, rest: seq<Event>)
    ensures Arriving([event] + rest) == (if event.Chunk? then event.data else []) + Arriving(rest)
  {
    assert ([event] + rest)[1..] == rest;
  }

  ghost predicate Delivers(events: seq<Event>) {
    forall e <- events :: e.Chunk? ==> e.data != []
  }

  /** How the network cuts a byte stream: into chunks of these sizes, with quiet moments for the zeros. */
  function Cut(bytes: seq<Byte>, sizes: seq<nat>): (events: seq<Event>)
    ensures Arriving(events) == bytes && Delivers(events)
    decreases |sizes|
  {
    if bytes == [] then []
    else if sizes == [] then
      CutWhole(bytes);
      [Chunk(bytes)]
    else if sizes[0] == 0 then [Quiet] + Cut(bytes, sizes[1..])
    else if sizes[0] >= |bytes| then
      CutWhole(bytes);
      [Chunk(bytes)]
    else
      CutMore(bytes, sizes[0], Cut(bytes[sizes[0]..], sizes[1..]));
      [Chunk(bytes[..sizes[0]])] + Cut(bytes[sizes[0]..], sizes[1..])
  }

  lemma CutWhole(bytes: seq<Byte>)
    ensures Arriving([Chunk(bytes)]) == bytes
  {
    assert [Chunk(bytes)][1..] == [];
    assert bytes + [] == bytes;
  }

  lemma CutMore(bytes: seq<Byte>, n: nat, rest: seq<Event>)
    requires n <= |bytes| && Arriving(rest) == bytes[n..]
    ensures Arriving([Chunk(bytes[..n])] + rest) == bytes
  {
    assert ([Chunk(bytes[..n])] + rest)[1..] == rest;
    assert bytes == bytes[..n] + bytes[n..];
  }

  class Socket {
    var events: seq<Event>
    var limits: seq<nat>
    var sent: seq<Byte>

    constructor (events: seq<Event>, limits: seq<nat>)
      ensures this.events == events && this.limits == limits && sent == []
    {
      this.events, this.limits, sent := events, limits, [];
    }

    /** Whether a receive would not block. A quiet moment passes when the answer is no. */
    method Ready() returns (ready: bool)
      modifies `events
      ensures ready ==> events == old(events)
      ensures !ready ==> |events| < |old(events)| && Arriving(events) == Arriving(old(events))
      ensures Delivers(old(events)) ==> Delivers(events)
    {
      ready := events == [] || events[0].Chunk?;
      if !ready {
        events := events[1..];
      }
    }

    /** Waits for some bytes. Nothing comes back from a closed socket. */
    method ReceiveData() returns (data: seq<Byte>)
      requires Delivers(events)
      modifies `events
      ensures Delivers(events) && Arriving(old(events)) == data + Arriving(events)
      ensures data == [] ==> Arriving(events) == [] && |events| <= |old(events)|
      ensures data != [] ==> |events| < |old(events)|
    {
      while events != [] && events[0].Quiet?
        invariant Delivers(events) && Arriving(events) == Arriving(old(events)) && |events| <= |old(events)|
        decreases |events|
      {
        events := events[1..];
      }
      if events == [] {
        return [];
      }
      data := events[0].data;
      assert events[0] in events;
      events := events[1..];
    }

    /** Sends some of the data: at least one byte, and no more than the socket takes at this time. */
    method SendData(data: seq<Byte>) returns (n: nat)
      requires data != []
      modifies `limits, `sent
      ensures 1 <= n <= |data| && sent == old(sent) + data[..n]
    {
      n := |data|;
      if limits != [] {
        if limits[0] < n {
          n := if limits[0] == 0 then 1 else limits[0];
        }
        limits := limits[1..];
      }
      sent := sent + data[..n];
    }
  }

  /** The loop of both channels: sends what is left until nothing is. */
  method SendAll(protocol: Socket, data: seq<Byte>)
    modifies protocol`limits, protocol`sent
    ensures protocol.sent == old(protocol.sent) + data
  {
    var rest, size := data, |data|;
    while size > 0
      invariant if size > 0 then size == |rest| && protocol.sent + rest == old(protocol.sent) + data
                else protocol.sent == old(protocol.sent) + data
      decreases size
    {
      var n := protocol.SendData(rest);
      assert rest == rest[..n] + rest[n..];
      if n < size {
        rest := rest[n..];
      }
      size := size - n;
    }
  }

  class RawPacket {
    const protocol: Socket
    var dataBuffer: seq<Byte>

    constructor (protocol: Socket)
      ensures this.protocol == protocol && dataBuffer == []
    {
      this.protocol, dataBuffer := protocol, [];
    }

    /** What is buffered and what is still to come. */
    ghost function Pending(): seq<Byte>
      reads this, protocol
    {
      dataBuffer + Arriving(protocol.events)
    }

    method GetMessage(blocking: bool) returns (r: Outcome)
      requires Delivers(protocol.events)
      modifies `dataBuffer, protocol`events
      ensures Delivers(protocol.events) && |protocol.events| <= |old(protocol.events)|
      ensures r == First(Raw, old(Pending())) || (r == Nothing && !blocking && |protocol.events| < |old(protocol.events)|)
      ensures Pending() == if r.Message? then Frames.Rest(Raw, old(Pending())) else old(Pending())
    {
      hide First, Complete, Frames.Rest, Arriving;
      while true
        invariant Delivers(protocol.events) && |protocol.events| <= |old(protocol.events)|
        invariant Pending() == old(Pending())
        decreases |protocol.events|
      {
        if |dataBuffer| >= 1 {
          Decide(Raw, dataBuffer, Arriving(protocol.events));
          var size: int := dataBuffer[0];
          if size == 0 {
            return Failed;
          }
          if |dataBuffer| >= size + 1 {
            var result := dataBuffer[1..size + 1];
            dataBuffer := dataBuffer[size + 1..];
            return Message(result);
          }
        }
        if !blocking {
          var ready := protocol.Ready();
          if !ready {
            return Nothing;
          }
        }
        assert |dataBuffer| < HeaderSize(Raw) ==> First(Raw, dataBuffer) == Closed by {
          if |dataBuffer| < HeaderSize(Raw) {
            Short(Raw, dataBuffer);
          }
        }
        var received := protocol.ReceiveData();
        Joined(dataBuffer, received, Arriving(protocol.events));
        if received == [] {
          assert old(Pending()) == dataBuffer;
          return Closed;
        }
        dataBuffer := dataBuffer + received;
      }
    }

    /** Sends the bytes as they are: their first byte is the size. */
    method SendMessage(data: seq<Byte>)
      modifies protocol`limits, protocol`sent
      ensures protocol.sent == old(protocol.sent) + data
    {
      SendAll(protocol, data);
    }
  }

  class WebSocket {
    const protocol: Socket
    var dataBuffer: seq<Byte>
    var closed: bool

    constructor (protocol: Socket)
      ensures this.protocol == protocol && dataBuffer == [] && !closed
    {
      this.protocol, dataBuffer, closed := protocol, [], false;
    }

    ghost function Pending(): seq<Byte>
      reads this, protocol
    {
      dataBuffer + Arriving(protocol.events)
    }

    method GetMessage(blocking: bool) returns (r: Outcome)
      requires Delivers(protocol.events)
      modifies `dataBuffer, `closed, protocol`events
      ensures Delivers(protocol.events) && |protocol.events| <= |old(protocol.events)|
      ensures old(closed) ==> r == Closed
      ensures !old(closed) ==>
                r == First(Ws, old(Pending())) || (r == Nothing && !blocking && |protocol.events| < |old(protocol.events)|)
      ensures closed == (r == Closed)
      ensures r != Closed ==> Pending() == if r.Message? then Frames.Rest(Ws, old(Pending())) else old(Pending())
    {
      hide First, Complete, Frames.Rest, Arriving;
      if closed {
        return Closed;
      }
      while true
        invariant Delivers(protocol.events) && |protocol.events| <= |old(protocol.events)|
        invariant Pending() == old(Pending()) && !closed
        decreases |protocol.events|
      {
        if |dataBuffer| >= 2 {
          Decide(Ws, dataBuffer, Arriving(protocol.events));
          if dataBuffer[0] != BINARY_FRAME {
            return Failed;
          }
          var size: int := dataBuffer[1];
          if size == 0 || size >= 126 {
            return Failed;
          }
          if |dataBuffer| >= size + 2 {
            var result := dataBuffer[2..size + 2];
            dataBuffer := dataBuffer[size + 2..];
            return Message(result);
          }
        }
        if !blocking {
          var ready := protocol.Ready();
          if !ready {
            return Nothing;
          }
        }
        assert |dataBuffer| < HeaderSize(Ws) ==> First(Ws, dataBuffer) == Closed by {
          if |dataBuffer| < HeaderSize(Ws) {
            Short(Ws, dataBuffer);
          }
        }
        var data := protocol.ReceiveData();
        Joined(dataBuffer, data, Arriving(protocol.events));
        if data == [] {
          assert old(Pending()) == dataBuffer;
          closed := true;
          dataBuffer := [];
          return Closed;
        }
        dataBuffer := dataBuffer + data;
      }
    }

    /** Replaces the size byte by a WebSocket header with a zero mask key. */
    method SendMessage(packed: seq<Byte>)
      requires packed != [] && packed[0] < MASK_BIT
      modifies protocol`limits, protocol`sent
      ensures protocol.sent == old(protocol.sent) + ([BINARY_FRAME, MASK_BIT + packed[0], 0, 0, 0, 0] + packed[1..])
    {
      SendAll(protocol, [BINARY_FRAME, MASK_BIT + packed[0], 0, 0, 0, 0] + packed[1..]);
    }
  }

  /** The channel the debugger client was started with. */
  datatype Channel = RawChannel(raw: RawPacket) | WsChannel(ws: WebSocket)
  {
    function Kind(): Framing {
      if RawChannel? then Raw else Ws
    }

    function Protocol(): Socket {
      if RawChannel? then raw.protocol else ws.protocol
    }

    ghost function Objects(): set<object> {
      if RawChannel? then {raw, raw.protocol} else {ws, ws.protocol}
    }

    ghost predicate Open()
      reads Objects()
    {
      Delivers(Protocol().events) && (WsChannel? ==> !ws.closed)
    }

    ghost function Pending(): seq<Byte>
      reads Objects()
    {
      if RawChannel? then raw.Pending() else ws.Pending()
    }

    method GetMessage(blocking: bool) returns (r: Outcome)
      requires Open()
      modifies Objects()
      ensures r != Closed ==> Open()
      ensures |Protocol().events| <= |old(Protocol().events)|
      ensures r == First(Kind(), old(Pending())) ||
              (r == Nothing && !blocking && |Protocol().events| < |old(Protocol().events)|)
      ensures r != Closed ==> Pending() == if r.Message? then Rest(Kind(), old(Pending())) else old(Pending())
      ensures Protocol().sent == old(Protocol().sent)
    {
      hide First, Complete, Rest, Arriving;
      if RawChannel? {
        r := raw.GetMessage(blocking);
      } else {
        r := ws.GetMessage(blocking);
      }
    }
  }

  /** Reads until the connection ends or an exception is raised. What comes out does not depend on how the bytes were
      cut into chunks, or on the moments without data in between. */
  method ReadAll(channel: Channel, blocking: bool) returns (messages: seq<seq<Byte>>)
    requires channel.Open()
    modifies channel.Objects()
    ensures messages == Messages(channel.Kind(), old(channel.Pending()))
  {
    hide First, Rest, Complete, Messages;
    messages := [];
    ghost var whole := channel.Pending();
    while true
      invariant channel.Open()
      invariant Messages(channel.Kind(), whole) == messages + Messages(channel.Kind(), channel.Pending())
      decreases |channel.Pending()|, |channel.Protocol().events|
    {
      ghost var before := channel.Pending();
      MessagesStep(channel.Kind(), before);
      var r := channel.GetMessage(blocking);
      match r {
        case Closed => return;
        case Failed => return;
        case Nothing =>
        case Message(data) => messages := messages + [data];
      }
    }
  }

  lemma MessagesStep(f: Framing, b: seq<Byte>)
    ensures First(f, b).Message? <==> Complete(f, b)
    ensures First(f, b) != Nothing
    ensures Complete(f, b) ==> Messages(f, b) == [First(f, b).data] + Messages(f, Rest(f, b)) && |Rest(f, b)| < |b|
    ensures !Complete(f, b) ==> Messages(f, b) == []
  {}
}
