/** The transport of the debugger server: layers that share one send buffer. */
module ServerTransport {
  import opened Options
  import opened Frames

  const BUFFER_SIZE := 128
  const MIN_BUFFER_SIZE := 64

  /** A transport layer: the socket at the bottom, a framing above it. */
  datatype Layer = Tcp | Framed(framing: Framing)

  function SendHeader(l: Layer): nat {
    if l.Tcp? then 0 else HeaderSize(l.framing)
  }

  function ReceiveHeader(l: Layer): nat {
    if l.Tcp? then 0 else if l.framing.Raw? then 1 else 6
  }

  /** The longest message that the layer takes from above. */
  function Cap(l: Layer): nat {
    if l.Tcp? then BUFFER_SIZE else MaxLength(l.framing)
  }

  function Headers(layers: seq<Layer>): nat {
    if layers == [] then 0 else SendHeader(layers[0]) + Headers(layers[1..])
  }

  /** Every layer can take a message of this length with the headers of the layers above it. */
  predicate Takes(layers: seq<Layer>, length: nat) {
    layers == [] || (length <= Cap(layers[0]) && Takes(layers[1..], length + SendHeader(layers[0])))
  }

  predicate Grounded(layers: seq<Layer>) {
    layers != [] && (if layers[0].Tcp? then |layers| == 1 else Grounded(layers[1..]))
  }

  function WithHeader(l: Layer, message: seq<Byte>): seq<Byte>
    requires 1 <= |message| <= Cap(l)
  {
    if l.Tcp? then message else Frame(l.framing, message)
  }

  /** The bytes that a message becomes on its way down the layers. */
  function Wrapped(layers: seq<Layer>, message: seq<Byte>): seq<Byte>
    requires 1 <= |message| && Takes(layers, |message|)
    decreases layers
  {
    if layers == [] then message else Wrapped(layers[1..], WithHeader(layers[0], message))
  }

  lemma {:induction false} TakesLess(layers: seq<Layer>, more: nat, less: nat)
    requires Takes(layers, more) && less <= more
    ensures Takes(layers, less)
  {
    if layers != [] {
      TakesLess(layers[1..], more + SendHeader(layers[0]), less + SendHeader(layers[0]));
    }
  }

  lemma UnfoldTakes(layers: seq<Layer>, length: nat)
    requires Takes(layers, length) && layers != []
    ensures length <= Cap(layers[0]) && Takes(layers[1..], length + SendHeader(layers[0]))
  {}

  lemma Tails(a: seq<Byte>, b: seq<Byte>, n: nat)
    requires a == b && n <= |a|
    ensures a[n..] == b[n..]
  {}

  /** The new limit of a size when a layer is added: cut to the layer's own limit and stored in one byte. */
  function NewLimit(limit: nat, header: nat, cap: nat): nat
    requires header <= limit
  {
    (if limit - header > cap then cap else limit - header) % 256
  }

  /** In the buffer of the server the byte loses nothing: the limit is the greatest number that leaves room for the header
      and that the layer takes. */
  lemma LimitIsGreatest(limit: nat, l: Layer, n: nat)
    requires SendHeader(l) <= limit <= BUFFER_SIZE
    ensures n <= NewLimit(limit, SendHeader(l), Cap(l)) <==> n + SendHeader(l) <= limit && n <= Cap(l)
  {}

  /** A layer expects what the other side puts before a message, and writes what it takes off. */
  lemma HeadersAre(f: Framing, message: seq<Byte>, key: seq<Byte>)
    requires Sendable(f, message) && |key| == 4
    ensures ReceiveHeader(Framed(f)) + |message| == |ClientFrame(f, message, key)|
    ensures SendHeader(Framed(f)) + |message| == |Frame(f, message)|
  {}

  class Transport {
    const sendBuffer: array<Byte>
    var layers: seq<Layer>
    var payload: nat
    var maxSend: nat
    var maxReceive: nat
    /** How many more sends the socket completes, and what it has sent. */
    var budget: nat
    var wire: seq<Byte>
    var connected: bool

    ghost predicate Valid()
      reads this, sendBuffer
    {
      && sendBuffer.Length == BUFFER_SIZE
      && (layers != [] ==> Grounded(layers))
      && payload == Headers(layers) && payload + maxSend <= BUFFER_SIZE
      && Takes(layers, maxSend)
    }

    constructor (budget: nat)
      ensures Valid() && fresh(sendBuffer) && layers == [] && !connected && wire == [] && this.budget == budget
    {
      sendBuffer := new Byte[BUFFER_SIZE](_ => 0);
      layers, payload, maxSend, maxReceive := [], 0, 0, 0;
      this.budget, wire, connected := budget, [], false;
    }

    /** jjs_debugger_transport_add, with the sizes that each layer passes. */
    method Add(l: Layer)
      requires Valid() && (l.Tcp? <==> layers == []) && (connected <==> layers != [])
      requires connected ==> maxSend > MIN_BUFFER_SIZE + SendHeader(l) && maxReceive > MIN_BUFFER_SIZE + ReceiveHeader(l)
      modifies `layers, `payload, `maxSend, `maxReceive, `connected
      ensures Valid() && connected && layers == [l] + old(layers)
      ensures maxSend == NewLimit(if old(connected) then old(maxSend) else BUFFER_SIZE, SendHeader(l), Cap(l))
      ensures maxReceive == NewLimit(if old(connected) then old(maxReceive) else BUFFER_SIZE, ReceiveHeader(l), Cap(l))
    {
      ghost var below := layers;
      var start, send, receive := 0, BUFFER_SIZE, BUFFER_SIZE;
      if connected {
        start, send, receive := payload, maxSend, maxReceive;
      } else {
        connected := true;
      }
      assert Takes(below, send);
      layers := [l] + layers;
      payload := start + SendHeader(l);
      send := send - SendHeader(l);
      receive := receive - ReceiveHeader(l);
      if send > Cap(l) {
        send := Cap(l);
      }
      if receive > Cap(l) {
        receive := Cap(l);
      }
      maxSend, maxReceive := send % 256, receive % 256;
      assert layers[1..] == below;
      TakesLess(below, if old(connected) then old(maxSend) else BUFFER_SIZE, maxSend + SendHeader(l));
    }

    /** header_p->send: writes the header of layer k in front of the message and hands both down. */
    method LayerSend(k: nat, at: nat, length: nat) returns (ok: bool)
      requires Valid() && k < |layers| && Grounded(layers[k..])
      requires Headers(layers[k..]) <= at && at + length <= BUFFER_SIZE && 1 <= length && Takes(layers[k..], length)
      modifies `budget, `wire, sendBuffer
      ensures Valid() && sendBuffer[at..] == old(sendBuffer[at..])
      ensures ok ==> wire == old(wire) + Wrapped(layers[k..], old(sendBuffer[at..at + length]))
      ensures !ok ==> wire == old(wire)
      ensures ok <==> old(budget) > 0
      ensures budget == if ok then old(budget) - 1 else 0
      decreases |layers| - k
    {
      ghost var message := sendBuffer[at..at + length];
      hide Frame, Takes;
      var l := layers[k];
      UnfoldTakes(layers[k..], length);
      assert layers[k..][1..] == layers[k + 1..] && layers[k..][0] == l;
      if l.Tcp? {
        if budget == 0 {
          return false;
        }
        budget := budget - 1;
        wire := wire + sendBuffer[at..at + length];
        return true;
      }
      var h := HeaderSize(l.framing);
      WriteHeader(l.framing, at, length);
      label Written:
      ok := LayerSend(k + 1, at - h, length + h);
      Tails(old@Written(sendBuffer[at - h..]), sendBuffer[at - h..], h);
      assert sendBuffer[at..] == sendBuffer[at - h..][h..] && old@Written(sendBuffer[at..]) == old@Written(sendBuffer[at - h..])[h..];
    }

    /** Stores the header of a frame directly before the message. */
    method WriteHeader(f: Framing, at: nat, length: nat)
      requires HeaderSize(f) <= at && at + length <= sendBuffer.Length && 1 <= length <= MaxLength(f)
      modifies sendBuffer
      ensures sendBuffer[at..] == old(sendBuffer[at..])
      ensures sendBuffer[at - HeaderSize(f)..at + length] == Frame(f, old(sendBuffer[at..at + length]))
    {
      ghost var message := sendBuffer[at..at + length];
      if f.Raw? {
        sendBuffer[at - 1] := length;
      } else {
        sendBuffer[at - 2] := BINARY_FRAME;
        sendBuffer[at - 1] := length;
      }
      assert sendBuffer[at..at + length] == message;
    }

    /** jjs_debugger_send: the message is already at the payload position. */
    method Send(length: nat) returns (ok: bool)
      requires Valid() && layers != [] && 1 <= length <= maxSend
      modifies `budget, `wire, sendBuffer
      ensures Valid() && sendBuffer[payload..] == old(sendBuffer[payload..])
      ensures Takes(layers, length)
      ensures ok ==> wire == old(wire) + Wrapped(layers, old(sendBuffer[payload..payload + length]))
      ensures !ok ==> wire == old(wire)
      ensures ok <==> old(budget) > 0
      ensures budget == if ok then old(budget) - 1 else 0
    {
      TakesLess(layers, maxSend, length);
      assert layers[0..] == layers;
      ok := LayerSend(0, payload, length);
    }

    /** memcpy into the send buffer. */
    method Copy(at: nat, data: seq<Byte>)
      requires at + |data| <= sendBuffer.Length
      modifies sendBuffer
      ensures sendBuffer[..] == old(sendBuffer[..at]) + data + old(sendBuffer[at + |data|..])
    {
      forall i | 0 <= i < |data| {
        sendBuffer[at + i] := data[i];
      }
    }

    method SendPiece(piece: seq<Byte>) returns (ok: bool)
      requires Valid() && layers != [] && 1 <= |piece| <= maxSend
      modifies `budget, `wire, sendBuffer
      ensures Valid() && Takes(layers, |piece|) && wire == old(wire) + if ok then Wrapped(layers, piece) else []
      ensures (ok <==> old(budget) > 0) && budget == if ok then old(budget) - 1 else 0
    {
      hide Wrapped, Takes, Headers;
      Copy(payload, piece);
      assert sendBuffer[payload..payload + |piece|] == piece;
      ok := Send(|piece|);
    }

    /** jjs_debugger_transport_send: any number of bytes, in as many messages as they need. */
    method SendData(message: seq<Byte>) returns (ok: bool)
      requires Valid() && layers != [] && maxSend >= 1 && message != []
      modifies `budget, `wire, sendBuffer
      ensures Valid() && AllTaken(layers, Pieces(message, maxSend))
      ensures ok ==> wire == old(wire) + WrappedAll(layers, Pieces(message, maxSend))
      ensures ok <==> old(budget) >= |Pieces(message, maxSend)|
    {
      hide Wrapped, Takes, Pieces, WrappedAll, AllTaken, Wrapped;
      var rest := message;
      ghost var sent: seq<seq<Byte>> := [];
      PiecesTaken(layers, message, maxSend);
      NoMessages(layers);
      while true
        invariant Valid() && rest != [] && maxSend >= 1
        invariant sent + Pieces(rest, maxSend) == Pieces(message, maxSend)
        invariant AllTaken(layers, sent) && wire == old(wire) + WrappedAll(layers, sent)
        invariant old(budget) == budget + |sent|
        decreases |rest|
      {
        var length := if |rest| <= maxSend then |rest| else maxSend;
        PieceStep(sent, rest, maxSend);
        ok := SendPiece(rest[..length]);
        if !ok {
          return;
        }
        OneMore(layers, sent, rest[..length]);
        sent := sent + [rest[..length]];
        rest := rest[length..];
        if rest == [] {
          return;
        }
      }
    }
  }

  // ----- Messages cut into pieces -----

  ghost predicate AllTaken(layers: seq<Layer>, messages: seq<seq<Byte>>) {
    forall m <- messages :: 1 <= |m| && Takes(layers, |m|)
  }

  ghost function WrappedAll(layers: seq<Layer>, messages: seq<seq<Byte>>): seq<Byte>
    requires AllTaken(layers, messages)
  {
    if messages == [] then [] else
      WrappedAll(layers, messages[..|messages| - 1]) + Wrapped(layers, messages[|messages| - 1])
  }

  lemma NoMessages(layers: seq<Layer>)
    ensures AllTaken(layers, []) && WrappedAll(layers, []) == []
  {}

  lemma OneMore(layers: seq<Layer>, messages: seq<seq<Byte>>, m: seq<Byte>)
    requires AllTaken(layers, messages) && 1 <= |m| && Takes(layers, |m|)
    ensures AllTaken(layers, messages + [m])
    ensures WrappedAll(layers, messages + [m]) == WrappedAll(layers, messages) + Wrapped(layers, m)
  {
    hide Wrapped, Takes;
    assert (messages + [m])[..|messages|] == messages;
  }

  function Pieces(message: seq<Byte>, limit: nat): seq<seq<Byte>>
    requires limit >= 1
  {
    if |message| <= limit then [message] else [message[..limit]] + Pieces(message[limit..], limit)
  }

  function Concat(messages: seq<seq<Byte>>): seq<Byte> {
    if messages == [] then [] else messages[0] + Concat(messages[1..])
  }

  lemma ConcatFirst(m: seq<Byte>, rest: seq<seq<Byte>>)
    ensures Concat([m] + rest) == m + Concat(rest) && Concat([]) == []
  {
    assert ([m] + rest)[1..] == rest;
  }

  /** The pieces give back the message, and none is longer than the limit. */
  lemma {:induction false} PiecesJoin(message: seq<Byte>, limit: nat)
    requires limit >= 1
    ensures Concat(Pieces(message, limit)) == message
    ensures forall p <- Pieces(message, limit) :: |p| <= limit && (message != [] ==> p != [])
  {
    hide Concat;
    if |message| > limit {
      var rest := Pieces(message[limit..], limit);
      PiecesJoin(message[limit..], limit);
      ConcatFirst(message[..limit], rest);
      assert message == message[..limit] + message[limit..];
    } else {
      ConcatFirst(message, []);
      assert [message] + [] == [message] && message + [] == message;
    }
  }

  lemma PieceStep(sent: seq<seq<Byte>>, message: seq<Byte>, limit: nat)
    requires limit >= 1 && message != []
    ensures |message| <= limit ==> sent + Pieces(message, limit) == sent + [message[..|message|]]
    ensures |message| > limit ==> sent + Pieces(message, limit) == (sent + [message[..limit]]) + Pieces(message[limit..], limit)
    ensures |Pieces(message, limit)| >= 1
  {
    assert message[..|message|] == message;
  }

  lemma PiecesTaken(layers: seq<Layer>, message: seq<Byte>, limit: nat)
    requires limit >= 1 && message != [] && Takes(layers, limit)
    ensures AllTaken(layers, Pieces(message, limit))
  {
    PiecesJoin(message, limit);
    forall p | p in Pieces(message, limit)
      ensures Takes(layers, |p|)
    {
      TakesLess(layers, limit, |p|);
    }
  }

  /** Below one framing and the socket, messages become the stream of their frames. */
  lemma {:induction false} WrappedIsStream(f: Framing, messages: seq<seq<Byte>>)
    requires AllTaken([Framed(f), Tcp], messages)
    ensures forall m <- messages :: Sendable(f, m)
    ensures WrappedAll([Framed(f), Tcp], messages) == Stream(f, messages)
  {
    hide Frame;
    var layers := [Framed(f), Tcp];
    if messages != [] {
      var init, last := messages[..|messages| - 1], messages[|messages| - 1];
      WrappedIsStream(f, init);
      WrappedOnce(f, last);
      StreamJoins(f, init, [last]);
      assert messages == init + [last];
      assert Stream(f, [last]) == Frame(f, last) + Stream(f, []);
    }
  }

  lemma WrappedOnce(f: Framing, m: seq<Byte>)
    requires 1 <= |m| && Takes([Framed(f), Tcp], |m|)
    ensures Sendable(f, m) && Wrapped([Framed(f), Tcp], m) == Frame(f, m)
  {
    var layers := [Framed(f), Tcp];
    assert layers[1..] == [Tcp] && [Tcp][1..] == [];
  }
}
