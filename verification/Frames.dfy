/** The bytes that travel between the debugger server and its client: two framings of the same messages. */
module Frames {
  import opened Options

  /** A transmission layer: a raw packet has one header byte, a WebSocket frame two, or six when it is masked. */
  datatype Framing = Raw | Ws

  const BINARY_FRAME := 0x82
  const MASK_BIT := 0x80

  function MaxLength(f: Framing): (n: nat) {
    if f.Raw? then 255 else 125
  }

  predicate Sendable(f: Framing, message: seq<Byte>) {
    1 <= |message| <= MaxLength(f)
  }

  /** A frame from the server to the client. */
  function Frame(f: Framing, message: seq<Byte>): seq<Byte>
    requires Sendable(f, message)
  {
    if f.Raw? then [|message|] + message else [BINARY_FRAME, |message|] + message
  }

  /** Section 5.2 of RFC 6455: an unmasked binary message (opcode 2) in one final frame, with a 7-bit length. */
  lemma FrameHeader(message: seq<Byte>)
    requires Sendable(Ws, message)
    ensures var b := Frame(Ws, message); b[0] / 128 == 1 && b[0] / 16 % 8 == 0 && b[0] % 16 == 2
    ensures var b := Frame(Ws, message); b[1] / 128 == 0 && b[1] % 128 == |message| < 126 && b[2..] == message
  {}

  ghost function Stream(f: Framing, messages: seq<seq<Byte>>): seq<Byte>
    requires forall m <- messages :: Sendable(f, m)
  {
    if messages == [] then [] else Frame(f, messages[0]) + Stream(f, messages[1..])
  }

  // ----- What a reader finds at the start of a byte stream -----

  /** What get_message gives back: a message, nothing yet, the end of the connection, or an exception. */
  datatype Outcome = Message(data: seq<Byte>) | Nothing | Closed | Failed

  function HeaderSize(f: Framing): (n: nat) {
    if f.Raw? then 1 else 2
  }

  /** The header announces a message that get_message refuses. */
  predicate BadHeader(f: Framing, b: seq<Byte>) {
    && |b| >= HeaderSize(f)
    && (if f.Raw? then b[0] == 0 else b[0] != BINARY_FRAME || b[1] == 0 || b[1] >= 126)
  }

  predicate Complete(f: Framing, b: seq<Byte>) {
    |b| >= HeaderSize(f) && !BadHeader(f, b) && |b| >= HeaderSize(f) + b[HeaderSize(f) - 1]
  }

  function First(f: Framing, b: seq<Byte>): Outcome {
    if Complete(f, b) then Message(b[HeaderSize(f)..HeaderSize(f) + b[HeaderSize(f) - 1]])
    else if BadHeader(f, b) then Failed
    else Closed
  }

  /** The stream after its first message. */
  function Rest(f: Framing, b: seq<Byte>): seq<Byte>
    requires Complete(f, b)
  {
    b[HeaderSize(f) + b[HeaderSize(f) - 1]..]
  }

  /** All the messages at the start of a stream, up to the first incomplete or refused frame. */
  ghost function Messages(f: Framing, b: seq<Byte>): seq<seq<Byte>>
    decreases |b|
  {
    if Complete(f, b) then [First(f, b).data] + Messages(f, Rest(f, b)) else []
  }

  lemma FirstOfFrame(f: Framing, message: seq<Byte>, tail: seq<Byte>)
    requires Sendable(f, message)
    ensures Complete(f, Frame(f, message) + tail)
    ensures First(f, Frame(f, message) + tail) == Message(message) && Rest(f, Frame(f, message) + tail) == tail
  {
    var b := Frame(f, message) + tail;
    assert b[HeaderSize(f) - 1] == |message|;
    assert b[HeaderSize(f)..HeaderSize(f) + |message|] == message;
  }

  /** Cutting a stream into messages undoes framing them one after another, whatever follows. */
  lemma {:induction false} MessagesOfStream(f: Framing, messages: seq<seq<Byte>>, tail: seq<Byte>)
    requires forall m <- messages :: Sendable(f, m)
    ensures Messages(f, Stream(f, messages) + tail) == messages + Messages(f, tail)
    decreases |messages|
  {
    hide Frame, Complete, First, Rest, Messages;
    if messages == [] {
      assert Stream(f, messages) + tail == tail && messages + Messages(f, tail) == Messages(f, tail);
    } else {
      var more := Stream(f, messages[1..]) + tail;
      assert Stream(f, messages) + tail == Frame(f, messages[0]) + more;
      OneMessage(f, messages[0], more);
      MessagesOfStream(f, messages[1..], tail);
      assert [messages[0]] + (messages[1..] + Messages(f, tail)) == messages + Messages(f, tail);
    }
  }

  lemma OneMessage(f: Framing, message: seq<Byte>, tail: seq<Byte>)
    requires Sendable(f, message)
    ensures Messages(f, Frame(f, message) + tail) == [message] + Messages(f, tail)
  {
    hide Frame, Complete, First, Rest;
    FirstOfFrame(f, message, tail);
  }

  lemma {:induction false} StreamJoins(f: Framing, a: seq<seq<Byte>>, b: seq<seq<Byte>>)
    requires (forall m <- a :: Sendable(f, m)) && forall m <- b :: Sendable(f, m)
    ensures forall m <- a + b :: Sendable(f, m)
    ensures Stream(f, a + b) == Stream(f, a) + Stream(f, b)
    decreases |a|
  {
    hide Frame, Sendable;
    if a == [] {
      assert a + b == b;
    } else {
      StreamJoins(f, a[1..], b);
      assert (a + b)[1..] == a[1..] + b;
    }
  }

  /** The tests that get_message makes on its buffer decide what the whole stream starts with. */
  lemma Decide(f: Framing, b: seq<Byte>, more: seq<Byte>)
    requires |b| >= HeaderSize(f)
    ensures BadHeader(f, b) ==> First(f, b + more) == Failed
    ensures var end := HeaderSize(f) + b[HeaderSize(f) - 1];
            !BadHeader(f, b) && |b| >= end ==>
              && First(f, b + more) == Message(b[HeaderSize(f)..end])
              && Complete(f, b + more) && Rest(f, b + more) == b[end..] + more
    ensures !BadHeader(f, b) && |b| < HeaderSize(f) + b[HeaderSize(f) - 1] ==> First(f, b) == Closed
  {}

  lemma Short(f: Framing, b: seq<Byte>)
    requires |b| < HeaderSize(f)
    ensures First(f, b) == Closed
  {}

  lemma Joined(a: seq<Byte>, b: seq<Byte>, c: seq<Byte>)
    ensures a + (b + c) == (a + b) + c && a + [] == a && [] + c == c
  {}

  // ----- Masking -----

  function XorBits(a: nat, b: nat, n: nat): nat {
    if n == 0 then 0 else (if a % 2 == b % 2 then 0 else 1) + 2 * XorBits(a / 2, b / 2, n - 1)
  }

  function Power(n: nat): nat {
    if n == 0 then 1 else 2 * Power(n - 1)
  }

  lemma {:induction false} XorFits(a: nat, b: nat, n: nat)
    ensures XorBits(a, b, n) < Power(n)
  {
    if n > 0 {
      XorFits(a / 2, b / 2, n - 1);
    }
  }

  lemma {:induction false} XorTwice(a: nat, b: nat, n: nat)
    requires a < Power(n)
    ensures XorBits(XorBits(a, b, n), b, n) == a
  {
    if n > 0 {
      assert XorBits(a, b, n) / 2 == XorBits(a / 2, b / 2, n - 1);
      XorTwice(a / 2, b / 2, n - 1);
    }
  }

  function Xor(a: Byte, b: Byte): Byte {
    XorFits(a, b, 8);
    assert Power(4) == 16 && Power(8) == 256;
    XorBits(a, b, 8)
  }

  lemma XorXor(a: Byte, b: Byte)
    ensures Xor(Xor(a, b), b) == a
  {
    assert Power(4) == 16 && Power(8) == 256;
    XorTwice(a, b, 8);
  }

  /** Section 5.3 of RFC 6455: byte i is combined with byte i modulo 4 of the masking key. */
  function Masked(data: seq<Byte>, key: seq<Byte>): seq<Byte>
    requires |key| == 4
  {
    seq(|data|, i requires 0 <= i < |data| => Xor(data[i], key[i % 4]))
  }

  lemma MaskedTwice(data: seq<Byte>, key: seq<Byte>)
    requires |key| == 4
    ensures Masked(Masked(data, key), key) == data
  {
    hide Xor;
    var once := Masked(data, key);
    forall i | 0 <= i < |data|
      ensures Masked(once, key)[i] == data[i]
    {
      XorXor(data[i], key[i % 4]);
    }
  }

  // ----- What the server finds -----

  /** Header bytes of a frame from the client: a WebSocket client sends a masking key. */
  function ServerHeader(f: Framing): (n: nat)
    ensures n == if f.Raw? then 1 else 6
  {
    if f.Raw? then 1 else 6
  }

  predicate RefusedHeader(f: Framing, b: seq<Byte>)
    requires |b| >= ServerHeader(f)
  {
    f.Ws? && (b[0] / 16 != 8 || b[1] % 128 > 125 || b[1] < MASK_BIT || b[0] % 16 != 2)
  }

  function ServerLength(f: Framing, b: seq<Byte>): (n: nat)
    requires |b| >= ServerHeader(f)
  {
    if f.Raw? then b[0] else b[1] % 128
  }

  function ServerTotal(f: Framing, b: seq<Byte>): nat
    requires |b| >= ServerHeader(f)
  {
    ServerHeader(f) + ServerLength(f, b)
  }

  function ServerPayload(f: Framing, b: seq<Byte>): seq<Byte>
    requires |b| >= ServerHeader(f) && |b| >= ServerTotal(f, b)
  {
    var data := b[ServerHeader(f)..ServerTotal(f, b)];
    if f.Raw? then data else Masked(data, b[2..6])
  }

  /** The frame in which the client sends a message. */
  function ClientFrame(f: Framing, message: seq<Byte>, key: seq<Byte>): seq<Byte>
    requires |key| == 4 && Sendable(f, message)
  {
    if f.Raw? then [|message|] + message
    else [BINARY_FRAME, MASK_BIT + |message|] + key + Masked(message, key)
  }

  /** The same from the client, which masks: the key and the masked message follow. */
  lemma ClientFrameHeader(message: seq<Byte>, key: seq<Byte>)
    requires |key| == 4 && Sendable(Ws, message)
    ensures var b := ClientFrame(Ws, message, key); b[0] / 128 == 1 && b[0] / 16 % 8 == 0 && b[0] % 16 == 2
    ensures var b := ClientFrame(Ws, message, key); b[1] / 128 == 1 && b[1] % 128 == |message| < 126 && b[2..6] == key
    ensures var b := ClientFrame(Ws, message, key);
            |b| == 6 + |message| && forall i :: 0 <= i < |message| ==> b[6 + i] == Xor(message[i], key[i % 4])
  {}

  lemma ServerReadsFrame(f: Framing, message: seq<Byte>, key: seq<Byte>, tail: seq<Byte>)
    requires |key| == 4 && Sendable(f, message)
    ensures var b := ClientFrame(f, message, key) + tail;
            && |b| >= ServerHeader(f) && !RefusedHeader(f, b)
            && ServerTotal(f, b) == ServerHeader(f) + |message| == |ClientFrame(f, message, key)|
            && ServerPayload(f, b) == message && b[ServerTotal(f, b)..] == tail
  {
    var frame := ClientFrame(f, message, key);
    var b := frame + tail;
    if f.Ws? {
      assert frame[1] == MASK_BIT + |message| && frame[1] % 128 == |message|;
      assert b[2..6] == key;
      assert b[6..6 + |message|] == Masked(message, key);
      MaskedTwice(message, key);
    } else {
      assert b[1..1 + |message|] == message;
    }
  }
}
