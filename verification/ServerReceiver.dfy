/** The receive buffer of the debugger server: frames are cut out of it as they become complete. */
module ServerReceiver {
  import opened Options
  import opened Frames
  import opened ClientChannel
  import opened ServerTransport

  // ----- The events of the receiving socket -----

  ghost function Left(events: seq<Event>): nat {
    |Arriving(events)| + |events|
  }

  /** The events after n bytes of the first chunk were read. */
  function After(events: seq<Event>, n: nat): seq<Event>
    requires events != [] && events[0].Chunk? && n <= |events[0].data|
  {
    if n == |events[0].data| then events[1..] else [Chunk(events[0].data[n..])] + events[1..]
  }

  lemma TakeChunk(events: seq<Event>, n: nat)
    requires Delivers(events) && events != [] && events[0].Chunk? && 1 <= n <= |events[0].data|
    ensures Delivers(After(events, n)) && Left(After(events, n)) < Left(events)
    ensures Arriving(events) == events[0].data[..n] + Arriving(After(events, n))
  {
    var data, rest := events[0].data, events[1..];
    ArrivingFirst(events[0], rest);
    assert events == [events[0]] + rest;
    if n < |data| {
      ArrivingFirst(Chunk(data[n..]), rest);
      Joined(data[..n], data[n..], Arriving(rest));
      assert data == data[..n] + data[n..];
    } else {
      assert data[..n] == data;
    }
  }

  predicate HasFrame(f: Framing, b: seq<Byte>) {
    |b| >= ServerHeader(f) && !RefusedHeader(f, b) && |b| >= ServerTotal(f, b)
  }

  /** If the header of the first frame is there, it is accepted and the frame fits into the receive buffer. */
  predicate FirstFits(f: Framing, b: seq<Byte>) {
    |b| >= ServerHeader(f) ==> !RefusedHeader(f, b) && ServerTotal(f, b) <= BUFFER_SIZE
  }

  /** The header of the first frame is there and is not accepted. */
  predicate StartsRefused(f: Framing, b: seq<Byte>) {
    |b| >= ServerHeader(f) && RefusedHeader(f, b)
  }

  /** Neither a whole frame nor a header that has to be refused. */
  predicate Unfinished(f: Framing, b: seq<Byte>) {
    !HasFrame(f, b) && !StartsRefused(f, b)
  }

  lemma SameFrame(f: Framing, b: seq<Byte>, more: seq<Byte>)
    requires HasFrame(f, b)
    ensures HasFrame(f, b + more) && ServerTotal(f, b + more) == ServerTotal(f, b)
    ensures ServerPayload(f, b + more) == ServerPayload(f, b)
    ensures (b + more)[ServerTotal(f, b)..] == b[ServerTotal(f, b)..] + more
  {
    assert (b + more)[ServerHeader(f)..ServerTotal(f, b)] == b[ServerHeader(f)..ServerTotal(f, b)];
    if f.Ws? {
      assert (b + more)[2..6] == b[2..6];
    }
  }

  /** What the bytes in the buffer tell about the whole stream. */
  lemma BufferTells(f: Framing, b: seq<Byte>, more: seq<Byte>)
    ensures StartsRefused(f, b) ==> StartsRefused(f, b + more) && !FirstFits(f, b + more)
    ensures Unfinished(f, b) && FirstFits(f, b + more) ==> |b| < BUFFER_SIZE
    ensures Unfinished(f, b) && more == [] ==> !HasFrame(f, b + more)
  {
    assert b + [] == b;
  }

  lemma Slices(whole: seq<Byte>, end: nat, low: nat, high: nat)
    requires low <= high <= end <= |whole|
    ensures whole[..end][low..high] == whole[low..high] && whole[..end][high..] == whole[high..end]
  {}

  /** Byte j of the buffer when i bytes from `at` are unmasked. */
  ghost function UnmaskedAt(before: seq<Byte>, at: nat, i: nat, j: nat): Byte
    requires 4 <= at && at + i <= |before| && j < |before|
  {
    if at <= j < at + i then Xor(before[j], before[at - 4 + (j - at) % 4]) else before[j]
  }

  lemma UnmaskedNone(before: seq<Byte>, at: nat)
    requires 4 <= at <= |before|
    ensures forall j | 0 <= j < |before| :: UnmaskedAt(before, at, 0, j) == before[j]
  {}

  lemma UnmaskedMore(before: seq<Byte>, at: nat, i: nat)
    requires 4 <= at && at + i < |before|
    ensures UnmaskedAt(before, at, i, at + i) == before[at + i]
    ensures UnmaskedAt(before, at, i, at - 4 + i % 4) == before[at - 4 + i % 4]
    ensures UnmaskedAt(before, at, i + 1, at + i) == Xor(before[at + i], before[at - 4 + i % 4])
    ensures forall j | 0 <= j < |before| && j != at + i :: UnmaskedAt(before, at, i + 1, j) == UnmaskedAt(before, at, i, j)
  {
    hide Xor;
  }

  lemma UnmaskedAll(before: seq<Byte>, whole: seq<Byte>, at: nat, length: nat, end: nat)
    requires 4 <= at && at + length <= end <= |before| == |whole|
    requires forall j | 0 <= j < |before| :: whole[j] == UnmaskedAt(before, at, length, j)
    ensures whole[..at] == before[..at]
    ensures whole[at..at + length] == Masked(before[at..at + length], before[at - 4..at])
    ensures whole[at + length..end] == before[at + length..end]
  {
    hide Xor;
    var data, key := before[at..at + length], before[at - 4..at];
    forall k | 0 <= k < length
      ensures whole[at + k] == Masked(data, key)[k]
    {
      assert data[k] == before[at + k] && key[k % 4] == before[at - 4 + k % 4];
    }
  }

  lemma NothingMore(events: seq<Event>)
    ensures events == [] ==> Arriving(events) == []
  {}

  class Receiver {
    const receiveBuffer: array<Byte>
    var receivedLength: nat
    var connected: bool
    var incoming: seq<Event>

    ghost predicate Valid()
      reads this, receiveBuffer
    {
      receiveBuffer.Length == BUFFER_SIZE && receivedLength <= BUFFER_SIZE && Delivers(incoming)
    }

    constructor (incoming: seq<Event>)
      requires Delivers(incoming)
      ensures Valid() && fresh(receiveBuffer) && connected && receivedLength == 0 && this.incoming == incoming
      ensures Incoming() == Arriving(incoming)
    {
      receiveBuffer := new Byte[BUFFER_SIZE](_ => 0);
      receivedLength, connected, this.incoming := 0, true, incoming;
    }

    /** The bytes in the receive buffer and those that are still to arrive. */
    ghost function Incoming(): seq<Byte>
      requires Valid()
      reads this, receiveBuffer
    {
      receiveBuffer[..receivedLength] + Arriving(incoming)
    }

    /** Reads what the socket has, as far as the buffer has room. With no room the socket reports the end. */
    method TcpReceive() returns (ok: bool)
      requires Valid()
      modifies `incoming, `receivedLength, `connected, receiveBuffer
      ensures Valid() && (ok <==> old(receivedLength) < BUFFER_SIZE) && connected == (old(connected) && ok)
      ensures ok ==> Incoming() == old(Incoming()) && receivedLength >= old(receivedLength)
      ensures ok && old(incoming) != [] ==> Left(incoming) < Left(old(incoming))
      ensures ok && old(incoming) == [] ==> incoming == []
      ensures !ok ==> incoming == old(incoming)
    {
      var space := BUFFER_SIZE - receivedLength;
      if space == 0 {
        connected := false;
        return false;
      }
      if incoming == [] {
        return true;
      }
      assert incoming[0] in incoming;
      if incoming[0].Quiet? {
        incoming := incoming[1..];
        return true;
      }
      ReadChunk(space);
      return true;
    }

    /** recv with some bytes waiting: takes them all, or as many as there is room for. */
    method ReadChunk(space: nat)
      requires Valid() && incoming != [] && incoming[0].Chunk? && 1 <= space == BUFFER_SIZE - receivedLength
      modifies `incoming, `receivedLength, receiveBuffer
      ensures Valid() && Incoming() == old(Incoming()) && receivedLength >= old(receivedLength)
      ensures Left(incoming) < Left(old(incoming))
    {
      hide After, Arriving, Left;
      assert incoming[0] in incoming;
      var data := incoming[0].data;
      var n := if |data| <= space then |data| else space;
      ghost var before := receiveBuffer[..receivedLength];
      forall i | 0 <= i < n {
        receiveBuffer[receivedLength + i] := data[i];
      }
      assert receiveBuffer[..receivedLength + n] == before + data[..n];
      receivedLength := receivedLength + n;
      TakeChunk(incoming, n);
      Joined(before, data[..n], Arriving(After(incoming, n)));
      incoming := After(incoming, n);
    }

    /** The receive functions of the socket and of the framing above it. A message is unmasked in the buffer. */
    method Receive(f: Framing) returns (r: Outcome, total: nat)
      requires Valid()
      modifies `incoming, `receivedLength, `connected, receiveBuffer
      ensures Valid() && r != Failed
      ensures FirstFits(f, old(Incoming())) && old(receivedLength) < BUFFER_SIZE ==> r != Closed
      ensures connected == (old(connected) && r != Closed)
      ensures old(incoming) != [] && r != Closed ==> Left(incoming) < Left(old(incoming))
      ensures old(incoming) == [] ==> incoming == []
      ensures r == Nothing ==> Incoming() == old(Incoming())
      ensures r == Nothing && incoming == [] ==> !HasFrame(f, Incoming())
      ensures r == Nothing ==> Unfinished(f, receiveBuffer[..receivedLength])
      ensures r == Closed ==> old(receivedLength) == BUFFER_SIZE || StartsRefused(f, old(Incoming()))
      ensures r == Nothing && FirstFits(f, old(Incoming())) ==> receivedLength < BUFFER_SIZE
      ensures r.Message? ==>
                && HasFrame(f, old(Incoming())) && total == ServerTotal(f, old(Incoming())) <= receivedLength
                && r.data == ServerPayload(f, old(Incoming())) && total >= 1
                && receiveBuffer[total..receivedLength] + Arriving(incoming) == old(Incoming())[total..]
    {
      hide Arriving, Left, Masked, ServerPayload, FirstFits;
      total := 0;
      var ok := TcpReceive();
      if !ok {
        return Closed, 0;
      }
      ghost var buffered := receiveBuffer[..receivedLength];
      NothingMore(incoming);
      BufferTells(f, buffered, Arriving(incoming));
      if receivedLength < ServerHeader(f) {
        return Nothing, 0;
      }
      if f.Ws? && (receiveBuffer[0] / 16 != 8 || receiveBuffer[1] % 128 > 125 || receiveBuffer[1] < MASK_BIT
                   || receiveBuffer[0] % 16 != 2) {
        connected := false;
        return Closed, 0;
      }
      var length: nat := if f.Raw? then receiveBuffer[0] else receiveBuffer[1] % 128;
      total := length + ServerHeader(f);
      if receivedLength < total {
        return Nothing, 0;
      }
      SameFrame(f, buffered, Arriving(incoming));
      var data := Extract(f, length);
      r := Message(data);
    }

    /** The payload of the first frame, unmasked in the buffer if the framing masks. */
    method Extract(f: Framing, length: nat) returns (data: seq<Byte>)
      requires Valid() && HasFrame(f, receiveBuffer[..receivedLength])
      requires length == ServerLength(f, receiveBuffer[..receivedLength])
      modifies receiveBuffer
      ensures Valid() && data == ServerPayload(f, old(receiveBuffer[..receivedLength]))
      ensures ServerHeader(f) + length <= receivedLength
      ensures receiveBuffer[ServerHeader(f) + length..receivedLength]
           == old(receiveBuffer[..receivedLength])[ServerHeader(f) + length..]
    {
      hide Masked;
      var h := ServerHeader(f);
      Slices(receiveBuffer[..], receivedLength, h, h + length);
      if f.Ws? {
        Slices(receiveBuffer[..], receivedLength, 2, 6);
        Unmask(h, length);
      }
      data := receiveBuffer[h..h + length];
    }

    /** Combines the payload with the four bytes before it, from the first of them to the last and again. */
    method Unmask(at: nat, length: nat)
      requires Valid() && 4 <= at && at + length <= receivedLength
      modifies receiveBuffer
      ensures Valid() && receiveBuffer[..at] == old(receiveBuffer[..at])
      ensures receiveBuffer[at..at + length] == Masked(old(receiveBuffer[at..at + length]), old(receiveBuffer[at - 4..at]))
      ensures receiveBuffer[at + length..receivedLength] == old(receiveBuffer[at + length..receivedLength])
    {
      hide UnmaskedAt;
      ghost var before := receiveBuffer[..];
      var i, mask := 0, at - 4;
      UnmaskedNone(before, at);
      while i < length
        invariant 0 <= i <= length && mask == at - 4 + i % 4
        invariant forall j | 0 <= j < receiveBuffer.Length :: receiveBuffer[j] == UnmaskedAt(before, at, i, j)
      {
        UnmaskedMore(before, at, i);
        receiveBuffer[at + i] := Xor(receiveBuffer[at + i], receiveBuffer[mask]);
        i, mask := i + 1, mask + 1;
        if mask >= at {
          mask := mask - 4;
        }
      }
      UnmaskedAll(before, receiveBuffer[..], at, length, receivedLength);
    }

    /** jjs_debugger_transport_receive_completed: what follows the message moves to the start of the buffer. */
    method ReceiveCompleted(total: nat)
      requires Valid() && 1 <= total <= receivedLength
      modifies `receivedLength, receiveBuffer
      ensures Valid() && receivedLength == old(receivedLength) - total < BUFFER_SIZE
      ensures Incoming() == old(receiveBuffer[total..receivedLength]) + Arriving(incoming)
    {
      if total == receivedLength {
        receivedLength := 0;
        return;
      }
      ghost var tail := receiveBuffer[total..receivedLength];
      forall i | 0 <= i < receivedLength - total {
        receiveBuffer[i] := receiveBuffer[total + i];
      }
      receivedLength := receivedLength - total;
      assert receiveBuffer[..receivedLength] == tail;
    }
  }
}
