/** Strings from the client to the server: an evaluated text or a source file, cut into messages and put together again. */
module ClientStrings {
  import opened Options
  import opened MachineWords
  import opened Frames
  import opened ClientChannel
  import opened ServerTransport
  import opened ServerReceiver
  import opened ServerMessages

  // ----- The frames of a run of messages -----

  const ZERO_KEY: seq<Byte> := [0, 0, 0, 0]

  ghost function ClientStream(f: Framing, messages: seq<seq<Byte>>): seq<Byte>
    requires forall m <- messages :: Sendable(f, m)
  {
    if messages == [] then [] else ClientFrame(f, messages[0], ZERO_KEY) + ClientStream(f, messages[1..])
  }

  lemma {:induction false} ClientStreamSnoc(f: Framing, messages: seq<seq<Byte>>, m: seq<Byte>)
    requires (forall n <- messages :: Sendable(f, n)) && Sendable(f, m)
    ensures forall n <- messages + [m] :: Sendable(f, n)
    ensures ClientStream(f, messages + [m]) == ClientStream(f, messages) + ClientFrame(f, m, ZERO_KEY)
    decreases |messages|
  {
    hide ClientFrame, Sendable;
    var all := messages + [m];
    if messages == [] {
      assert all[1..] == [];
      Joined(ClientFrame(f, m, ZERO_KEY), [], ClientFrame(f, m, ZERO_KEY));
    } else {
      ClientStreamSnoc(f, messages[1..], m);
      assert all[1..] == messages[1..] + [m];
    }
  }

  lemma {:induction false} XorZero(a: nat, n: nat)
    requires a < Power(n)
    ensures XorBits(a, 0, n) == a
  {
    if n > 0 {
      XorZero(a / 2, n - 1);
    }
  }

  /** A zero key leaves the bytes as they are. */
  lemma MaskedByZero(data: seq<Byte>)
    ensures Masked(data, ZERO_KEY) == data
  {
    forall i | 0 <= i < |data|
      ensures Masked(data, ZERO_KEY)[i] == data[i]
    {
      assert Power(4) == 16 && Power(8) == 256;
      XorZero(data[i], 8);
    }
  }

  /** What the channels write is the frame of the message behind the size byte. */
  method SendMessage(channel: Channel, message: seq<Byte>)
    requires Sendable(channel.Kind(), message)
    modifies channel.Objects()
    ensures channel.Protocol().sent == old(channel.Protocol().sent) + ClientFrame(channel.Kind(), message, ZERO_KEY)
  {
    hide Masked;
    var packed: seq<Byte> := [|message|] + message;
    if channel.RawChannel? {
      channel.raw.SendMessage(packed);
    } else {
      channel.ws.SendMessage(packed);
      MaskedByZero(message);
      assert packed[1..] == message;
      assert [BINARY_FRAME, MASK_BIT + packed[0], 0, 0, 0, 0] + message
          == [BINARY_FRAME, MASK_BIT + |message|] + ZERO_KEY + message;
    }
  }

  // ----- The messages of a string -----

  /** How many bytes the first n messages carry. */
  function Offset(size: nat, max: nat, n: nat): (r: nat)
    requires max > FIRST_HEADER
    ensures r <= size
  {
    if n == 0 then 0
    else if n == 1 then Min(max - FIRST_HEADER, size)
    else Min(Offset(size, max, n - 1) + (max - PART_HEADER), size)
  }

  lemma OffsetGrows(size: nat, max: nat, n: nat)
    requires max > FIRST_HEADER
    ensures Offset(size, max, n) <= Offset(size, max, n + 1)
    ensures Offset(size, max, n) < size ==> Offset(size, max, n) < Offset(size, max, n + 1)
  {}

  /** Message n: the first one announces the size of the whole. */
  function Packet(kind: Byte, args: seq<Byte>, max: nat, n: nat): (m: seq<Byte>)
    requires max > FIRST_HEADER && kind < 255 && |args| < 0x1_0000_0000
    ensures m != [] && |m| <= max
  {
    OffsetGrows(|args|, max, n);
    if n == 0 then [kind] + Bytes4(|args|) + args[..Offset(|args|, max, 1)]
    else [kind + 1] + args[Offset(|args|, max, n)..Offset(|args|, max, n + 1)]
  }

  function Packets(kind: Byte, args: seq<Byte>, max: nat, n: nat): (r: seq<seq<Byte>>)
    requires max > FIRST_HEADER && kind < 255 && |args| < 0x1_0000_0000
    ensures |r| == n && forall m <- r :: m != [] && |m| <= max
  {
    if n == 0 then [] else Packets(kind, args, max, n - 1) + [Packet(kind, args, max, n - 1)]
  }

  /** n is the number of messages that the string takes. */
  predicate Takes(size: nat, max: nat, n: nat)
    requires max > FIRST_HEADER
  {
    n >= 1 && Offset(size, max, n) == size && (n > 1 ==> Offset(size, max, n - 1) < size)
  }

  /** A client that had sent `before` has now also sent the first n messages of a string. */
  ghost predicate SentUpTo(f: Framing, kind: Byte, args: seq<Byte>, max: nat, n: nat, before: seq<Byte>, now: seq<Byte>)
    requires max > FIRST_HEADER && kind < 255 && |args| < 0x1_0000_0000
  {
    && (forall m <- Packets(kind, args, max, n) :: Sendable(f, m))
    && now == before + ClientStream(f, Packets(kind, args, max, n))
  }

  lemma SentFirst(f: Framing, kind: Byte, args: seq<Byte>, max: nat, before: seq<Byte>)
    requires FIRST_HEADER < max <= MaxLength(f) && kind < 255 && |args| < 0x1_0000_0000
    ensures var m := [kind] + Bytes4(|args|) + args[..Min(max - FIRST_HEADER, |args|)];
            Sendable(f, m) && SentUpTo(f, kind, args, max, 1, before, before + ClientFrame(f, m, ZERO_KEY))
    ensures Offset(|args|, max, 1) == Min(max - FIRST_HEADER, |args|)
  {
    hide ClientFrame, Bytes4;
    var m := Packet(kind, args, max, 0);
    var one: seq<seq<Byte>> := [m];
    FirstOfPackets(kind, args, max);
    assert one[1..] == [];
    assert ClientStream(f, one) == ClientFrame(f, m, ZERO_KEY) + ClientStream(f, one[1..]);
    Joined(ClientFrame(f, m, ZERO_KEY), [], []);
  }

  lemma FirstOfPackets(kind: Byte, args: seq<Byte>, max: nat)
    requires max > FIRST_HEADER && kind < 255 && |args| < 0x1_0000_0000
    ensures Packets(kind, args, max, 0) == [] && Packets(kind, args, max, 1) == [Packet(kind, args, max, 0)]
  {
    hide Packet;
    assert Packets(kind, args, max, 0) == [];
  }

  lemma NextPacket(kind: Byte, args: seq<Byte>, max: nat, n: nat)
    requires max > FIRST_HEADER && kind < 255 && |args| < 0x1_0000_0000 && n >= 1 && Offset(|args|, max, n) < |args|
    ensures Offset(|args|, max, n) < Offset(|args|, max, n + 1)
    ensures Offset(|args|, max, n + 1) == Offset(|args|, max, n) + Min(max - PART_HEADER, |args| - Offset(|args|, max, n))
    ensures Packet(kind, args, max, n) == [kind + 1] + args[Offset(|args|, max, n)..Offset(|args|, max, n + 1)]
  {
    OffsetGrows(|args|, max, n);
  }

  lemma SentMore(f: Framing, kind: Byte, args: seq<Byte>, max: nat, n: nat, before: seq<Byte>, now: seq<Byte>)
    requires FIRST_HEADER < max <= MaxLength(f) && kind < 255 && |args| < 0x1_0000_0000
    requires SentUpTo(f, kind, args, max, n, before, now)
    ensures Sendable(f, Packet(kind, args, max, n))
    ensures SentUpTo(f, kind, args, max, n + 1, before, now + ClientFrame(f, Packet(kind, args, max, n), ZERO_KEY))
  {
    hide ClientFrame, Packet, Offset;
    var packets, m := Packets(kind, args, max, n), Packet(kind, args, max, n);
    ClientStreamSnoc(f, packets, m);
    Joined(before, ClientStream(f, packets), ClientFrame(f, m, ZERO_KEY));
  }

  /** _send_string of the client. An evaluated text starts with the index of its scope. */
  method SendString(channel: Channel, max: nat, text: seq<Byte>, kind: Byte, index: nat) returns (ghost args: seq<Byte>, ghost n: nat)
    requires (kind == EVAL || kind == CLIENT_SOURCE) && FIRST_HEADER < max <= MaxLength(channel.Kind())
    requires index < 0x1_0000_0000 && |text| + 4 < 0x1_0000_0000
    modifies channel.Objects()
    ensures args == if kind == EVAL then Bytes4(index) + text else text
    ensures Takes(|args|, max, n)
    ensures SentUpTo(channel.Kind(), kind, args, max, n, old(channel.Protocol().sent), channel.Protocol().sent)
  {
    hide ClientFrame, Bytes4, SentUpTo, Offset, Sendable, Packet;
    var data := if kind == EVAL then Bytes4(index) + text else text;
    args := data;
    var size := |data|;
    var maxFragment := Min(max - FIRST_HEADER, size);
    ghost var f, sent := channel.Kind(), channel.Protocol().sent;
    n := 1;
    SentFirst(f, kind, args, max, sent);
    SendMessage(channel, [kind] + Bytes4(size) + data[..maxFragment]);
    if size == maxFragment {
      return;
    }
    var offset := maxFragment;
    var part: Byte := if kind == EVAL then EVAL_PART else CLIENT_SOURCE_PART;
    maxFragment := max - PART_HEADER;
    while offset < size
      invariant n >= 1 && offset == Offset(size, max, n)
      invariant n > 1 ==> Offset(size, max, n - 1) < size
      invariant SentUpTo(f, kind, args, max, n, sent, channel.Protocol().sent)
      decreases size - offset
    {
      SentMore(f, kind, args, max, n, sent, channel.Protocol().sent);
      NextPacket(kind, args, max, n);
      var nextFragment := Min(maxFragment, size - offset);
      var previous := offset;
      offset := offset + nextFragment;
      SendMessage(channel, [part] + data[previous..offset]);
      n := n + 1;
    }
  }

  // ----- What the server makes of them -----

  /** The messages processed one after another, up to a refusal. */
  ghost function Run(st: State, messages: seq<seq<Byte>>, max: nat, fails: seq<Byte> -> bool): (bool, State)
    requires max >= FIRST_HEADER
  {
    if messages == [] then (true, st)
    else
      var (ok, now) := Run(st, messages[..|messages| - 1], max, fails);
      var m := messages[|messages| - 1];
      if ok && Consistent(now) && m != [] then Process(now, m, max, fails) else (false, now)
  }

  lemma RunMore(st: State, messages: seq<seq<Byte>>, m: seq<Byte>, max: nat, fails: seq<Byte> -> bool)
    requires max >= FIRST_HEADER && m != [] && Run(st, messages, max, fails).0 && Consistent(Run(st, messages, max, fails).1)
    ensures Run(st, messages + [m], max, fails) == Process(Run(st, messages, max, fails).1, m, max, fails)
  {
    hide Process;
    assert (messages + [m])[..|messages|] == messages;
  }

  /** The server may take the string: evaluating needs breakpoint mode, a source is asked for. */
  predicate Accepts(st: State, kind: Byte, args: seq<Byte>) {
    && st.expected == 0
    && (kind == EVAL ==> st.flags.breakpointMode && |args| >= 5)
    && (kind == CLIENT_SOURCE ==> st.flags.clientSourceMode && |args| >= 1)
  }

  /** The string has arrived as a whole: it is evaluated, or it is the received source. */
  function Received(st: State, kind: Byte, args: seq<Byte>, fails: seq<Byte> -> bool): State
    requires kind == EVAL ==> |args| >= 5
  {
    if kind == EVAL then Evaluate(st, args, fails)
    else st.(data := Data(|args|, args), flags := st.flags.(clientSourceMode := false), resume := true)
  }

  /** The state when n of the messages of a string that takes more than one were processed. */
  function Arrived(st: State, kind: Byte, args: seq<Byte>, max: nat, n: nat, fails: seq<Byte> -> bool): State
    requires max > FIRST_HEADER && kind < 255 && (kind == EVAL ==> |args| >= 5)
  {
    var offset := Offset(|args|, max, n);
    if n == 0 then st
    else if offset < |args| then st.(data := Data(|args|, args[..offset]), expected := kind + 1)
    else Received(st.(data := Data(|args|, args)), kind, args, fails)
  }

  lemma OneMessage(st: State, kind: Byte, args: seq<Byte>, max: nat, fails: seq<Byte> -> bool)
    requires (kind == EVAL || kind == CLIENT_SOURCE) && max >= FIRST_HEADER + 5 && Accepts(st, kind, args)
    requires |args| < 0x1_0000_0000
    ensures var (ok, next) := Process(st, Packet(kind, args, max, 0), max, fails);
            && ok
            && (|args| <= max - FIRST_HEADER ==> next == Received(st, kind, args, fails))
            && (|args| > max - FIRST_HEADER ==> next == Arrived(st, kind, args, max, 1, fails))
  {
    hide Bytes4, Read4, Evaluate;
    var m := Packet(kind, args, max, 0);
    assert m[1..5] == Bytes4(|args|);
    SameField4(m, 1, Bytes4(|args|));
    var text := args[..Offset(|args|, max, 1)];
    assert m[FIRST_HEADER..] == text;
    if |args| <= max - FIRST_HEADER {
      assert text == args;
    }
  }

  lemma NextMessage(st: State, kind: Byte, args: seq<Byte>, max: nat, n: nat, fails: seq<Byte> -> bool)
    requires (kind == EVAL || kind == CLIENT_SOURCE) && max >= FIRST_HEADER + 5 && Accepts(st, kind, args)
    requires |args| < 0x1_0000_0000 && n >= 1 && Offset(|args|, max, n) < |args| && |args| > max - FIRST_HEADER
    ensures var before := Arrived(st, kind, args, max, n, fails);
            && Consistent(before)
            && Process(before, Packet(kind, args, max, n), max, fails) == (true, Arrived(st, kind, args, max, n + 1, fails))
  {
    hide Evaluate, Offset;
    OffsetGrows(|args|, max, n);
    PastFirst(|args|, max, n);
    var offset, next := Offset(|args|, max, n), Offset(|args|, max, n + 1);
    var m := Packet(kind, args, max, n);
    assert m[PART_HEADER..] == args[offset..next];
    assert args[..offset] + args[offset..next] == args[..next];
    if next == |args| {
      assert args[..next] == args;
      EvaluateLate(st.(data := Data(|args|, args)), args, kind + 1, fails);
    }
  }

  lemma EvaluateLate(st: State, text: seq<Byte>, expected: Byte, fails: seq<Byte> -> bool)
    requires st.expected == 0
    ensures |text| >= 5 ==> Evaluate(st.(expected := expected), text, fails).(expected := 0) == Evaluate(st, text, fails)
  {}

  lemma RunNone(st: State, max: nat, fails: seq<Byte> -> bool)
    requires max >= FIRST_HEADER
    ensures Run(st, [], max, fails) == (true, st)
  {}

  lemma AcceptsIsConsistent(st: State, kind: Byte, args: seq<Byte>)
    requires Accepts(st, kind, args)
    ensures Consistent(st)
  {}

  lemma OffsetOne(size: nat, max: nat)
    requires max > FIRST_HEADER
    ensures Offset(size, max, 1) == Min(max - FIRST_HEADER, size)
  {}

  lemma PastFirst(size: nat, max: nat, n: nat)
    requires max > FIRST_HEADER && size > max - FIRST_HEADER && n >= 1
    ensures Offset(size, max, n) >= 1
  {
    if n > 1 {
      PastFirst(size, max, n - 1);
    }
  }

  /** After any number of its messages the server holds just that much of the string. */
  lemma {:induction false} RunPackets(st: State, kind: Byte, args: seq<Byte>, max: nat, n: nat, fails: seq<Byte> -> bool)
    requires (kind == EVAL || kind == CLIENT_SOURCE) && max >= FIRST_HEADER + 5 && Accepts(st, kind, args)
    requires |args| < 0x1_0000_0000 && |args| > max - FIRST_HEADER && (n > 1 ==> Offset(|args|, max, n - 1) < |args|)
    ensures Run(st, Packets(kind, args, max, n), max, fails) == (true, Arrived(st, kind, args, max, n, fails))
  {
    hide Process, Packet, Offset, Received, Run, Accepts, Consistent;
    AcceptsIsConsistent(st, kind, args);
    if n == 0 {
      RunNone(st, max, fails);
    } else {
      if n > 2 {
        OffsetGrows(|args|, max, n - 2);
      }
      RunPackets(st, kind, args, max, n - 1, fails);
      OffsetOne(|args|, max);
      if n == 1 {
        OneMessage(st, kind, args, max, fails);
      } else {
        NextMessage(st, kind, args, max, n - 1, fails);
      }
      RunMore(st, Packets(kind, args, max, n - 1), Packet(kind, args, max, n - 1), max, fails);
    }
  }

  lemma {:induction false} OneIsEnough(size: nat, max: nat, n: nat)
    requires max > FIRST_HEADER && size <= max - FIRST_HEADER && Takes(size, max, n)
    ensures n == 1
  {
    FullFromOne(size, max, if n > 1 then n - 1 else 1);
  }

  lemma {:induction false} FullFromOne(size: nat, max: nat, n: nat)
    requires max > FIRST_HEADER && size <= max - FIRST_HEADER && n >= 1
    ensures Offset(size, max, n) == size
  {
    if n > 1 {
      FullFromOne(size, max, n - 1);
    }
  }

  /** However many messages the string takes, the server ends with exactly the original bytes. */
  lemma StringArrives(st: State, kind: Byte, args: seq<Byte>, max: nat, n: nat, fails: seq<Byte> -> bool)
    requires (kind == EVAL || kind == CLIENT_SOURCE) && max >= FIRST_HEADER + 5 && Accepts(st, kind, args)
    requires |args| < 0x1_0000_0000 && Takes(|args|, max, n)
    ensures var (ok, now) := Run(st, Packets(kind, args, max, n), max, fails);
            && ok && now.expected == 0
            && now.evaluated == Received(st, kind, args, fails).evaluated
            && now.flags == Received(st, kind, args, fails).flags
            && now.resume == Received(st, kind, args, fails).resume
            && (kind == CLIENT_SOURCE ==> now.data == Data(|args|, args))
  {
    hide Process, Packet, Run, Packets, Consistent;
    AcceptsIsConsistent(st, kind, args);
    OffsetOne(|args|, max);
    if |args| <= max - FIRST_HEADER {
      OneIsEnough(|args|, max, n);
      OneMessage(st, kind, args, max, fails);
      RunNone(st, max, fails);
      RunMore(st, [], Packet(kind, args, max, 0), max, fails);
      FirstOfPackets(kind, args, max);
      assert [] + [Packet(kind, args, max, 0)] == Packets(kind, args, max, 1);
    } else {
      RunPackets(st, kind, args, max, n, fails);
    }
  }

  // ----- The receiving loops -----

  /** The bytes that have not been processed are the frames of the messages from `used` on. */
  ghost predicate Ahead(s: Server, messages: seq<seq<Byte>>, used: nat)
    requires s.Valid()
    reads s, s.receiver, s.receiver.receiveBuffer
  {
    && used <= |messages|
    && (forall m <- messages :: Sendable(s.framing, m) && |m| <= s.maxReceive)
    && s.receiver.Incoming() == ClientStream(s.framing, messages[used..]) && s.receiver.receivedLength < BUFFER_SIZE
  }

  lemma NextFrame(f: Framing, messages: seq<seq<Byte>>, used: nat, max: nat)
    requires used <= |messages| && forall m <- messages :: Sendable(f, m) && |m| <= max
    requires max + ServerHeader(f) <= BUFFER_SIZE
    ensures var b := ClientStream(f, messages[used..]);
            && FirstFits(f, b)
            && (HasFrame(f, b) <==> used < |messages|)
            && (used < |messages| ==>
                  && ServerPayload(f, b) == messages[used]
                  && b[ServerTotal(f, b)..] == ClientStream(f, messages[used + 1..]))
  {
    hide ClientFrame, ServerPayload, ServerTotal, RefusedHeader;
    if used < |messages| {
      assert messages[used..][1..] == messages[used + 1..];
      ServerReadsFrame(f, messages[used], ZERO_KEY, ClientStream(f, messages[used + 1..]));
    }
  }

  lemma RunNext(st: State, messages: seq<seq<Byte>>, from: nat, used: nat, max: nat, fails: seq<Byte> -> bool)
    requires from <= used < |messages| && max >= FIRST_HEADER && messages[used] != []
    requires Run(st, messages[from..used], max, fails).0 && Consistent(Run(st, messages[from..used], max, fails).1)
    ensures Run(st, messages[from..used + 1], max, fails)
         == Process(Run(st, messages[from..used], max, fails).1, messages[used], max, fails)
  {
    hide Process, Run, Consistent;
    assert messages[from..used + 1] == messages[from..used] + [messages[used]];
    RunMore(st, messages[from..used], messages[used], max, fails);
  }

  datatype Progress = Idle | Processed | Refused

  /** One turn of the receiving loop: what has arrived is processed if it makes a message. */
  method Turn(s: Server, ghost messages: seq<seq<Byte>>, ghost used: nat) returns (p: Progress)
    requires s.Valid() && Ahead(s, messages, used)
    modifies s, s.receiver, s.receiver.receiveBuffer
    ensures s.Valid() || p == Refused
    ensures p == Idle ==>
              && s.Now() == old(s.Now()) && Ahead(s, messages, used)
              && (s.receiver.incoming == [] ==> used == |messages|)
    ensures p != Idle ==>
              && used < |messages| && messages[used] != []
              && Process(old(s.Now()), messages[used], s.maxReceive, s.fails) == (p == Processed, s.Now())
    ensures p == Processed ==> Ahead(s, messages, used + 1)
    ensures Left(s.receiver.incoming) <= Left(old(s.receiver.incoming))
    ensures if old(s.receiver.incoming) != [] then Left(s.receiver.incoming) < Left(old(s.receiver.incoming))
            else s.receiver.incoming == []
  {
    hide ClientStream, Process, FirstFits, HasFrame, ServerPayload, Arriving, Left, Consistent;
    NextFrame(s.framing, messages, used, s.maxReceive);
    var r, total := s.receiver.Receive(s.framing);
    EmptyIsLeft(s.receiver.incoming);
    if r == Nothing {
      return Idle;
    }
    assert messages[used] in messages && r.data == messages[used];
    ProcessKeeps(s.Now(), messages[used], s.maxReceive, s.fails);
    var ok := s.ProcessMessage(r.data);
    if !ok {
      return Refused;
    }
    s.receiver.ReceiveCompleted(total);
    p := Processed;
  }

  lemma EmptyIsLeft(events: seq<Event>)
    ensures events == [] ==> Left(events) == 0
  {}

  method Begin(s: Server, ghost messages: seq<seq<Byte>>, ghost from: nat)
    requires s.Valid() && Ahead(s, messages, from)
    modifies s`resume, s`expected
    ensures s.Valid() && Ahead(s, messages, from) && from <= |messages|
    ensures s.Now() == old(s.Now()).(expected := 0, resume := false)
  {
    s.resume, s.expected := false, 0;
  }

  /** jjs_debugger_receive: processes messages until nothing more has arrived and no part is awaited. Waiting for a part
      that never comes would not end; `starved` stands for it. */
  method Receive(s: Server, ghost messages: seq<seq<Byte>>, ghost from: nat)
    returns (resume: bool, starved: bool, ghost used: nat, ghost ok: bool)
    requires s.Valid() && Ahead(s, messages, from)
    modifies s, s.receiver, s.receiver.receiveBuffer
    ensures from <= used <= |messages|
    ensures Run(old(s.Now()).(expected := 0, resume := false), messages[from..used], s.maxReceive, s.fails) == (ok, s.Now())
    ensures !ok ==> resume
    ensures ok ==> s.Valid() && Ahead(s, messages, used) && resume == s.resume
    ensures ok ==> (if starved then used == |messages| else s.expected == 0)
    ensures ok && s.receiver.incoming == [] ==> used == |messages|
    ensures ok && old(s.receiver.incoming) != [] ==> Left(s.receiver.incoming) < Left(old(s.receiver.incoming))
    ensures old(s.receiver.incoming) == [] ==> s.receiver.incoming == []
  {
    hide Process, Run, Left, Ahead, Consistent;
    EmptyIsLeft(s.receiver.incoming);
    Begin(s, messages, from);
    ghost var start := s.Now();
    used, starved, ok := from, false, true;
    RunNone(start, s.maxReceive, s.fails);
    assert messages[from..from] == [];
    while true
      invariant s.Valid() && Ahead(s, messages, used) && from <= used <= |messages|
      invariant Run(start, messages[from..used], s.maxReceive, s.fails) == (true, s.Now())
      invariant Left(s.receiver.incoming) <= Left(old(s.receiver.incoming))
      invariant s.receiver.incoming == old(s.receiver.incoming) || Left(s.receiver.incoming) < Left(old(s.receiver.incoming))
      decreases Left(s.receiver.incoming) + |messages| - used
    {
      ghost var before := s.Now();
      var p := Turn(s, messages, used);
      match p {
        case Idle =>
          if s.expected == 0 {
            return s.resume, false, used, true;
          }
          if s.receiver.incoming == [] {
            return s.resume, true, used, true;
          }
        case _ =>
          RunNext(start, messages, from, used, s.maxReceive, s.fails);
          used := used + 1;
          if p == Refused {
            return true, false, used, false;
          }
      }
    }
  }

  // ----- The whole way -----

  /** A server with nothing buffered, and the bytes that a client's strings make on their way to it. */
  method Deliver(f: Framing, max: nat, text: seq<Byte>, kind: Byte, index: nat, limits: seq<nat>, sizes: seq<nat>,
                 flags: Flags, top: nat, fails: seq<Byte> -> bool)
    returns (s: Server, ghost args: seq<Byte>, ghost n: nat)
    requires kind == EVAL || kind == CLIENT_SOURCE
    requires FIRST_HEADER + 5 <= max && max + ServerHeader(f) <= BUFFER_SIZE && max <= MaxLength(f)
    requires index < 0x1_0000_0000 && |text| + 4 < 0x1_0000_0000
    ensures fresh(s) && fresh(s.receiver) && fresh(s.receiver.receiveBuffer) && s.Valid()
    ensures s.Now() == State(flags, top, NO_FRAME, 0, NoData, false, [], [], map[], []) && s.fails == fails && s.maxReceive == max
    ensures args == if kind == EVAL then Bytes4(index) + text else text
    ensures Takes(|args|, max, n) && Ahead(s, Packets(kind, args, max, n), 0)
  {
    hide Bytes4, Offset, ClientFrame;
    var socket := new Socket([], limits);
    var channel;
    if f.Raw? {
      var raw := new RawPacket(socket);
      channel := RawChannel(raw);
    } else {
      var ws := new WebSocket(socket);
      channel := WsChannel(ws);
    }
    args, n := SendString(channel, max, text, kind, index);
    s := new Server(f, max, flags, top, fails, Cut(socket.sent, sizes));
    ghost var packets := Packets(kind, args, max, n);
    Joined([], [], ClientStream(f, packets));
    assert packets[0..] == packets;
  }

  lemma {:induction false} PacketsPrefix(kind: Byte, args: seq<Byte>, max: nat, n: nat, k: nat)
    requires max > FIRST_HEADER && kind < 255 && |args| < 0x1_0000_0000 && k <= n
    ensures Packets(kind, args, max, n)[..k] == Packets(kind, args, max, k)
  {
    hide Packet;
    if k < n {
      PacketsPrefix(kind, args, max, n - 1, k);
    }
  }

  lemma {:induction false} OffsetMonotone(size: nat, max: nat, k: nat, n: nat)
    requires max > FIRST_HEADER && k <= n
    ensures Offset(size, max, k) <= Offset(size, max, n)
  {
    if k < n {
      OffsetMonotone(size, max, k, n - 1);
      OffsetGrows(size, max, n - 1);
    }
  }

  /** After some but not all messages of a string a part of it is awaited. */
  lemma Between(st: State, kind: Byte, args: seq<Byte>, max: nat, n: nat, k: nat, fails: seq<Byte> -> bool)
    requires (kind == EVAL || kind == CLIENT_SOURCE) && max >= FIRST_HEADER + 5 && Accepts(st, kind, args)
    requires |args| < 0x1_0000_0000 && Takes(|args|, max, n) && 0 < k < n
    ensures var (ok, now) := Run(st, Packets(kind, args, max, k), max, fails); ok && now.expected != 0
  {
    hide Process, Packet, Run, Offset, Received;
    OffsetOne(|args|, max);
    OffsetMonotone(|args|, max, k, n - 1);
    OffsetMonotone(|args|, max, k - 1, n - 1);
    OffsetMonotone(|args|, max, 1, k);
    RunPackets(st, kind, args, max, k, fails);
  }

  /** The server before the messages of a string, or after them. */
  ghost predicate Waiting(s: Server, kind: Byte, args: seq<Byte>, n: nat, done: bool)
    requires s.Valid() && (kind == EVAL || kind == CLIENT_SOURCE) && |args| < 0x1_0000_0000
    reads s, s.receiver, s.receiver.receiveBuffer
  {
    && Takes(|args|, s.maxReceive, n) && s.expected == 0
    && Ahead(s, Packets(kind, args, s.maxReceive, n), if done then n else 0)
    && (!done ==> Accepts(s.Now(), kind, args))
  }

  /** The string has arrived: it was evaluated, or it is the data of a source that is no longer asked for. */
  ghost predicate HasReceived(st: State, now: State, kind: Byte, args: seq<Byte>, fails: seq<Byte> -> bool)
    requires kind == EVAL ==> |args| >= 5
  {
    var want := Received(st.(resume := false), kind, args, fails);
    && now.evaluated == want.evaluated && now.flags == want.flags && now.resume == want.resume
    && (kind == CLIENT_SOURCE ==> now.data == Data(|args|, args))
  }

  /** One call of the receiving loop takes none of the messages of a string or all of them. */
  method ReceiveString(s: Server, ghost kind: Byte, ghost args: seq<Byte>, ghost n: nat, ghost before: bool)
    returns (resume: bool, ghost done: bool)
    requires s.Valid() && (kind == EVAL || kind == CLIENT_SOURCE) && |args| < 0x1_0000_0000 && (kind == EVAL ==> |args| >= 5)
    requires Waiting(s, kind, args, n, before)
    modifies s, s.receiver, s.receiver.receiveBuffer
    ensures s.Valid() && Waiting(s, kind, args, n, done)
    ensures before ==> done
    ensures resume == s.resume && s.expected == 0 && (old(s.receiver.incoming) == [] ==> done)
    ensures done == before ==> s.Now() == old(s.Now()).(resume := false)
    ensures done && !before ==> HasReceived(old(s.Now()), s.Now(), kind, args, s.fails)
    ensures old(s.receiver.incoming) != [] ==> Left(s.receiver.incoming) < Left(old(s.receiver.incoming))
  {
    hide Ahead, Takes, Packets, Run, Received, Left;
    ghost var packets := Packets(kind, args, s.maxReceive, n);
    ghost var start := s.Now().(expected := 0, resume := false);
    ghost var from := if before then n else 0;
    var starved;
    ghost var used, ok;
    resume, starved, used, ok := Receive(s, packets, from);
    PacketCount(kind, args, s.maxReceive, n);
    done := used == n;
    RunNone(start, s.maxReceive, s.fails);
    if used == from {
      assert packets[from..used] == [];
    } else {
      assert packets[0..used] == packets[..used];
      PacketsPrefix(kind, args, s.maxReceive, n, used);
      if used < n {
        Between(start, kind, args, s.maxReceive, n, used, s.fails);
        assert false;
      } else {
        StringArrives(start, kind, args, s.maxReceive, n, s.fails);
      }
    }
  }

  lemma PacketCount(kind: Byte, args: seq<Byte>, max: nat, n: nat)
    requires max > FIRST_HEADER && kind < 255 && |args| < 0x1_0000_0000
    ensures |Packets(kind, args, max, n)| == n && Packets(kind, args, max, 0) == []
    ensures Takes(|args|, max, n) ==> n >= 1
  {}

  lemma ReceivedText(st: State, args: seq<Byte>, fails: seq<Byte> -> bool)
    requires |args| >= 5
    ensures forall now | HasReceived(st, now, EVAL, args, fails) :: now.evaluated == st.evaluated + [args]
  {}

  /** The loop at a breakpoint, as long as something arrives: the text is evaluated once, with exactly its bytes. */
  method WaitAtBreakpoint(s: Server, ghost args: seq<Byte>, ghost n: nat)
    requires s.Valid() && |args| < 0x1_0000_0000 && |args| >= 5 && Waiting(s, EVAL, args, n, false)
    modifies s, s.receiver, s.receiver.receiveBuffer
    ensures s.Valid() && s.evaluated == old(s.evaluated) + [args] && s.expected == 0
  {
    hide Waiting, Left, HasReceived;
    ghost var done := false;
    var resume := false;
    while true
      invariant s.Valid() && Waiting(s, EVAL, args, n, done)
      invariant s.evaluated == old(s.evaluated) + if done then [args] else []
      decreases Left(s.receiver.incoming)
    {
      var nothing := s.receiver.incoming == [];
      ReceivedText(s.Now(), args, s.fails);
      resume, done := ReceiveString(s, EVAL, args, n, done);
      if resume || nothing {
        return;
      }
    }
  }

  // ----- Waiting for a source -----

  datatype Status = ReceiveFailed | SourceReceived(name: seq<Byte>, source: seq<Byte>) | SourceEnd | ContextReset

  /** strlen: the bytes before the first zero. */
  function NameLength(b: seq<Byte>): (n: nat)
    ensures n <= |b| && (0 in b ==> n < |b| && b[n] == 0 && 0 !in b[..n])
  {
    if b == [] || b[0] == 0 then 0
    else
      assert b[1..][..NameLength(b[1..])] == b[1..1 + NameLength(b[1..])];
      1 + NameLength(b[1..])
  }

  lemma NameOf(name: seq<Byte>, source: seq<Byte>)
    requires 0 !in name
    ensures NameLength(name + [0] + source) == |name|
  {
    var b := name + [0] + source;
    var n := NameLength(b);
    assert b[|name|] == 0;
    assert forall i | 0 <= i < |name| :: b[i] == name[i] && name[i] in name;
    assert forall i | 0 <= i < n :: b[i] == b[..n][i];
  }

  /** jjs_debugger_wait_for_client_source while a source arrives. The source is handed over exactly when neither of the
      flags that end the waiting is set already: the flag of an earlier end of the sources is never cleared. */
  method WaitForClientSource(s: Server, ghost args: seq<Byte>, ghost n: nat) returns (status: Status)
    requires s.Valid() && s.expected == 0 && 0 in args && |args| < 0x1_0000_0000 && Takes(|args|, s.maxReceive, n)
    requires Ahead(s, Packets(CLIENT_SOURCE, args, s.maxReceive, n), 0)
    modifies s, s.receiver, s.receiver.receiveBuffer
    ensures var flags := old(s.flags);
            status == if !flags.connected || flags.breakpointMode then ReceiveFailed
                      else if flags.contextReset then ContextReset
                      else if flags.clientNoSource then SourceEnd
                      else SourceReceived(args[..NameLength(args)], args[NameLength(args) + 1..])
    ensures s.flags == if status == ContextReset then old(s.flags).(contextReset := false, clientSourceMode := false)
                       else if status == ReceiveFailed then old(s.flags) else old(s.flags).(clientSourceMode := false)
  {
    hide Ahead, Takes, Packets, Left, Waiting;
    if !s.flags.connected || s.flags.breakpointMode {
      return ReceiveFailed;
    }
    Ask(s, args, n);
    ghost var start := s.Now();
    while true
      invariant s.Valid() && Waiting(s, CLIENT_SOURCE, args, n, false) && s.Now().(resume := start.resume) == start
      decreases Left(s.receiver.incoming)
    {
      ghost var done;
      var resume;
      resume, done := ReceiveString(s, CLIENT_SOURCE, args, n, false);
      if resume {
        if s.flags.contextReset {
          s.flags := s.flags.(contextReset := false);
          return ContextReset;
        }
        if s.flags.clientNoSource {
          s.flags := s.flags.(clientSourceMode := false);
          return SourceEnd;
        }
        var name := NameLength(s.data.bytes);
        return SourceReceived(s.data.bytes[..name], s.data.bytes[name + 1..]);
      }
    }
  }

  /** The engine asks for a source. */
  method Ask(s: Server, ghost args: seq<Byte>, ghost n: nat)
    requires s.Valid() && s.expected == 0 && 0 in args && |args| < 0x1_0000_0000 && Takes(|args|, s.maxReceive, n)
    requires Ahead(s, Packets(CLIENT_SOURCE, args, s.maxReceive, n), 0)
    modifies s`flags
    ensures s.flags == old(s.flags).(clientSourceMode := true)
    ensures s.Valid() && Waiting(s, CLIENT_SOURCE, args, n, false)
  {
    s.flags := s.flags.(clientSourceMode := true);
  }

  /** A text to evaluate goes from the client to the engine, however the socket takes it and the network cuts it. */
  method EndToEndEval(f: Framing, max: nat, evalKind: Byte, code: seq<Byte>, index: nat, limits: seq<nat>, sizes: seq<nat>,
                      flags: Flags, top: nat, fails: seq<Byte> -> bool)
    returns (evaluated: seq<seq<Byte>>)
    requires FIRST_HEADER + 5 <= max && max + ServerHeader(f) <= BUFFER_SIZE && max <= MaxLength(f)
    requires index < 0x1_0000_0000 && |code| + 5 < 0x1_0000_0000 && flags.breakpointMode
    ensures evaluated == [Bytes4(index) + [evalKind] + code]
  {
    hide Ahead, Takes, Packets, Bytes4;
    var s;
    ghost var args, n;
    s, args, n := Deliver(f, max, [evalKind] + code, EVAL, index, limits, sizes, flags, top, fails);
    assert args == Bytes4(index) + [evalKind] + code;
    assert Waiting(s, EVAL, args, n, false);
    WaitAtBreakpoint(s, args, n);
    evaluated := s.evaluated;
  }

  /** A source file goes from the client to the engine: it arrives with its own name and text. */
  method EndToEndSource(f: Framing, max: nat, path: seq<Byte>, source: seq<Byte>, limits: seq<nat>, sizes: seq<nat>,
                        flags: Flags, fails: seq<Byte> -> bool)
    returns (status: Status)
    requires FIRST_HEADER + 5 <= max && max + ServerHeader(f) <= BUFFER_SIZE && max <= MaxLength(f)
    requires |path| + |source| + 5 < 0x1_0000_0000 && 0 !in path
    requires flags.connected && !flags.breakpointMode && !flags.contextReset
    ensures status == if flags.clientNoSource then SourceEnd else SourceReceived(path, source)
  {
    hide Ahead, Takes, Packets, Bytes4;
    var s;
    ghost var args, n;
    var content := path + [0] + source;
    s, args, n := Deliver(f, max, content, CLIENT_SOURCE, 0, limits, sizes, flags, NO_FRAME, fails);
    assert content[|path|] == 0;
    NameOf(path, source);
    assert content[..|path|] == path && content[|path| + 1..] == source;
    status := WaitForClientSource(s, args, n);
  }

  /** A client that has ended its sources and sends one more: the second wait drops it. */
  method LateSourceIsDropped(fails: seq<Byte> -> bool) returns (ended: bool, status: Status)
    ensures ended && status == SourceEnd
  {
    var asking := CLOSED_FLAGS.(connected := true, clientSourceMode := true);
    var st := State(asking, NO_FRAME, NO_FRAME, 0, NoData, false, [], [], map[], []);
    var (ok, next) := Process(st, [NO_MORE_SOURCES], 100, fails);
    ended := ok && next.resume && next.flags.clientNoSource;
    status := EndToEndSource(Raw, 100, [97], [98], [], [], next.flags, fails);
  }
}
