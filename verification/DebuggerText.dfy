/** Text from the server to the client: fragments, their framing, and how the client puts them together again. */
module DebuggerText {
  import opened Options
  import opened Frames
  import opened ClientChannel
  import opened ServerTransport

  const NO_SUBTYPE := 0
  const EVAL_RESULT := 23
  const EVAL_RESULT_END := 24
  const OUTPUT_RESULT := 26
  const OUTPUT_RESULT_END := 27

  // ----- The server's side -----

  /** The text with its subtype behind it, if it has one. */
  function Body(text: seq<Byte>, subtype: Byte): seq<Byte> {
    if subtype != NO_SUBTYPE then text + [subtype] else text
  }

  /** Fragments of a body: the last one has the next message type. */
  function Fragments(kind: Byte, body: seq<Byte>, limit: nat): seq<seq<Byte>>
    requires limit >= 1 && kind < 255
    decreases |body|
  {
    if |body| > limit then [[kind] + body[..limit]] + Fragments(kind, body[limit..], limit) else [[kind + 1] + body]
  }

  lemma {:induction false} FragmentsFit(layers: seq<Layer>, kind: Byte, body: seq<Byte>, limit: nat)
    requires limit >= 1 && kind < 255 && Takes(layers, limit + 1)
    ensures AllTaken(layers, Fragments(kind, body, limit))
    decreases |body|
  {
    hide Takes;
    if |body| > limit {
      FragmentsFit(layers, kind, body[limit..], limit);
    } else {
      TakesLess(layers, limit + 1, 1 + |body|);
    }
  }

  lemma FragmentStep(sent: seq<seq<Byte>>, kind: Byte, body: seq<Byte>, limit: nat)
    requires limit >= 1 && kind < 255
    ensures |body| > limit ==>
              sent + Fragments(kind, body, limit) == (sent + [[kind] + body[..limit]]) + Fragments(kind, body[limit..], limit)
    ensures |body| <= limit ==> sent + Fragments(kind, body, limit) == sent + [[kind + 1] + body]
    ensures |Fragments(kind, body, limit)| >= 1
  {}

  lemma BodyStep(rest: seq<Byte>, subtype: Byte, limit: nat)
    requires |Body(rest, subtype)| > limit
    ensures limit <= |rest| && Body(rest, subtype)[..limit] == rest[..limit]
    ensures Body(rest, subtype)[limit..] == Body(rest[limit..], subtype)
  {}

  /** The send buffer holds a message type and a text at the payload position. */
  method Put(t: Transport, text: seq<Byte>)
    requires t.Valid() && t.payload + 1 + |text| <= BUFFER_SIZE
    modifies t.sendBuffer
    ensures t.Valid()
    ensures t.sendBuffer[t.payload..t.payload + 1 + |text|] == [old(t.sendBuffer[t.payload])] + text
  {
    t.Copy(t.payload + 1, text);
  }

  /** Copies text behind the message type that is already in the buffer, and sends both. */
  method SendPart(t: Transport, text: seq<Byte>) returns (ok: bool)
    requires t.Valid() && t.layers != [] && 1 + |text| <= t.maxSend
    modifies t`budget, t`wire, t.sendBuffer
    ensures t.Valid() && t.sendBuffer[t.payload] == old(t.sendBuffer[t.payload])
    ensures Takes(t.layers, 1 + |text|)
    ensures t.wire == old(t.wire) + if ok then Wrapped(t.layers, [old(t.sendBuffer[t.payload])] + text) else []
    ensures (ok <==> old(t.budget) > 0) && t.budget == if ok then old(t.budget) - 1 else 0
  {
    hide Wrapped, Takes, Headers;
    ghost var kind := t.sendBuffer[t.payload];
    Put(t, text);
    label Stored:
    Kept(t.sendBuffer[t.payload..], kind, text, t.sendBuffer[t.payload..t.payload + 1 + |text|]);
    ok := t.Send(1 + |text|);
    assert t.sendBuffer[t.payload] == t.sendBuffer[t.payload..][0] == old@Stored(t.sendBuffer[t.payload..])[0];
  }

  /** The end of the text, and behind it the subtype if there is one. */
  method SendLast(t: Transport, kind: Byte, subtype: Byte, text: seq<Byte>) returns (ok: bool)
    requires t.Valid() && t.layers != [] && 1 + |Body(text, subtype)| <= t.maxSend
    modifies t`budget, t`wire, t.sendBuffer
    ensures t.Valid() && Takes(t.layers, 1 + |Body(text, subtype)|)
    ensures t.wire == old(t.wire) + if ok then Wrapped(t.layers, [kind] + Body(text, subtype)) else []
    ensures (ok <==> old(t.budget) > 0) && t.budget == if ok then old(t.budget) - 1 else 0
  {
    hide Wrapped, Takes, Headers, Body;
    BodyLength(text, subtype);
    t.sendBuffer[t.payload] := kind;
    Put(t, text);
    var length := 1 + |text|;
    ghost var put := t.sendBuffer[t.payload..t.payload + length];
    if subtype != NO_SUBTYPE {
      t.sendBuffer[t.payload + length] := subtype;
      length := length + 1;
    }
    assert t.sendBuffer[t.payload..t.payload + 1 + |text|] == put;
    LastFragment(t.sendBuffer[t.payload..t.payload + length], kind, text, subtype);
    ok := t.Send(length);
  }

  /** jjs_debugger_send_string. */
  method SendString(t: Transport, kind: Byte, subtype: Byte, text: seq<Byte>) returns (ok: bool)
    requires t.Valid() && t.layers != [] && t.maxSend >= 2 && kind < 255
    modifies t`budget, t`wire, t.sendBuffer
    ensures t.Valid() && AllTaken(t.layers, Fragments(kind, Body(text, subtype), t.maxSend - 1))
    ensures ok ==> t.wire == old(t.wire) + WrappedAll(t.layers, Fragments(kind, Body(text, subtype), t.maxSend - 1))
    ensures ok <==> old(t.budget) >= |Fragments(kind, Body(text, subtype), t.maxSend - 1)|
  {
    hide Wrapped, Takes, Headers, WrappedAll, AllTaken, Fragments, Body;
    var maxByteCount := t.maxSend - 1;
    t.sendBuffer[t.payload] := kind;
    var rest, length := text, |text|;
    if subtype != NO_SUBTYPE {
      length := length + 1;
    }
    BodyLength(rest, subtype);
    ghost var sent: seq<seq<Byte>> := [];
    ghost var whole := Fragments(kind, Body(text, subtype), maxByteCount);
    EnoughToTake(t);
    FragmentsFit(t.layers, kind, Body(text, subtype), maxByteCount);
    NoMessages(t.layers);
    while length > maxByteCount
      invariant t.Valid() && t.sendBuffer[t.payload] == kind
      invariant length == |Body(rest, subtype)|
      invariant sent + Fragments(kind, Body(rest, subtype), maxByteCount) == whole
      invariant AllTaken(t.layers, sent) && t.wire == old(t.wire) + WrappedAll(t.layers, sent)
      invariant old(t.budget) == t.budget + |sent|
    {
      FragmentStep(sent, kind, Body(rest, subtype), maxByteCount);
      BodyStep(rest, subtype, maxByteCount);
      ok := SendPart(t, rest[..maxByteCount]);
      if !ok {
        return;
      }
      OneMore(t.layers, sent, [kind] + rest[..maxByteCount]);
      sent := sent + [[kind] + rest[..maxByteCount]];
      length := length - maxByteCount;
      rest := rest[maxByteCount..];
    }
    FragmentStep(sent, kind, Body(rest, subtype), maxByteCount);
    ok := SendLast(t, kind + 1, subtype, rest);
    if ok {
      OneMore(t.layers, sent, [kind + 1] + Body(rest, subtype));
    }
  }

  lemma EnoughToTake(t: Transport)
    requires t.Valid() && t.maxSend >= 1
    ensures Takes(t.layers, t.maxSend - 1 + 1)
  {}

  lemma BodyLength(text: seq<Byte>, subtype: Byte)
    ensures |Body(text, subtype)| == |text| + if subtype != NO_SUBTYPE then 1 else 0
  {}

  lemma Kept(tail: seq<Byte>, kind: Byte, text: seq<Byte>, message: seq<Byte>)
    requires message == [kind] + text && |tail| >= |message| && tail[..|message|] == message
    ensures tail[0] == kind
  {
    assert tail[..|message|][0] == tail[0];
  }

  lemma LastFragment(message: seq<Byte>, kind: Byte, text: seq<Byte>, subtype: Byte)
    requires |message| == 1 + |Body(text, subtype)| && message[..1 + |text|] == [kind] + text
    requires subtype != NO_SUBTYPE ==> message[1 + |text|] == subtype
    ensures message == [kind] + Body(text, subtype)
  {
    assert message == message[..1 + |text|] + message[1 + |text|..];
  }

  // ----- The client's side -----

  predicate Ends(kind: Byte) { kind == EVAL_RESULT_END || kind == OUTPUT_RESULT_END }

  /** A text with its subtype and the number of messages it took, or an exception. */
  datatype Collected = Text(text: seq<Byte>, subtype: Byte, used: nat) | Failure

  /** The message is of the type or of the next one. */
  predicate OfKind(m: seq<Byte>, kind: int) {
    m != [] && (m[0] == kind || m[0] == kind + 1)
  }

  /** What the messages that start with type `kind` say: all of that type until the one of the next type. */
  ghost function Collect(kind: Byte, messages: seq<seq<Byte>>): Collected {
    if messages == [] || !OfKind(messages[0], kind) then Failure
    else
      var m := messages[0];
      if Ends(m[0]) then Text(Inner(m), m[|m| - 1], 1) else Before(m[1..], Collect(kind, messages[1..]))
  }

  /** data[1:-1] in Python. */
  function Inner(m: seq<Byte>): seq<Byte> {
    if |m| < 2 then [] else m[1..|m| - 1]
  }

  ghost function Before(text: seq<Byte>, c: Collected): Collected {
    if c.Text? then Text(text + c.text, c.subtype, c.used + 1) else Failure
  }

  ghost function BeforeAll(text: seq<Byte>, n: nat, c: Collected): Collected {
    if c.Text? then Text(text + c.text, c.subtype, c.used + n) else Failure
  }

  lemma Prepend(text: seq<Byte>, n: nat, more: seq<Byte>, c: Collected)
    ensures BeforeAll(text, n, Before(more, c)) == BeforeAll(text + more, n + 1, c)
    ensures BeforeAll([], 0, c) == c
  {
    if c.Text? {
      assert text + (more + c.text) == (text + more) + c.text;
      assert [] + c.text == c.text;
    }
  }

  lemma CollectStep(kind: Byte, data: seq<Byte>, later: seq<seq<Byte>>)
    requires data != []
    ensures OfKind(data, kind) && Ends(data[0]) ==>
              Collect(kind, [data] + later) == Text(Inner(data), data[|data| - 1], 1)
    ensures OfKind(data, kind) && !Ends(data[0]) ==>
              Collect(kind, [data] + later) == Before(data[1..], Collect(kind, later))
    ensures !OfKind(data, kind) ==> Collect(kind, [data] + later) == Failure
    ensures Collect(kind, []) == Failure
  {
    assert ([data] + later)[1..] == later;
  }

  /** The text and the subtype that arrived. None stands for an exception. */
  datatype Shown = Arrived(text: seq<Byte>, subtype: Byte) | Raised

  function AsShown(c: Collected): Shown {
    if c.Text? then Arrived(c.text, c.subtype) else Raised
  }

  /** _process_incoming_text up to the point where the text is complete. */
  method ProcessIncomingText(channel: Channel, first: seq<Byte>) returns (r: Shown)
    requires channel.Open() && first != []
    modifies channel.Objects()
    ensures var c := Collect(first[0], [first] + Messages(channel.Kind(), old(channel.Pending())));
            && r == AsShown(c)
            && (c.Text? ==> channel.Open() && c.used - 1 <= |Messages(channel.Kind(), old(channel.Pending()))|
                            && Messages(channel.Kind(), channel.Pending())
                            == Messages(channel.Kind(), old(channel.Pending()))[c.used - 1..])
  {
    hide Messages, Collect, First, Rest, Complete, Inner, Before, BeforeAll;
    var data, message: seq<Byte>, kind := first, [], first[0];
    ghost var pending := channel.Pending();
    ghost var taken: nat := 0;
    ghost var all := Messages(channel.Kind(), pending);
    Prepend([], 0, [], Collect(kind, [first] + all));
    while true
      invariant channel.Open() && OfKind(data, kind)
      invariant taken <= |all| && all[taken..] == Messages(channel.Kind(), channel.Pending())
      invariant Collect(kind, [first] + all) == BeforeAll(message, taken, Collect(kind, [data] + all[taken..]))
      decreases |channel.Pending()|
    {
      CollectStep(kind, data, all[taken..]);
      if Ends(data[0]) {
        BeforeText(message, taken, Inner(data), data[|data| - 1]);
        message := message + Inner(data);
        return Arrived(message, data[|data| - 1]);
      }
      Prepend(message, taken, data[1..], Collect(kind, all[taken..]));
      message := message + data[1..];
      ghost var before := channel.Pending();
      MessagesStep(channel.Kind(), before);
      AllNonEmpty(channel.Kind(), before);
      var next := channel.GetMessage(true);
      BeforeFailure(message, taken + 1);
      CollectStep(kind, data, []);
      if !next.Message? {
        return Raised;
      }
      assert all[taken..] == [next.data] + all[taken + 1..] by {
        assert all[taken..][0] == next.data && all[taken..][1..] == all[taken + 1..];
      }
      data := next.data;
      taken := taken + 1;
      CollectStep(kind, data, all[taken..]);
      if !OfKind(data, kind) {
        return Raised;
      }
    }
  }

  lemma BeforeText(text: seq<Byte>, n: nat, last: seq<Byte>, subtype: Byte)
    ensures BeforeAll(text, n, Text(last, subtype, 1)) == Text(text + last, subtype, n + 1)
  {}

  lemma BeforeIs(text: seq<Byte>, more: seq<Byte>, subtype: Byte, used: nat)
    ensures Before(text, Text(more, subtype, used)) == Text(text + more, subtype, used + 1)
  {}

  lemma BeforeFailure(text: seq<Byte>, n: nat)
    ensures BeforeAll(text, n, Failure) == Failure
  {}

  lemma AllNonEmpty(f: Framing, b: seq<Byte>)
    ensures Complete(f, b) ==> First(f, b).data != []
  {}

  lemma InnerOf(kind: Byte, text: seq<Byte>, subtype: Byte)
    ensures var m := [kind] + (text + [subtype]); Inner(m) == text && m[|m| - 1] == subtype
  {
    var m := [kind] + (text + [subtype]);
    assert m[1..|m| - 1] == text;
  }

  /** Collecting undoes fragmenting, whatever messages follow. */
  lemma {:induction false} CollectFragments(start: Byte, kind: Byte, text: seq<Byte>, subtype: Byte, limit: nat, later: seq<seq<Byte>>)
    requires limit >= 1 && (kind == EVAL_RESULT || kind == OUTPUT_RESULT)
    requires start == kind || (start == kind + 1 && |text| + 1 <= limit)
    ensures Collect(start, Fragments(kind, text + [subtype], limit) + later)
         == Text(text, subtype, |Fragments(kind, text + [subtype], limit)|)
    decreases |text|
  {
    hide Inner, Before;
    var body := text + [subtype];
    var all := Fragments(kind, body, limit) + later;
    if |body| > limit {
      var m := [kind] + body[..limit];
      assert body[limit..] == text[limit..] + [subtype] && body[..limit] == text[..limit];
      var more := Fragments(kind, body[limit..], limit) + later;
      assert all == [m] + more;
      CollectFragments(start, kind, text[limit..], subtype, limit, later);
      CollectStep(start, m, more);
      BeforeIs(m[1..], text[limit..], subtype, |Fragments(kind, body[limit..], limit)|);
      assert text == text[..limit] + text[limit..] && m[1..] == text[..limit];
    } else {
      var m := [kind + 1] + body;
      assert all == [m] + later;
      CollectStep(start, m, later);
      InnerOf(kind + 1, text, subtype);
    }
  }

  // ----- From one end to the other -----

  method Connect(f: Framing, budget: nat) returns (t: Transport)
    ensures fresh(t) && fresh(t.sendBuffer) && t.Valid() && t.layers == [Framed(f), Tcp] && t.wire == [] && t.budget == budget
    ensures t.maxSend == (if f.Raw? then 127 else 125) && t.maxReceive == if f.Raw? then 127 else 122
  {
    t := new Transport(budget);
    t.Add(Tcp);
    t.Add(Framed(f));
  }

  /** A text goes from the server through any framing and any cutting of the bytes to the client: it arrives as it was. */
  method EndToEnd(f: Framing, kind: Byte, subtype: Byte, text: seq<Byte>, budget: nat, sizes: seq<nat>) returns (sent: bool, r: Shown)
    requires (kind == EVAL_RESULT || kind == OUTPUT_RESULT) && subtype != NO_SUBTYPE
    ensures sent ==> r == Arrived(text, subtype)
    ensures budget > |text| ==> sent
  {
    hide Messages, First, Rest, Complete, Collect, Fragments, WrappedAll, AllTaken, Wrapped, Takes;
    var t := Connect(f, budget);
    sent := SendString(t, kind, subtype, text);
    ghost var limit := t.maxSend - 1;
    ghost var fragments := Fragments(kind, text + [subtype], limit);
    FewFragments(kind, text + [subtype], limit);
    if !sent {
      return false, Raised;
    }
    WrappedIsStream(f, fragments);
    assert [] + Stream(f, fragments) == Stream(f, fragments);
    var socket := new Socket(Cut(t.wire, sizes), []);
    var channel;
    if f.Raw? {
      var raw := new RawPacket(socket);
      channel := RawChannel(raw);
    } else {
      var ws := new WebSocket(socket);
      channel := WsChannel(ws);
    }
    Joined(t.wire, [], []);
    MessagesOfStream(f, fragments, []);
    NoMessagesIn(f);
    assert fragments + [] == fragments;
    MessagesStep(f, channel.Pending());
    AllNonEmpty(f, channel.Pending());
    var first := channel.GetMessage(true);
    FragmentStart(kind, text + [subtype], limit);
    assert fragments[0] == first.data;
    CollectFragments(first.data[0], kind, text, subtype, limit, []);
    r := ProcessIncomingText(channel, first.data);
  }

  lemma NoMessagesIn(f: Framing)
    ensures Messages(f, []) == []
  {}

  lemma FragmentStart(kind: Byte, body: seq<Byte>, limit: nat)
    requires limit >= 1 && kind < 255
    ensures var fragments := Fragments(kind, body, limit);
            fragments != [] && fragments[0] != [] && fragments[0][0] == if |body| > limit then kind else kind + 1
  {}

  lemma {:induction false} FewFragments(kind: Byte, body: seq<Byte>, limit: nat)
    requires limit >= 1 && kind < 255 && body != []
    ensures |Fragments(kind, body, limit)| <= |body|
    decreases |body|
  {
    if |body| > limit {
      FewFragments(kind, body[limit..], limit);
    }
  }
}
