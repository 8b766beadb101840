/** The scope-variable stream: a list of variables cut into messages at any byte, and read back by the client. */
module ScopeVariables {
  import opened Options
  import opened Frames
  import opened ClientChannel
  import opened ServerTransport
  import opened DebuggerText

  const SCOPE_VARIABLES := 30
  const SCOPE_VARIABLES_END := 31
  const VALUE_NONE := 1
  const VALUE_FUNCTION := 7
  const VALUE_ARRAY := 8
  const VALUE_OBJECT := 9
  const STRING_LIMIT := 255

  /** A variable with the type that the server finds for its value. */
  datatype Variable = Variable(name: seq<Byte>, kind: Byte, value: seq<Byte>)

  predicate ValidVariable(v: Variable) {
    VALUE_NONE < v.kind <= VALUE_OBJECT
  }

  function Shortened(s: seq<Byte>): (r: seq<Byte>)
    ensures |r| <= STRING_LIMIT
  {
    if |s| > STRING_LIMIT then s[..STRING_LIMIT] else s
  }

  /** A name or a value in the stream: its type unless it is a name, its length, its bytes. */
  function Field(kind: Byte, s: seq<Byte>): seq<Byte> {
    var text := if kind == VALUE_FUNCTION then [] else Shortened(s);
    (if kind != VALUE_NONE then [kind] else []) + [|text|] + text
  }

  function Encoded(vars: seq<Variable>): seq<Byte> {
    if vars == [] then [] else
      var last := vars[|vars| - 1];
      Encoded(vars[..|vars| - 1]) + Field(VALUE_NONE, last.name) + Field(last.kind, last.value)
  }

  // ----- What is sent and what is in the buffer when some bytes were written -----

  /** Messages that are out: a full message is sent only when another byte follows. */
  ghost function Out(body: seq<Byte>, limit: nat): seq<seq<Byte>>
    requires limit >= 1
    decreases |body|
  {
    if |body| > limit then [[SCOPE_VARIABLES] + body[..limit]] + Out(body[limit..], limit) else []
  }

  ghost function Kept(body: seq<Byte>, limit: nat): (r: seq<Byte>)
    requires limit >= 1
    ensures |r| <= limit
    decreases |body|
  {
    if |body| > limit then Kept(body[limit..], limit) else body
  }

  lemma {:induction false} OutAndKept(body: seq<Byte>, limit: nat)
    requires limit >= 1
    ensures Fragments(SCOPE_VARIABLES, body, limit) == Out(body, limit) + [[SCOPE_VARIABLES_END] + Kept(body, limit)]
    decreases |body|
  {
    if |body| > limit {
      OutAndKept(body[limit..], limit);
    }
  }

  /** More bytes that fit stay in the buffer. */
  lemma {:induction false} Fits(body: seq<Byte>, s: seq<Byte>, limit: nat)
    requires limit >= 1 && |Kept(body, limit)| + |s| <= limit
    ensures Out(body + s, limit) == Out(body, limit) && Kept(body + s, limit) == Kept(body, limit) + s
    decreases |body|
  {
    if |body| > limit {
      Fits(body[limit..], s, limit);
      assert (body + s)[limit..] == body[limit..] + s && (body + s)[..limit] == body[..limit];
    }
  }

  /** A full buffer goes out when more bytes come. */
  lemma {:induction false} Overflows(body: seq<Byte>, s: seq<Byte>, limit: nat)
    requires limit >= 1 && |Kept(body, limit)| == limit && 1 <= |s| <= limit
    ensures Out(body + s, limit) == Out(body, limit) + [[SCOPE_VARIABLES] + Kept(body, limit)] && Kept(body + s, limit) == s
    decreases |body|
  {
    assert (body + s)[limit..] == body[limit..] + s && (body + s)[..limit] == body[..limit];
    if |body| > limit {
      Overflows(body[limit..], s, limit);
    } else {
      assert body[limit..] + s == s;
    }
  }

  lemma {:induction false} OutTaken(layers: seq<Layer>, body: seq<Byte>, limit: nat)
    requires limit >= 1 && Takes(layers, limit + 1)
    ensures AllTaken(layers, Out(body, limit))
    decreases |body|
  {
    hide Takes;
    if |body| > limit {
      OutTaken(layers, body[limit..], limit);
    }
  }

  /** The transport after `body` was written: full messages are out, the rest is in the buffer. */
  ghost predicate Written(t: Transport, base: seq<Byte>, body: seq<Byte>, pos: nat)
    requires t.Valid() && t.maxSend >= 2
    reads t, t.sendBuffer
  {
    var limit := t.maxSend - 1;
    && AllTaken(t.layers, Out(body, limit)) && t.wire == base + WrappedAll(t.layers, Out(body, limit))
    && pos == |Kept(body, limit)| && t.sendBuffer[t.payload..t.payload + 1 + pos] == [SCOPE_VARIABLES] + Kept(body, limit)
  }

  /** The same after a full buffer was sent and before the next byte: the next bytes go to the start of the buffer. */
  ghost predicate Sent(t: Transport, base: seq<Byte>, body: seq<Byte>, pos: nat)
    requires t.Valid() && t.maxSend >= 2
    reads t, t.sendBuffer
  {
    var limit := t.maxSend - 1;
    var out := Out(body, limit) + [[SCOPE_VARIABLES] + Kept(body, limit)];
    && |Kept(body, limit)| == limit && pos == 0
    && AllTaken(t.layers, out) && t.wire == base + WrappedAll(t.layers, out)
    && t.sendBuffer[t.payload] == SCOPE_VARIABLES
  }

  method SendFull(t: Transport, ghost base: seq<Byte>, ghost body: seq<Byte>, pos: nat) returns (ok: bool)
    requires t.Valid() && t.layers != [] && t.maxSend >= 2 && Written(t, base, body, pos) && pos == t.maxSend - 1
    modifies t`budget, t`wire, t.sendBuffer
    ensures t.Valid() && (ok ==> Sent(t, base, body, 0))
    ensures (ok <==> old(t.budget) > 0) && t.budget == if ok then old(t.budget) - 1 else 0
  {
    hide Out, Kept, Wrapped, WrappedAll, Takes, AllTaken;
    ghost var limit := t.maxSend - 1;
    ghost var m := [SCOPE_VARIABLES] + Kept(body, limit);
    assert t.sendBuffer[t.payload..][0] == t.sendBuffer[t.payload..t.payload + 1 + pos][0] == SCOPE_VARIABLES;
    ok := t.Send(t.maxSend);
    assert t.sendBuffer[t.payload] == t.sendBuffer[t.payload..][0];
    if ok {
      OneMore(t.layers, Out(body, limit), m);
    }
  }

  /** Copies bytes to the position in the buffer; there is room for them. */
  method Append(t: Transport, ghost base: seq<Byte>, ghost body: seq<Byte>, pos: nat, s: seq<Byte>)
    requires t.Valid() && t.maxSend >= 2 && pos + |s| <= t.maxSend - 1
    requires Written(t, base, body, pos) || (Sent(t, base, body, pos) && s != [])
    modifies t.sendBuffer
    ensures t.Valid() && Written(t, base, body + s, pos + |s|)
  {
    hide Out, Kept, Wrapped, WrappedAll, Takes, AllTaken, Headers, Sent;
    ToAppend(t, base, body, pos, s);
    CopiedSlice(t.sendBuffer[..], t.payload, t.payload + 1 + pos, s);
    t.Copy(t.payload + 1 + pos, s);
  }

  /** What the next bytes complete. */
  lemma ToAppend(t: Transport, base: seq<Byte>, body: seq<Byte>, pos: nat, s: seq<Byte>)
    requires t.Valid() && t.maxSend >= 2 && pos + |s| <= t.maxSend - 1
    requires Written(t, base, body, pos) || (Sent(t, base, body, pos) && s != [])
    ensures var limit := t.maxSend - 1;
            && AllTaken(t.layers, Out(body + s, limit)) && t.wire == base + WrappedAll(t.layers, Out(body + s, limit))
            && |Kept(body + s, limit)| == pos + |s|
            && t.sendBuffer[t.payload..t.payload + 1 + pos] + s == [SCOPE_VARIABLES] + Kept(body + s, limit)
  {
    hide Out, Kept, Wrapped, WrappedAll, Takes, AllTaken, Headers;
    var limit := t.maxSend - 1;
    if Written(t, base, body, pos) {
      Fits(body, s, limit);
    } else {
      Overflows(body, s, limit);
      assert t.sendBuffer[t.payload..t.payload + 1] == [SCOPE_VARIABLES];
    }
  }

  lemma CopiedSlice(buffer: seq<Byte>, low: nat, at: nat, s: seq<Byte>)
    requires low <= at && at + |s| <= |buffer|
    ensures (buffer[..at] + s + buffer[at + |s|..])[low..at + |s|] == buffer[low..at] + s
  {}

  /** jjs_debugger_copy_variables_to_string_message. The position never passes the maximum: Written bounds it. */
  method CopyVariables(t: Transport, ghost base: seq<Byte>, ghost body: seq<Byte>, kind: Byte, text: seq<Byte>, pos0: nat)
    returns (ok: bool, pos: nat)
    requires t.Valid() && t.layers != [] && t.maxSend >= 2 && Written(t, base, body, pos0) && kind != 0
    modifies t`budget, t`wire, t.sendBuffer
    ensures t.Valid() && (ok ==> Written(t, base, body + Field(kind, text), pos))
    ensures old(t.budget) > |Field(kind, text)| ==> ok && old(t.budget) - t.budget <= |Field(kind, text)|
  {
    hide Written, Sent, Shortened;
    var max := t.maxSend - 1;
    pos := pos0;
    ghost var done := body;
    if kind != VALUE_NONE {
      ok, pos := PutByte(t, base, done, kind, pos);
      if !ok {
        return;
      }
      done := done + [kind];
    }
    var size := if kind == VALUE_FUNCTION then 0 else if |text| > STRING_LIMIT then STRING_LIMIT else |text|;
    ShortenedIs(text);
    ok, pos := PutByte(t, base, done, size, pos);
    if !ok {
      return;
    }
    done := done + [size];
    ok, pos := PutText(t, base, done, text[..size], pos);
    assert done + text[..size] == body + Field(kind, text);
  }

  lemma ShortenedIs(s: seq<Byte>)
    ensures Shortened(s) == s[..if |s| > STRING_LIMIT then STRING_LIMIT else |s|]
  {}

  lemma PositionFits(t: Transport, base: seq<Byte>, body: seq<Byte>, pos: nat)
    requires t.Valid() && t.maxSend >= 2 && Written(t, base, body, pos)
    ensures pos <= t.maxSend - 1
  {}

  /** One byte, after the buffer was sent if it is full. */
  method PutByte(t: Transport, ghost base: seq<Byte>, ghost body: seq<Byte>, b: Byte, pos0: nat) returns (ok: bool, pos: nat)
    requires t.Valid() && t.layers != [] && t.maxSend >= 2 && Written(t, base, body, pos0)
    modifies t`budget, t`wire, t.sendBuffer
    ensures t.Valid() && (ok ==> Written(t, base, body + [b], pos))
    ensures old(t.budget) > 0 ==> ok && old(t.budget) - t.budget <= 1
  {
    hide Out, Kept, Wrapped, WrappedAll, Takes, AllTaken;
    pos, ok := pos0, true;
    PositionFits(t, base, body, pos);
    if pos == t.maxSend - 1 {
      ok := SendFull(t, base, body, pos);
      if !ok {
        return;
      }
      pos := 0;
    }
    Append(t, base, body, pos, [b]);
    pos := pos + 1;
  }

  method FillAndSend(t: Transport, ghost base: seq<Byte>, ghost body: seq<Byte>, pos: nat, s: seq<Byte>) returns (ok: bool)
    requires t.Valid() && t.layers != [] && t.maxSend >= 2 && pos + |s| == t.maxSend - 1
    requires Written(t, base, body, pos) || (Sent(t, base, body, pos) && s != [])
    modifies t`budget, t`wire, t.sendBuffer
    ensures t.Valid() && (ok ==> Sent(t, base, body + s, 0))
    ensures (ok <==> old(t.budget) > 0) && t.budget == if ok then old(t.budget) - 1 else 0
  {
    Append(t, base, body, pos, s);
    ok := SendFull(t, base, body + s, t.maxSend - 1);
  }

  /** The bytes of a string, in as many messages as they need. */
  method PutText(t: Transport, ghost base: seq<Byte>, ghost body: seq<Byte>, text: seq<Byte>, pos0: nat) returns (ok: bool, pos: nat)
    requires t.Valid() && t.layers != [] && t.maxSend >= 2 && Written(t, base, body, pos0)
    modifies t`budget, t`wire, t.sendBuffer
    ensures t.Valid() && (ok ==> Written(t, base, body + text, pos))
    ensures old(t.budget) > |text| ==> ok && old(t.budget) - t.budget <= |text|
  {
    hide Written, Sent, Wrapped, WrappedAll, Takes, AllTaken;
    ok, pos := true, pos0;
    var max := t.maxSend - 1;
    var rest := text;
    PositionFits(t, base, body, pos);
    ghost var done := body;
    assert done + rest == body + text;
    while |rest| > max - pos
      invariant t.Valid() && t.layers != [] && pos <= max == t.maxSend - 1
      invariant Written(t, base, done, pos) || (pos == 0 && Sent(t, base, done, pos) && rest != [])
      invariant done + rest == body + text
      invariant (old(t.budget) == t.budget || rest != [])
      invariant old(t.budget) - t.budget <= |text| - |rest| + (if pos == 0 then 1 else 0)
      decreases |rest|, pos
    {
      var free := max - pos;
      ok := FillAndSend(t, base, done, pos, rest[..free]);
      SameText(done, rest, free);
      done := done + rest[..free];
      rest := rest[free..];
      if !ok {
        return;
      }
      pos := 0;
    }
    Append(t, base, done, pos, rest);
    pos := pos + |rest|;
  }

  lemma SameText(done: seq<Byte>, rest: seq<Byte>, n: nat)
    requires n <= |rest|
    ensures (done + rest[..n]) + rest[n..] == done + rest
  {
    assert rest == rest[..n] + rest[n..];
  }

  /** The loop of jjs_debugger_send_scope_variables over the variables of one scope. */
  method SendScopeVariables(t: Transport, vars: seq<Variable>) returns (ok: bool)
    requires t.Valid() && t.layers != [] && t.maxSend >= 2 && forall v <- vars :: ValidVariable(v)
    modifies t`budget, t`wire, t.sendBuffer
    ensures t.Valid() && AllTaken(t.layers, Fragments(SCOPE_VARIABLES, Encoded(vars), t.maxSend - 1))
    ensures ok ==> t.wire == old(t.wire) + WrappedAll(t.layers, Fragments(SCOPE_VARIABLES, Encoded(vars), t.maxSend - 1))
    ensures old(t.budget) > |Encoded(vars)| ==> ok
  {
    hide Field, Wrapped, WrappedAll, Takes, AllTaken, Fragments, Encoded, Out, Written;
    ghost var base := t.wire;
    t.sendBuffer[t.payload] := SCOPE_VARIABLES;
    var pos := 0;
    EnoughToTake(t);
    FragmentsFit(t.layers, SCOPE_VARIABLES, Encoded(vars), t.maxSend - 1);
    NothingWritten(t);
    NoVariables();
    for i := 0 to |vars|
      invariant t.Valid() && Written(t, base, Encoded(vars[..i]), pos)
      invariant old(t.budget) > |Encoded(vars)| ==> old(t.budget) - t.budget <= |Encoded(vars[..i])|
    {
      EncodedStep(vars, i);
      assert ValidVariable(vars[i]) by { assert vars[i] in vars; }
      ghost var body := Encoded(vars[..i]);
      ok, pos := CopyVariables(t, base, body, VALUE_NONE, vars[i].name, pos);
      if !ok {
        return;
      }
      ok, pos := CopyVariables(t, base, body + Field(VALUE_NONE, vars[i].name), vars[i].kind, vars[i].value, pos);
      if !ok {
        return;
      }
    }
    assert vars[..|vars|] == vars;
    ok := SendEnd(t, base, Encoded(vars), pos);
  }

  lemma NoVariables()
    ensures Encoded([]) == []
  {}

  lemma NothingWritten(t: Transport)
    requires t.Valid() && t.maxSend >= 2 && t.sendBuffer[t.payload] == SCOPE_VARIABLES
    ensures Written(t, t.wire, [], 0)
  {
    hide Wrapped;
    assert t.sendBuffer[t.payload..t.payload + 1] == [SCOPE_VARIABLES];
  }

  lemma EncodedStep(vars: seq<Variable>, i: nat)
    requires i < |vars|
    ensures Encoded(vars[..i + 1]) == Encoded(vars[..i]) + Field(VALUE_NONE, vars[i].name) + Field(vars[i].kind, vars[i].value)
    ensures |Encoded(vars[..i + 1])| <= |Encoded(vars)|
  {
    hide Field;
    assert vars[..i + 1][..i] == vars[..i];
    EncodedGrows(vars, i + 1);
  }

  lemma {:induction false} EncodedGrows(vars: seq<Variable>, i: nat)
    requires i <= |vars|
    ensures |Encoded(vars[..i])| <= |Encoded(vars)|
    decreases |vars|
  {
    hide Field;
    if i < |vars| {
      EncodedGrows(vars[..|vars| - 1], i);
      assert vars[..|vars| - 1][..i] == vars[..i];
    } else {
      assert vars[..i] == vars;
    }
  }

  lemma FirstReplaced(buffer: seq<Byte>, low: nat, high: nat, b: Byte)
    requires low < high <= |buffer|
    ensures buffer[low := b][low..high] == [b] + buffer[low..high][1..]
  {}

  method SendEnd(t: Transport, ghost base: seq<Byte>, ghost body: seq<Byte>, pos: nat) returns (ok: bool)
    requires t.Valid() && t.layers != [] && t.maxSend >= 2 && Written(t, base, body, pos)
    modifies t`budget, t`wire, t.sendBuffer
    ensures t.Valid() && AllTaken(t.layers, Fragments(SCOPE_VARIABLES, body, t.maxSend - 1))
    ensures ok ==> t.wire == base + WrappedAll(t.layers, Fragments(SCOPE_VARIABLES, body, t.maxSend - 1))
    ensures ok <==> old(t.budget) > 0
  {
    hide Out, Kept, Wrapped, WrappedAll, Takes, AllTaken, Fragments, Headers;
    ghost var limit := t.maxSend - 1;
    OutAndKept(body, limit);
    FirstReplaced(t.sendBuffer[..], t.payload, t.payload + 1 + pos, SCOPE_VARIABLES_END);
    assert t.sendBuffer[t.payload..t.payload + 1 + pos][1..] == Kept(body, limit);
    t.sendBuffer[t.payload] := SCOPE_VARIABLES_END;
    EnoughToTake(t);
    FragmentsFit(t.layers, SCOPE_VARIABLES, body, limit);
    ok := t.Send(1 + pos);
    if ok {
      OneMore(t.layers, Out(body, limit), [SCOPE_VARIABLES_END] + Kept(body, limit));
    }
  }

  // ----- The client's side -----

  /** A line of the table that the client shows. */
  datatype Row = Row(name: seq<Byte>, kind: Byte, value: seq<Byte>)

  function Bracketed(kind: Byte, value: seq<Byte>): seq<Byte> {
    if kind == VALUE_ARRAY then ['[' as int] + value + [']' as int] else value
  }

  function RowOf(v: Variable): Row {
    Row(Shortened(v.name), v.kind, Bracketed(v.kind, if v.kind == VALUE_FUNCTION then [] else Shortened(v.value)))
  }

  /** A row shows a variable: its name and its value cut to 255 bytes, no value for a function, brackets around an array. */
  predicate Shows(row: Row, v: Variable) {
    && row.kind == v.kind && row.name == Cut255(v.name)
    && (v.kind == VALUE_FUNCTION ==> row.value == [])
    && (v.kind == VALUE_ARRAY ==> row.value == [0x5B] + Cut255(v.value) + [0x5D])
    && (v.kind != VALUE_FUNCTION && v.kind != VALUE_ARRAY ==> row.value == Cut255(v.value))
  }

  lemma RowIs(v: Variable)
    requires ValidVariable(v)
    ensures Shows(RowOf(v), v)
  {
    assert '[' as int == 0x5B && ']' as int == 0x5D;
  }

  /** At most the first 255 bytes. */
  function Cut255(s: seq<Byte>): seq<Byte> { if |s| < 255 then s else s[..255] }

  datatype Rows = Table(rows: seq<Row>) | Broken

  /** A slice of a Python string never fails: it ends where the string ends. */
  function Slice(s: seq<Byte>, start: nat, end: nat): seq<Byte>
    requires start <= end
  {
    if start >= |s| then [] else if end >= |s| then s[start..] else s[start..end]
  }

  /** A variable read from the stream, and where the next one starts. */
  datatype Read = Read(name: seq<Byte>, kind: Byte, value: seq<Byte>, next: nat) | Unreadable

  function ReadAt(b: seq<Byte>, pos: nat): (r: Read)
    ensures r.Read? ==> pos < r.next
  {
    if pos >= |b| then Unreadable
    else
      var typeAt := pos + 1 + b[pos];
      if typeAt + 1 >= |b| then Unreadable
      else
        var next := typeAt + 2 + b[typeAt + 1];
        Read(Slice(b, pos + 1, typeAt), b[typeAt], Slice(b, typeAt + 2, next), next)
  }

  /** The client has no line for a type that it does not know. */
  function RowsOfRead(r: Read): seq<Row>
    requires r.Read?
  {
    if VALUE_NONE < r.kind <= VALUE_OBJECT then [Row(r.name, r.kind, Bracketed(r.kind, r.value))] else []
  }

  /** Rows for the rest of the stream. */
  ghost function RowsFrom(b: seq<Byte>, pos: nat): Rows
    decreases |b| - pos
  {
    if pos == |b| then Table([])
    else if ReadAt(b, pos).Unreadable? then Broken
    else With(RowsOfRead(ReadAt(b, pos)), RowsFrom(b, ReadAt(b, pos).next))
  }

  /** _process_scope_variables. */
  method ProcessScopeVariables(b: seq<Byte>) returns (r: Rows)
    ensures r == RowsFrom(b, 0)
  {
    hide RowsFrom;
    var pos, rows: seq<Row> := 0, [];
    AddRows([], RowsFrom(b, 0));
    while pos != |b|
      invariant RowsFrom(b, 0) == With(rows, RowsFrom(b, pos))
      decreases |b| - pos
    {
      ghost var read := ReadAt(b, pos);
      RowsStep(b, pos);
      if pos >= |b| {
        return Broken;
      }
      var nameLength := b[pos];
      pos := pos + 1;
      var name := Slice(b, pos, pos + nameLength);
      pos := pos + nameLength;
      if pos >= |b| {
        return Broken;
      }
      var kind := b[pos];
      pos := pos + 1;
      if pos >= |b| {
        return Broken;
      }
      var valueLength := b[pos];
      pos := pos + 1;
      var value := Slice(b, pos, pos + valueLength);
      pos := pos + valueLength;
      assert read == Read(name, kind, value, pos);
      AddMore(rows, RowsOfRead(read), RowsFrom(b, pos));
      if VALUE_NONE < kind <= VALUE_OBJECT {
        rows := rows + [Row(name, kind, Bracketed(kind, value))];
      } else {
        assert rows + [] == rows;
      }
    }
    AtTheEnd(b);
    AddRows(rows, Table([]));
    r := Table(rows);
  }

  lemma RowsStep(b: seq<Byte>, pos: nat)
    requires pos != |b|
    ensures RowsFrom(b, pos) == var r := ReadAt(b, pos); if r.Unreadable? then Broken else With(RowsOfRead(r), RowsFrom(b, r.next))
  {}

  ghost function With(rows: seq<Row>, more: Rows): Rows {
    if more.Broken? then Broken else Table(rows + more.rows)
  }

  lemma AddRows(rows: seq<Row>, more: Rows)
    ensures With([], more) == more
    ensures With(rows, Table([])) == Table(rows)
  {
    if more.Table? {
      assert [] + more.rows == more.rows;
    }
    assert rows + [] == rows;
  }

  lemma AddMore(rows: seq<Row>, some: seq<Row>, more: Rows)
    ensures With(rows, With(some, more)) == With(rows + some, more)
  {
    if more.Table? {
      assert rows + (some + more.rows) == (rows + some) + more.rows;
    }
  }

  function RowsOf(vars: seq<Variable>): (r: seq<Row>)
    ensures |r| == |vars|
  {
    seq(|vars|, i requires 0 <= i < |vars| => RowOf(vars[i]))
  }

  lemma Unfold(b: seq<Byte>, pos: nat, name: seq<Byte>, kind: Byte, value: seq<Byte>)
    requires pos + |name| + |value| + 3 <= |b|
    requires b[pos] == |name| && b[pos + 1..pos + 1 + |name|] == name
    requires b[pos + 1 + |name|] == kind && b[pos + 2 + |name|] == |value|
    requires b[pos + 3 + |name|..pos + 3 + |name| + |value|] == value
    ensures ReadAt(b, pos) == Read(name, kind, value, pos + 3 + |name| + |value|)
  {
    assert Slice(b, pos + 1, pos + 1 + |name|) == name;
    assert Slice(b, pos + 3 + |name|, pos + 3 + |name| + |value|) == value;
  }

  lemma Parts(before: seq<Byte>, name: seq<Byte>, kind: Byte, value: seq<Byte>, after: seq<Byte>)
    requires |name| <= STRING_LIMIT && |value| <= STRING_LIMIT
    ensures var b, pos := before + ([|name|] + name) + ([kind] + [|value|] + value) + after, |before|;
            && |b| == pos + |name| + |value| + 3 + |after|
            && b[pos] == |name| && b[pos + 1..pos + 1 + |name|] == name
            && b[pos + 1 + |name|] == kind && b[pos + 2 + |name|] == |value|
            && b[pos + 3 + |name|..pos + 3 + |name| + |value|] == value
  {}

  /** A row that stands in the stream is read. */
  lemma ReadRow(before: seq<Byte>, name: seq<Byte>, kind: Byte, value: seq<Byte>, after: seq<Byte>)
    requires |name| <= STRING_LIMIT && |value| <= STRING_LIMIT
    ensures var b := before + ([|name|] + name) + ([kind] + [|value|] + value) + after;
            && |before| <= |b| - |after|
            && RowsFrom(b, |before|) == With(RowsOfRead(Read(name, kind, value, |b| - |after|)), RowsFrom(b, |b| - |after|))
  {
    hide RowsOfRead, RowsFrom, ReadAt, With;
    var b := before + ([|name|] + name) + ([kind] + [|value|] + value) + after;
    Parts(before, name, kind, value, after);
    Unfold(b, |before|, name, kind, value);
    RowsStep(b, |before|);
  }

  lemma FieldOf(v: Variable)
    requires ValidVariable(v)
    ensures |Shortened(v.name)| <= STRING_LIMIT && |Shortened(v.value)| <= STRING_LIMIT
    ensures Field(VALUE_NONE, v.name) == [|Shortened(v.name)|] + Shortened(v.name)
    ensures var value := if v.kind == VALUE_FUNCTION then [] else Shortened(v.value);
            && Field(v.kind, v.value) == [v.kind] + [|value|] + value
            && forall next: nat :: RowsOfRead(Read(Shortened(v.name), v.kind, value, next)) == [RowOf(v)]
  {
    hide Shortened;
  }

  /** One variable in the stream is one row. */
  lemma OneRow(before: seq<Byte>, v: Variable, after: seq<Byte>)
    requires ValidVariable(v)
    ensures var b := before + Field(VALUE_NONE, v.name) + Field(v.kind, v.value) + after;
            RowsFrom(b, |before|) == With([RowOf(v)], RowsFrom(b, |b| - |after|))
  {
    hide Shortened, RowsFrom, Field, RowsOfRead, RowOf;
    FieldOf(v);
    var name, value := Shortened(v.name), if v.kind == VALUE_FUNCTION then [] else Shortened(v.value);
    ReadRow(before, name, v.kind, value, after);
  }

  /** Reading undoes writing, from any variable on. */
  lemma {:induction false} RowsOfEncoded(vars: seq<Variable>, i: nat)
    requires i <= |vars| && forall v <- vars :: ValidVariable(v)
    ensures |Encoded(vars[..i])| <= |Encoded(vars)|
    ensures RowsFrom(Encoded(vars), |Encoded(vars[..i])|) == Table(RowsOf(vars)[i..])
    decreases |vars| - i
  {
    hide Field, RowOf, RowsFrom;
    EncodedGrows(vars, i);
    if i == |vars| {
      assert vars[..i] == vars;
      AtTheEnd(Encoded(vars));
    } else {
      RowsOfEncoded(vars, i + 1);
      EncodedStep(vars, i);
      EncodedPrefix(vars, i + 1);
      var after := Encoded(vars)[|Encoded(vars[..i + 1])|..];
      assert Encoded(vars) == Encoded(vars[..i + 1]) + after;
      OneRow(Encoded(vars[..i]), vars[i], after);
      assert RowsOf(vars)[i..] == [RowOf(vars[i])] + RowsOf(vars)[i + 1..];
    }
  }

  lemma AtTheEnd(b: seq<Byte>)
    ensures RowsFrom(b, |b|) == Table([])
  {}

  lemma {:induction false} EncodedPrefix(vars: seq<Variable>, i: nat)
    requires i <= |vars|
    ensures Encoded(vars[..i]) <= Encoded(vars)
    decreases |vars|
  {
    hide Field;
    if i < |vars| {
      EncodedPrefix(vars[..|vars| - 1], i);
      assert vars[..|vars| - 1][..i] == vars[..i];
    } else {
      assert vars[..i] == vars;
    }
  }

  /** The payloads of the fragments, one after another, are what was cut into them. */
  lemma {:induction false} PayloadsJoin(kind: Byte, body: seq<Byte>, limit: nat)
    requires limit >= 1 && kind < 255
    ensures Payloads(Fragments(kind, body, limit)) == body
    decreases |body|
  {
    var all := Fragments(kind, body, limit);
    if |body| > limit {
      PayloadsJoin(kind, body[limit..], limit);
      assert all[1..] == Fragments(kind, body[limit..], limit);
      assert all[0][1..] == body[..limit];
    } else {
      assert all[1..] == [] && all[0][1..] == body;
    }
  }

  ghost function Payloads(messages: seq<seq<Byte>>): seq<Byte> {
    if messages == [] then [] else (if messages[0] == [] then [] else messages[0][1..]) + Payloads(messages[1..])
  }

  lemma FragmentShape(kind: Byte, body: seq<Byte>, limit: nat)
    requires limit >= 1 && kind < 255
    ensures var all := Fragments(kind, body, limit);
            && all != [] && all[0] != []
            && (|body| > limit ==> all[0][0] == kind && all[1..] == Fragments(kind, body[limit..], limit)
                                   && all[0][1..] == body[..limit])
            && (|body| <= limit ==> all[0][0] == kind + 1 && all[1..] == [] && all[0][1..] == body)
  {}

  /** The client's reaction to the messages of the stream: it collects payloads until the last one. None of them may be
      missing, so a stream that ends early gives nothing. */
  method ReceiveScopeVariables(channel: Channel, ghost body: seq<Byte>, ghost limit: nat) returns (r: Rows)
    requires channel.Open() && limit >= 1
    requires Messages(channel.Kind(), channel.Pending()) == Fragments(SCOPE_VARIABLES, body, limit)
    modifies channel.Objects()
    ensures r == RowsFrom(body, 0)
  {
    hide Messages, First, Rest, Complete, Fragments, RowsFrom;
    var scopeVars: seq<Byte> := [];
    ghost var left := body;
    while true
      invariant channel.Open()
      invariant Messages(channel.Kind(), channel.Pending()) == Fragments(SCOPE_VARIABLES, left, limit)
      invariant scopeVars + left == body
      decreases |left|
    {
      FragmentShape(SCOPE_VARIABLES, left, limit);
      MessagesStep(channel.Kind(), channel.Pending());
      var next := channel.GetMessage(true);
      var data := next.data;
      scopeVars := scopeVars + data[1..];
      if data[0] == SCOPE_VARIABLES_END {
        break;
      }
      left := left[limit..];
    }
    r := ProcessScopeVariables(scopeVars);
  }

  /** Any variables, through any framing and any cutting of the bytes: the client shows exactly their rows. */
  method EndToEndVariables(f: Framing, vars: seq<Variable>, budget: nat, sizes: seq<nat>) returns (sent: bool, r: Rows)
    requires forall v <- vars :: ValidVariable(v)
    ensures sent ==> r == Table(RowsOf(vars)) && forall i | 0 <= i < |vars| :: Shows(r.rows[i], vars[i])
    ensures budget > |Encoded(vars)| ==> sent
  {
    hide Messages, First, Rest, Complete, Fragments, WrappedAll, AllTaken, Wrapped, Takes, Encoded, RowsFrom, RowOf, Shows;
    forall i | 0 <= i < |vars|
      ensures Shows(RowOf(vars[i]), vars[i])
    {
      assert vars[i] in vars;
      RowIs(vars[i]);
    }
    var t := Connect(f, budget);
    sent := SendScopeVariables(t, vars);
    ghost var fragments := Fragments(SCOPE_VARIABLES, Encoded(vars), t.maxSend - 1);
    if !sent {
      return false, Broken;
    }
    WrappedIsStream(f, fragments);
    Joined([], [], Stream(f, fragments));
    var socket := new Socket(Cut(t.wire, sizes), []);
    var channel;
    if f.Raw? {
      var raw := new RawPacket(socket);
      channel := RawChannel(raw);
    } else {
      var ws := new WebSocket(socket);
      channel := WsChannel(ws);
    }
    Joined(t.wire, [], t.wire);
    MessagesOfStream(f, fragments, []);
    NoMessagesIn(f);
    assert fragments + [] == fragments;
    r := ReceiveScopeVariables(channel, Encoded(vars), t.maxSend - 1);
    RowsOfEncoded(vars, 0);
    NoVariables();
    assert vars[..0] == [] && RowsOf(vars)[0..] == RowsOf(vars);
  }
}
