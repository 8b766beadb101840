/**
 * The literal table of a snapshot: the bytes that follow the code area, and the
 * 32-bit words by which code refers to them.
 */
module SnapshotLiterals {
  import opened Options
  import opened MachineWords

  const ALIGNMENT := 8                // JMEM_ALIGNMENT
  const UINT32_MAX := 0xFFFF_FFFF
  const SIZE_T := 0x1_0000_0000_0000_0000
  const MAX_TABLE_SIZE := 0x7FF_FFFF  // UINT32_MAX >> JJS_SNAPSHOT_LITERAL_SHIFT

  /** A literal of the literal storage. Literals are interned, so equal literals are equal values. */
  datatype Literal =
    | Str(chars: seq<Byte>)
    | Num(bits: seq<Byte>)
    | Big(head: nat, digits: seq<Byte>)
  {
    predicate Valid() {
      match this
      case Str(_) => true
      case Num(bits) => |bits| == 8
      case Big(head, digits) => 4 <= head < 0x1_0000_0000 && |digits| == head - head % 4
    }
  }

  datatype Entry = Entry(id: Literal, offset: nat)

  function Pad(bytes: seq<Byte>): (r: seq<Byte>)
    ensures |r| == Even(|bytes|) && bytes <= r
  {
    if |bytes| % 2 == 0 then bytes else bytes + [0]
  }

  /** Rounds up to the literal alignment, 2. */
  function Even(n: nat): (r: nat)
    ensures n <= r <= n + 1 && r % 2 == 0
  {
    n + n % 2
  }

  function Encode(l: Literal): (r: seq<Byte>) {
    match l
    case Str(chars) => Pad(Bytes2(|chars| % 0x1_0000) + chars)
    case Num(bits) => bits
    case Big(head, digits) =>
      Pad(Bytes4(head) + digits)
  }

  /** The space the size computation of the first loop reserves for a literal. */
  function Reserved(l: Literal): nat {
    match l
    case Str(chars) => Even(2 + |chars|)
    case Num(_) => 8
    case Big(_, digits) => Even(4 + |digits|)
  }

  function Table(pool: seq<Literal>): seq<Byte> {
    if pool == [] then [] else Table(pool[..|pool| - 1]) + Encode(pool[|pool| - 1])
  }

  function TableSize(pool: seq<Literal>): nat {
    if pool == [] then 0 else TableSize(pool[..|pool| - 1]) + Reserved(pool[|pool| - 1])
  }

  function Tag(l: Literal): nat {
    match l case Str(_) => 0 case Num(_) => 1 case Big(_, _) => 2
  }

  /** A table reference: byte offset, kind bits 3 and 4, and the snapshot-offset type 7. */
  function Word(offset: nat, l: Literal): (w: nat) {
    offset * 32 + Tag(l) * 8 + 7
  }

  function Entries(pool: seq<Literal>): (r: seq<Entry>)
    ensures |r| == |pool|
    ensures forall i :: 0 <= i < |pool| ==> r[i].id == pool[i]
  {
    if pool == [] then [] else
      var init := pool[..|pool| - 1];
      Entries(init) + [Entry(pool[|pool| - 1], Word(TableSize(init), pool[|pool| - 1]))]
  }

  /** Reads a literal back; None where the C code would read outside the table. */
  function GetLiteral(table: seq<Byte>, word: nat): Option<Literal> {
    Fetch(table, word / 32, word / 8 % 2 == 1, word / 16 % 2 == 1)
  }

  function Fetch(table: seq<Byte>, at: nat, isNumber: bool, isBigInt: bool): Option<Literal> {
    if isNumber then
      if at + 8 <= |table| then Some(Num(table[at..at + 8])) else None
    else if isBigInt then
      if at + 4 <= |table| then
        var head := Read4(table, at);
        var size := head - head % 4;
        if at + 4 + size <= |table| then Some(Big(head, table[at + 4..at + 4 + size])) else None
      else None
    else
      if at + 2 <= |table| then
        var length := Read2(table, at);
        if at + 2 + length <= |table| then Some(Str(table[at + 2..at + 2 + length])) else None
      else None
  }

  /** What a literal becomes in the table: the length field of a string has 16 bits only. */
  function Stored(l: Literal): Literal {
    match l
    case Str(chars) => Str(chars[..|chars| % 0x1_0000])
    case _ => l
  }

  predicate AllValid(pool: seq<Literal>) {
    forall l <- pool :: l.Valid()
  }

  /** A string of 65536 bytes comes back empty. */
  lemma LongStringIsCut(chars: seq<Byte>)
    requires |chars| == 0x1_0000
    ensures Fetch(Encode(Str(chars)), 0, false, false) == Some(Str([])) != Some(Str(chars))
  {
    var table := [] + Encode(Str(chars)) + [];
    assert table == Encode(Str(chars));
    ReadBack([], Str(chars), []);
    assert chars[..0] == [];
  }

  lemma StoredExactly(l: Literal)
    ensures Stored(l) == l <==> (l.Str? ==> |l.chars| < 0x1_0000)
  {
    if l.Str? && |l.chars| >= 0x1_0000 {
      assert |Stored(l).chars| < |l.chars|;
    }
  }

  lemma EncodeLength(l: Literal)
    requires l.Valid()
    ensures |Encode(l)| == Reserved(l) >= 2
  {}

  lemma {:induction false} TableLength(pool: seq<Literal>)
    requires AllValid(pool)
    ensures |Table(pool)| == TableSize(pool)
  {
    if pool != [] {
      TableLength(pool[..|pool| - 1]);
      EncodeLength(pool[|pool| - 1]);
    }
  }

  lemma Over32(q: nat, r: nat)
    requires r < 32
    ensures (q * 32 + r) / 32 == q
  {}

  lemma Over16(q: nat, r: nat)
    requires r < 16
    ensures (q * 16 + r) / 16 == q
  {}

  lemma Over8(q: nat, r: nat)
    requires r < 8
    ensures (q * 8 + r) / 8 == q
  {}

  lemma Over2(q: nat, r: nat)
    requires r < 2
    ensures (q * 2 + r) % 2 == r
  {}

  lemma WordParts(at: nat, l: Literal)
    ensures Word(at, l) / 32 == at
    ensures Word(at, l) / 8 % 2 == (if l.Num? then 1 else 0)
    ensures Word(at, l) / 16 % 2 == (if l.Big? then 1 else 0)
  {
    var tag := Tag(l);
    Over32(at, tag * 8 + 7);
    Over8(at * 4 + tag, 7);
    Over2(at * 2 + (if l.Big? then 1 else 0), if l.Num? then 1 else 0);
    Over16(at * 2 + (if l.Big? then 1 else 0), (if l.Num? then 8 else 0) + 7);
    Over2(at, if l.Big? then 1 else 0);
  }

  lemma ReadField(before: seq<Byte>, field: seq<Byte>, body: seq<Byte>, after: seq<Byte>, l: Literal)
    requires field + body <= Encode(l)
    ensures var table := before + Encode(l) + after; var at := |before|;
            && at + |field| + |body| <= |table|
            && table[at..at + |field|] == field
            && table[at + |field|..at + |field| + |body|] == body
  {
    var table := before + Encode(l) + after;
    var e := Encode(l);
    assert e[..|field + body|] == field + body;
    assert forall i | 0 <= i < |field + body| :: table[|before| + i] == e[i] == (field + body)[i];
  }

  /** One literal, encoded anywhere in a table, reads back as its stored form. */
  lemma ReadBack(before: seq<Byte>, l: Literal, after: seq<Byte>)
    requires l.Valid()
    ensures Fetch(before + Encode(l) + after, |before|, l.Num?, l.Big?) == Some(Stored(l))
  {
    match l
    case Num(bits) =>
      assert (before + bits + after)[|before|..|before| + 8] == bits;
    case Str(chars) =>
      ReadString(before, chars, after);
    case Big(head, digits) =>
      hide Read4, Bytes4, Pad, Encode;
      EncodedBig(head, digits);
      var table, at := before + Encode(l) + after, |before|;
      ReadField(before, Bytes4(head), digits, after, l);
      SameField4(table, at, Bytes4(head));
  }

  lemma EncodedBig(head: nat, digits: seq<Byte>)
    ensures Bytes4(head) + digits <= Encode(Big(head, digits))
  {
    hide Bytes4;
  }

  lemma ReadString(before: seq<Byte>, chars: seq<Byte>, after: seq<Byte>)
    ensures Fetch(before + Encode(Str(chars)) + after, |before|, false, false) == Some(Stored(Str(chars)))
  {
    hide Read2, Bytes2, Pad, Encode;
    var table, at, n := before + Encode(Str(chars)) + after, |before|, |chars| % 0x1_0000;
    EncodedString(chars);
    ReadField(before, Bytes2(n), chars, after, Str(chars));
    SameField2(table, at, Bytes2(n));
    assert table[at + 2..at + 2 + n] == table[at + 2..at + 2 + |chars|][..n];
  }

  lemma EncodedString(chars: seq<Byte>)
    ensures Bytes2(|chars| % 0x1_0000) + chars <= Encode(Str(chars))
  {
    hide Bytes2;
  }

  lemma {:induction false} TableSplit(pool: seq<Literal>, i: nat)
    requires i < |pool| && AllValid(pool)
    ensures Table(pool[..i]) + Encode(pool[i]) <= Table(pool)
    ensures Entries(pool)[i].offset == Word(TableSize(pool[..i]), pool[i])
  {
    var init := pool[..|pool| - 1];
    if i < |pool| - 1 {
      TableSplit(init, i);
      assert init[..i] == pool[..i];
    }
  }

  /** Saving and getting literals are inverse, up to the 16-bit string length. */
  lemma TableDecodes(pool: seq<Literal>, i: nat)
    requires i < |pool| && AllValid(pool)
    ensures GetLiteral(Table(pool), Entries(pool)[i].offset) == Some(Stored(pool[i]))
  {
    hide Fetch, Encode, Stored, Word, Table, Entries, TableSize, Reserved;
    TableSplit(pool, i);
    TableLength(pool[..i]);
    var before := Table(pool[..i]);
    var after := Table(pool)[|before| + |Encode(pool[i])|..];
    assert Table(pool) == before + Encode(pool[i]) + after;
    WordParts(|before|, pool[i]);
    ReadBack(before, pool[i], after);
  }

  /** The limit on the table: what is left of the buffer (a size_t subtraction), and 27 bits of offset. */
  function MaxTable(bufferSize: nat, offset: nat): (r: nat)
    ensures r <= MAX_TABLE_SIZE
  {
    var left := if offset <= bufferSize then bufferSize - offset else SIZE_T - (offset - bufferSize) % SIZE_T;
    if left > MAX_TABLE_SIZE then MAX_TABLE_SIZE else left
  }

  /** Behind the end of the buffer the subtraction wraps, and only the 27 bits limit the table. */
  lemma TableLimit(bufferSize: nat, offset: nat)
    ensures offset <= bufferSize ==> MaxTable(bufferSize, offset) <= bufferSize - offset
    ensures bufferSize < offset < bufferSize + ALIGNMENT ==> MaxTable(bufferSize, offset) == MAX_TABLE_SIZE
  {}

  lemma {:induction false} TableSizeGrows(pool: seq<Literal>, i: nat)
    requires i <= |pool|
    ensures TableSize(pool[..i]) <= TableSize(pool)
  {
    if i < |pool| {
      TableSizeGrows(pool[..|pool| - 1], i);
      assert pool[..|pool| - 1][..i] == pool[..i];
    } else {
      assert pool[..i] == pool;
    }
  }

  lemma NoEntries(pool: seq<Literal>)
    ensures Table(pool[..0]) == [] && Entries(pool[..0]) == [] && TableSize(pool[..0]) == 0
  {}

  lemma SizeStep(pool: seq<Literal>, i: nat)
    requires i < |pool|
    ensures TableSize(pool[..i + 1]) == TableSize(pool[..i]) + Reserved(pool[i])
  {
    assert pool[..i + 1][..i] == pool[..i];
  }

  /** One more literal in the table; its offset has at most 27 bits. */
  lemma EntryStep(pool: seq<Literal>, i: nat)
    requires i < |pool| && AllValid(pool) && TableSize(pool) <= MAX_TABLE_SIZE
    ensures var offset := TableSize(pool[..i]);
            && TableSize(pool[..i + 1]) == offset + |Encode(pool[i])|
            && Table(pool[..i + 1]) == Table(pool[..i]) + Encode(pool[i])
            && Entries(pool[..i + 1]) == Entries(pool[..i]) + [Entry(pool[i], Word(offset, pool[i]))]
            && Word(offset, pool[i]) <= UINT32_MAX
  {
    hide Encode, Reserved;
    TableSizeGrows(pool, i + 1);
    SizeStep(pool, i);
    EncodeLength(pool[i]);
    assert pool[..i + 1][..i] == pool[..i];
  }

  /** Appends a literal unless the pool holds it already. */
  method AppendValue(l: Literal, pool: seq<Literal>) returns (r: seq<Literal>)
    ensures r == Appended(l, pool)
  {
    var i := 0;
    while i < |pool|
      invariant 0 <= i <= |pool|
      invariant l !in pool[..i]
    {
      if pool[i] == l {
        return pool;
      }
      i := i + 1;
    }
    assert pool[..i] == pool;
    r := pool + [l];
  }

  function Appended(l: Literal, pool: seq<Literal>): (r: seq<Literal>) {
    if l in pool then pool else pool + [l]
  }

  method SaveLiterals(pool: seq<Literal>, bufferSize: nat, offset: nat)
    returns (ok: bool, table: seq<Byte>, entries: seq<Entry>)
    requires AllValid(pool)
    ensures ok <==> TableSize(pool) <= MaxTable(bufferSize, offset)
    ensures ok ==> table == Table(pool) && entries == Entries(pool)
    ensures ok && offset <= bufferSize ==> offset + |table| <= bufferSize
    ensures bufferSize < offset < bufferSize + ALIGNMENT ==> (ok <==> TableSize(pool) <= MAX_TABLE_SIZE)
    ensures ok ==> forall e <- entries :: e.offset <= UINT32_MAX
  {
    hide Encode, Reserved, MaxTable, TableSize, Table, Entries, Word;
    NoEntries(pool);
    TableLimit(bufferSize, offset);
    table, entries := [], [];
    var limit := MaxTable(bufferSize, offset);
    var size := 0;
    for i := 0 to |pool|
      invariant size == TableSize(pool[..i]) <= limit
    {
      SizeStep(pool, i);
      size := size + Reserved(pool[i]);
      if size > limit {
        TableSizeGrows(pool, i + 1);
        return false, [], [];
      }
    }
    assert pool[..|pool|] == pool;
    var literalOffset := 0;
    TableLength(pool);
    for i := 0 to |pool|
      invariant literalOffset == TableSize(pool[..i])
      invariant table == Table(pool[..i]) && entries == Entries(pool[..i])
      invariant forall e <- entries :: e.offset <= UINT32_MAX
    {
      EntryStep(pool, i);
      entries := entries + [Entry(pool[i], Word(literalOffset, pool[i]))];
      table := table + Encode(pool[i]);
      literalOffset := literalOffset + |Encode(pool[i])|;
    }
    ok := true;
  }
}
