/** File URLs of paths: from CESU-8 (Unicode Technical Report 26) to percent-encoded UTF-8 (section 2.1 of RFC 3986). */
module PathEncoder {
  import opened Options

  type Unit = x: int | 0 <= x < 0x1_0000

  // ----- Code units and code points -----

  predicate IsHigh(u: int) { 0xD800 <= u <= 0xDBFF }
  predicate IsLow(u: int) { 0xDC00 <= u <= 0xDFFF }

  /** Surrogates start with the bits 110110 and 110111. */
  lemma SurrogatesAre(u: Unit)
    ensures IsHigh(u) <==> u / 1024 == 0x36
    ensures IsLow(u) <==> u / 1024 == 0x37
    ensures IsScalar(u) <==> u / 1024 != 0x36 && u / 1024 != 0x37
  {}

  predicate IsScalar(c: int) {
    0 <= c <= 0x10FFFF && !IsHigh(c) && !IsLow(c)
  }

  function FromPair(high: int, low: int): int {
    (high - 0xD800) * 1024 + 0x1_0000 + (low - 0xDC00)
  }

  function ToUnits(c: int): seq<Unit>
    requires IsScalar(c)
  {
    if c < 0x1_0000 then [c] else [0xD800 + (c - 0x1_0000) / 1024, 0xDC00 + (c - 0x1_0000) % 1024]
  }

  /** The bytes of one code unit: surrogates take three bytes each. */
  function UnitBytes(u: Unit): seq<Byte> {
    if u < 0x80 then [u]
    else if u < 0x800 then [0xC0 + u / 64, 0x80 + u % 64]
    else [0xE0 + u / 4096, 0x80 + u / 64 % 64, 0x80 + u % 64]
  }

  function Cesu8(units: seq<Unit>): seq<Byte> {
    if units == [] then [] else UnitBytes(units[0]) + Cesu8(units[1..])
  }

  /** The code points of a string, if every surrogate is paired. */
  function Scalars(units: seq<Unit>): Option<seq<int>> {
    if units == [] then Some([])
    else if IsLow(units[0]) then None
    else if !IsHigh(units[0]) then Cons(units[0], Scalars(units[1..]))
    else if |units| < 2 || !IsLow(units[1]) then None
    else Cons(FromPair(units[0], units[1]), Scalars(units[2..]))
  }

  function Cons(c: int, rest: Option<seq<int>>): Option<seq<int>> {
    if rest.Some? then Some([c] + rest.value) else None
  }

  // ----- UTF-8 (section 3 of RFC 3629) -----

  function Utf8(c: int): (r: seq<Byte>)
    requires IsScalar(c)
    ensures 1 <= |r| <= 4
  {
    if c < 0x80 then [c]
    else if c < 0x800 then [0xC0 + c / 64, 0x80 + c % 64]
    else if c < 0x1_0000 then [0xE0 + c / 4096, 0x80 + c / 64 % 64, 0x80 + c % 64]
    else [0xF0 + c / 0x4_0000, 0x80 + c / 4096 % 64, 0x80 + c / 64 % 64, 0x80 + c % 64]
  }

  ghost predicate AllScalar(s: seq<int>) {
    forall c <- s :: IsScalar(c)
  }

  ghost function Utf8All(s: seq<int>): seq<Byte>
    requires AllScalar(s)
  {
    if s == [] then [] else Utf8(s[0]) + Utf8All(s[1..])
  }

  // ----- Percent-encoding -----

  const HEX := "0123456789ABCDEF"
  const MARKS := "-._~:&=;/"

  /** Which characters are left alone, and how the others are written. */
  lemma CharactersAre(c: Byte)
    ensures Stays(c) <==> 'a' <= c as char <= 'z' || 'A' <= c as char <= 'Z' || '0' <= c as char <= '9' || c as char in MARKS
    ensures |Escaped(c)| == 3 && Escaped(c)[0] as char == '%'
    ensures Escaped(c)[1] as char == HEX[c / 16] && Escaped(c)[2] as char == HEX[c % 16]
  {}

  function HexDigit(n: int): Byte
    requires 0 <= n < 16
  {
    if n < 10 then 48 + n else 55 + n
  }

  predicate IsAlnum(c: int) {
    48 <= c <= 57 || 65 <= c <= 90 || 97 <= c <= 122
  }

  /** The characters that stay as they are: - . _ ~ : & = ; / and letters and digits. */
  predicate Stays(c: int) {
    IsAlnum(c) || c == 45 || c == 46 || c == 95 || c == 126 || c == 58 || c == 38 || c == 61 || c == 59 || c == 47
  }

  function Escaped(b: Byte): seq<Byte> {
    [37, HexDigit(b / 16), HexDigit(b % 16)]
  }

  function EscapedAll(s: seq<Byte>): (r: seq<Byte>)
    ensures |r| == 3 * |s|
  {
    if s == [] then [] else Escaped(s[0]) + EscapedAll(s[1..])
  }

  function Percent(c: int): seq<Byte>
    requires IsScalar(c)
  {
    if c < 0x80 && Stays(c) then [c] else EscapedAll(Utf8(c))
  }

  ghost function PercentAll(s: seq<int>): seq<Byte>
    requires AllScalar(s)
  {
    if s == [] then [] else Percent(s[0]) + PercentAll(s[1..])
  }

  // ----- Reading and writing, as the encoder does it -----

  /** lit_read_code_unit_from_cesu8_safe: the size that was read, or 0 at a string that ends too early. */
  function ReadUnit(s: seq<Byte>, at: nat): (int, int)
    requires at < |s|
  {
    var c: int := s[at];
    if c < 0x80 then (1, c)
    else if c / 32 == 6 then
      if at + 2 > |s| then (0, 0) else (2, c % 32 * 64 + s[at + 1] % 64)
    else
      if at + 3 > |s| then (0, 0) else (3, (c % 16 * 64 + s[at + 1] % 64) * 64 + s[at + 2] % 64)
  }

  lemma ReadUnitBytes(u: Unit, before: seq<Byte>, after: seq<Byte>)
    ensures ReadUnit(before + UnitBytes(u) + after, |before|) == (|UnitBytes(u)|, u)
  {
    ReadStart(u, after);
    ReadLater(UnitBytes(u) + after, before);
    assert before + (UnitBytes(u) + after) == before + UnitBytes(u) + after;
  }

  lemma ReadStart(u: Unit, after: seq<Byte>)
    ensures ReadUnit(UnitBytes(u) + after, 0) == (|UnitBytes(u)|, u)
  {
    Digits(u);
  }

  lemma ReadLater(s: seq<Byte>, before: seq<Byte>)
    requires s != []
    ensures ReadUnit(before + s, |before|) == ReadUnit(s, 0)
  {
    assert forall i | 0 <= i < |s| :: (before + s)[|before| + i] == s[i];
    assert (before + s)[|before|] == s[0];
  }

  lemma Digits(u: int)
    ensures u == (u / 4096 * 64 + u / 64 % 64) * 64 + u % 64
  {
    var a := u / 64;
    assert u == 64 * a + u % 64 && a == 64 * (a / 64) + a % 64 && a / 64 == u / 4096;
  }

  /** annex_encode_char. */
  method EncodeChar(c: Byte, buffer: array<Byte>, at: nat) returns (n: nat)
    requires c < 0x80 && at + 3 <= buffer.Length
    modifies buffer
    ensures 1 <= n <= 3 && buffer[..at + n] == old(buffer[..at]) + Percent(c)
  {
    OneByte(c);
    if Stays(c) {
      buffer[at] := c;
      n := 1;
    } else {
      n := Escape(c, buffer, at);
    }
  }

  lemma OneByte(c: Byte)
    requires c < 0x80
    ensures Percent(c) == if Stays(c) then [c] else Escaped(c)
  {
    assert Utf8(c) == [c] && Utf8(c)[1..] == [];
    assert EscapedAll(Utf8(c)) == Escaped(c) + EscapedAll([]);
  }

  method Escape(b: Byte, buffer: array<Byte>, at: nat) returns (n: nat)
    requires at + 3 <= buffer.Length
    modifies buffer
    ensures n == 3 && buffer[..at + 3] == old(buffer[..at]) + Escaped(b)
  {
    buffer[at] := 37;
    buffer[at + 1] := HexDigit(b / 16);
    buffer[at + 2] := HexDigit(b % 16);
    n := 3;
  }

  /** The part of the loop of annex_encode_path that writes one code point. */
  method EncodePoint(c: int, buffer: array<Byte>, at: nat) returns (n: nat)
    requires IsScalar(c) && at + 3 * |Utf8(c)| <= buffer.Length
    modifies buffer
    ensures 1 <= n <= 3 * |Utf8(c)| && buffer[..at + n] == old(buffer[..at]) + Percent(c)
  {
    var octets := Utf8(c);
    if |octets| == 1 {
      n := EncodeChar(octets[0], buffer, at);
      return;
    }
    n := 0;
    assert EscapedAll(octets[..0]) == [];
    for i := 0 to |octets|
      invariant n == 3 * i && buffer[..at + n] == old(buffer[..at]) + EscapedAll(octets[..i])
    {
      var m := Escape(octets[i], buffer, at + n);
      EscapedSnoc(octets[..i], octets[i]);
      assert octets[..i + 1] == octets[..i] + [octets[i]];
      n := n + m;
    }
    assert octets[..|octets|] == octets;
  }

  lemma {:induction false} EscapedSnoc(s: seq<Byte>, b: Byte)
    ensures EscapedAll(s + [b]) == EscapedAll(s) + Escaped(b)
  {
    hide Escaped;
    if s == [] {
      assert s + [b] == [b] && [b][1..] == [];
      assert EscapedAll([b]) == Escaped(b) + EscapedAll([]);
    } else {
      EscapedSnoc(s[1..], b);
      assert (s + [b])[1..] == s[1..] + [b];
    }
  }

  // ----- The encoder -----

  lemma ScalarsAreScalar(units: seq<Unit>)
    ensures Scalars(units).Some? ==> AllScalar(Scalars(units).value)
  {
    if units != [] && Scalars(units).Some? {
      if IsHigh(units[0]) {
        ScalarsAreScalar(units[2..]);
      } else {
        ScalarsAreScalar(units[1..]);
      }
    }
  }

  ghost function Prepend(done: seq<int>, rest: Option<seq<int>>): Option<seq<int>> {
    if rest.Some? then Some(done + rest.value) else None
  }

  lemma PrependCons(done: seq<int>, c: int, rest: Option<seq<int>>)
    ensures Prepend(done, Cons(c, rest)) == Prepend(done + [c], rest)
    ensures Prepend([], rest) == rest && Prepend(done, Some([])) == Some(done)
  {
    if rest.Some? {
      assert done + ([c] + rest.value) == done + [c] + rest.value;
      assert [] + rest.value == rest.value;
    }
    assert done + [] == done;
  }

  lemma {:induction false} PercentSnoc(s: seq<int>, c: int)
    requires AllScalar(s) && IsScalar(c)
    ensures AllScalar(s + [c]) && PercentAll(s + [c]) == PercentAll(s) + Percent(c)
    decreases |s|
  {
    hide Percent, IsScalar;
    if s == [] {
      var one := [c];
      assert s + one == one && one[1..] == [];
      assert PercentAll(one) == Percent(c) + PercentAll(one[1..]);
    } else {
      PercentSnoc(s[1..], c);
      assert (s + [c])[1..] == s[1..] + [c];
      assert forall d <- s + [c] :: d in s || d == c;
    }
  }

  /** Where the encoder stands: after `done` code points, before the code units from k on. */
  ghost predicate Standing(path: seq<Byte>, units: seq<Unit>, k: nat, cursor: nat, done: seq<int>) {
    && k <= |units| && cursor <= |path| && path[cursor..] == Cesu8(units[k..])
    && AllScalar(done) && Scalars(units) == Prepend(done, Scalars(units[k..]))
  }

  /** What the reader finds next. */
  lemma NextUnit(path: seq<Byte>, units: seq<Unit>, k: nat, cursor: nat)
    requires k <= |units| && cursor <= |path| && path[cursor..] == Cesu8(units[k..])
    ensures cursor < |path| <==> k < |units|
    ensures k < |units| ==>
              && ReadUnit(path, cursor) == (|UnitBytes(units[k])|, units[k])
              && cursor + |UnitBytes(units[k])| <= |path|
              && path[cursor + |UnitBytes(units[k])|..] == Cesu8(units[k + 1..])
  {
    hide UnitBytes, ReadUnit;
    if k < |units| {
      var u, rest := units[k], Cesu8(units[k + 1..]);
      assert units[k..][1..] == units[k + 1..];
      Unfold(units[k..]);
      var before := path[..cursor];
      assert path == before + UnitBytes(u) + rest;
      ReadUnitBytes(u, before, rest);
      HasBytes(u);
    }
  }

  lemma Unfold(units: seq<Unit>)
    requires units != []
    ensures Cesu8(units) == UnitBytes(units[0]) + Cesu8(units[1..])
  {}

  lemma HasBytes(u: Unit)
    ensures 1 <= |UnitBytes(u)| <= 3
  {}

  /** A plain code unit is one code point; it takes as many bytes in UTF-8 as in CESU-8. */
  lemma PlainStep(path: seq<Byte>, units: seq<Unit>, k: nat, cursor: nat, done: seq<int>)
    requires Standing(path, units, k, cursor, done) && k < |units| && !IsHigh(units[k]) && !IsLow(units[k])
    ensures IsScalar(units[k]) && |Utf8(units[k])| == |UnitBytes(units[k])|
    ensures Standing(path, units, k + 1, cursor + |UnitBytes(units[k])|, done + [units[k]])
  {
    hide UnitBytes, ReadUnit, Utf8;
    NextUnit(path, units, k, cursor);
    SameSize(units[k]);
    assert units[k..][1..] == units[k + 1..];
    PrependCons(done, units[k], Scalars(units[k + 1..]));
  }

  lemma SameSize(u: Unit)
    requires IsScalar(u)
    ensures |Utf8(u)| == |UnitBytes(u)|
  {}

  /** A pair of surrogates is one code point; it takes four bytes instead of six. */
  lemma PairStep(path: seq<Byte>, units: seq<Unit>, k: nat, cursor: nat, done: seq<int>)
    requires Standing(path, units, k, cursor, done) && k + 1 < |units| && IsHigh(units[k]) && IsLow(units[k + 1])
    ensures var c := FromPair(units[k], units[k + 1]);
            && IsScalar(c) && |Utf8(c)| == 4 && |UnitBytes(units[k])| == 3 && |UnitBytes(units[k + 1])| == 3
            && Standing(path, units, k + 2, cursor + 6, done + [c])
  {
    hide ReadUnit;
    NextUnit(path, units, k, cursor);
    NextUnit(path, units, k + 1, cursor + 3);
    assert units[k..][1..] == units[k + 1..] && units[k..][2..] == units[k + 2..];
    PrependCons(done, FromPair(units[k], units[k + 1]), Scalars(units[k + 2..]));
  }

  /** An unpaired surrogate has no code points. */
  lemma Unpaired(path: seq<Byte>, units: seq<Unit>, k: nat, cursor: nat, done: seq<int>)
    requires Standing(path, units, k, cursor, done) && k < |units|
    requires IsLow(units[k]) || (IsHigh(units[k]) && (k + 1 == |units| || !IsLow(units[k + 1])))
    ensures Scalars(units) == None
  {}

  /** annex_encode_path for the bytes of a string. The result is an error exactly if a surrogate is unpaired. */
  method EncodePath(path: seq<Byte>, prefix: seq<Byte>, ghost units: seq<Unit>) returns (r: Option<seq<Byte>>)
    requires path == Cesu8(units) && |prefix| + 3 * |path| < 0x1_0000_0000
    ensures r.None? <==> Scalars(units).None?
    ensures r.Some? ==>
              && AllScalar(Scalars(units).value) && r.value == prefix + PercentAll(Scalars(units).value)
              && |r.value| <= |prefix| + 3 * |path|
  {
    hide Cesu8, Scalars, UnitBytes, ReadUnit, Utf8, Percent, PercentAll, IsScalar, Standing;
    var capacity := |prefix| + |path| * 3;
    var encoded := new Byte[capacity](_ => 0);
    forall i | 0 <= i < |prefix| {
      encoded[i] := prefix[i];
    }
    var cursor, length := 0, |prefix|;
    ghost var k: nat, done: seq<int> := 0, [];
    Starting(path, units, prefix);
    assert encoded[..length] == prefix + PercentAll(done);
    while cursor < |path|
      invariant Standing(path, units, k, cursor, done) && AllScalar(done)
      invariant cursor <= |path| && |prefix| <= length <= |prefix| + 3 * cursor && encoded[..length] == prefix + PercentAll(done)
      decreases |path| - cursor
    {
      Reads(path, units, k, cursor, done);
      var size, unit := ReadUnit(path, cursor).0, ReadUnit(path, cursor).1;
      if size == 0 {
        return None;
      }
      ghost var start := cursor;
      cursor := cursor + size;
      if IsLow(unit) {
        Unpaired(path, units, k, start, done);
        return None;
      }
      var point := unit;
      if IsHigh(unit) {
        if cursor >= |path| {
          Unpaired(path, units, k, start, done);
          return None;
        }
        var more, next := ReadUnit(path, cursor).0, ReadUnit(path, cursor).1;
        if more == 0 {
          return None;
        }
        if IsLow(next) {
          point := FromPair(unit, next);
          cursor := cursor + more;
          PairStep(path, units, k, start, done);
        } else {
          Unpaired(path, units, k, start, done);
          return None;
        }
      } else {
        PlainStep(path, units, k, start, done);
      }
      k := k + if IsHigh(unit) then 2 else 1;
      PercentSnoc(done, point);
      // The size check of the encoder: a code point takes fewer bytes than three times what was read for it.
      assert length + |Utf8(point)| < capacity;
      var n := EncodePoint(point, encoded, length);
      done := done + [point];
      length := length + n;
    }
    Ending(path, units, k, cursor, done);
    r := Some(encoded[..length]);
  }

  lemma Starting(path: seq<Byte>, units: seq<Unit>, prefix: seq<Byte>)
    requires path == Cesu8(units)
    ensures Standing(path, units, 0, 0, []) && AllScalar([]) && prefix + PercentAll([]) == prefix
  {
    assert units[0..] == units && path[0..] == path;
    PrependCons([], 0, Scalars(units));
  }

  lemma Ending(path: seq<Byte>, units: seq<Unit>, k: nat, cursor: nat, done: seq<int>)
    requires Standing(path, units, k, cursor, done) && cursor == |path|
    ensures Scalars(units) == Some(done)
  {
    NextUnit(path, units, k, cursor);
    PrependCons(done, 0, None);
  }

  lemma Reads(path: seq<Byte>, units: seq<Unit>, k: nat, cursor: nat, done: seq<int>)
    requires Standing(path, units, k, cursor, done) && cursor < |path|
    ensures k < |units| && ReadUnit(path, cursor) == (|UnitBytes(units[k])|, units[k]) && 1 <= |UnitBytes(units[k])| <= 3
    ensures var at := cursor + |UnitBytes(units[k])|;
            && at <= |path| && (at < |path| <==> k + 1 < |units|)
            && (k + 1 < |units| ==> ReadUnit(path, at) == (|UnitBytes(units[k + 1])|, units[k + 1]) && at + |UnitBytes(units[k + 1])| <= |path|
                                    && |UnitBytes(units[k + 1])| >= 1)
  {
    hide UnitBytes, ReadUnit;
    NextUnit(path, units, k, cursor);
    NextUnit(path, units, k + 1, cursor + |UnitBytes(units[k])|);
    HasBytes(units[k]);
    if k + 1 < |units| {
      HasBytes(units[k + 1]);
    }
  }

  // ----- Reading the URL back -----

  function HexValue(b: Byte): int {
    if 48 <= b <= 57 then b - 48 else if 65 <= b <= 70 then b - 55 else if 97 <= b <= 102 then b - 87 else -1
  }

  function Join(first: seq<Byte>, rest: Option<seq<Byte>>): Option<seq<Byte>> {
    if rest.Some? then Some(first + rest.value) else None
  }

  /** Section 2.1 of RFC 3986. */
  function PercentDecode(s: seq<Byte>): Option<seq<Byte>> {
    if s == [] then Some([])
    else if s[0] != 37 then Join([s[0]], PercentDecode(s[1..]))
    else if |s| < 3 || HexValue(s[1]) < 0 || HexValue(s[2]) < 0 then None
    else Join([16 * HexValue(s[1]) + HexValue(s[2])], PercentDecode(s[3..]))
  }

  lemma JoinJoin(a: seq<Byte>, b: seq<Byte>, rest: Option<seq<Byte>>)
    ensures Join(a, Join(b, rest)) == Join(a + b, rest) && Join([], rest) == rest
  {
    if rest.Some? {
      assert a + (b + rest.value) == a + b + rest.value;
      assert [] + rest.value == rest.value;
    }
  }

  lemma DecodeEscaped(b: Byte, rest: seq<Byte>)
    ensures PercentDecode(Escaped(b) + rest) == Join([b], PercentDecode(rest))
  {
    var s := Escaped(b) + rest;
    assert s[3..] == rest && s[1] == HexDigit(b / 16) && s[2] == HexDigit(b % 16);
    assert b == 16 * (b / 16) + b % 16;
  }

  lemma {:induction false} DecodeEscapedAll(bytes: seq<Byte>, rest: seq<Byte>)
    ensures PercentDecode(EscapedAll(bytes) + rest) == Join(bytes, PercentDecode(rest))
    decreases |bytes|
  {
    hide Escaped, PercentDecode;
    if bytes == [] {
      assert EscapedAll(bytes) + rest == rest;
      JoinJoin([], [], PercentDecode(rest));
    } else {
      var more := EscapedAll(bytes[1..]) + rest;
      assert EscapedAll(bytes) + rest == Escaped(bytes[0]) + more;
      DecodeEscaped(bytes[0], more);
      DecodeEscapedAll(bytes[1..], rest);
      JoinJoin([bytes[0]], bytes[1..], PercentDecode(rest));
      assert [bytes[0]] + bytes[1..] == bytes;
    }
  }

  lemma DecodePercent(c: int, rest: seq<Byte>)
    requires IsScalar(c)
    ensures PercentDecode(Percent(c) + rest) == Join(Utf8(c), PercentDecode(rest))
  {
    if c < 0x80 && Stays(c) {
      var s := Percent(c) + rest;
      assert s[0] == c && s[1..] == rest;
    } else {
      DecodeEscapedAll(Utf8(c), rest);
    }
  }

  /** Percent-decoding gives the UTF-8 bytes of the path. */
  lemma {:induction false} PercentRoundTrip(s: seq<int>)
    requires AllScalar(s)
    ensures PercentDecode(PercentAll(s)) == Some(Utf8All(s))
    decreases |s|
  {
    hide Percent, Utf8;
    if s == [] {
      assert PercentDecode([]) == Some([]);
    } else {
      PercentRoundTrip(s[1..]);
      DecodePercent(s[0], PercentAll(s[1..]));
    }
  }

  /** The code point at the start of UTF-8 bytes, and its size. */
  function ReadUtf8(s: seq<Byte>): (int, nat)
    requires s != []
  {
    var a: int := s[0];
    if a < 0x80 || |s| < 2 then (a, 1)
    else
      var b: int := s[1];
      if a < 0xE0 || |s| < 3 then ((a - 0xC0) * 64 + (b - 0x80), 2)
      else
        var c: int := s[2];
        if a < 0xF0 || |s| < 4 then (((a - 0xE0) * 64 + (b - 0x80)) * 64 + (c - 0x80), 3)
        else
          var d: int := s[3];
          ((((a - 0xF0) * 64 + (b - 0x80)) * 64 + (c - 0x80)) * 64 + (d - 0x80), 4)
  }

  lemma ReadsBack(c: int, rest: seq<Byte>)
    requires IsScalar(c)
    ensures ReadUtf8(Utf8(c) + rest) == (c, |Utf8(c)|)
  {
    var s := Utf8(c) + rest;
    if c >= 0x1_0000 {
      FourDigits(c);
    } else if c >= 0x800 {
      Digits(c);
    }
  }

  /** The table of section 3 of RFC 3629: how many bytes there are, and which values they may have. */
  lemma Utf8Ranges(c: int)
    requires IsScalar(c)
    ensures |Utf8(c)| == if c <= 0x7F then 1 else if c <= 0x7FF then 2 else if c <= 0xFFFF then 3 else 4
    ensures |Utf8(c)| == 2 ==> 0xC2 <= Utf8(c)[0] <= 0xDF
    ensures |Utf8(c)| == 3 ==> 0xE0 <= Utf8(c)[0] <= 0xEF
    ensures |Utf8(c)| == 4 ==> 0xF0 <= Utf8(c)[0] <= 0xF4
    ensures forall i :: 1 <= i < |Utf8(c)| ==> 0x80 <= Utf8(c)[i] <= 0xBF
  {}

  lemma FourDigits(c: int)
    ensures c == ((c / 0x4_0000 * 64 + c / 4096 % 64) * 64 + c / 64 % 64) * 64 + c % 64
  {
    Digits(c / 64);
    assert c / 64 / 4096 == c / 0x4_0000 && c / 64 / 64 == c / 4096;
  }

  /** Different code points have different UTF-8 bytes. */
  lemma {:induction false} Utf8IsUnique(s: seq<int>, t: seq<int>)
    requires AllScalar(s) && AllScalar(t) && Utf8All(s) == Utf8All(t)
    ensures s == t
    decreases |s|
  {
    hide Utf8, ReadUtf8;
    if s != [] && t != [] {
      ReadsBack(s[0], Utf8All(s[1..]));
      ReadsBack(t[0], Utf8All(t[1..]));
      assert Utf8All(s)[|Utf8(s[0])|..] == Utf8All(s[1..]) && Utf8All(t)[|Utf8(t[0])|..] == Utf8All(t[1..]);
      Utf8IsUnique(s[1..], t[1..]);
      assert s == [s[0]] + s[1..] && t == [t[0]] + t[1..];
    }
  }

  function UnitsOf(s: seq<int>): seq<Unit>
    requires forall c <- s :: IsScalar(c)
  {
    if s == [] then [] else ToUnits(s[0]) + UnitsOf(s[1..])
  }

  lemma PairBack(high: Unit, low: Unit)
    requires IsHigh(high) && IsLow(low)
    ensures IsScalar(FromPair(high, low)) && ToUnits(FromPair(high, low)) == [high, low]
  {}

  /** The code points of a string give back its code units. */
  lemma {:induction false} UnitsBack(units: seq<Unit>)
    requires Scalars(units).Some?
    ensures AllScalar(Scalars(units).value) && UnitsOf(Scalars(units).value) == units
    decreases |units|
  {
    ScalarsAreScalar(units);
    if units != [] {
      if IsHigh(units[0]) {
        UnitsBack(units[2..]);
        PairBack(units[0], units[1]);
        Split(FromPair(units[0], units[1]), Scalars(units[2..]).value);
        assert [units[0], units[1]] + units[2..] == units;
      } else {
        UnitsBack(units[1..]);
        Split(units[0], Scalars(units[1..]).value);
        assert [units[0]] + units[1..] == units;
      }
    }
  }

  lemma Split(c: int, rest: seq<int>)
    requires IsScalar(c) && AllScalar(rest)
    ensures AllScalar([c] + rest) && UnitsOf([c] + rest) == ToUnits(c) + UnitsOf(rest)
  {
    assert ([c] + rest)[1..] == rest;
  }

  /** Distinct paths have distinct URLs. */
  lemma UrlsDiffer(a: seq<Unit>, b: seq<Unit>)
    requires Scalars(a).Some? && Scalars(b).Some?
    ensures AllScalar(Scalars(a).value) && AllScalar(Scalars(b).value)
    ensures PercentAll(Scalars(a).value) == PercentAll(Scalars(b).value) <==> a == b
  {
    hide PercentAll, Utf8All;
    UnitsBack(a);
    UnitsBack(b);
    if PercentAll(Scalars(a).value) == PercentAll(Scalars(b).value) {
      PercentRoundTrip(Scalars(a).value);
      PercentRoundTrip(Scalars(b).value);
      Utf8IsUnique(Scalars(a).value, Scalars(b).value);
    }
  }

  // ----- annex_path_to_file_url -----

  const PREFIX: seq<Byte> := [102, 105, 108, 101, 58, 47, 47]
  const SLASH := 47

  lemma PrefixIs()
    ensures |PREFIX| == |"file://"| && forall i :: 0 <= i < |PREFIX| ==> PREFIX[i] as char == "file://"[i]
  {}

  /** The file URL of an absolute path, on POSIX systems. */
  method PathToFileUrl(path: seq<Byte>, ghost units: seq<Unit>) returns (r: Option<seq<Byte>>)
    requires path == Cesu8(units) && |PREFIX| + 3 * |path| < 0x1_0000_0000
    ensures r.Some? <==> path != [] && path[0] == SLASH && Scalars(units).Some?
    ensures r.Some? ==>
              && AllScalar(Scalars(units).value) && PREFIX <= r.value
              && PercentDecode(r.value[|PREFIX|..]) == Some(Utf8All(Scalars(units).value))
  {
    hide PercentDecode, Utf8All, PercentAll, Scalars, Cesu8;
    if path == [] || path[0] != SLASH {
      return None;
    }
    r := EncodePath(path, PREFIX, units);
    if r.Some? {
      PercentRoundTrip(Scalars(units).value);
      assert r.value[|PREFIX|..] == PercentAll(Scalars(units).value);
    }
  }
}
