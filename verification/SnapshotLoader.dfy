/** Loading compiled code from a snapshot, in copying mode, and the round trip with the writer. */
module SnapshotLoader {
  import opened Options
  import opened SnapshotLiterals
  import opened SnapshotImage
  import opened SnapshotWriter
  import opened SnapshotGenerate

  function LoadValue(table: seq<Byte>, v: Value): Option<Value> {
    if v.Offset? then
      var l := GetLiteral(table, v.word);
      if l.Some? then Some(Lit(l.value)) else None
    else Some(v)
  }

  function LoadValues(table: seq<Byte>, vs: seq<Value>): (r: Option<seq<Value>>)
    ensures r.Some? ==> |r.value| == |vs|
  {
    if forall v <- vs :: LoadValue(table, v).Some?
    then Some(seq(|vs|, i requires 0 <= i < |vs| => assert vs[i] in vs; LoadValue(table, vs[i]).value)) else None
  }

  lemma LoadValuesAre(table: seq<Byte>, vs: seq<Value>, loaded: seq<Value>)
    requires |loaded| == |vs| && forall i | 0 <= i < |vs| :: LoadValue(table, vs[i]) == Some(loaded[i])
    ensures LoadValues(table, vs) == Some(loaded)
  {
    assert LoadValues(table, vs).value == loaded;
  }

  /** The values of constant slots; child slots have none. */
  function SlotValues(slots: seq<Slot>): (r: Option<seq<Value>>)
    ensures r.Some? ==> |r.value| == |slots| && forall i | 0 <= i < |slots| :: slots[i] == Word(r.value[i])
  {
    assert forall i | 0 <= i < |slots| :: slots[i] in slots;
    if forall s <- slots :: s.Word?
    then Some(seq(|slots|, i requires 0 <= i < |slots| => assert slots[i] in slots; slots[i].value)) else None
  }

  function LoadConsts(table: seq<Byte>, slots: seq<Slot>): Option<seq<Value>> {
    var words := SlotValues(slots);
    if words.Some? then LoadValues(table, words.value) else None
  }

  function LoadedFlags(build: Build, flags: Flags): Flags {
    if build.debugger then flags.(debuggerIgnore := true) else flags
  }

  predicate Shaped(b: Block) {
    b.FunctionBlock? ==> b.args.registerEnd <= b.args.constLiteralEnd <= b.args.literalEnd
                         && |b.literals| == b.args.literalEnd - b.args.registerEnd
  }

  /** The tree that starts at a byte offset; None where the C code would read outside the code area or the table. */
  function Load(build: Build, image: Image, table: seq<Byte>, end: nat, at: nat): Option<Code>
    decreases end - at, 1, 0
  {
    if at >= end || at !in image || !Shaped(image[at]) then None
    else match image[at]
      case RegExpBlock(_, refs, flags, text) =>
        if refs <= |text| then Some(RegExp(flags, text[..refs])) else None
      case FunctionBlock(size, refs, flags, args, body, literals, tail) =>
        var count := args.constLiteralEnd - args.registerEnd;
        var consts := LoadConsts(table, literals[..count]);
        var kids := LoadKids(build, image, table, end, at, literals[count..]);
        var last := LoadValues(table, tail);
        if consts.Some? && kids.Some? && last.Some? && refs == 1
        then Some(Function(size, refs, LoadedFlags(build, flags), args, body, consts.value, kids.value, last.value))
        else None
  }

  function LoadKids(build: Build, image: Image, table: seq<Byte>, end: nat, at: nat, slots: seq<Slot>): Option<seq<Kid>>
    requires at < end
    decreases end - at, 0, |slots|
  {
    if slots == [] then Some([]) else
      var init := LoadKids(build, image, table, end, at, slots[..|slots| - 1]);
      var kid := LoadKid(build, image, table, end, at, slots[|slots| - 1]);
      if init.Some? && kid.Some? then Some(init.value + [kid.value]) else None
  }

  function LoadKid(build: Build, image: Image, table: seq<Byte>, end: nat, at: nat, slot: Slot): Option<Kid>
    requires at < end
    decreases end - at, 0, 0
  {
    if !slot.Child? then None
    else if slot.offset == 0 then Some(Self)
    else
      var code := Load(build, image, table, end, at + slot.offset);
      if code.Some? then Some(Sub(code.value)) else None
  }

  method LoadWord(table: seq<Byte>, v: Value) returns (r: Option<Value>)
    ensures r == LoadValue(table, v)
  {
    r := Some(v);
    if v.Offset? {
      var l := GetLiteral(table, v.word);
      r := if l.Some? then Some(Lit(l.value)) else None;
    }
  }

  method LoadConstSlots(table: seq<Byte>, slots: seq<Slot>) returns (r: Option<seq<Value>>)
    ensures r == LoadConsts(table, slots)
  {
    hide LoadValue;
    var loaded := [];
    ghost var words := [];
    for i := 0 to |slots|
      invariant |loaded| == |words| == i
      invariant forall j | 0 <= j < i :: slots[j] == Word(words[j]) && LoadValue(table, words[j]) == Some(loaded[j])
    {
      if !slots[i].Word? {
        return None;
      }
      var v := LoadWord(table, slots[i].value);
      if v.None? {
        if SlotValues(slots).Some? {
          assert slots[i].value == SlotValues(slots).value[i];
        }
        return None;
      }
      loaded, words := loaded + [v.value], words + [slots[i].value];
    }
    assert SlotValues(slots).Some? && SlotValues(slots).value == words;
    LoadValuesAre(table, words, loaded);
    r := Some(loaded);
  }

  method LoadTail(table: seq<Byte>, vs: seq<Value>) returns (r: Option<seq<Value>>)
    ensures r == LoadValues(table, vs)
  {
    hide LoadValue;
    var loaded := [];
    for i := 0 to |vs|
      invariant |loaded| == i
      invariant forall j | 0 <= j < i :: LoadValue(table, vs[j]) == Some(loaded[j])
    {
      var v := LoadWord(table, vs[i]);
      if v.None? {
        assert vs[i] in vs;
        return None;
      }
      loaded := loaded + [v.value];
    }
    LoadValuesAre(table, vs, loaded);
    r := Some(loaded);
  }

  /** The loader: copy the block, then rewrite constants, children and tail slots of the copy. */
  method LoadCompiledCode(build: Build, image: Image, table: seq<Byte>, end: nat, at: nat) returns (r: Option<Code>)
    ensures r == Load(build, image, table, end, at)
    decreases end - at, 1
  {
    hide LoadConsts, LoadValues, LoadKid;
    if at >= end || at !in image || !Shaped(image[at]) {
      return None;
    }
    var block := image[at];
    if block.RegExpBlock? {
      return if block.refs <= |block.text| then Some(RegExp(block.flags, block.text[..block.refs])) else None;
    }
    if block.refs != 1 {
      return None;
    }
    var constLiteralEnd := block.args.constLiteralEnd - block.args.registerEnd;
    var consts := LoadConstSlots(table, block.literals[..constLiteralEnd]);
    var kids := LoadChildren(build, image, table, end, at, block.literals[constLiteralEnd..]);
    var tail := LoadTail(table, block.tail);
    if consts.None? || kids.None? || tail.None? {
      return None;
    }
    r := Some(Function(block.size, block.refs, LoadedFlags(build, block.flags), block.args, block.body,
                       consts.value, kids.value, tail.value));
  }

  method LoadChildren(build: Build, image: Image, table: seq<Byte>, end: nat, at: nat, slots: seq<Slot>)
    returns (r: Option<seq<Kid>>)
    requires at < end
    ensures r == LoadKids(build, image, table, end, at, slots)
    decreases end - at, 0
  {
    hide Load;
    var kids := [];
    for i := 0 to |slots|
      invariant LoadKids(build, image, table, end, at, slots[..i]) == Some(kids)
    {
      assert slots[..i + 1][..i] == slots[..i];
      KidsFail(build, image, table, end, at, slots, i + 1);
      KidsNext(build, image, table, end, at, slots[..i + 1]);
      if !slots[i].Child? {
        return None;
      }
      if slots[i].offset == 0 {
        kids := kids + [Self];
      } else {
        var code := LoadCompiledCode(build, image, table, end, at + slots[i].offset);
        if code.None? {
          return None;
        }
        kids := kids + [Sub(code.value)];
      }
    }
    assert slots[..|slots|] == slots;
    r := Some(kids);
  }

  lemma KidsNext(build: Build, image: Image, table: seq<Byte>, end: nat, at: nat, slots: seq<Slot>)
    requires at < end && slots != []
    ensures var init := LoadKids(build, image, table, end, at, slots[..|slots| - 1]);
            var kid := LoadKid(build, image, table, end, at, slots[|slots| - 1]);
            LoadKids(build, image, table, end, at, slots) == if init.Some? && kid.Some? then Some(init.value + [kid.value]) else None
  {}

  lemma {:induction false} KidsFail(build: Build, image: Image, table: seq<Byte>, end: nat, at: nat, slots: seq<Slot>, n: nat)
    requires at < end && n <= |slots|
    ensures LoadKids(build, image, table, end, at, slots[..n]).None? ==> LoadKids(build, image, table, end, at, slots).None?
    decreases |slots|
  {
    if n == |slots| {
      assert slots[..n] == slots;
    } else {
      KidsFail(build, image, table, end, at, slots[..|slots| - 1], n);
      assert slots[..|slots| - 1][..n] == slots[..n];
    }
  }

  // ----- What comes back -----

  function StoredValue(v: Value): Value { if v.Lit? then Lit(Stored(v.literal)) else v }

  function StoredValues(vs: seq<Value>): (r: seq<Value>)
    ensures |r| == |vs|
  {
    seq(|vs|, i requires 0 <= i < |vs| => StoredValue(vs[i]))
  }

  /** The tree a snapshot gives back: 16-bit string and pattern lengths, one reference, changed flags. */
  function Loaded(build: Build, c: Code): Code {
    match c
    case RegExp(flags, pattern) => RegExp(flags, pattern[..|pattern| % 0x1_0000])
    case Function(size, _, flags, args, body, consts, kids, tail) =>
      Function(size, 1, LoadedFlags(build, WrittenFlags(build, flags)), args, body,
               StoredValues(consts), LoadedKids(build, kids), StoredValues(tail))
  }

  function LoadedKids(build: Build, kids: seq<Kid>): (r: seq<Kid>)
    ensures |r| == |kids|
  {
    if kids == [] then [] else LoadedKids(build, kids[..|kids| - 1]) + [LoadedKid(build, kids[|kids| - 1])]
  }

  function LoadedKid(build: Build, kid: Kid): Kid {
    if kid.Self? then Self else Sub(Loaded(build, kid.code))
  }

  lemma {:induction false} FindDecodes(pool: seq<Literal>, l: Literal, n: nat)
    requires AllValid(pool) && n <= |pool| && l in pool[n..]
    ensures var f := Find(Entries(pool)[n..], Lit(l));
            f.Some? && GetLiteral(Table(pool), f.value) == Some(Stored(l))
    decreases |pool| - n
  {
    hide GetLiteral, Table, Entries, Stored;
    var rest := Entries(pool)[n..];
    assert rest[0] == Entries(pool)[n] && rest[1..] == Entries(pool)[n + 1..];
    assert pool[n..] == [pool[n]] + pool[n + 1..];
    if pool[n] == l {
      TableDecodes(pool, n);
    } else {
      FindDecodes(pool, l, n + 1);
    }
  }

  lemma PatchedLoads(pool: seq<Literal>, v: Value)
    requires AllValid(pool) && !v.Offset? && (v.Lit? ==> v.literal in pool)
    ensures LoadValue(Table(pool), Patch(Entries(pool), v)) == Some(StoredValue(v))
  {
    hide GetLiteral, Table, Entries, Stored;
    if v.Lit? {
      assert pool[0..] == pool && Entries(pool)[0..] == Entries(pool);
      FindDecodes(pool, v.literal, 0);
    } else if v.BigIntZero? {
      NoEntryForZero(Entries(pool));
    }
  }

  lemma {:induction false} NoEntryForZero(entries: seq<Entry>)
    ensures Find(entries, BigIntZero).None?
  {
    if entries != [] {
      NoEntryForZero(entries[1..]);
    }
  }

  lemma ConstsLoad(pool: seq<Literal>, vs: seq<Value>, slots: seq<Slot>)
    requires AllValid(pool) && ValuesCovered(pool, vs) && forall v <- vs :: !v.Offset?
    requires |slots| == |vs| && forall i | 0 <= i < |vs| :: slots[i] == Word(Patch(Entries(pool), vs[i]))
    ensures LoadConsts(Table(pool), slots) == Some(StoredValues(vs))
  {
    TailLoads(pool, vs);
    assert SlotValues(slots).Some? && SlotValues(slots).value == PatchTail(Entries(pool), vs);
  }

  lemma TailLoads(pool: seq<Literal>, vs: seq<Value>)
    requires AllValid(pool) && ValuesCovered(pool, vs) && forall v <- vs :: !v.Offset?
    ensures LoadValues(Table(pool), PatchTail(Entries(pool), vs)) == Some(StoredValues(vs))
  {
    hide Patch, LoadValue, StoredValue, Table, Entries;
    var patched := PatchTail(Entries(pool), vs);
    forall i | 0 <= i < |vs|
      ensures LoadValue(Table(pool), patched[i]) == Some(StoredValue(vs[i]))
    {
      assert vs[i] in vs;
      PatchedLoads(pool, vs[i]);
    }
    LoadValuesAre(Table(pool), patched, StoredValues(vs));
  }

  /** A patched block splits into constant slots and child slots. */
  lemma PatchedSlots(build: Build, c: Code, entries: seq<Entry>)
    requires WellFormed(c) && c.Function?
    ensures var b := PatchBlock(entries, BlockOf(build, c)); var n := |c.consts|;
            && b.FunctionBlock? && Shaped(b) && b.refs == 1 && b.size == c.size && b.args == c.args && b.body == c.body
            && b.flags == WrittenFlags(build, c.flags) && b.tail == PatchTail(entries, c.tail)
            && c.args.constLiteralEnd - c.args.registerEnd == n <= |b.literals|
            && (forall i | 0 <= i < n :: b.literals[..n][i] == Word(Patch(entries, c.consts[i])))
            && b.literals[n..] == KidSlots(c.kids, ALIGNMENT * c.size)
  {
    var b := PatchBlock(entries, BlockOf(build, c));
    var n := |c.consts|;
    KidSlotsAreChildren(c.kids, ALIGNMENT * c.size);
    assert b.literals[n..] == KidSlots(c.kids, ALIGNMENT * c.size);
  }

  lemma {:induction false} KidSlotsAreChildren(kids: seq<Kid>, from: nat)
    ensures forall s <- KidSlots(kids, from) :: s.Child?
  {
    if kids != [] {
      KidSlotsAreChildren(kids[..|kids| - 1], from);
    }
  }

  /** Loading the patched blocks of a tree, wherever they stand, gives the tree back. */
  lemma {:induction false} LoadImage(build: Build, image: Image, pool: seq<Literal>, end: nat, c: Code, at: nat)
    requires WellFormed(c) && AllValid(pool) && Covers(pool, c) && at + Extent(c) <= end
    requires Holds(image, PatchImage(Entries(pool), ImageOf(build, c, at)))
    ensures Load(build, image, Table(pool), end, at) == Some(Loaded(build, c))
    decreases c
  {
    hide Table, Entries, PatchBlock, Patch, LoadValues, LoadConsts;
    assert at in ImageOf(build, c, at);
    ImageWithin(build, c, at);
    SizeIsPositive(c);
    RootBlock(build, c, at);
    assert image[at] == PatchBlock(Entries(pool), BlockOf(build, c));
    if c.RegExp? {
      RegExpUntouched(Entries(pool), BlockOf(build, c));
    } else {
      PatchedSlots(build, c, Entries(pool));
      ConstsLoad(pool, c.consts, image[at].literals[..|c.consts|]);
      TailLoads(pool, c.tail);
      PatchPart(image, Entries(pool), ImageOf(build, c, at), KidsImage(build, c.kids, at + OwnExtent(c)));
      LoadKidsImage(build, image, pool, end, c.kids, at, ALIGNMENT * c.size);
    }
  }

  lemma {:induction false} LoadKidsImage(build: Build, image: Image, pool: seq<Literal>, end: nat, kids: seq<Kid>, at: nat, from: nat)
    requires KidsWellFormed(kids) && AllValid(pool) && KidsCovered(pool, kids) && from > 0 && at + from + KidsExtent(kids) <= end
    requires Holds(image, PatchImage(Entries(pool), KidsImage(build, kids, at + from)))
    ensures LoadKids(build, image, Table(pool), end, at, KidSlots(kids, from)) == Some(LoadedKids(build, kids))
    decreases kids, 1
  {
    hide Table, Entries, PatchBlock, PatchImage, Holds, Load, LoadKids, LoadKid, LoadedKids, LoadedKid, Covers, Extent, WellFormed,
      KidsWellFormed, KidsCovered, KidsExtent, KidExtent, KidsImage, KidImage, KidSlots;
    if kids == [] {
      NoKidsLoaded(build, image, Table(pool), end, at, from);
    } else {
      var init, last := kids[..|kids| - 1], kids[|kids| - 1];
      var mid := from + KidsExtent(init);
      LastKid(build, pool, kids, from);
      var slots := KidSlots(kids, from);
      assert slots[..|slots| - 1] == KidSlots(init, from);
      KidsDisjoint(build, kids, at + from);
      PatchPart(image, Entries(pool), KidsImage(build, kids, at + from), KidsImage(build, init, at + from));
      PatchPart(image, Entries(pool), KidsImage(build, kids, at + from), KidImage(build, last, at + mid));
      LoadKidsImage(build, image, pool, end, init, at, from);
      KidsNext(build, image, Table(pool), end, at, slots);
      assert kids decreases to last;
      LoadKidImage(build, image, pool, end, last, at, mid);
    }
  }

  lemma NoKidsLoaded(build: Build, image: Image, table: seq<Byte>, end: nat, at: nat, from: nat)
    requires at < end
    ensures LoadKids(build, image, table, end, at, KidSlots([], from)) == Some(LoadedKids(build, []))
  {}

  /** What a list of children has in common with the list without its last one. */
  lemma LastKid(build: Build, pool: seq<Literal>, kids: seq<Kid>, from: nat)
    requires kids != []
    ensures var init, last := kids[..|kids| - 1], kids[|kids| - 1];
            && (KidsWellFormed(kids) <==> KidsWellFormed(init) && KidWellFormed(last))
            && (KidsCovered(pool, kids) <==> KidsCovered(pool, init) && KidCovered(pool, last))
            && KidsExtent(kids) == KidsExtent(init) + KidExtent(last)
            && KidSlots(kids, from) == KidSlots(init, from) + [Child(if last.Self? then 0 else from + KidsExtent(init))]
            && LoadedKids(build, kids) == LoadedKids(build, init) + [LoadedKid(build, last)]
  {
    hide WellFormed, Covers, Extent;
  }

  lemma {:induction false} LoadKidImage(build: Build, image: Image, pool: seq<Literal>, end: nat, kid: Kid, at: nat, from: nat)
    requires KidWellFormed(kid) && AllValid(pool) && KidCovered(pool, kid) && from > 0 && at + from + KidExtent(kid) <= end
    requires Holds(image, PatchImage(Entries(pool), KidImage(build, kid, at + from)))
    ensures LoadKid(build, image, Table(pool), end, at, Child(if kid.Self? then 0 else from)) == Some(LoadedKid(build, kid))
    decreases kid, 0
  {
    hide Table, Entries, PatchBlock, PatchImage, Holds, Load, Covers, Extent, WellFormed;
    if kid.Sub? {
      assert KidExtent(kid) == Extent(kid.code);
      assert KidImage(build, kid, at + from) == ImageOf(build, kid.code, at + from);
      LoadImage(build, image, pool, end, kid.code, at + from);
    }
  }

  lemma SizeIsPositive(c: Code)
    requires WellFormed(c)
    ensures Extent(c) > 0
  {}

  lemma RootBlock(build: Build, c: Code, at: nat)
    requires WellFormed(c)
    ensures at in ImageOf(build, c, at) && ImageOf(build, c, at)[at] == BlockOf(build, c)
  {
    ImageWithin(build, c, at);
    if c.Function? {
      SizeIsPositive(c);
    }
  }

  lemma PatchPart(image: Image, entries: seq<Entry>, whole: Image, part: Image)
    requires Holds(image, PatchImage(entries, whole)) && Holds(whole, part)
    ensures Holds(image, PatchImage(entries, part))
  {
    hide PatchBlock;
  }
}
