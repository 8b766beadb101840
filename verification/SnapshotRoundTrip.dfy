/** Generating a whole snapshot, and what loading it gives back. */
module SnapshotRoundTrip {
  import opened Options
  import opened SnapshotLiterals
  import opened SnapshotImage
  import opened SnapshotWriter
  import opened SnapshotGenerate
  import opened SnapshotLoader

  datatype Result = Ok(snapshot: Snapshot) | Err(error: Error)

  /** Some function of the tree has the BigInt constant 0n, which the literal pool leaves out. */
  predicate HasBigIntZero(c: Code) { c.Function? && (BigIntZero in c.consts || KidsHaveBigIntZero(c.kids)) }

  predicate KidsHaveBigIntZero(kids: seq<Kid>) {
    kids != [] && (KidsHaveBigIntZero(kids[..|kids| - 1]) || KidHasBigIntZero(kids[|kids| - 1]))
  }

  predicate KidHasBigIntZero(kid: Kid) { kid.Sub? && HasBigIntZero(kid.code) }

  function SnapshotOf(build: Build, c: Code): Snapshot {
    var pool := AppendCode(c, []);
    Snapshot(SNAPSHOT_MAGIC, SNAPSHOT_VERSION, GlobalFlags(Contains(c, true), Contains(c, false), 0),
             SNAPSHOT_HEADER + Extent(c), [SNAPSHOT_HEADER],
             PatchImage(Entries(pool), ImageOf(build, c, SNAPSHOT_HEADER)), Table(pool))
  }

  /** Why a tree cannot be saved into a buffer of the given size. */
  function SaveError(c: Code, bufferSize: nat): Option<Error> {
    if FirstError(c, SNAPSHOT_HEADER, bufferSize).Some? then FirstError(c, SNAPSHOT_HEADER, bufferSize)
    else if TableSize(AppendCode(c, [])) > MaxTable(bufferSize, SNAPSHOT_HEADER + Extent(c)) then Some(LiteralMemory)
    else if HasBigIntZero(c) then Some(UnknownLiteral)
    else None
  }

  method GenerateSnapshot(build: Build, code: Code, bufferSize: nat) returns (r: Result)
    requires code.Function? && WellFormed(code) && SizesFit(code)
    ensures SaveError(code, bufferSize).Some? ==> r == Err(SaveError(code, bufferSize).value)
    ensures SaveError(code, bufferSize).None? ==> r == Ok(SnapshotOf(build, code))
    ensures r.Ok? ==> var end := r.snapshot.litTableOffset + |r.snapshot.table|;
              && (end <= bufferSize <==> r.snapshot.litTableOffset <= bufferSize)
              && (bufferSize % ALIGNMENT == 0 ==> end <= bufferSize)
  {
    hide FirstError, Contains, Extent, ImageOf, Entries, Table, TableSize, MaxTable, PatchBlock, HasBigIntZero, WellFormed, Walk,
      BlockOk, Patchable, Covers, SizesFit;
    var w := new Writer(build, bufferSize);
    var start := w.AddCompiledCode(code);
    if w.error.Some? {
      return Err(w.error.value);
    }
    var litTableOffset := w.writeOffset;
    assert w.blocks == ImageOf(build, code, SNAPSHOT_HEADER);
    AppendCodeCovers(code, []);
    var pool := CollectLiterals(code, []);
    var saved, table, entries := SaveLiterals(pool, bufferSize, litTableOffset);
    if !saved {
      return Err(LiteralMemory);
    }
    ReadyToPatch(build, code, SNAPSHOT_HEADER, pool);
    InsideBuffer(code, bufferSize, pool);
    var ok := SetOffsets(w, SNAPSHOT_HEADER, litTableOffset - SNAPSHOT_HEADER, entries);
    if !ok {
      return Err(UnknownLiteral);
    }
    r := Ok(Snapshot(SNAPSHOT_MAGIC, SNAPSHOT_VERSION, GlobalFlags(w.regexFound, w.classFound, 0),
                     litTableOffset, [SNAPSHOT_HEADER], w.blocks, table));
  }

  lemma BlockIsOk(build: Build, c: Code)
    requires WellFormed(c) && c.Function?
    ensures BlockOk(BlockOf(build, c))
  {
    var slots := KidSlots(c.kids, ALIGNMENT * c.size);
    KidSlotsAreChildren(c.kids, ALIGNMENT * c.size);
    var b := BlockOf(build, c);
    forall i | 0 <= i < |b.literals|
      ensures b.literals[i].Word? <==> i < |c.consts|
    {
      if i >= |c.consts| {
        assert b.literals[i] == slots[i - |c.consts|] && slots[i - |c.consts|] in slots;
      }
    }
  }

  lemma {:induction false} ImageOk(build: Build, c: Code, at: nat)
    requires WellFormed(c)
    ensures forall k <- ImageOf(build, c, at) :: BlockOk(ImageOf(build, c, at)[k])
    decreases c
  {
    if c.Function? {
      BlockIsOk(build, c);
      KidsImageOk(build, c.kids, at + OwnExtent(c));
    }
  }

  lemma {:induction false} KidsImageOk(build: Build, kids: seq<Kid>, at: nat)
    requires KidsWellFormed(kids)
    ensures forall k <- KidsImage(build, kids, at) :: BlockOk(KidsImage(build, kids, at)[k])
    decreases kids
  {
    if kids != [] {
      var init, last := kids[..|kids| - 1], kids[|kids| - 1];
      KidsImageOk(build, init, at);
      if last.Sub? {
        assert kids decreases to last;
        ImageOk(build, last.code, at + KidsExtent(init));
        assert KidImage(build, last, at + KidsExtent(init)) == ImageOf(build, last.code, at + KidsExtent(init));
      }
    }
  }

  /** What the patching walk asks of the written code, and when it succeeds. */
  lemma ReadyToPatch(build: Build, c: Code, at: nat, pool: seq<Literal>)
    requires WellFormed(c) && SizesFit(c) && AllValid(pool) && Covers(pool, c)
    ensures var image := ImageOf(build, c, at); var walk := Walk(image, at, at + Extent(c));
            && Extent(c) > 0 && walk.Some?
            && (forall k <- image :: BlockOk(image[k]))
            && (forall k :: k in image <==> k in walk.value)
            && ((forall k <- image :: Patchable(Entries(pool), image[k])) <==> !HasBigIntZero(c))
  {
    hide ImageOf, Walk, BlockOk, Patchable, Entries, HasBigIntZero, Covers;
    Tiling(build, c, ImageOf(build, c, at), at);
    PositionsAreKeys(build, c, at);
    SizeIsPositive(c);
    ImageOk(build, c, at);
    PatchableImage(build, c, at, pool);
  }

  ghost predicate AllPatchable(entries: seq<Entry>, image: Image) {
    forall k <- image :: Patchable(entries, image[k])
  }

  lemma PatchableBlock(build: Build, c: Code, pool: seq<Literal>)
    requires WellFormed(c) && AllValid(pool) && Covers(pool, c)
    ensures Patchable(Entries(pool), BlockOf(build, c)) <==> (c.RegExp? || BigIntZero !in c.consts)
  {
    hide Entries, Table, GetLiteral;
    if c.Function? {
      var b := BlockOf(build, c);
      KidSlotsAreChildren(c.kids, ALIGNMENT * c.size);
      NoEntryForZero(Entries(pool));
      forall v | v in c.consts || v in c.tail
        ensures Found(Entries(pool), v) <==> v != BigIntZero
      {
        if v.Lit? {
          assert pool[0..] == pool && Entries(pool)[0..] == Entries(pool);
          FindDecodes(pool, v.literal, 0);
        }
      }
      forall v | v in c.consts
        ensures Word(v) in b.literals
      {
        var i :| 0 <= i < |c.consts| && c.consts[i] == v;
        assert b.literals[i] == Word(v);
      }
    }
  }

  /** The patching walk finds every literal of a tree exactly when no constant of it is 0n. */
  lemma {:induction false} PatchableImage(build: Build, c: Code, at: nat, pool: seq<Literal>)
    requires WellFormed(c) && AllValid(pool) && Covers(pool, c)
    ensures AllPatchable(Entries(pool), ImageOf(build, c, at)) <==> !HasBigIntZero(c)
    decreases c
  {
    hide Entries, Patchable;
    PatchableBlock(build, c, pool);
    RootBlock(build, c, at);
    if c.Function? {
      PatchableKids(build, c.kids, at + OwnExtent(c), pool);
      ImageWithin(build, c, at);
      SizeIsPositive(c);
    }
  }

  lemma {:induction false} PatchableKids(build: Build, kids: seq<Kid>, at: nat, pool: seq<Literal>)
    requires KidsWellFormed(kids) && AllValid(pool) && KidsCovered(pool, kids)
    ensures AllPatchable(Entries(pool), KidsImage(build, kids, at)) <==> !KidsHaveBigIntZero(kids)
    decreases kids
  {
    hide Entries, Patchable;
    if kids != [] {
      var init, last := kids[..|kids| - 1], kids[|kids| - 1];
      var mid := at + KidsExtent(init);
      PatchableKids(build, init, at, pool);
      KidsDisjoint(build, kids, at);
      if last.Sub? {
        assert kids decreases to last;
        assert KidImage(build, last, mid) == ImageOf(build, last.code, mid);
        PatchableImage(build, last.code, mid, pool);
      }
      assert AllPatchable(Entries(pool), KidsImage(build, kids, at)) <==>
             AllPatchable(Entries(pool), KidsImage(build, init, at)) && AllPatchable(Entries(pool), KidImage(build, last, mid));
    }
  }

  // ----- The header tells the truth -----

  /** Some block of an image is a regular expression, or some function is a class constructor. */
  ghost predicate HasBlock(image: Image, regexp: bool) {
    exists k <- image :: IsBlock(image[k], regexp)
  }

  predicate IsBlock(b: Block, regexp: bool) {
    if regexp then b.RegExpBlock? else b.FunctionBlock? && b.flags.kind == CONSTRUCTOR
  }

  /** The feature bits of the header say what the code area holds. */
  ghost predicate HeaderTrue(s: Snapshot) {
    && (s.flags.hasRegExp <==> HasBlock(s.image, true))
    && (s.flags.hasClass <==> HasBlock(s.image, false))
  }

  lemma {:induction false} ImageContains(build: Build, c: Code, at: nat, regexp: bool)
    requires WellFormed(c)
    ensures HasBlock(ImageOf(build, c, at), regexp) <==> Contains(c, regexp)
    decreases c
  {
    hide Holds;
    RootBlock(build, c, at);
    if c.Function? {
      KidsImageContains(build, c.kids, at + OwnExtent(c), regexp);
      ImageWithin(build, c, at);
      SizeIsPositive(c);
      JoinedHasBlock(map[at := BlockOf(build, c)], KidsImage(build, c.kids, at + OwnExtent(c)), regexp);
    } else {
      assert ImageOf(build, c, at) == map[at := BlockOf(build, c)];
    }
    assert HasBlock(map[at := BlockOf(build, c)], regexp) <==> IsBlock(BlockOf(build, c), regexp);
  }

  lemma {:induction false} KidsImageContains(build: Build, kids: seq<Kid>, at: nat, regexp: bool)
    requires KidsWellFormed(kids)
    ensures HasBlock(KidsImage(build, kids, at), regexp) <==> KidsContain(kids, regexp)
    decreases kids
  {
    hide Holds, HasBlock, ImageOf, Contains;
    if kids == [] {
      NoBlock(regexp);
    } else {
      var init, last := kids[..|kids| - 1], kids[|kids| - 1];
      var mid := at + KidsExtent(init);
      KidsImageContains(build, init, at, regexp);
      KidsDisjoint(build, kids, at);
      if last.Sub? {
        assert kids decreases to last;
        assert KidImage(build, last, mid) == ImageOf(build, last.code, mid);
        ImageContains(build, last.code, mid, regexp);
      } else {
        NoBlock(regexp);
      }
      JoinedHasBlock(KidsImage(build, init, at), KidImage(build, last, mid), regexp);
    }
  }

  lemma NoBlock(regexp: bool)
    ensures !HasBlock(map[], regexp)
  {}

  lemma JoinedHasBlock(one: Image, two: Image, regexp: bool)
    requires one.Keys !! two.Keys
    ensures HasBlock(one + two, regexp) <==> HasBlock(one, regexp) || HasBlock(two, regexp)
  {
    hide IsBlock;
    var both := one + two;
    if HasBlock(one, regexp) {
      var k :| k in one && IsBlock(one[k], regexp);
      assert k in both && both[k] == one[k];
    }
    if HasBlock(two, regexp) {
      var k :| k in two && IsBlock(two[k], regexp);
      assert k in both && both[k] == two[k];
    }
  }

  /** Changing blocks but not what they are. */
  lemma SameBlocks(was: Image, now: Image, regexp: bool)
    requires now.Keys == was.Keys && forall k <- was :: IsBlock(now[k], regexp) == IsBlock(was[k], regexp)
    ensures HasBlock(now, regexp) <==> HasBlock(was, regexp)
  {
    hide IsBlock;
    if HasBlock(was, regexp) {
      var k :| k in was && IsBlock(was[k], regexp);
      assert IsBlock(now[k], regexp);
    }
  }

  /** The header of a generated snapshot names regular expressions and classes exactly if its code has them. */
  lemma GeneratedHeader(build: Build, c: Code)
    requires c.Function? && WellFormed(c)
    ensures HeaderTrue(SnapshotOf(build, c))
  {
    hide Entries, ImageOf, Contains, HasBlock, AppendCode, Extent, Table;
    var s, image := SnapshotOf(build, c), ImageOf(build, c, SNAPSHOT_HEADER);
    ImageContains(build, c, SNAPSHOT_HEADER, true);
    ImageContains(build, c, SNAPSHOT_HEADER, false);
    SameBlocks(image, s.image, true);
    SameBlocks(image, s.image, false);
  }

  // ----- The round trip -----

  /** Loading the snapshot of a tree gives that tree with stored lengths, one reference and changed flags. */
  lemma RoundTrip(build: Build, c: Code)
    requires c.Function? && WellFormed(c)
    ensures var s := SnapshotOf(build, c);
            && Load(build, s.image, s.table, s.litTableOffset, s.funcOffsets[0]) == Some(Loaded(build, c))
            && SameFlags(build, c, Loaded(build, c))
  {
    LoadedSameFlags(build, c);
    hide Load, Loaded, SameFlags, Entries, Table, ImageOf, Extent, AppendCode, Covers, WellFormed, Contains, PatchImage;
    AppendCodeCovers(c, []);
    LoadImage(build, SnapshotOf(build, c).image, AppendCode(c, []), SNAPSHOT_HEADER + Extent(c), c, SNAPSHOT_HEADER);
  }

  /** The flags of every function and regular expression of a loaded tree: those of the original, but the line-info flag
      is lost in a build that has it, and the debugger flag is set in a build with a debugger. */
  predicate SameFlags(build: Build, c: Code, loaded: Code) {
    match c
    case RegExp(flags, _) => loaded.RegExp? && loaded.flags == flags
    case Function(_, _, flags, _, _, _, kids, _) =>
      && loaded.Function?
      && loaded.flags.kind == flags.kind && loaded.flags.uint16Args == flags.uint16Args && loaded.flags.mapped == flags.mapped
      && loaded.flags.tagged == flags.tagged && loaded.flags.isStatic == flags.isStatic && loaded.flags.rest == flags.rest
      && loaded.flags.lineInfo == (flags.lineInfo && !build.lineInfo)
      && loaded.flags.debuggerIgnore == (flags.debuggerIgnore || build.debugger)
      && KidsSameFlags(build, kids, loaded.kids)
  }

  predicate KidsSameFlags(build: Build, kids: seq<Kid>, loaded: seq<Kid>) {
    |loaded| == |kids| &&
    (kids == [] || (KidsSameFlags(build, kids[..|kids| - 1], loaded[..|kids| - 1])
                    && KidSameFlags(build, kids[|kids| - 1], loaded[|kids| - 1])))
  }

  predicate KidSameFlags(build: Build, kid: Kid, loaded: Kid) {
    if kid.Self? then loaded.Self? else loaded.Sub? && SameFlags(build, kid.code, loaded.code)
  }

  lemma {:induction false} LoadedSameFlags(build: Build, c: Code)
    ensures SameFlags(build, c, Loaded(build, c))
    decreases c
  {
    if c.Function? {
      LoadedKidsSameFlags(build, c.kids);
    }
  }

  lemma {:induction false} LoadedKidsSameFlags(build: Build, kids: seq<Kid>)
    ensures KidsSameFlags(build, kids, LoadedKids(build, kids))
    decreases kids
  {
    if kids != [] {
      var init, last := kids[..|kids| - 1], kids[|kids| - 1];
      var loaded := LoadedKids(build, kids);
      LoadedKidsSameFlags(build, init);
      assert loaded[..|kids| - 1] == LoadedKids(build, init) && loaded[|kids| - 1] == LoadedKid(build, last);
      if last.Sub? {
        assert kids decreases to last;
        LoadedSameFlags(build, last.code);
      }
    }
  }

  /** The same tree with one reference everywhere, the line-info flag cleared and the debugger flag set. */
  function Normalized(build: Build, c: Code): Code {
    match c
    case RegExp(_, _) => c
    case Function(size, _, flags, args, body, consts, kids, tail) =>
      Function(size, 1,
               Flags(flags.kind, flags.uint16Args, flags.mapped, flags.tagged, flags.lineInfo && !build.lineInfo,
                     flags.isStatic, flags.debuggerIgnore || build.debugger, flags.rest),
               args, body, consts, NormalizedKids(build, kids), tail)
  }

  function NormalizedKids(build: Build, kids: seq<Kid>): (r: seq<Kid>)
    ensures |r| == |kids|
  {
    if kids == [] then [] else NormalizedKids(build, kids[..|kids| - 1]) + [NormalizedKid(build, kids[|kids| - 1])]
  }

  function NormalizedKid(build: Build, kid: Kid): Kid {
    if kid.Self? then Self else Sub(Normalized(build, kid.code))
  }

  predicate ShortValue(v: Value) { v.Lit? && v.literal.Str? ==> |v.literal.chars| < 0x1_0000 }

  predicate ShortValues(vs: seq<Value>) { forall v <- vs :: ShortValue(v) }

  /** Every string literal and every pattern of the tree is shorter than 65536 bytes. */
  predicate Storable(c: Code) {
    match c
    case RegExp(_, pattern) => |pattern| < 0x1_0000
    case Function(_, _, _, _, _, consts, kids, tail) => ShortValues(consts) && ShortValues(tail) && KidsStorable(kids)
  }

  predicate KidsStorable(kids: seq<Kid>) {
    kids == [] || (KidsStorable(kids[..|kids| - 1]) && KidStorable(kids[|kids| - 1]))
  }

  predicate KidStorable(kid: Kid) { kid.Sub? ==> Storable(kid.code) }

  lemma StoredValuesExactly(vs: seq<Value>)
    ensures StoredValues(vs) == vs <==> ShortValues(vs)
  {
    forall v | v in vs
      ensures StoredValue(v) == v <==> ShortValue(v)
    {
      if v.Lit? {
        StoredExactly(v.literal);
      }
    }
    if StoredValues(vs) == vs {
      forall v | v in vs
        ensures ShortValue(v)
      {
        var i :| 0 <= i < |vs| && vs[i] == v;
        assert StoredValues(vs)[i] == StoredValue(vs[i]);
      }
    }
  }

  /** A tree comes back the same exactly when all its strings and patterns are short. */
  lemma {:induction false} LoadedExactly(build: Build, c: Code)
    ensures Loaded(build, c) == Normalized(build, c) <==> Storable(c)
    decreases c
  {
    match c
    case RegExp(flags, pattern) =>
      if |pattern| >= 0x1_0000 {
        assert |Loaded(build, c).pattern| < |pattern|;
      }
    case Function(_, _, _, _, _, consts, kids, tail) =>
      StoredValuesExactly(consts);
      StoredValuesExactly(tail);
      LoadedKidsExactly(build, kids);
  }

  lemma {:induction false} LoadedKidsExactly(build: Build, kids: seq<Kid>)
    ensures LoadedKids(build, kids) == NormalizedKids(build, kids) <==> KidsStorable(kids)
    decreases kids
  {
    if kids != [] {
      var init, last := kids[..|kids| - 1], kids[|kids| - 1];
      LoadedKidsExactly(build, init);
      if last.Sub? {
        assert kids decreases to last;
        LoadedExactly(build, last.code);
      }
      var l, n := LoadedKids(build, kids), NormalizedKids(build, kids);
      assert l[..|kids| - 1] == LoadedKids(build, init) && l[|kids| - 1] == LoadedKid(build, last);
      assert n[..|kids| - 1] == NormalizedKids(build, init) && n[|kids| - 1] == NormalizedKid(build, last);
    }
  }

  /** The snapshot round trip is the identity, up to references and two flags, exactly on storable trees. */
  lemma RoundTripExactly(build: Build, c: Code)
    requires c.Function? && WellFormed(c)
    ensures var s := SnapshotOf(build, c);
            Load(build, s.image, s.table, s.litTableOffset, s.funcOffsets[0]) == Some(Normalized(build, c)) <==> Storable(c)
  {
    RoundTrip(build, c);
    LoadedExactly(build, c);
  }

  // ----- What the writer refuses -----

  /** Every block starts and ends inside the buffer, before the final alignment of a regular expression. */
  predicate Fits(c: Code, at: nat, bufferSize: nat) {
    && at <= MAX_WRITE_OFFSET
    && (match c
        case RegExp(_, pattern) => at + CODE_HEADER + |pattern| <= bufferSize
        case Function(_, _, _, _, _, _, kids, _) =>
          at + OwnExtent(c) <= bufferSize && KidsFit(kids, at + OwnExtent(c), bufferSize))
  }

  predicate KidsFit(kids: seq<Kid>, at: nat, bufferSize: nat) {
    kids == [] || (KidsFit(kids[..|kids| - 1], at, bufferSize)
                   && KidFits(kids[|kids| - 1], at + KidsExtent(kids[..|kids| - 1]), bufferSize))
  }

  predicate KidFits(kid: Kid, at: nat, bufferSize: nat) { kid.Sub? ==> Fits(kid.code, at, bufferSize) }

  /** Bit 6 is set somewhere: tagged templates in a function, or the dotAll flag of a regular expression. */
  predicate HasBit6(c: Code) { c.flags.tagged || (c.Function? && KidsHaveBit6(c.kids)) }

  predicate KidsHaveBit6(kids: seq<Kid>) {
    kids != [] && (KidsHaveBit6(kids[..|kids| - 1]) || KidHasBit6(kids[|kids| - 1]))
  }

  predicate KidHasBit6(kid: Kid) { kid.Sub? && HasBit6(kid.code) }

  lemma {:induction false} WritesExactly(c: Code, at: nat, bufferSize: nat)
    ensures FirstError(c, at, bufferSize).None? <==> Fits(c, at, bufferSize) && !HasBit6(c)
    decreases c
  {
    if c.Function? {
      KidsWriteExactly(c.kids, at + OwnExtent(c), bufferSize);
    }
  }

  /** And the error that it reports is true: bit 6 is set, or code does not fit the buffer or the range of offsets. */
  lemma {:induction false} ErrorsAreTrue(c: Code, at: nat, bufferSize: nat)
    ensures FirstError(c, at, bufferSize) == Some(TaggedLiterals) ==> HasBit6(c)
    ensures FirstError(c, at, bufferSize) == Some(BufferTooSmall) ==> at + Extent(c) > bufferSize
    ensures FirstError(c, at, bufferSize) == Some(MaximumSize) ==> at + Extent(c) > MAX_WRITE_OFFSET
    ensures FirstError(c, at, bufferSize).Some? ==>
              FirstError(c, at, bufferSize).value in {TaggedLiterals, BufferTooSmall, MaximumSize}
    decreases c
  {
    if c.Function? {
      KidsErrorsAreTrue(c.kids, at + OwnExtent(c), bufferSize);
    }
  }

  lemma {:induction false} KidsErrorsAreTrue(kids: seq<Kid>, at: nat, bufferSize: nat)
    ensures KidsFirstError(kids, at, bufferSize) == Some(TaggedLiterals) ==> KidsHaveBit6(kids)
    ensures KidsFirstError(kids, at, bufferSize) == Some(BufferTooSmall) ==> at + KidsExtent(kids) > bufferSize
    ensures KidsFirstError(kids, at, bufferSize) == Some(MaximumSize) ==> at + KidsExtent(kids) > MAX_WRITE_OFFSET
    ensures KidsFirstError(kids, at, bufferSize).Some? ==>
              KidsFirstError(kids, at, bufferSize).value in {TaggedLiterals, BufferTooSmall, MaximumSize}
    decreases kids
  {
    if kids != [] {
      var init, last := kids[..|kids| - 1], kids[|kids| - 1];
      KidsErrorsAreTrue(init, at, bufferSize);
      var mid, before := at + KidsExtent(init), KidsFirstError(init, at, bufferSize);
      assert KidsFirstError(kids, at, bufferSize) == if before.Some? then before else KidFirstError(last, mid, bufferSize);
      assert KidsExtent(kids) == KidsExtent(init) + KidExtent(last);
      assert KidsHaveBit6(kids) == (KidsHaveBit6(init) || KidHasBit6(last));
      if last.Sub? {
        assert kids decreases to last;
        ErrorsAreTrue(last.code, mid, bufferSize);
        assert KidFirstError(last, mid, bufferSize) == FirstError(last.code, mid, bufferSize);
        assert KidExtent(last) == Extent(last.code) && KidHasBit6(last) == HasBit6(last.code);
      } else {
        assert KidFirstError(last, mid, bufferSize) == None;
      }
    }
  }

  lemma {:induction false} KidsWriteExactly(kids: seq<Kid>, at: nat, bufferSize: nat)
    ensures KidsFirstError(kids, at, bufferSize).None? <==> KidsFit(kids, at, bufferSize) && !KidsHaveBit6(kids)
    decreases kids
  {
    if kids != [] {
      var init, last := kids[..|kids| - 1], kids[|kids| - 1];
      KidsWriteExactly(init, at, bufferSize);
      if last.Sub? {
        assert kids decreases to last;
        WritesExactly(last.code, at + KidsExtent(init), bufferSize);
      }
    }
  }

  // ----- Staying inside the buffer -----

  /** The checks leave out the final padding, so code can end behind the buffer, but not behind its next aligned address. */
  lemma {:induction false} EndsAligned(c: Code, at: nat, bufferSize: nat)
    requires at % ALIGNMENT == 0 && Fits(c, at, bufferSize)
    ensures at + Extent(c) <= AlignUp(bufferSize)
    decreases c
  {
    hide AlignUp;
    if c.Function? {
      AlignMore(at + OwnExtent(c), bufferSize);
      KidsEndAligned(c.kids, at + OwnExtent(c), bufferSize);
    } else {
      AlignMore(at + CODE_HEADER + |c.pattern|, bufferSize);
      AlignShift(at, CODE_HEADER + |c.pattern|);
    }
  }

  lemma {:induction false} KidsEndAligned(kids: seq<Kid>, at: nat, bufferSize: nat)
    requires at % ALIGNMENT == 0 && at <= AlignUp(bufferSize) && KidsFit(kids, at, bufferSize)
    ensures at + KidsExtent(kids) <= AlignUp(bufferSize)
    decreases kids
  {
    hide AlignUp, Fits, Extent;
    if kids != [] {
      var init, last := kids[..|kids| - 1], kids[|kids| - 1];
      KidsEndAligned(init, at, bufferSize);
      if last.Sub? {
        assert kids decreases to last;
        EndsAligned(last.code, at + KidsExtent(init), bufferSize);
      }
    }
  }

  lemma AlignMore(n: nat, m: nat)
    ensures n <= m ==> AlignUp(n) <= AlignUp(m)
    ensures n % ALIGNMENT == 0 ==> AlignUp(n) == n
  {}

  lemma AlignShift(at: nat, n: nat)
    requires at % ALIGNMENT == 0
    ensures AlignUp(at + n) == at + AlignUp(n)
  {}

  /** A snapshot that is saved stays inside its buffer exactly if its code does, and always if the buffer size is aligned. */
  lemma InsideBuffer(c: Code, bufferSize: nat, pool: seq<Literal>)
    requires c.Function? && WellFormed(c) && FirstError(c, SNAPSHOT_HEADER, bufferSize).None?
    requires AllValid(pool) && TableSize(pool) <= MaxTable(bufferSize, SNAPSHOT_HEADER + Extent(c))
    ensures var end := SNAPSHOT_HEADER + Extent(c) + |Table(pool)|;
            && (end <= bufferSize <==> SNAPSHOT_HEADER + Extent(c) <= bufferSize)
            && (bufferSize % ALIGNMENT == 0 ==> end <= bufferSize)
  {
    hide FirstError, Fits, HasBit6, Extent, Table, TableSize, MaxTable, AlignUp;
    WritesExactly(c, SNAPSHOT_HEADER, bufferSize);
    EndsAligned(c, SNAPSHOT_HEADER, bufferSize);
    AlignMore(bufferSize, bufferSize);
    TableLength(pool);
    TableLimit(bufferSize, SNAPSHOT_HEADER + Extent(c));
  }

  /** When a tree can be saved, and that the error is true otherwise. */
  lemma SavesExactly(c: Code, bufferSize: nat)
    requires c.Function? && WellFormed(c)
    ensures var end, table := SNAPSHOT_HEADER + Extent(c), Table(AppendCode(c, []));
            SaveError(c, bufferSize).None? <==>
              && Fits(c, SNAPSHOT_HEADER, bufferSize) && !HasBit6(c) && !HasBigIntZero(c)
              && |table| <= MAX_TABLE_SIZE && (end <= bufferSize ==> end + |table| <= bufferSize)
    ensures SaveError(c, bufferSize) == Some(UnknownLiteral) ==> HasBigIntZero(c)
    ensures SaveError(c, bufferSize) == Some(LiteralMemory) ==>
              var end, table := SNAPSHOT_HEADER + Extent(c), Table(AppendCode(c, []));
              |table| > MAX_TABLE_SIZE || end + |table| > bufferSize
  {
    hide FirstError, Fits, HasBit6, Extent, Table, TableSize, AlignUp, HasBigIntZero, WellFormed, AppendCode;
    var end := SNAPSHOT_HEADER + Extent(c);
    WritesExactly(c, SNAPSHOT_HEADER, bufferSize);
    ErrorsAreTrue(c, SNAPSHOT_HEADER, bufferSize);
    AppendCodeCovers(c, []);
    TableLength(AppendCode(c, []));
    if Fits(c, SNAPSHOT_HEADER, bufferSize) {
      EndsAligned(c, SNAPSHOT_HEADER, bufferSize);
      AlignMore(bufferSize, bufferSize);
      TableLimit(bufferSize, end);
    }
  }

  // ----- Witnesses -----

  const PLAIN := Flags(1, false, false, false, false, false, false, 0)
  const ANY_CHARACTER := RegExp(PLAIN.(kind := REGULAR_EXPRESSION), [46])
  const DOT_ALL := ANY_CHARACTER.(flags := ANY_CHARACTER.flags.(tagged := true))

  /** A script without a name: at most one constant, and at most one regular expression. */
  function Script(size: nat, consts: seq<Value>, kids: seq<Kid>): Code {
    Function(size, 1, PLAIN, Arguments(0, 0, |consts|, |consts| + |kids|), [], consts, kids, [Empty])
  }

  lemma OneWord(v: Value, pool: seq<Literal>)
    ensures AppendWords([v], pool) == AppendWord(v, pool)
  {
    assert [v][..0] == [] && AppendWords([], pool) == pool;
  }

  lemma ScriptPool(size: nat, consts: seq<Value>, kids: seq<Kid>)
    requires |consts| <= 1 && |kids| <= 1 && forall kid <- kids :: kid.Sub? && kid.code.RegExp?
    ensures AppendCode(Script(size, consts, kids), []) == if consts != [] then AppendWord(consts[0], []) else []
  {
    OneWord(Empty, AppendWords(consts, []));
    if consts != [] {
      assert consts == [consts[0]];
      OneWord(consts[0], []);
    }
    var pool := AppendWords(consts, []);
    if kids != [] {
      assert kids[..0] == [] && kids[0] in kids;
      assert AppendKids([], pool) == pool && AppendKid(kids[0], pool) == AppendCode(kids[0].code, pool) == pool;
    }
    assert AppendKids(kids, pool) == pool;
  }

  lemma OneRegExp(r: Code)
    requires r.RegExp?
    ensures KidsExtent([Sub(r)]) == Extent(r)
    ensures forall at: nat, size: nat :: KidsFirstError([Sub(r)], at, size) == FirstError(r, at, size)
    ensures KidsWellFormed([Sub(r)]) == WellFormed(r) && !KidsHaveBigIntZero([Sub(r)])
  {
    hide FirstError;
    var kids := [Sub(r)];
    assert kids[..0] == [];
    assert KidsWellFormed([]) && KidsWellFormed(kids) == KidWellFormed(kids[0]);
    assert !KidsHaveBigIntZero([]) && !KidHasBigIntZero(kids[0]);
    forall at: nat, size: nat
      ensures KidsFirstError(kids, at, size) == FirstError(r, at, size)
    {
      assert KidsFirstError(kids, at, size) == KidFirstError(kids[0], at + KidsExtent([]), size);
    }
  }

  lemma AtTheRoot(c: Code, bufferSize: nat)
    requires c.Function? && !c.flags.tagged && SNAPSHOT_HEADER + OwnExtent(c) <= bufferSize
    ensures FirstError(c, SNAPSHOT_HEADER, bufferSize) == KidsFirstError(c.kids, SNAPSHOT_HEADER + OwnExtent(c), bufferSize)
    ensures Extent(c) == OwnExtent(c) + KidsExtent(c.kids)
    ensures HasBigIntZero(c) == (BigIntZero in c.consts || KidsHaveBigIntZero(c.kids))
  {}

  /** A script with one string and the literal /./ needs 68 bytes, and is saved into 63. */
  lemma SavedPastTheEnd()
    ensures var script := Script(4, [Lit(Str([65]))], [Sub(ANY_CHARACTER)]);
            && WellFormed(script) && SaveError(script, 63) == None
            && SNAPSHOT_HEADER + Extent(script) + |Table(AppendCode(script, []))| == 68
  {
    hide KidsExtent, KidsFirstError, KidsWellFormed, KidsHaveBigIntZero, AppendCode, Table, TableSize, HasBigIntZero;
    OneRegExp(ANY_CHARACTER);
    ScriptPool(4, [Lit(Str([65]))], [Sub(ANY_CHARACTER)]);
    AtTheRoot(Script(4, [Lit(Str([65]))], [Sub(ANY_CHARACTER)]), 63);
    assert AppendWord(Lit(Str([65])), []) == [Str([65])];
    OneLetterTable();
    TableLimit(63, 64);
  }

  lemma OneLetterTable()
    ensures |Table([Str([65])])| == TableSize([Str([65])]) == 4
  {
    var pool := [Str([65])];
    assert pool[..0] == [] && TableSize([]) == 0;
    TableLength(pool);
  }

  /** A script with the constant 0n: its search runs off the literal map, whatever the size of the buffer. */
  lemma BigIntZeroIsNotFound(bufferSize: nat)
    requires bufferSize >= 1000
    ensures var script := Script(3, [BigIntZero], []);
            WellFormed(script) && SaveError(script, bufferSize) == Some(UnknownLiteral)
  {
    ScriptPool(3, [BigIntZero], []);
    AtTheRoot(Script(3, [BigIntZero], []), bufferSize);
    assert KidsFirstError([], 48, bufferSize) == None && KidsExtent([]) == 0 && KidsWellFormed([]);
    TableLimit(bufferSize, 48);
    assert BigIntZero in [BigIntZero];
  }

  /** A script with the literal /./s and no template literal at all is refused, whatever the size of the buffer. */
  lemma DotAllIsRefused(bufferSize: nat)
    requires bufferSize >= 1000
    ensures var script := Script(3, [], [Sub(DOT_ALL)]);
            WellFormed(script) && SaveError(script, bufferSize) == Some(TaggedLiterals)
  {
    hide KidsFirstError, KidsWellFormed;
    OneRegExp(DOT_ALL);
    AtTheRoot(Script(3, [], [Sub(DOT_ALL)]), bufferSize);
  }
}
