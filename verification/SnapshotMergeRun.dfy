/** Running the merger, and the snapshots it accepts: generated ones and its own results. */
module SnapshotMergeRun {
  import opened Options
  import opened MachineWords
  import opened SnapshotLiterals
  import opened SnapshotImage
  import opened SnapshotWriter
  import opened SnapshotGenerate
  import opened SnapshotLoader
  import opened SnapshotRoundTrip
  import opened SnapshotMerge
  import opened SnapshotRebase
  import opened SnapshotMerger

  // ----- Generated snapshots are valid inputs -----

  lemma PatchedIsValid(pool: seq<Literal>, flags: Flags, v: Value)
    requires AllValid(pool) && !v.Offset? && (v.Lit? ==> v.literal in pool) && !flags.isStatic
    ensures ValueValid(Table(pool), flags, Patch(Entries(pool), v))
  {
    hide Table, Entries, GetLiteral;
    PatchedLoads(pool, v);
    if v.Lit? {
      assert pool[0..] == pool && Entries(pool)[0..] == Entries(pool);
      FindDecodes(pool, v.literal, 0);
    } else if v.BigIntZero? {
      NoEntryForZero(Entries(pool));
    }
  }

  lemma PatchedBlockValid(build: Build, c: Code, pool: seq<Literal>)
    requires WellFormed(c) && AllValid(pool) && Covers(pool, c)
    ensures BlockValid(Table(pool), PatchBlock(Entries(pool), BlockOf(build, c)))
  {
    hide Table, Entries, GetLiteral, Patch, ValueValid;
    if c.Function? {
      PatchedSlots(build, c, Entries(pool));
      KidSlotsAreChildren(c.kids, ALIGNMENT * c.size);
      var b, n := PatchBlock(Entries(pool), BlockOf(build, c)), |c.consts|;
      forall i | 0 <= i < |b.literals|
        ensures if i < n then b.literals[i].Word? && ValueValid(Table(pool), b.flags, b.literals[i].value) else b.literals[i].Child?
      {
        if i < n {
          assert b.literals[..n][i] == b.literals[i];
          assert c.consts[i] in c.consts;
          PatchedIsValid(pool, b.flags, c.consts[i]);
        } else {
          assert b.literals[n..][i - n] == b.literals[i];
          assert KidSlots(c.kids, ALIGNMENT * c.size)[i - n] in KidSlots(c.kids, ALIGNMENT * c.size);
        }
      }
      forall v | v in b.tail
        ensures ValueValid(Table(pool), b.flags, v)
      {
        var i :| 0 <= i < |b.tail| && b.tail[i] == v;
        assert c.tail[i] in c.tail;
        PatchedIsValid(pool, b.flags, c.tail[i]);
      }
    }
  }

  ghost predicate GoodBlock(pool: seq<Literal>, b: Block) { BlockValid(Table(pool), PatchBlock(Entries(pool), b)) }

  /** The blocks of a part of an image are valid once patched, and their children lie in the image. */
  ghost predicate GoodPart(pool: seq<Literal>, part: Image, image: Image) {
    forall k <- part :: GoodBlock(pool, part[k]) && ChildrenIn(part[k], k, image)
  }

  lemma GoodJoin(pool: seq<Literal>, one: Image, two: Image, image: Image)
    requires GoodPart(pool, one, image) && GoodPart(pool, two, image)
    ensures GoodPart(pool, one + two, image)
  {
    hide GoodBlock, ChildrenIn;
  }

  /** Every block of a written tree is valid once patched, and its children lie in the tree's image. */
  lemma {:induction false} ImageIsValid(build: Build, c: Code, at: nat, pool: seq<Literal>, image: Image)
    requires WellFormed(c) && AllValid(pool) && Covers(pool, c) && ImageOf(build, c, at).Keys <= image.Keys
    ensures GoodPart(pool, ImageOf(build, c, at), image)
    decreases c
  {
    hide BlockValid, GoodPart, Holds, Within;
    GoodRoot(build, c, at, pool, image);
    if c.Function? {
      var own := at + OwnExtent(c);
      ImageWithin(build, c, at);
      KidsImageIsValid(build, c.kids, own, pool, image);
      GoodJoin(pool, map[at := BlockOf(build, c)], KidsImage(build, c.kids, own), image);
    } else {
      assert ImageOf(build, c, at) == map[at := BlockOf(build, c)];
    }
  }

  lemma GoodRoot(build: Build, c: Code, at: nat, pool: seq<Literal>, image: Image)
    requires WellFormed(c) && AllValid(pool) && Covers(pool, c)
    requires c.Function? ==> KidsImage(build, c.kids, at + OwnExtent(c)).Keys <= image.Keys
    ensures GoodPart(pool, map[at := BlockOf(build, c)], image)
  {
    hide BlockValid;
    PatchedBlockValid(build, c, pool);
    if c.Function? {
      KidSlotsInside(build, c.kids, at, ALIGNMENT * c.size);
    }
  }

  lemma {:induction false} KidsImageIsValid(build: Build, kids: seq<Kid>, at: nat, pool: seq<Literal>, image: Image)
    requires KidsWellFormed(kids) && AllValid(pool) && KidsCovered(pool, kids) && KidsImage(build, kids, at).Keys <= image.Keys
    ensures GoodPart(pool, KidsImage(build, kids, at), image)
    decreases kids
  {
    hide GoodPart, ImageOf, Holds, Within;
    if kids == [] {
      GoodNone(pool, image);
    } else {
      var init, last := kids[..|kids| - 1], kids[|kids| - 1];
      var mid := at + KidsExtent(init);
      KidsDisjoint(build, kids, at);
      KidsImageIsValid(build, init, at, pool, image);
      if last.Sub? {
        assert kids decreases to last;
        assert KidImage(build, last, mid) == ImageOf(build, last.code, mid);
        ImageIsValid(build, last.code, mid, pool, image);
      } else {
        GoodNone(pool, image);
      }
      GoodJoin(pool, KidsImage(build, init, at), KidImage(build, last, mid), image);
    }
  }

  lemma GoodNone(pool: seq<Literal>, image: Image)
    ensures GoodPart(pool, map[], image)
  {}

  predicate ChildrenIn(b: Block, at: nat, image: Image) {
    b.FunctionBlock? ==> forall s <- b.literals :: s.Child? && s.offset != 0 ==> at + s.offset in image
  }

  /** Child offsets point at the first block of each child. */
  lemma {:induction false} KidSlotsInside(build: Build, kids: seq<Kid>, at: nat, from: nat)
    requires KidsWellFormed(kids)
    ensures forall s <- KidSlots(kids, from) :: s.Child? && (s.offset != 0 ==> at + s.offset in KidsImage(build, kids, at + from))
  {
    if kids != [] {
      var init, last := kids[..|kids| - 1], kids[|kids| - 1];
      KidSlotsInside(build, init, at, from);
      KidsDisjoint(build, kids, at + from);
      if last.Sub? {
        RootBlock(build, last.code, at + from + KidsExtent(init));
        assert KidImage(build, last, at + from + KidsExtent(init)) == ImageOf(build, last.code, at + from + KidsExtent(init));
      }
    }
  }

  lemma PatchKeepsShape(entries: seq<Entry>, b: Block, at: nat, image: Image)
    requires ChildrenIn(b, at, image)
    ensures ChildrenIn(PatchBlock(entries, b), at, image) && PatchBlock(entries, b).size == b.size
  {
    hide Patch;
    var p := PatchBlock(entries, b);
    if p.FunctionBlock? {
      forall s | s in p.literals && s.Child? && s.offset != 0
        ensures at + s.offset in image
      {
        var i :| 0 <= i < |p.literals| && p.literals[i] == s;
        assert b.literals[i] == s;
      }
    }
  }

  /** A generated snapshot is a valid input of the merger. */
  lemma GeneratedIsValid(build: Build, c: Code)
    requires c.Function? && WellFormed(c) && SizesFit(c) && SNAPSHOT_HEADER + Extent(c) < 0x1_0000_0000
    ensures Valid(SnapshotOf(build, c))
  {
    hide BlockValid, GoodBlock, Table, Entries, Patch, Walk, AppendCode, ChildrenIn, PatchBlock;
    var pool, at := AppendCode(c, []), SNAPSHOT_HEADER;
    var s, image := SnapshotOf(build, c), ImageOf(build, c, at);
    AppendCodeCovers(c, []);
    Tiling(build, c, image, at);
    PositionsAreKeys(build, c, at);
    SizeIsPositive(c);
    RootBlock(build, c, at);
    ImageIsValid(build, c, at, pool, s.image);
    forall k | k in s.image
      ensures BlockValid(s.table, s.image[k]) && ChildrenInside(s.image, k) && s.image[k].size == image[k].size
    {
      assert GoodBlock(pool, image[k]) && ChildrenIn(image[k], k, s.image);
      PatchKeepsShape(Entries(pool), image[k], k, s.image);
      Unfold(pool, image[k], k, s.image);
    }
    WalkSameSizes(image, s.image, at, at + Extent(c));
  }

  lemma Unfold(pool: seq<Literal>, b: Block, at: nat, image: Image)
    requires GoodBlock(pool, b) && at in image && image[at] == PatchBlock(Entries(pool), b) && ChildrenIn(image[at], at, image)
    ensures BlockValid(Table(pool), image[at]) && ChildrenInside(image, at)
  {}

  // ----- The merger -----

  predicate HeaderOk(s: Snapshot) {
    s.magic == SNAPSHOT_MAGIC && s.version == SNAPSHOT_VERSION && s.flags.features == 0
  }

  ghost predicate Inputs(inputs: seq<Snapshot>, sizes: seq<nat>) {
    |sizes| == |inputs| && forall i | 0 <= i < |inputs| :: HeaderOk(inputs[i]) ==> Valid(inputs[i])
  }

  /** The first input the merger turns down, checking sizes before headers. */
  ghost function BadInput(inputs: seq<Snapshot>, sizes: seq<nat>): Option<MergeError>
    requires |sizes| == |inputs|
  {
    if inputs == [] then None else
      var n := |inputs| - 1;
      var before := BadInput(inputs[..n], sizes[..n]);
      if before.Some? then before
      else if sizes[n] < SNAPSHOT_HEADER then Some(InvalidFile)
      else if !HeaderOk(inputs[n]) then Some(InvalidVersion)
      else None
  }

  lemma {:induction false} BadInputStays(inputs: seq<Snapshot>, sizes: seq<nat>, n: nat)
    requires |sizes| == |inputs| && n <= |inputs|
    ensures BadInput(inputs[..n], sizes[..n]).Some? ==> BadInput(inputs, sizes) == BadInput(inputs[..n], sizes[..n])
  {
    if n == |inputs| {
      assert inputs[..n] == inputs && sizes[..n] == sizes;
    } else {
      var last := |inputs| - 1;
      BadInputStays(inputs[..last], sizes[..last], n);
      assert inputs[..last][..n] == inputs[..n] && sizes[..last][..n] == sizes[..n];
    }
  }

  lemma {:induction false} GoodInputsAreValid(inputs: seq<Snapshot>, sizes: seq<nat>)
    requires Inputs(inputs, sizes) && BadInput(inputs, sizes).None?
    ensures AllInputsValid(inputs)
  {
    hide Valid;
    if inputs != [] {
      var n := |inputs| - 1;
      assert forall i | 0 <= i < n :: inputs[..n][i] == inputs[i];
      GoodInputsAreValid(inputs[..n], sizes[..n]);
    }
  }

  ghost function MergeErrorOf(inputs: seq<Snapshot>, sizes: seq<nat>, outSize: nat): Option<MergeError>
    requires Inputs(inputs, sizes)
  {
    if |inputs| < 2 then Some(TooFew)
    else if BadInput(inputs, sizes).Some? then BadInput(inputs, sizes)
    else
      GoodInputsAreValid(inputs, sizes);
      var m := Merged(inputs);
      if m.litTableOffset >= outSize then Some(OutputTooSmall)
      else if TableSize(PoolOf(inputs)) > MaxTable(outSize, m.litTableOffset) then Some(LiteralsTooBig)
      else None
  }

  /** The new offsets of the literals in one block of the copied area. */
  method UpdateBlock(entries: seq<Entry>, table: seq<Byte>, b: Block) returns (r: Block)
    requires BlockValid(table, b)
    requires forall v <- LiteralValues(b) :: v.Offset? ==> Find(entries, Lit(GetLiteral(table, v.word).value)).Some?
    ensures r == RelitBlock(entries, table, b)
  {
    hide GetLiteral, Find;
    r := b;
    if b.FunctionBlock? && !b.flags.isStatic {
      ValidValues(table, b);
      var constLiteralEnd := b.args.constLiteralEnd - b.args.registerEnd;
      var literals, tail := b.literals, b.tail;
      ghost var consts := SlotValues(b.literals[..constLiteralEnd]).value;
      for i := 0 to constLiteralEnd
        invariant |literals| == |b.literals|
        invariant forall j | 0 <= j < i :: literals[j] == Word(Relit(entries, table, b.literals[j].value))
        invariant forall j | i <= j < |literals| :: literals[j] == b.literals[j]
      {
        assert b.literals[i] == Word(consts[i]) && consts[i] in LiteralValues(b);
        if literals[i].value.Offset? {
          var found := FindOffset(entries, Lit(GetLiteral(table, literals[i].value.word).value));
          literals := literals[i := Word(Offset(found.value))];
        }
      }
      for i := 0 to |tail|
        invariant |tail| == |b.tail|
        invariant forall j | 0 <= j < i :: tail[j] == Relit(entries, table, b.tail[j])
        invariant forall j | i <= j < |tail| :: tail[j] == b.tail[j]
      {
        assert b.tail[i] in LiteralValues(b);
        if tail[i].Offset? {
          var found := FindOffset(entries, Lit(GetLiteral(table, tail[i].word).value));
          tail := tail[i := Offset(found.value)];
        }
      }
      assert literals == RelitSlots(entries, table, b.literals);
      assert tail == RelitTail(entries, table, b.tail);
      r := b.(literals := literals, tail := tail);
    }
  }

  class Merger {
    var blocks: Image
    var funcOffsets: seq<nat>

    constructor ()
      ensures blocks == map[] && funcOffsets == []
    {
      blocks, funcOffsets := map[], [];
    }

    /** Updates the literal offsets of the code area from..to in place, stepping by the size fields. */
    method UpdateLiteralOffsets(from: nat, to: nat, pool: seq<Literal>, entries: seq<Entry>, table: seq<Byte>)
      requires from < to && Walk(blocks, from, to).Some? && AllValid(pool) && entries == Entries(pool)
      requires forall k <- blocks :: k >= from ==>
                 k in Walk(blocks, from, to).value && BlockValid(table, blocks[k]) && PoolHas(pool, table, blocks[k])
      modifies this`blocks
      ensures blocks.Keys == old(blocks.Keys)
      ensures forall k <- blocks :: blocks[k] == if k >= from then RelitBlock(entries, table, old(blocks)[k]) else old(blocks)[k]
    {
      hide RelitBlock, BlockValid, PoolHas, Walk, Entries;
      var at := from;
      ghost var was := blocks;
      while at < to
        invariant from <= at <= to && blocks.Keys == was.Keys && Walk(was, at, to).Some?
        invariant forall k <- was :: k >= at ==> k in Walk(was, at, to).value
        invariant forall k <- was :: blocks[k] == if from <= k < at then RelitBlock(entries, table, was[k]) else was[k]
      {
        WalkStep(was, at, to);
        var block := blocks[at];
        FindableIn(pool, table, block);
        var updated := UpdateBlock(entries, table, block);
        blocks := blocks[at := updated];
        at := at + ALIGNMENT * block.size;
      }
      EmptyWalk(was, to);
    }

    /** Copies one input's code area to `dst` and updates its literals there. */
    method CopyArea(s: Snapshot, dst: nat, pool: seq<Literal>, entries: seq<Entry>)
      requires Valid(s) && AllValid(pool) && entries == Entries(pool) && PoolServes(pool, s)
      requires Within(blocks, 0, dst)
      modifies `blocks
      ensures blocks == old(blocks) + Rebased(s, dst, entries)
    {
      hide RelitBlock, BlockValid, PoolHas, Walk, Entries, Rebased, Copied, RelitImage, ChildrenInside;
      CopiedArea(s, dst, pool);
      KeysInside(s);
      ghost var was := blocks;
      blocks := blocks + Copied(s, dst);
      CopiedWalk(s, dst, blocks);
      assert forall k <- blocks :: k >= dst <==> k in Copied(s, dst);
      UpdateLiteralOffsets(dst, dst + CodeSize(s), pool, entries, s.table);
      RebasedIs(s, dst, entries);
      assert blocks == was + Rebased(s, dst, entries);
    }

    /** Appends the function offsets of one input, re-based in 32 bits. */
    method AppendOffsets(s: Snapshot, dst: nat)
      requires Valid(s)
      modifies `funcOffsets
      ensures funcOffsets == old(funcOffsets) + InWords(ShiftedOffsets(s, dst))
    {
      hide BlockValid, ChildrenInside, Walk;
      var currentOffset := Wrap32(dst - Start(s));
      ghost var shifted := InWords(ShiftedOffsets(s, dst));
      var j := 0;
      while j < |s.funcOffsets|
        invariant 0 <= j <= |s.funcOffsets|
        invariant funcOffsets == old(funcOffsets) + shifted[..j]
      {
        WrapTwice(dst - Start(s), s.funcOffsets[j]);
        assert shifted[j] == Wrap32(s.funcOffsets[j] + currentOffset);
        funcOffsets := funcOffsets + [Wrap32(s.funcOffsets[j] + currentOffset)];
        j := j + 1;
      }
      assert shifted[..j] == shifted;
    }

    /** One turn of the second loop. */
    method AddSnapshot(s: Snapshot, dst: nat, pool: seq<Literal>, entries: seq<Entry>)
      requires Valid(s) && AllValid(pool) && entries == Entries(pool) && PoolServes(pool, s)
      requires Within(blocks, 0, dst)
      modifies this
      ensures blocks == old(blocks) + Rebased(s, dst, entries)
      ensures funcOffsets == old(funcOffsets) + InWords(ShiftedOffsets(s, dst))
    {
      hide Valid, PoolServes, Entries, Rebased, ShiftedOffsets;
      CopyArea(s, dst, pool, entries);
      AppendOffsets(s, dst);
    }
  }

  lemma FindableIn(pool: seq<Literal>, table: seq<Byte>, b: Block)
    requires AllValid(pool) && BlockValid(table, b) && PoolHas(pool, table, b)
    ensures forall v <- LiteralValues(b) :: v.Offset? ==> Find(Entries(pool), Lit(GetLiteral(table, v.word).value)).Some?
  {
    hide BlockValid, LiteralValues, GetLiteral, Entries;
    ValidValues(table, b);
    forall v | v in LiteralValues(b) && v.Offset?
      ensures Find(Entries(pool), Lit(GetLiteral(table, v.word).value)).Some?
    {
      RelitLoads(pool, table, v);
    }
  }

  lemma CopiedArea(s: Snapshot, dst: nat, pool: seq<Literal>)
    requires Valid(s) && PoolServes(pool, s)
    ensures Within(Copied(s, dst), dst, dst + CodeSize(s))
    ensures forall k <- Copied(s, dst) :: BlockValid(s.table, Copied(s, dst)[k]) && PoolHas(pool, s.table, Copied(s, dst)[k])
  {
    hide BlockValid, PoolHas, Walk, ChildrenInside;
    KeysInside(s);
  }

  lemma CopiedWalk(s: Snapshot, dst: nat, image: Image)
    requires Valid(s) && Holds(image, Copied(s, dst))
    ensures var w := Walk(image, dst, dst + CodeSize(s)); w.Some? && forall k <- Copied(s, dst) :: k in w.value
  {
    hide BlockValid, ChildrenInside, Walk, Copied;
    forall k | k in s.image
      ensures SameAt(s, dst, image, k)
    {
      RebasedAt(s, dst, [], k);
    }
    AreaWalk(s, dst, image);
  }

  lemma RebasedIs(s: Snapshot, dst: nat, entries: seq<Entry>)
    requires Valid(s)
    ensures Rebased(s, dst, entries).Keys == Copied(s, dst).Keys
    ensures forall k <- Copied(s, dst) :: Rebased(s, dst, entries)[k] == RelitBlock(entries, s.table, Copied(s, dst)[k])
  {
    hide RelitBlock, Copied, Valid;
  }

  /** Re-basing in 32 bits: the subtraction may wrap, the sum wraps back. */
  lemma WrapTwice(a: int, b: nat)
    ensures Wrap32(b + Wrap32(a)) == Wrap32(a + b)
    ensures 0 <= a + b < UINT32 ==> Wrap32(b + Wrap32(a)) == a + b
  {
    var q := a / UINT32;
    assert Wrap32(a) == a - UINT32 * q;
    ModAdds(b + Wrap32(a), q);
  }

  lemma ModAdds(n: int, q: int)
    ensures (n + UINT32 * q) % UINT32 == n % UINT32
  {}

  /** Offsets as they are stored in 32-bit fields. */
  function InWords(offsets: seq<nat>): (r: seq<nat>)
    ensures |r| == |offsets|
  {
    seq(|offsets|, i requires 0 <= i < |offsets| => Wrap32(offsets[i]))
  }

  lemma InWordsJoins(a: seq<nat>, b: seq<nat>)
    ensures InWords(a + b) == InWords(a) + InWords(b)
  {}

  /** The header fields of a merged snapshot have 32 bits. */
  function HeaderInWords(s: Snapshot): Snapshot {
    s.(litTableOffset := Wrap32(s.litTableOffset), funcOffsets := InWords(s.funcOffsets))
  }

  /** They hold the offsets of the merged code exactly if it ends within 4 GB. */
  lemma HeaderFits(inputs: seq<Snapshot>)
    requires AllInputsValid(inputs) && inputs != []
    ensures var m := Merged(inputs); HeaderInWords(m) == m <==> m.litTableOffset < UINT32
  {
    hide Valid, Areas, Table, Entries, PoolOf, FlagsOf, Offsets, CodeTotal, FuncCount;
    CountGrows(inputs);
    var m := Merged(inputs);
    if m.litTableOffset < UINT32 {
      var base := CodeStart(FuncCount(inputs));
      OffsetsInside(inputs, base, Entries(PoolOf(inputs)));
      AreasHold(inputs, base, Entries(PoolOf(inputs)), 0);
      forall k | 0 <= k < |m.funcOffsets|
        ensures m.funcOffsets[k] < UINT32
      {
        assert m.funcOffsets[k] in Offsets(inputs, base);
      }
      assert InWords(m.funcOffsets) == m.funcOffsets;
    }
  }

  // ----- The merged header -----

  lemma RelitKeepsKind(entries: seq<Entry>, table: seq<Byte>, b: Block, regexp: bool)
    ensures IsBlock(RelitBlock(entries, table, b), regexp) == IsBlock(b, regexp)
  {
    hide Relit;
  }

  lemma RebasedHasBlock(s: Snapshot, dst: nat, entries: seq<Entry>, regexp: bool)
    requires s.funcOffsets != [] && Valid(s)
    ensures HasBlock(Rebased(s, dst, entries), regexp) <==> HasBlock(s.image, regexp)
  {
    hide *;
    var moved := Rebased(s, dst, entries);
    if HasBlock(s.image, regexp) {
      var k := BlockIn(s.image, regexp);
      MovedBlock(s, dst, entries, k, regexp);
      ThenHasBlock(moved, k - Start(s) + dst, regexp);
    }
    if HasBlock(moved, regexp) {
      var at := BlockIn(moved, regexp);
      ComesFrom(s, dst, entries, at);
      var k := at - dst + Start(s);
      MovedBlock(s, dst, entries, k, regexp);
      assert k - Start(s) + dst == at;
      ThenHasBlock(s.image, k, regexp);
    }
  }

  lemma BlockIn(image: Image, regexp: bool) returns (k: nat)
    requires HasBlock(image, regexp)
    ensures k in image && IsBlock(image[k], regexp)
  {
    k :| k in image && IsBlock(image[k], regexp);
  }

  lemma ThenHasBlock(image: Image, k: nat, regexp: bool)
    requires k in image && IsBlock(image[k], regexp)
    ensures HasBlock(image, regexp)
  {}

  lemma MovedBlock(s: Snapshot, dst: nat, entries: seq<Entry>, k: nat, regexp: bool)
    requires s.funcOffsets != [] && Valid(s) && k in s.image
    ensures k >= Start(s) && k - Start(s) + dst in Rebased(s, dst, entries)
    ensures IsBlock(Rebased(s, dst, entries)[k - Start(s) + dst], regexp) == IsBlock(s.image[k], regexp)
  {
    HasFunction(s);
    hide Valid, Rebased, Copied, RelitBlock, IsBlock;
    RebasedAt(s, dst, entries, k);
    RelitKeepsKind(entries, s.table, s.image[k], regexp);
  }

  lemma HasFunction(s: Snapshot)
    requires Valid(s)
    ensures s.funcOffsets != []
  {}

  lemma ComesFrom(s: Snapshot, dst: nat, entries: seq<Entry>, at: nat)
    requires s.funcOffsets != [] && Valid(s) && at in Rebased(s, dst, entries)
    ensures at >= dst && at - dst + Start(s) in s.image
  {
    hide BlockValid, ChildrenInside, Walk;
  }

  /** A merged header names regular expressions or classes exactly if some input does. */
  lemma {:induction false} UnionOfFlags(inputs: seq<Snapshot>)
    ensures FlagsOf(inputs).hasRegExp <==> exists i | 0 <= i < |inputs| :: inputs[i].flags.hasRegExp
    ensures FlagsOf(inputs).hasClass <==> exists i | 0 <= i < |inputs| :: inputs[i].flags.hasClass
    ensures FlagsOf(inputs).features == 0
  {
    if inputs != [] {
      var n := |inputs| - 1;
      UnionOfFlags(inputs[..n]);
      assert forall i | 0 <= i < n :: inputs[..n][i] == inputs[i];
    }
  }

  ghost predicate HeadersTrue(inputs: seq<Snapshot>) {
    forall i | 0 <= i < |inputs| :: HeaderTrue(inputs[i])
  }

  lemma {:induction false} AreasHaveBlock(inputs: seq<Snapshot>, base: nat, entries: seq<Entry>)
    requires AllInputsValid(inputs) && HeadersTrue(inputs)
    ensures HasBlock(Areas(inputs, base, entries), true) <==> FlagsOf(inputs).hasRegExp
    ensures HasBlock(Areas(inputs, base, entries), false) <==> FlagsOf(inputs).hasClass
  {
    hide Valid, HasBlock, Rebased, CodeSize;
    if inputs == [] {
      NoBlock(true);
      NoBlock(false);
    } else {
      var n := |inputs| - 1;
      var init, last := inputs[..n], inputs[n];
      var mid := base + CodeTotal(init);
      assert forall i | 0 <= i < n :: init[i] == inputs[i];
      AreasHaveBlock(init, base, entries);
      AreasHold(init, base, entries, 0);
      RebasedWithin(last, mid, entries);
      HasFunction(last);
      forall regexp: bool
        ensures HasBlock(Areas(inputs, base, entries), regexp)
             <==> HasBlock(Areas(init, base, entries), regexp) || HasBlock(last.image, regexp)
      {
        RebasedHasBlock(last, mid, entries, regexp);
        JoinedHasBlock(Areas(init, base, entries), Rebased(last, mid, entries), regexp);
      }
      assert HeaderTrue(last);
    }
  }

  /** If the headers of the inputs tell the truth about their code, so does the merged header. */
  lemma MergedHeader(inputs: seq<Snapshot>)
    requires AllInputsValid(inputs) && inputs != [] && HeadersTrue(inputs)
    ensures HeaderTrue(Merged(inputs))
  {
    hide Valid, Areas, FlagsOf, HasBlock, Table, Entries, PoolOf, Offsets, CodeTotal, FuncCount;
    CountGrows(inputs);
    AreasHaveBlock(inputs, CodeStart(FuncCount(inputs)), Entries(PoolOf(inputs)));
  }

  // ----- Running the merger -----

  /** Generated and merged snapshots pass the header check. */
  lemma HeadersAreOk(build: Build, c: Code, inputs: seq<Snapshot>)
    requires AllInputsValid(inputs) && inputs != []
    ensures HeaderOk(SnapshotOf(build, c)) && HeaderOk(Merged(inputs))
  {
    hide AllInputsValid;
    UnionOfFlags(inputs);
  }

  /** When the merger succeeds, and that its error is true otherwise. */
  lemma MergesExactly(inputs: seq<Snapshot>, sizes: seq<nat>, outSize: nat)
    requires Inputs(inputs, sizes)
    ensures MergeErrorOf(inputs, sizes, outSize).None? <==>
              && |inputs| > 1 && (forall i | 0 <= i < |inputs| :: sizes[i] >= SNAPSHOT_HEADER && HeaderOk(inputs[i]))
              && AllInputsValid(inputs) && FitsOutput(Merged(inputs), outSize)
    ensures MergeErrorOf(inputs, sizes, outSize) == Some(TooFew) <==> inputs == [] || |inputs| == 1
    ensures MergeErrorOf(inputs, sizes, outSize) == Some(OutputTooSmall) ==>
              AllInputsValid(inputs) && inputs != [] && outSize <= Merged(inputs).litTableOffset
    ensures MergeErrorOf(inputs, sizes, outSize) == Some(LiteralsTooBig) ==>
              && AllInputsValid(inputs) && inputs != [] && Merged(inputs).litTableOffset < outSize
              && !FitsOutput(Merged(inputs), outSize)
  {
    hide AllInputsValid, HeaderOk, BadInput, PoolOf, Table, TableSize, Offsets, Areas, CodeEnd, FlagsOf;
    BadInputIs(inputs, sizes);
    if |inputs| > 1 && BadInput(inputs, sizes).None? {
      GoodInputsAreValid(inputs, sizes);
      PoolOfServes(inputs);
      TableLength(PoolOf(inputs));
    }
  }

  /** The code ends inside the buffer, and so does the literal table, whose offsets fit their bits. */
  ghost predicate FitsOutput(s: Snapshot, outSize: nat) {
    s.litTableOffset < outSize && s.litTableOffset + |s.table| <= outSize && |s.table| <= MAX_TABLE_SIZE
  }

  /** The first input that is turned down, with its reason: too short for a header, or a header that does not match. */
  lemma {:induction false} BadInputIs(inputs: seq<Snapshot>, sizes: seq<nat>)
    requires |sizes| == |inputs|
    ensures BadInput(inputs, sizes).None? <==> forall i | 0 <= i < |inputs| :: sizes[i] >= SNAPSHOT_HEADER && HeaderOk(inputs[i])
    ensures BadInput(inputs, sizes).Some? ==>
              exists i | 0 <= i < |inputs| ::
                && (forall j | 0 <= j < i :: sizes[j] >= SNAPSHOT_HEADER && HeaderOk(inputs[j]))
                && (sizes[i] < SNAPSHOT_HEADER || !HeaderOk(inputs[i]))
                && (BadInput(inputs, sizes) == Some(InvalidFile) <==> sizes[i] < SNAPSHOT_HEADER)
                && (BadInput(inputs, sizes) == Some(InvalidVersion) <==> sizes[i] >= SNAPSHOT_HEADER)
  {
    hide HeaderOk;
    if inputs != [] {
      var n := |inputs| - 1;
      BadInputIs(inputs[..n], sizes[..n]);
      assert forall i | 0 <= i < n :: inputs[..n][i] == inputs[i] && sizes[..n][i] == sizes[i];
    }
  }

  /** The first loop: check the inputs in order, add up their sizes, and collect their literals. */
  method Survey(inputs: seq<Snapshot>, sizes: seq<nat>)
    returns (error: Option<MergeError>, numberOfFuncs: nat, functionsSize: nat, flags: GlobalFlags, pool: seq<Literal>)
    requires Inputs(inputs, sizes)
    ensures error == BadInput(inputs, sizes)
    ensures error.None? ==>
              && AllInputsValid(inputs)
              && numberOfFuncs == FuncCount(inputs) && functionsSize == SNAPSHOT_HEADER + CodeTotal(inputs)
              && flags == FlagsOf(inputs) && pool == PoolOf(inputs)
  {
    hide Valid, CodeSize, ScanPositions, Area;
    error, numberOfFuncs, functionsSize := None, 0, SNAPSHOT_HEADER;
    flags, pool := GlobalFlags(false, false, 0), [];
    EmptyPool();
    for i := 0 to |inputs|
      invariant AllInputsValid(inputs[..i]) && BadInput(inputs[..i], sizes[..i]).None?
      invariant pool == PoolOf(inputs[..i]) && numberOfFuncs == FuncCount(inputs[..i])
      invariant functionsSize == SNAPSHOT_HEADER + CodeTotal(inputs[..i]) && flags == FlagsOf(inputs[..i])
    {
      assert inputs[..i + 1][..i] == inputs[..i] && sizes[..i + 1][..i] == sizes[..i];
      BadInputStays(inputs, sizes, i + 1);
      if sizes[i] < SNAPSHOT_HEADER {
        error := Some(InvalidFile);
        return;
      }
      if !HeaderOk(inputs[i]) {
        error := Some(InvalidVersion);
        return;
      }
      flags := GlobalFlags(flags.hasRegExp || inputs[i].flags.hasRegExp, flags.hasClass || inputs[i].flags.hasClass, 0);
      pool := ScanInput(inputs[i], pool);
      numberOfFuncs := numberOfFuncs + |inputs[i].funcOffsets|;
      functionsSize := functionsSize + SizeOfCode(inputs[i]);
    }
    assert inputs[..|inputs|] == inputs && sizes[..|sizes|] == sizes;
  }

  /** The second loop: place the code areas one after another. */
  method PlaceAll(m: Merger, inputs: seq<Snapshot>, base: nat, pool: seq<Literal>, entries: seq<Entry>) returns (dst: nat)
    requires AllInputsValid(inputs) && AllValid(pool) && entries == Entries(pool)
    requires forall i | 0 <= i < |inputs| :: PoolServes(pool, inputs[i])
    requires m.blocks == map[] && m.funcOffsets == []
    modifies m
    ensures dst == base + CodeTotal(inputs)
    ensures m.blocks == Areas(inputs, base, entries) && m.funcOffsets == InWords(Offsets(inputs, base))
  {
    hide Valid, CodeSize, Entries, Rebased, ShiftedOffsets, PoolServes, AllValid, AllInputsValid, Areas, Offsets, CodeTotal, InWords;
    dst := base;
    PlaceNone(inputs, base, entries);
    for i := 0 to |inputs|
      invariant AllInputsValid(inputs[..i]) && dst == base + CodeTotal(inputs[..i])
      invariant m.blocks == Areas(inputs[..i], base, entries) && m.funcOffsets == InWords(Offsets(inputs[..i], base))
    {
      PlaceStep(inputs, base, entries, i);
      InWordsJoins(Offsets(inputs[..i], base), ShiftedOffsets(inputs[i], dst));
      m.AddSnapshot(inputs[i], dst, pool, entries);
      dst := dst + SizeOfCode(inputs[i]);
    }
    assert inputs[..|inputs|] == inputs;
  }

  lemma PlaceNone(inputs: seq<Snapshot>, base: nat, entries: seq<Entry>)
    ensures AllInputsValid(inputs[..0]) && CodeTotal(inputs[..0]) == 0
    ensures Areas(inputs[..0], base, entries) == map[] && InWords(Offsets(inputs[..0], base)) == []
  {}

  lemma PlaceStep(inputs: seq<Snapshot>, base: nat, entries: seq<Entry>, i: nat)
    requires AllInputsValid(inputs) && i < |inputs|
    ensures AllInputsValid(inputs[..i]) && AllInputsValid(inputs[..i + 1]) && Valid(inputs[i])
    ensures var dst := base + CodeTotal(inputs[..i]);
            && base + CodeTotal(inputs[..i + 1]) == dst + CodeSize(inputs[i])
            && Within(Areas(inputs[..i], base, entries), 0, dst)
            && Areas(inputs[..i + 1], base, entries) == Areas(inputs[..i], base, entries) + Rebased(inputs[i], dst, entries)
            && Offsets(inputs[..i + 1], base) == Offsets(inputs[..i], base) + ShiftedOffsets(inputs[i], dst)
  {
    hide Valid, CodeSize, Rebased, ShiftedOffsets;
    assert inputs[..i + 1][..i] == inputs[..i];
    AreasHold(inputs[..i], base, entries, 0);
  }

  method MergeSnapshots(inputs: seq<Snapshot>, sizes: seq<nat>, outSize: nat) returns (r: MergeResult)
    requires Inputs(inputs, sizes)
    ensures MergeErrorOf(inputs, sizes, outSize).Some? ==> r == Failed(MergeErrorOf(inputs, sizes, outSize).value)
    ensures MergeErrorOf(inputs, sizes, outSize).None? ==>
              && AllInputsValid(inputs) && inputs != []
              && r == Done(HeaderInWords(Merged(inputs)))
              && (r == Done(Merged(inputs)) <==> Merged(inputs).litTableOffset < UINT32)
              && Merged(inputs).litTableOffset + |Merged(inputs).table| <= outSize
  {
    hide Valid, CodeTotal, Entries, Table, TableSize, MaxTable, PoolServes, AllValid, Areas, Offsets, BadInput, PoolOf, FlagsOf;
    if |inputs| < 2 {
      return Failed(TooFew);
    }
    var error, numberOfFuncs, functionsSize, flags, pool := Survey(inputs, sizes);
    if error.Some? {
      return Failed(error.value);
    }
    CountGrows(inputs);
    functionsSize := functionsSize + AlignUp((numberOfFuncs - 1) * 4);
    if functionsSize >= outSize {
      return Failed(OutputTooSmall);
    }
    PoolOfServes(inputs);
    var saved, table, entries := SaveLiterals(pool, outSize, functionsSize);
    if !saved {
      return Failed(LiteralsTooBig);
    }
    var m := new Merger();
    var dst := PlaceAll(m, inputs, SNAPSHOT_HEADER + AlignUp((numberOfFuncs - 1) * 4), pool, entries);
    assert dst == functionsSize;
    HeaderFits(inputs);
    r := Done(Snapshot(SNAPSHOT_MAGIC, SNAPSHOT_VERSION, flags, Wrap32(functionsSize), m.funcOffsets, m.blocks, table));
  }

  function SizeOfCode(s: Snapshot): (r: nat)
    requires Valid(s)
    ensures r == CodeSize(s)
  {
    s.litTableOffset - s.funcOffsets[0]
  }

  method ScanInput(s: Snapshot, pool: seq<Literal>) returns (r: seq<Literal>)
    requires Valid(s)
    ensures r == ScanPositions(s.image, s.table, Area(s), pool)
  {
    r := ScanFunctions(s.image, s.funcOffsets[0], s.litTableOffset, s.table, pool);
  }
}
