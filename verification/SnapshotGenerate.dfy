/** Generating a snapshot: collect the literals of a tree, write it, and patch literal slots block by block. */
module SnapshotGenerate {
  import opened Options
  import opened MachineWords
  import opened SnapshotLiterals
  import opened SnapshotImage
  import opened SnapshotWriter

  // ----- The literal pool -----

  function AppendWord(v: Value, pool: seq<Literal>): seq<Literal> {
    if v.Lit? then Appended(v.literal, pool) else pool
  }

  function AppendWords(vs: seq<Value>, pool: seq<Literal>): seq<Literal> {
    if vs == [] then pool else AppendWord(vs[|vs| - 1], AppendWords(vs[..|vs| - 1], pool))
  }

  function AppendCode(c: Code, pool: seq<Literal>): seq<Literal> {
    match c
    case RegExp(_, _) => pool
    case Function(_, _, flags, args, _, consts, kids, tail) =>
      var named := if flags.mapped then AppendWords(consts[..Min(args.argumentEnd, |consts|)], pool) else pool;
      AppendWords(tail, AppendKids(kids, AppendWords(consts, named)))
  }

  function AppendKids(kids: seq<Kid>, pool: seq<Literal>): seq<Literal> {
    if kids == [] then pool else AppendKid(kids[|kids| - 1], AppendKids(kids[..|kids| - 1], pool))
  }

  function AppendKid(kid: Kid, pool: seq<Literal>): seq<Literal> {
    if kid.Self? then pool else AppendCode(kid.code, pool)
  }

  method AddWords(vs: seq<Value>, pool: seq<Literal>) returns (r: seq<Literal>)
    ensures r == AppendWords(vs, pool)
  {
    r := pool;
    for i := 0 to |vs|
      invariant r == AppendWords(vs[..i], pool)
    {
      assert vs[..i + 1][..i] == vs[..i];
      if vs[i].Lit? {
        r := AppendValue(vs[i].literal, r);
      }
    }
    assert vs[..|vs|] == vs;
  }

  /** Adds the literals of a function and of the functions below it. */
  method CollectLiterals(code: Code, pool: seq<Literal>) returns (r: seq<Literal>)
    requires code.Function?
    ensures r == AppendCode(code, pool)
    decreases code
  {
    r := pool;
    if code.flags.mapped {
      r := AddWords(code.consts[..Min(code.args.argumentEnd, |code.consts|)], r);
    }
    r := AddWords(code.consts, r);
    ghost var start := r;
    for i := 0 to |code.kids|
      invariant r == AppendKids(code.kids[..i], start)
    {
      assert code.kids[..i + 1][..i] == code.kids[..i];
      var kid := code.kids[i];
      assert AppendKids(code.kids[..i + 1], start) == AppendKid(kid, r);
      assert kid.Sub? ==> AppendKid(kid, r) == AppendCode(kid.code, r);
      if kid.Sub? && kid.code.Function? {
        assert code decreases to code.kids;
        assert code.kids decreases to kid;
        r := CollectLiterals(kid.code, r);
      }
    }
    assert code.kids[..|code.kids|] == code.kids;
    r := AddWords(code.tail, r);
  }

  predicate ValuesCovered(pool: seq<Literal>, vs: seq<Value>) {
    forall v <- vs :: v.Lit? ==> v.literal in pool
  }

  /** Every literal of every function in the tree is in the pool. */
  predicate Covers(pool: seq<Literal>, c: Code) {
    c.Function? ==> ValuesCovered(pool, c.consts) && ValuesCovered(pool, c.tail) && KidsCovered(pool, c.kids)
  }

  predicate KidsCovered(pool: seq<Literal>, kids: seq<Kid>) {
    kids == [] || (KidsCovered(pool, kids[..|kids| - 1]) && KidCovered(pool, kids[|kids| - 1]))
  }

  predicate KidCovered(pool: seq<Literal>, kid: Kid) { kid.Sub? ==> Covers(pool, kid.code) }

  ghost predicate Includes(large: seq<Literal>, small: seq<Literal>) {
    forall l <- small :: l in large
  }

  lemma {:induction false} CoversMore(pool: seq<Literal>, more: seq<Literal>, c: Code)
    requires Includes(more, pool) && Covers(pool, c)
    ensures Covers(more, c)
    decreases c
  {
    if c.Function? {
      KidsCoveredMore(pool, more, c.kids);
    }
  }

  lemma {:induction false} KidsCoveredMore(pool: seq<Literal>, more: seq<Literal>, kids: seq<Kid>)
    requires Includes(more, pool) && KidsCovered(pool, kids)
    ensures KidsCovered(more, kids)
    decreases kids
  {
    if kids != [] {
      KidsCoveredMore(pool, more, kids[..|kids| - 1]);
      var last := kids[|kids| - 1];
      if last.Sub? {
        assert kids decreases to last;
        CoversMore(pool, more, last.code);
      }
    }
  }

  lemma {:induction false} AppendWordsCovers(vs: seq<Value>, pool: seq<Literal>)
    requires AllValid(pool) && forall v <- vs :: v.Lit? ==> v.literal.Valid()
    ensures var r := AppendWords(vs, pool); Includes(r, pool) && ValuesCovered(r, vs) && AllValid(r)
  {
    if vs != [] {
      var init := vs[..|vs| - 1];
      AppendWordsCovers(init, pool);
      assert vs == init + [vs[|vs| - 1]];
    }
  }

  lemma {:induction false} AppendCodeCovers(c: Code, pool: seq<Literal>)
    requires AllValid(pool) && WellFormed(c)
    ensures var r := AppendCode(c, pool); Includes(r, pool) && Covers(r, c) && AllValid(r)
    decreases c
  {
    if c.Function? {
      var named := c.consts[..Min(c.args.argumentEnd, |c.consts|)];
      assert forall v <- named :: v in c.consts;
      AppendWordsCovers(named, pool);
      var p1 := if c.flags.mapped then AppendWords(named, pool) else pool;
      AppendWordsCovers(c.consts, p1);
      var p2 := AppendWords(c.consts, p1);
      AppendKidsCovers(c.kids, p2);
      var p3 := AppendKids(c.kids, p2);
      AppendWordsCovers(c.tail, p3);
      KidsCoveredMore(p3, AppendWords(c.tail, p3), c.kids);
    }
  }

  lemma {:induction false} AppendKidsCovers(kids: seq<Kid>, pool: seq<Literal>)
    requires AllValid(pool) && KidsWellFormed(kids)
    ensures var r := AppendKids(kids, pool); Includes(r, pool) && KidsCovered(r, kids) && AllValid(r)
    decreases kids
  {
    if kids != [] {
      var init, last := kids[..|kids| - 1], kids[|kids| - 1];
      AppendKidsCovers(init, pool);
      if last.Sub? {
        assert kids decreases to last;
        AppendCodeCovers(last.code, AppendKids(init, pool));
        assert AppendKids(kids, pool) == AppendKid(last, AppendKids(init, pool)) == AppendCode(last.code, AppendKids(init, pool));
        KidsCoveredMore(AppendKids(init, pool), AppendKids(kids, pool), init);
      }
    }
  }

  // ----- Patching -----

  /** The offset recorded for a value; the search runs off the map where this is None. */
  function Find(entries: seq<Entry>, v: Value): Option<nat> {
    if entries == [] then None
    else if v == Lit(entries[0].id) then Some(entries[0].offset)
    else Find(entries[1..], v)
  }

  /** The string, float and BigInt types, which the patching walk looks up. */
  predicate NeedsEntry(v: Value) { v.Lit? || v.BigIntZero? }

  function Patch(entries: seq<Entry>, v: Value): Value {
    if NeedsEntry(v) && Find(entries, v).Some? then Offset(Find(entries, v).value) else v
  }

  function PatchSlots(entries: seq<Entry>, slots: seq<Slot>, count: int): (r: seq<Slot>)
    ensures |r| == |slots|
  {
    seq(|slots|, i requires 0 <= i < |slots| =>
      if i < count && slots[i].Word? then Word(Patch(entries, slots[i].value)) else slots[i])
  }

  function PatchTail(entries: seq<Entry>, vs: seq<Value>): (r: seq<Value>)
    ensures |r| == |vs|
  {
    seq(|vs|, i requires 0 <= i < |vs| => Patch(entries, vs[i]))
  }

  function PatchBlock(entries: seq<Entry>, b: Block): Block {
    match b
    case RegExpBlock(_, _, _, _) => b
    case FunctionBlock(size, _, flags, args, body, literals, tail) =>
      FunctionBlock(size, 1, flags, args, body,
                    PatchSlots(entries, literals, args.constLiteralEnd - args.registerEnd), PatchTail(entries, tail))
  }

  function PatchImage(entries: seq<Entry>, image: Image): Image {
    map k | k in image :: PatchBlock(entries, image[k])
  }

  predicate Found(entries: seq<Entry>, v: Value) { NeedsEntry(v) ==> Find(entries, v).Some? }

  /** Every value the walk looks up in this block is in the map. */
  predicate Patchable(entries: seq<Entry>, b: Block) {
    b.FunctionBlock? ==>
      && (forall s <- b.literals :: s.Word? ==> Found(entries, s.value))
      && (forall v <- b.tail :: Found(entries, v))
  }

  /** Constant slots come first, then child offsets; the tail holds empty values and strings. */
  predicate BlockOk(b: Block) {
    b.FunctionBlock? ==>
      && b.args.registerEnd <= b.args.constLiteralEnd <= b.args.literalEnd
      && |b.literals| == b.args.literalEnd - b.args.registerEnd
      && (forall i | 0 <= i < |b.literals| :: b.literals[i].Word? <==> i < b.args.constLiteralEnd - b.args.registerEnd)
      && (forall v <- b.tail :: TailOk(v))
  }

  method FindOffset(entries: seq<Entry>, v: Value) returns (r: Option<nat>)
    ensures r == Find(entries, v)
  {
    var i := 0;
    assert entries[0..] == entries;
    while i < |entries|
      invariant 0 <= i <= |entries|
      invariant Find(entries, v) == Find(entries[i..], v)
    {
      if v == Lit(entries[i].id) {
        return Some(entries[i].offset);
      }
      i := i + 1;
    }
    r := None;
  }

  /** The two inner loops of the patching walk, on one block. */
  method PatchOne(entries: seq<Entry>, b: Block) returns (ok: bool, r: Block)
    requires BlockOk(b) && b.FunctionBlock?
    ensures ok <==> Patchable(entries, b)
    ensures ok ==> r == PatchBlock(entries, b)
  {
    var constLiteralEnd := b.args.constLiteralEnd - b.args.registerEnd;
    var literals, tail := b.literals, b.tail;
    for i := 0 to constLiteralEnd
      invariant |literals| == |b.literals|
      invariant forall j | 0 <= j < i :: Found(entries, b.literals[j].value)
                                         && literals[j] == Word(Patch(entries, b.literals[j].value))
      invariant forall j | i <= j < |literals| :: literals[j] == b.literals[j]
    {
      if NeedsEntry(literals[i].value) {
        var found := FindOffset(entries, literals[i].value);
        if found.None? {
          assert b.literals[i] in b.literals;
          return false, b;
        }
        literals := literals[i := Word(Offset(found.value))];
      }
    }
    for i := 0 to |tail|
      invariant |tail| == |b.tail|
      invariant forall j | 0 <= j < i :: Found(entries, b.tail[j]) && tail[j] == Patch(entries, b.tail[j])
      invariant forall j | i <= j < |tail| :: tail[j] == b.tail[j]
    {
      if tail[i] != Empty {
        assert TailOk(b.tail[i]);
        var found := FindOffset(entries, tail[i]);
        if found.None? {
          assert b.tail[i] in b.tail;
          return false, b;
        }
        tail := tail[i := Offset(found.value)];
      }
    }
    r := FunctionBlock(b.size, 1, b.flags, b.args, b.body, literals, tail);
    assert literals == PatchSlots(entries, b.literals, constLiteralEnd);
    assert tail == PatchTail(entries, b.tail);
    ok := true;
  }

  /** Patches every block of the code area, stepping by the size fields; false where a search left the map. */
  method SetOffsets(w: Writer, from: nat, size: nat, entries: seq<Entry>) returns (ok: bool)
    requires size > 0 && Walk(w.blocks, from, from + size).Some?
    requires forall k <- w.blocks :: BlockOk(w.blocks[k])
    requires forall k :: k in w.blocks <==> k in Walk(w.blocks, from, from + size).value
    modifies w`blocks
    ensures ok <==> forall k <- old(w.blocks) :: Patchable(entries, old(w.blocks[k]))
    ensures ok ==> w.blocks == PatchImage(entries, old(w.blocks))
  {
    hide PatchBlock, Patchable, BlockOk, Walk;
    var at, left := from, size;
    ghost var end := from + size;
    ghost var was := w.blocks;
    WalkOrdered(was, from, end);
    while left > 0
      invariant at + left == end
      invariant w.blocks.Keys == was.Keys && Walk(was, at, end).Some?
      invariant forall k <- was :: k >= at ==> k in Walk(was, at, end).value && w.blocks[k] == was[k]
      invariant forall k <- was :: k < at ==> Patchable(entries, was[k]) && w.blocks[k] == PatchBlock(entries, was[k])
    {
      WalkStep(was, at, end);
      var block := w.blocks[at];
      var codeSize := ALIGNMENT * block.size;
      if block.FunctionBlock? {
        var patched;
        ok, patched := PatchOne(entries, block);
        if !ok {
          return;
        }
        w.blocks := w.blocks[at := patched];
      } else {
        RegExpUntouched(entries, block);
      }
      at := at + codeSize;
      left := left - codeSize;
    }
    ok := true;
    assert w.blocks == PatchImage(entries, was);
  }

  lemma WalkStep(image: Image, at: nat, end: nat)
    requires Walk(image, at, end).Some? && at < end
    ensures at in image && image[at].size > 0
    ensures var next := at + ALIGNMENT * image[at].size;
            && next <= end && Walk(image, next, end).Some?
            && forall k :: k in Walk(image, at, end).value ==> k == at || (k in Walk(image, next, end).value && next <= k < end)
  {
    WalkOrdered(image, at, end);
    WalkOrdered(image, at + ALIGNMENT * image[at].size, end);
  }

  lemma RegExpUntouched(entries: seq<Entry>, b: Block)
    requires b.RegExpBlock?
    ensures Patchable(entries, b) && PatchBlock(entries, b) == b
  {}
}
