/** Merging snapshots: the code areas one after another, with function and literal offsets re-based. */
module SnapshotMerge {
  import opened Options
  import opened SnapshotLiterals
  import opened SnapshotImage
  import opened SnapshotGenerate
  import opened SnapshotLoader

  predicate Resolves(table: seq<Byte>, v: Value) {
    v.Offset? ==> GetLiteral(table, v.word).Some? && GetLiteral(table, v.word).value.Valid()
  }

  /** A block of a valid code area: constants before children, and literal offsets that the table resolves. */
  predicate BlockValid(table: seq<Byte>, b: Block) {
    b.FunctionBlock? ==>
      && Shaped(b)
      && (forall i | 0 <= i < |b.literals| ::
            if i < b.args.constLiteralEnd - b.args.registerEnd
            then b.literals[i].Word? && ValueValid(table, b.flags, b.literals[i].value) else b.literals[i].Child?)
      && (forall v <- b.tail :: ValueValid(table, b.flags, v))
  }

  predicate ValueValid(table: seq<Byte>, flags: Flags, v: Value) {
    Resolves(table, v) && (flags.isStatic ==> !v.Offset?)
  }

  /** Child offsets lead to blocks of the same area. */
  predicate ChildrenInside(image: Image, at: nat)
    requires at in image
  {
    image[at].FunctionBlock? ==> forall s <- image[at].literals :: s.Child? && s.offset != 0 ==> at + s.offset in image
  }

  function Start(s: Snapshot): nat
    requires s.funcOffsets != []
  {
    s.funcOffsets[0]
  }

  function CodeSize(s: Snapshot): nat
    requires s.funcOffsets != [] && Start(s) <= s.litTableOffset
  {
    s.litTableOffset - Start(s)
  }

  /** The code area runs from the first function to the literal table and is tiled by its blocks. */
  ghost predicate Valid(s: Snapshot) {
    && s.funcOffsets != [] && Start(s) < s.litTableOffset < 0x1_0000_0000
    && Walk(s.image, Start(s), s.litTableOffset).Some?
    && (forall k :: k in s.image <==> k in Walk(s.image, Start(s), s.litTableOffset).value)
    && (forall o <- s.funcOffsets :: o in s.image)
    && (forall k <- s.image :: BlockValid(s.table, s.image[k]) && ChildrenInside(s.image, k))
  }

  lemma KeysInside(s: Snapshot)
    requires Valid(s)
    ensures forall k <- s.image :: Start(s) <= k < s.litTableOffset
  {
    WalkOrdered(s.image, Start(s), s.litTableOffset);
  }

  // ----- Collecting the literals of the inputs -----

  function Scanned(table: seq<Byte>, v: Value): Value {
    if v.Offset? && GetLiteral(table, v.word).Some? then Lit(GetLiteral(table, v.word).value) else Empty
  }

  function ScannedAll(table: seq<Byte>, vs: seq<Value>): (r: seq<Value>)
    ensures |r| == |vs|
  {
    seq(|vs|, i requires 0 <= i < |vs| => Scanned(table, vs[i]))
  }

  /** The constants and tail slots of a block that the merger reads: none of a static function. */
  function LiteralValues(b: Block): seq<Value> {
    if b.FunctionBlock? && !b.flags.isStatic && Shaped(b) then
      var words := SlotValues(b.literals[..b.args.constLiteralEnd - b.args.registerEnd]);
      (if words.Some? then words.value else []) + b.tail
    else []
  }

  function ScanBlock(table: seq<Byte>, b: Block, pool: seq<Literal>): seq<Literal> {
    AppendWords(ScannedAll(table, LiteralValues(b)), pool)
  }

  function ScanPositions(image: Image, table: seq<Byte>, at: seq<nat>, pool: seq<Literal>): seq<Literal>
    requires forall k <- at :: k in image
  {
    if at == [] then pool else ScanPositions(image, table, at[1..], ScanBlock(table, image[at[0]], pool))
  }

  method ScanValues(table: seq<Byte>, vs: seq<Value>, pool: seq<Literal>) returns (r: seq<Literal>)
    requires forall v <- vs :: Resolves(table, v)
    ensures r == AppendWords(ScannedAll(table, vs), pool)
  {
    hide GetLiteral;
    r := pool;
    ghost var all := ScannedAll(table, vs);
    for i := 0 to |vs|
      invariant r == AppendWords(all[..i], pool)
    {
      assert all[..i + 1][..i] == all[..i];
      assert vs[i] in vs;
      if vs[i].Offset? {
        r := AppendValue(GetLiteral(table, vs[i].word).value, r);
      }
    }
    assert all[..|vs|] == all;
  }

  lemma ValidValues(table: seq<Byte>, b: Block)
    requires BlockValid(table, b)
    ensures forall v <- LiteralValues(b) :: Resolves(table, v)
    ensures b.FunctionBlock? ==> SlotValues(b.literals[..b.args.constLiteralEnd - b.args.registerEnd]).Some?
  {
    if b.FunctionBlock? {
      var consts := b.literals[..b.args.constLiteralEnd - b.args.registerEnd];
      assert forall s <- consts :: s.Word?;
      forall v | v in SlotValues(consts).value
        ensures Resolves(table, v)
      {
        var i :| 0 <= i < |consts| && SlotValues(consts).value[i] == v;
        assert b.literals[i] == Word(v);
      }
    }
  }

  method ScanFunctions(image: Image, from: nat, to: nat, table: seq<Byte>, pool: seq<Literal>) returns (r: seq<Literal>)
    requires from < to && Walk(image, from, to).Some?
    requires forall k <- Walk(image, from, to).value :: k in image && BlockValid(table, image[k])
    ensures (forall k <- Walk(image, from, to).value :: k in image)
            && r == ScanPositions(image, table, Walk(image, from, to).value, pool)
  {
    hide ScanBlock, BlockValid;
    var at := from;
    r := pool;
    while at < to
      invariant at <= to && Walk(image, at, to).Some?
      invariant forall k <- Walk(image, at, to).value :: k in image && BlockValid(table, image[k])
      invariant ScanPositions(image, table, Walk(image, from, to).value, pool) == ScanPositions(image, table, Walk(image, at, to).value, r)
    {
      WalkEnds(image, at + ALIGNMENT * image[at].size, to);
      assert Walk(image, at, to).value[1..] == Walk(image, at + ALIGNMENT * image[at].size, to).value;
      assert Walk(image, at, to).value[0] == at;
      assert BlockValid(table, image[at]);
      r := ScanOne(table, image[at], r);
      at := at + ALIGNMENT * image[at].size;
    }
  }

  method ScanOne(table: seq<Byte>, b: Block, pool: seq<Literal>) returns (r: seq<Literal>)
    requires BlockValid(table, b)
    ensures r == ScanBlock(table, b, pool)
  {
    r := pool;
    if b.FunctionBlock? && !b.flags.isStatic {
      ValidValues(table, b);
      var consts := SlotValues(b.literals[..b.args.constLiteralEnd - b.args.registerEnd]).value;
      assert forall v <- consts :: v in LiteralValues(b);
      assert forall v <- b.tail :: v in LiteralValues(b);
      r := ScanValues(table, consts, r);
      r := ScanValues(table, b.tail, r);
      assert ScannedAll(table, LiteralValues(b)) == ScannedAll(table, consts) + ScannedAll(table, b.tail);
      AppendWordsJoin(ScannedAll(table, consts), ScannedAll(table, b.tail), pool);
    }
  }

  lemma {:induction false} AppendWordsJoin(a: seq<Value>, b: seq<Value>, pool: seq<Literal>)
    ensures AppendWords(a + b, pool) == AppendWords(b, AppendWords(a, pool))
    decreases |b|
  {
    if b == [] {
      assert a + b == a;
    } else {
      assert (a + b)[..|a + b| - 1] == a + b[..|b| - 1];
      AppendWordsJoin(a, b[..|b| - 1], pool);
    }
  }

  ghost predicate AllInputsValid(inputs: seq<Snapshot>) {
    forall i | 0 <= i < |inputs| :: Valid(inputs[i])
  }

  ghost function Area(s: Snapshot): seq<nat>
    requires Valid(s)
    ensures forall k :: k in Area(s) <==> k in s.image
  {
    Walk(s.image, Start(s), s.litTableOffset).value
  }

  /** The literals of the inputs in scanning order. */
  ghost function PoolOf(inputs: seq<Snapshot>): seq<Literal>
    requires AllInputsValid(inputs)
  {
    if inputs == [] then [] else
      var s := inputs[|inputs| - 1];
      ScanPositions(s.image, s.table, Area(s), PoolOf(inputs[..|inputs| - 1]))
  }

  ghost predicate PoolHas(pool: seq<Literal>, table: seq<Byte>, b: Block) {
    forall v <- LiteralValues(b) :: v.Offset? && GetLiteral(table, v.word).Some? ==> GetLiteral(table, v.word).value in pool
  }

  lemma ScanBlockHas(table: seq<Byte>, b: Block, pool: seq<Literal>)
    requires BlockValid(table, b) && AllValid(pool)
    ensures var r := ScanBlock(table, b, pool); Includes(r, pool) && AllValid(r) && PoolHas(r, table, b)
  {
    hide GetLiteral, BlockValid;
    ValidValues(table, b);
    var vs := LiteralValues(b);
    var all := ScannedAll(table, vs);
    forall v | v in all && v.Lit?
      ensures v.literal.Valid()
    {
      var i :| 0 <= i < |all| && all[i] == v;
      assert Resolves(table, vs[i]);
    }
    AppendWordsCovers(all, pool);
    forall v | v in vs && v.Offset? && GetLiteral(table, v.word).Some?
      ensures GetLiteral(table, v.word).value in ScanBlock(table, b, pool)
    {
      var i :| 0 <= i < |vs| && vs[i] == v;
      assert all[i] in all;
    }
  }

  lemma {:induction false} ScanPositionsHas(image: Image, table: seq<Byte>, at: seq<nat>, pool: seq<Literal>)
    requires forall k <- at :: k in image && BlockValid(table, image[k])
    requires AllValid(pool)
    ensures var r := ScanPositions(image, table, at, pool);
            Includes(r, pool) && AllValid(r) && forall k <- at :: PoolHas(r, table, image[k])
    decreases |at|
  {
    hide ScanBlock, BlockValid, LiteralValues;
    if at != [] {
      assert at[0] in at;
      ScanBlockHas(table, image[at[0]], pool);
      ScanPositionsHas(image, table, at[1..], ScanBlock(table, image[at[0]], pool));
    }
  }

  /** The pool holds every literal that the code area of a snapshot refers to. */
  ghost predicate PoolServes(pool: seq<Literal>, s: Snapshot) {
    forall k <- s.image :: PoolHas(pool, s.table, s.image[k])
  }

  lemma PoolServesMore(pool: seq<Literal>, more: seq<Literal>, s: Snapshot)
    requires PoolServes(pool, s) && Includes(more, pool)
    ensures PoolServes(more, s)
  {
    hide LiteralValues, GetLiteral;
  }

  lemma PoolOfNext(inputs: seq<Snapshot>)
    requires AllInputsValid(inputs) && inputs != [] && AllValid(PoolOf(inputs[..|inputs| - 1]))
    ensures AllValid(PoolOf(inputs)) && Includes(PoolOf(inputs), PoolOf(inputs[..|inputs| - 1]))
    ensures PoolServes(PoolOf(inputs), inputs[|inputs| - 1])
  {
    hide LiteralValues, BlockValid, ScanPositions, PoolHas;
    var s := inputs[|inputs| - 1];
    ScanPositionsHas(s.image, s.table, Area(s), PoolOf(inputs[..|inputs| - 1]));
  }

  lemma {:induction false} PoolOfServes(inputs: seq<Snapshot>)
    requires AllInputsValid(inputs)
    ensures AllValid(PoolOf(inputs))
    ensures forall i | 0 <= i < |inputs| :: PoolServes(PoolOf(inputs), inputs[i])
  {
    hide PoolServes, PoolOf, Valid;
    if inputs == [] {
      EmptyPool();
    } else {
      var init := inputs[..|inputs| - 1];
      PoolOfServes(init);
      PoolOfNext(inputs);
      forall i | 0 <= i < |init|
        ensures PoolServes(PoolOf(inputs), inputs[i])
      {
        assert init[i] == inputs[i];
        PoolServesMore(PoolOf(init), PoolOf(inputs), inputs[i]);
      }
    }
  }

  lemma EmptyPool()
    ensures PoolOf([]) == []
  {}
}
