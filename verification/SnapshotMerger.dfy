/** The merger as a whole: what it builds, that it preserves every function, and that its result can be merged again. */
module SnapshotMerger {
  import opened Options
  import opened SnapshotLiterals
  import opened SnapshotImage
  import opened SnapshotWriter
  import opened SnapshotGenerate
  import opened SnapshotLoader
  import opened SnapshotMerge
  import opened SnapshotRebase

  datatype MergeError = TooFew | InvalidFile | InvalidVersion | OutputTooSmall | LiteralsTooBig
  datatype MergeResult = Done(snapshot: Snapshot) | Failed(error: MergeError)

  ghost function FuncCount(inputs: seq<Snapshot>): nat {
    if inputs == [] then 0 else FuncCount(inputs[..|inputs| - 1]) + |inputs[|inputs| - 1].funcOffsets|
  }

  ghost function CodeTotal(inputs: seq<Snapshot>): nat
    requires AllInputsValid(inputs)
  {
    if inputs == [] then 0 else CodeTotal(inputs[..|inputs| - 1]) + CodeSize(inputs[|inputs| - 1])
  }

  /** Where the merged code area starts: after the header and the further function offsets. */
  function CodeStart(funcs: nat): nat
    requires funcs > 0
  {
    SNAPSHOT_HEADER + AlignUp((funcs - 1) * 4)
  }

  ghost function Areas(inputs: seq<Snapshot>, base: nat, entries: seq<Entry>): Image
    requires AllInputsValid(inputs)
  {
    if inputs == [] then map[] else
      var init := inputs[..|inputs| - 1];
      Areas(init, base, entries) + Rebased(inputs[|inputs| - 1], base + CodeTotal(init), entries)
  }

  ghost function ShiftedOffsets(s: Snapshot, dst: nat): (r: seq<nat>)
    requires Valid(s)
    ensures |r| == |s.funcOffsets|
    ensures forall j | 0 <= j < |r| :: r[j] == s.funcOffsets[j] - Start(s) + dst
  {
    seq(|s.funcOffsets|, j requires 0 <= j < |s.funcOffsets| => ShiftedOffset(s, dst, j))
  }

  ghost function ShiftedOffset(s: Snapshot, dst: nat, j: nat): nat
    requires Valid(s) && j < |s.funcOffsets|
  {
    FuncOffsetIsKey(s, j);
    s.funcOffsets[j] - Start(s) + dst
  }

  ghost function Offsets(inputs: seq<Snapshot>, base: nat): (r: seq<nat>)
    requires AllInputsValid(inputs)
    ensures |r| == FuncCount(inputs)
  {
    if inputs == [] then [] else
      var init := inputs[..|inputs| - 1];
      Offsets(init, base) + ShiftedOffsets(inputs[|inputs| - 1], base + CodeTotal(init))
  }

  ghost function FlagsOf(inputs: seq<Snapshot>): GlobalFlags {
    if inputs == [] then GlobalFlags(false, false, 0) else
      var before, last := FlagsOf(inputs[..|inputs| - 1]), inputs[|inputs| - 1].flags;
      GlobalFlags(before.hasRegExp || last.hasRegExp, before.hasClass || last.hasClass, 0)
  }

  lemma CountGrows(inputs: seq<Snapshot>)
    requires AllInputsValid(inputs)
    ensures inputs != [] ==> FuncCount(inputs) > 0
  {}

  /** Where the merged code area ends, and the literal table starts. */
  ghost function CodeEnd(inputs: seq<Snapshot>): nat
    requires AllInputsValid(inputs) && inputs != []
  {
    CountGrows(inputs);
    CodeStart(FuncCount(inputs)) + CodeTotal(inputs)
  }

  ghost function Merged(inputs: seq<Snapshot>): Snapshot
    requires AllInputsValid(inputs) && inputs != []
  {
    CountGrows(inputs);
    var base, pool := CodeStart(FuncCount(inputs)), PoolOf(inputs);
    Snapshot(SNAPSHOT_MAGIC, SNAPSHOT_VERSION, FlagsOf(inputs), CodeEnd(inputs), Offsets(inputs, base),
             Areas(inputs, base, Entries(pool)), Table(pool))
  }

  lemma RebasedWithin(s: Snapshot, dst: nat, entries: seq<Entry>)
    requires Valid(s)
    ensures Within(Rebased(s, dst, entries), dst, dst + CodeSize(s))
  {
    hide RelitBlock, BlockValid, ChildrenInside, Walk;
    KeysInside(s);
  }

  lemma {:induction false} AreasHold(inputs: seq<Snapshot>, base: nat, entries: seq<Entry>, i: nat)
    requires AllInputsValid(inputs) && i <= |inputs|
    ensures CodeTotal(inputs[..i]) <= CodeTotal(inputs)
    ensures Within(Areas(inputs, base, entries), base, base + CodeTotal(inputs))
    ensures i < |inputs| ==>
              && CodeTotal(inputs[..i]) + CodeSize(inputs[i]) <= CodeTotal(inputs)
              && Holds(Areas(inputs, base, entries), Rebased(inputs[i], base + CodeTotal(inputs[..i]), entries))
  {
    hide Rebased, Valid, CodeSize;
    if inputs == [] {
    } else {
      var n := |inputs| - 1;
      var init := inputs[..n];
      AreasHold(init, base, entries, if i < n then i else n);
      RebasedWithin(inputs[n], base + CodeTotal(init), entries);
      if i < n {
        assert init[..i] == inputs[..i] && init[i] == inputs[i];
      } else if i == n {
        assert init[..n] == init;
      } else {
        assert inputs[..i] == inputs;
      }
    }
  }

  lemma LastOffsets(inputs: seq<Snapshot>, base: nat)
    requires AllInputsValid(inputs) && inputs != []
    ensures var init, last := inputs[..|inputs| - 1], inputs[|inputs| - 1];
            && AllInputsValid(init) && Valid(last)
            && FuncCount(inputs) == FuncCount(init) + |last.funcOffsets|
            && Offsets(inputs, base) == Offsets(init, base) + ShiftedOffsets(last, base + CodeTotal(init))
  {
    hide Valid, CodeSize;
  }

  lemma {:induction false} OffsetsAt(inputs: seq<Snapshot>, base: nat, i: nat, j: nat)
    requires AllInputsValid(inputs) && i < |inputs| && j < |inputs[i].funcOffsets|
    ensures FuncCount(inputs[..i]) + j < FuncCount(inputs)
    ensures Offsets(inputs, base)[FuncCount(inputs[..i]) + j]
         == inputs[i].funcOffsets[j] - Start(inputs[i]) + base + CodeTotal(inputs[..i])
  {
    hide Valid, CodeSize, CodeTotal, FuncCount, Offsets, ShiftedOffsets, AllInputsValid;
    LastOffsets(inputs, base);
    var n := |inputs| - 1;
    var init := inputs[..n];
    if i < n {
      OffsetsAt(init, base, i, j);
      assert init[..i] == inputs[..i] && init[i] == inputs[i];
    } else {
      assert inputs[..i] == init;
    }
  }

  /** Function j of input i loads from the merged snapshot as the same tree as from that input. */
  lemma MergePreserves(build: Build, inputs: seq<Snapshot>, i: nat, j: nat)
    requires AllInputsValid(inputs) && i < |inputs| && j < |inputs[i].funcOffsets|
    ensures var m, s := Merged(inputs), inputs[i];
            var merged := FuncCount(inputs[..i]) + j;
            && merged < |m.funcOffsets|
            && Load(build, m.image, m.table, m.litTableOffset, m.funcOffsets[merged])
               == Load(build, s.image, s.table, s.litTableOffset, s.funcOffsets[j])
  {
    hide Load, Entries, Table, Areas, Offsets, PoolOf, Rebased, CodeTotal, FuncCount, CodeStart, PoolServes;
    CountGrows(inputs);
    var m, s, pool := Merged(inputs), inputs[i], PoolOf(inputs);
    var base := CodeStart(FuncCount(inputs));
    var dst := base + CodeTotal(inputs[..i]);
    PoolOfServes(inputs);
    AreasHold(inputs, base, Entries(pool), i);
    OffsetsAt(inputs, base, i, j);
    assert s.funcOffsets[j] in s.image;
    LoadRebased(build, s, dst, pool, m.image, m.litTableOffset, s.funcOffsets[j]);
  }

  // ----- The result is a valid snapshot again -----

  lemma RelitBlockValid(pool: seq<Literal>, table: seq<Byte>, b: Block)
    requires AllValid(pool) && BlockValid(table, b) && PoolHas(pool, table, b)
    ensures var b2 := RelitBlock(Entries(pool), table, b); BlockValid(Table(pool), b2) && b2.size == b.size
  {
    hide Relit, LoadValue, Table, Entries, GetLiteral;
    var b2 := RelitBlock(Entries(pool), table, b);
    if b.FunctionBlock? {
      ValidValues(table, b);
      var n := b.args.constLiteralEnd - b.args.registerEnd;
      var consts := SlotValues(b.literals[..n]).value;
      forall i | 0 <= i < n
        ensures b2.literals[i].Word? && ValueValid(Table(pool), b2.flags, b2.literals[i].value)
      {
        assert b.literals[i] == b.literals[..n][i] == Word(consts[i]);
        ValueLoadsSame(pool, table, b, consts[i]);
      }
      forall v | v in b2.tail
        ensures ValueValid(Table(pool), b2.flags, v)
      {
        var i :| 0 <= i < |b2.tail| && b2.tail[i] == v;
        assert b.tail[i] in b.tail;
        ValueLoadsSame(pool, table, b, b.tail[i]);
      }
    }
  }

  /** The block at k of an area has its size field again where the area was moved to `dst`. */
  ghost predicate SameAt(s: Snapshot, dst: nat, image2: Image, k: nat)
    requires s.funcOffsets != []
  {
    k in s.image && k >= Start(s) && k - Start(s) + dst in image2 && image2[k - Start(s) + dst].size == s.image[k].size
  }

  /** A moved area is walked as before, with every position shifted. */
  lemma {:induction false} WalkShifted(s: Snapshot, dst: nat, image2: Image, at: nat)
    requires s.funcOffsets != [] && Start(s) <= at && Start(s) <= s.litTableOffset
    requires Walk(s.image, at, s.litTableOffset).Some?
    requires forall k <- Walk(s.image, at, s.litTableOffset).value :: SameAt(s, dst, image2, k)
    ensures var w2 := Walk(image2, at - Start(s) + dst, dst + CodeSize(s)); var w := Walk(s.image, at, s.litTableOffset).value;
            w2.Some? && |w2.value| == |w| && forall i | 0 <= i < |w| :: w2.value[i] == w[i] - Start(s) + dst
    decreases s.litTableOffset - at
  {
    if at < s.litTableOffset {
      var next := at + ALIGNMENT * s.image[at].size;
      assert Walk(s.image, at, s.litTableOffset).value == [at] + Walk(s.image, next, s.litTableOffset).value;
      assert SameAt(s, dst, image2, at);
      WalkShifted(s, dst, image2, next);
    }
  }

  lemma SameSize(entries: seq<Entry>, table: seq<Byte>, b: Block)
    ensures RelitBlock(entries, table, b).size == b.size
  {}

  ghost predicate SameSizes(s: Snapshot, dst: nat, image2: Image)
    requires s.funcOffsets != []
  {
    forall k <- s.image :: SameAt(s, dst, image2, k)
  }

  lemma RebasedSizes(s: Snapshot, dst: nat, entries: seq<Entry>, image2: Image)
    requires Valid(s) && Holds(image2, Rebased(s, dst, entries))
    ensures SameSizes(s, dst, image2)
  {
    hide RelitBlock, Rebased, Walk, BlockValid, ChildrenInside;
    forall k | k in s.image
      ensures SameAt(s, dst, image2, k)
    {
      RebasedAt(s, dst, entries, k);
      SameSize(entries, s.table, s.image[k]);
    }
  }

  /** Walking a moved area visits exactly its blocks. */
  lemma AreaWalk(s: Snapshot, dst: nat, image2: Image)
    requires Valid(s) && SameSizes(s, dst, image2)
    ensures var w2 := Walk(image2, dst, dst + CodeSize(s)); w2.Some? && forall k :: k in w2.value <==> k in Copied(s, dst)
  {
    hide Walk, BlockValid, ChildrenInside, SameAt;
    var w := Walk(s.image, Start(s), s.litTableOffset).value;
    KeysInside(s);
    assert forall k <- w :: SameAt(s, dst, image2, k);
    WalkShifted(s, dst, image2, Start(s));
    var w2 := Walk(image2, dst, dst + CodeSize(s)).value;
    forall k | k in w2
      ensures k in Copied(s, dst)
    {
      var i :| 0 <= i < |w2| && w2[i] == k;
      assert w[i] in s.image;
      RebasedAt(s, dst, [], w[i]);
    }
    forall k | k in Copied(s, dst)
      ensures k in w2
    {
      var i :| 0 <= i < |w| && w[i] == k - dst + Start(s);
      assert w2[i] == k;
    }
  }

  /** Each rebased area is tiled, and has valid blocks whose children are inside it. */
  lemma RebasedIsArea(s: Snapshot, dst: nat, pool: seq<Literal>, image2: Image)
    requires Valid(s) && Loads(s, dst, pool, image2, dst + CodeSize(s))
    ensures var w2 := Walk(image2, dst, dst + CodeSize(s)); var r := Rebased(s, dst, Entries(pool));
            && w2.Some? && (forall k :: k in w2.value <==> k in r)
            && (forall k <- r :: k in image2 && BlockValid(Table(pool), image2[k]) && ChildrenInside(image2, k))
  {
    hide RelitBlock, BlockValid, Table, Entries, Walk, PoolHas, ChildrenInside, SameSizes;
    var r := Rebased(s, dst, Entries(pool));
    RebasedSizes(s, dst, Entries(pool), image2);
    AreaWalk(s, dst, image2);
    forall k | k in r
      ensures k in image2 && BlockValid(Table(pool), image2[k]) && ChildrenInside(image2, k)
    {
      var from := k - dst + Start(s);
      RebasedAt(s, dst, Entries(pool), from);
      RelitBlockValid(pool, s.table, s.image[from]);
      ChildrenMoved(s, dst, pool, image2, from);
    }
  }

  lemma ChildrenMoved(s: Snapshot, dst: nat, pool: seq<Literal>, image2: Image, at: nat)
    requires Valid(s) && Loads(s, dst, pool, image2, dst + CodeSize(s)) && at in s.image
    requires at >= Start(s) && at - Start(s) + dst in image2
    requires image2[at - Start(s) + dst] == RelitBlock(Entries(pool), s.table, s.image[at])
    ensures ChildrenInside(image2, at - Start(s) + dst)
  {
    hide Table, Entries, Walk, PoolHas, Rebased, Relit;
    var b, b2 := s.image[at], image2[at - Start(s) + dst];
    if b2.FunctionBlock? {
      forall c | c in b2.literals && c.Child? && c.offset != 0
        ensures at - Start(s) + dst + c.offset in image2
      {
        var i :| 0 <= i < |b2.literals| && b2.literals[i] == c;
        assert b.literals[i] == c;
        assert ChildrenInside(s.image, at);
        RebasedAt(s, dst, Entries(pool), at + c.offset);
      }
    }
  }

  lemma {:induction false} AreasTile(inputs: seq<Snapshot>, base: nat, pool: seq<Literal>, image2: Image)
    requires AllInputsValid(inputs) && AllValid(pool) && forall i | 0 <= i < |inputs| :: PoolServes(pool, inputs[i])
    requires Holds(image2, Areas(inputs, base, Entries(pool)))
    ensures var w := Walk(image2, base, base + CodeTotal(inputs)); var all := Areas(inputs, base, Entries(pool));
            && w.Some? && (forall k :: k in w.value <==> k in all)
            && (forall k <- all :: BlockValid(Table(pool), image2[k]) && ChildrenInside(image2, k))
  {
    hide Rebased, Valid, CodeSize, BlockValid, ChildrenInside, Table, Entries, PoolServes, Walk;
    if inputs == [] {
      EmptyWalk(image2, base);
    } else {
      var n := |inputs| - 1;
      var init, s := inputs[..n], inputs[n];
      var mid := base + CodeTotal(init);
      AreasHold(init, base, Entries(pool), 0);
      AreasHold(inputs, base, Entries(pool), n);
      AreasPrefix(inputs, base, Entries(pool));
      AreasTile(init, base, pool, image2);
      RebasedIsArea(s, mid, pool, image2);
      WalkJoins(image2, base, mid, base + CodeTotal(inputs));
    }
  }

  lemma EmptyWalk(image: Image, at: nat)
    ensures Walk(image, at, at) == Some([])
  {}

  lemma AreasPrefix(inputs: seq<Snapshot>, base: nat, entries: seq<Entry>)
    requires AllInputsValid(inputs) && inputs != []
    ensures Holds(Areas(inputs, base, entries), Areas(inputs[..|inputs| - 1], base, entries))
  {
    hide Rebased, Valid, CodeSize;
    var init := inputs[..|inputs| - 1];
    AreasHold(init, base, entries, 0);
    RebasedWithin(inputs[|inputs| - 1], base + CodeTotal(init), entries);
  }

  /** The merged snapshot is valid, so it can be an input of another merge. */
  lemma MergedIsValid(inputs: seq<Snapshot>)
    requires AllInputsValid(inputs) && inputs != [] && CodeEnd(inputs) < 0x1_0000_0000
    ensures Valid(Merged(inputs))
  {
    hide Entries, Table, PoolOf, Rebased, CodeStart, PoolServes, BlockValid, ChildrenInside, Walk;
    CountGrows(inputs);
    var m, pool := Merged(inputs), PoolOf(inputs);
    var base := CodeStart(FuncCount(inputs));
    PoolOfServes(inputs);
    AreasTile(inputs, base, pool, m.image);
    AreasHold(inputs, base, Entries(pool), 0);
    AreasHold(inputs, base, Entries(pool), |inputs| - 1);
    OffsetsAt(inputs, base, 0, 0);
    assert inputs[..0] == [];
    OffsetsInside(inputs, base, Entries(pool));
  }

  lemma {:induction false} OffsetsInside(inputs: seq<Snapshot>, base: nat, entries: seq<Entry>)
    requires AllInputsValid(inputs)
    ensures forall o <- Offsets(inputs, base) :: o in Areas(inputs, base, entries)
  {
    hide Rebased, Valid, CodeSize;
    if inputs != [] {
      var n := |inputs| - 1;
      var init, s := inputs[..n], inputs[n];
      var mid := base + CodeTotal(init);
      OffsetsInside(init, base, entries);
      AreasPrefix(inputs, base, entries);
      AreasHold(inputs, base, entries, n);
      forall o | o in ShiftedOffsets(s, mid)
        ensures o in Rebased(s, mid, entries)
      {
        var j :| 0 <= j < |s.funcOffsets| && ShiftedOffsets(s, mid)[j] == o;
        FuncOffsetIsKey(s, j);
        RebasedAt(s, mid, entries, s.funcOffsets[j]);
      }
    }
  }

  lemma FuncOffsetIsKey(s: Snapshot, j: nat)
    requires Valid(s) && j < |s.funcOffsets|
    ensures s.funcOffsets[j] in s.image && s.funcOffsets[j] >= Start(s)
  {
    KeysInside(s);
    assert s.funcOffsets[j] in s.funcOffsets;
  }
}
