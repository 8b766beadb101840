/** The second half of the merger: copied code areas, new literal offsets, and why they load as before. */
module SnapshotRebase {
  import opened Options
  import opened MachineWords
  import opened SnapshotLiterals
  import opened SnapshotImage
  import opened SnapshotGenerate
  import opened SnapshotLoader
  import opened SnapshotMerge

  /** The new offset of the literal an old offset stands for. */
  function Relit(entries: seq<Entry>, table: seq<Byte>, v: Value): Value {
    if v.Offset? && GetLiteral(table, v.word).Some? then
      var found := Find(entries, Lit(GetLiteral(table, v.word).value));
      if found.Some? then Offset(found.value) else v
    else v
  }

  function RelitSlots(entries: seq<Entry>, table: seq<Byte>, slots: seq<Slot>): (r: seq<Slot>)
    ensures |r| == |slots|
  {
    seq(|slots|, i requires 0 <= i < |slots| =>
      if slots[i].Word? then Word(Relit(entries, table, slots[i].value)) else slots[i])
  }

  function RelitTail(entries: seq<Entry>, table: seq<Byte>, vs: seq<Value>): (r: seq<Value>)
    ensures |r| == |vs|
  {
    seq(|vs|, i requires 0 <= i < |vs| => Relit(entries, table, vs[i]))
  }

  function RelitBlock(entries: seq<Entry>, table: seq<Byte>, b: Block): Block {
    if b.FunctionBlock? && !b.flags.isStatic
    then b.(literals := RelitSlots(entries, table, b.literals), tail := RelitTail(entries, table, b.tail)) else b
  }

  function ShiftedKeys(s: Snapshot, dst: nat): set<nat>
    requires s.funcOffsets != []
  {
    set k | k in s.image && k >= Start(s) :: k - Start(s) + dst
  }

  /** A code area copied to `dst`. */
  function Copied(s: Snapshot, dst: nat): Image
    requires s.funcOffsets != []
  {
    map at: nat | at in ShiftedKeys(s, dst) && at - dst + Start(s) in s.image :: s.image[at - dst + Start(s)]
  }

  function RelitImage(entries: seq<Entry>, table: seq<Byte>, image: Image): Image {
    map k | k in image :: RelitBlock(entries, table, image[k])
  }

  /** A copied code area with its literal offsets updated. */
  function Rebased(s: Snapshot, dst: nat, entries: seq<Entry>): Image
    requires s.funcOffsets != []
  {
    RelitImage(entries, s.table, Copied(s, dst))
  }

  lemma RebasedAt(s: Snapshot, dst: nat, entries: seq<Entry>, k: nat)
    requires Valid(s) && k in s.image
    ensures Start(s) <= k < s.litTableOffset
    ensures var at := k - Start(s) + dst;
            && at in Copied(s, dst) && Copied(s, dst)[at] == s.image[k]
            && at in Rebased(s, dst, entries) && Rebased(s, dst, entries)[at] == RelitBlock(entries, s.table, s.image[k])
  {
    hide RelitBlock, BlockValid, ChildrenInside, Walk;
    KeysInside(s);
    assert k - Start(s) + dst in ShiftedKeys(s, dst);
  }

  // ----- A rebased area loads as the original -----

  lemma FetchedIsStored(table: seq<Byte>, at: nat, isNumber: bool, isBigInt: bool)
    requires Fetch(table, at, isNumber, isBigInt).Some?
    ensures Stored(Fetch(table, at, isNumber, isBigInt).value) == Fetch(table, at, isNumber, isBigInt).value
  {
    var l := Fetch(table, at, isNumber, isBigInt).value;
    if l.Str? {
      assert |l.chars| == Read2(table, at) < 0x1_0000;
      StoredExactly(l);
    }
  }

  predicate InPool(pool: seq<Literal>, table: seq<Byte>, v: Value) {
    v.Offset? && GetLiteral(table, v.word).Some? ==> GetLiteral(table, v.word).value in pool
  }

  lemma RelitLoads(pool: seq<Literal>, table: seq<Byte>, v: Value)
    requires AllValid(pool) && Resolves(table, v) && InPool(pool, table, v)
    ensures LoadValue(Table(pool), Relit(Entries(pool), table, v)) == LoadValue(table, v)
    ensures v.Offset? ==> Find(Entries(pool), Lit(GetLiteral(table, v.word).value)).Some?
    ensures Resolves(Table(pool), Relit(Entries(pool), table, v))
  {
    hide Table, Entries, Stored, Fetch;
    if v.Offset? {
      var l := GetLiteral(table, v.word).value;
      FetchedIsStored(table, v.word / 32, v.word / 8 % 2 == 1, v.word / 16 % 2 == 1);
      assert pool[0..] == pool && Entries(pool)[0..] == Entries(pool);
      FindDecodes(pool, l, 0);
    }
  }

  lemma ValuesLoadSame(table: seq<Byte>, table2: seq<Byte>, vs: seq<Value>, vs2: seq<Value>)
    requires |vs| == |vs2| && forall i | 0 <= i < |vs| :: LoadValue(table, vs[i]) == LoadValue(table2, vs2[i]) && LoadValue(table, vs[i]).Some?
    ensures LoadValues(table, vs) == LoadValues(table2, vs2)
  {
    hide LoadValue;
    var loaded := seq(|vs|, i requires 0 <= i < |vs| => LoadValue(table, vs[i]).value);
    LoadValuesAre(table, vs, loaded);
    LoadValuesAre(table2, vs2, loaded);
  }

  /** The values of a block of a valid area load the same after the update. */
  lemma BlockLoadsSame(pool: seq<Literal>, table: seq<Byte>, b: Block)
    requires AllValid(pool) && b.FunctionBlock? && BlockValid(table, b) && PoolHas(pool, table, b)
    ensures var n := b.args.constLiteralEnd - b.args.registerEnd; var b2 := RelitBlock(Entries(pool), table, b);
            && b2.FunctionBlock? && Shaped(b2) && b2.args == b.args && b2.size == b.size && b2.refs == b.refs && b2.flags == b.flags && b2.body == b.body
            && LoadConsts(Table(pool), b2.literals[..n]) == LoadConsts(table, b.literals[..n])
            && b2.literals[n..] == b.literals[n..]
            && LoadValues(Table(pool), b2.tail) == LoadValues(table, b.tail)
  {
    hide Relit, LoadValue, Table, Entries;
    var n := b.args.constLiteralEnd - b.args.registerEnd;
    var b2 := RelitBlock(Entries(pool), table, b);
    ValidValues(table, b);
    var consts := SlotValues(b.literals[..n]).value;
    var consts2 := if b.flags.isStatic then consts else RelitTail(Entries(pool), table, consts);
    forall i | 0 <= i < n
      ensures b2.literals[..n][i] == Word(consts2[i])
      ensures LoadValue(table, consts[i]) == LoadValue(Table(pool), consts2[i]) && LoadValue(table, consts[i]).Some?
    {
      assert b.literals[i] == Word(consts[i]);
      ValueLoadsSame(pool, table, b, consts[i]);
    }
    assert SlotValues(b2.literals[..n]).Some? && SlotValues(b2.literals[..n]).value == consts2;
    ValuesLoadSame(table, Table(pool), consts, consts2);
    forall i | 0 <= i < |b.tail|
      ensures LoadValue(table, b.tail[i]) == LoadValue(Table(pool), b2.tail[i]) && LoadValue(table, b.tail[i]).Some?
    {
      assert b.tail[i] in b.tail;
      ValueLoadsSame(pool, table, b, b.tail[i]);
    }
    ValuesLoadSame(table, Table(pool), b.tail, b2.tail);
    assert b2.literals[n..] == b.literals[n..];
  }

  lemma ValueLoadsSame(pool: seq<Literal>, table: seq<Byte>, b: Block, v: Value)
    requires AllValid(pool) && b.FunctionBlock? && BlockValid(table, b) && PoolHas(pool, table, b)
    requires v in SlotValuesOf(b) || v in b.tail
    ensures var v2 := if b.flags.isStatic then v else Relit(Entries(pool), table, v);
            LoadValue(table, v) == LoadValue(Table(pool), v2) && LoadValue(table, v).Some?
            && ValueValid(Table(pool), b.flags, v2)
  {
    hide Table, Entries, GetLiteral;
    ConstIsValid(table, b, v);
    if !b.flags.isStatic {
      assert v in LiteralValues(b);
      RelitLoads(pool, table, v);
    }
  }

  function SlotValuesOf(b: Block): seq<Value>
    requires b.FunctionBlock? && Shaped(b)
  {
    var words := SlotValues(b.literals[..b.args.constLiteralEnd - b.args.registerEnd]);
    if words.Some? then words.value else []
  }

  lemma ConstIsValid(table: seq<Byte>, b: Block, v: Value)
    requires b.FunctionBlock? && BlockValid(table, b) && (v in SlotValuesOf(b) || v in b.tail)
    ensures ValueValid(table, b.flags, v)
  {
    if v in SlotValuesOf(b) {
      var i :| 0 <= i < |SlotValuesOf(b)| && SlotValuesOf(b)[i] == v;
      assert b.literals[i] == Word(v);
    }
  }

  ghost predicate Loads(s: Snapshot, dst: nat, pool: seq<Literal>, image2: Image, end2: nat) {
    && Valid(s) && AllValid(pool) && PoolServes(pool, s)
    && Holds(image2, Rebased(s, dst, Entries(pool))) && dst + CodeSize(s) <= end2
  }

  /** Any block of a rebased code area loads as the tree it loaded as before. */
  lemma {:induction false} LoadRebased(build: Build, s: Snapshot, dst: nat, pool: seq<Literal>, image2: Image, end2: nat, at: nat)
    requires Loads(s, dst, pool, image2, end2) && at in s.image
    ensures Start(s) <= at
    ensures Load(build, image2, Table(pool), end2, at - Start(s) + dst) == Load(build, s.image, s.table, s.litTableOffset, at)
    decreases s.litTableOffset - at, 1, 0
  {
    hide Table, Entries, RelitBlock, BlockValid, PoolHas, Walk, LoadConsts, LoadValues, Rebased;
    RebasedAt(s, dst, Entries(pool), at);
    var b := s.image[at];
    if b.RegExpBlock? {
      RelitRegExp(Entries(pool), s.table, b);
    } else {
      BlockLoadsSame(pool, s.table, b);
      var n := b.args.constLiteralEnd - b.args.registerEnd;
      ChildrenAreChildren(s, at);
      LoadKidsRebased(build, s, dst, pool, image2, end2, at, b.literals[n..]);
      assert Shaped(b);
      var b2 := image2[at - Start(s) + dst];
      assert b2 == RelitBlock(Entries(pool), s.table, b);
      assert LoadKids(build, image2, Table(pool), end2, at - Start(s) + dst, b2.literals[n..])
          == LoadKids(build, s.image, s.table, s.litTableOffset, at, b.literals[n..]);
    }
  }

  lemma RelitRegExp(entries: seq<Entry>, table: seq<Byte>, b: Block)
    requires b.RegExpBlock?
    ensures RelitBlock(entries, table, b) == b
  {}

  lemma ChildrenAreChildren(s: Snapshot, at: nat)
    requires Valid(s) && at in s.image && s.image[at].FunctionBlock?
    ensures var b := s.image[at];
            Shaped(b) && forall c <- b.literals[b.args.constLiteralEnd - b.args.registerEnd..] ::
              c.Child? && (c.offset != 0 ==> at + c.offset in s.image)
  {
    var b := s.image[at];
    assert BlockValid(s.table, b) && ChildrenInside(s.image, at);
    var n := b.args.constLiteralEnd - b.args.registerEnd;
    forall c | c in b.literals[n..]
      ensures c.Child? && (c.offset != 0 ==> at + c.offset in s.image)
    {
      var i :| 0 <= i < |b.literals[n..]| && b.literals[n..][i] == c;
      assert b.literals[n + i] == c;
    }
  }

  lemma {:induction false} LoadKidsRebased(build: Build, s: Snapshot, dst: nat, pool: seq<Literal>, image2: Image, end2: nat, at: nat, slots: seq<Slot>)
    requires Loads(s, dst, pool, image2, end2) && Start(s) <= at < s.litTableOffset
    requires forall c <- slots :: c.Child? && (c.offset != 0 ==> at + c.offset in s.image)
    ensures at - Start(s) + dst < end2
    ensures LoadKids(build, image2, Table(pool), end2, at - Start(s) + dst, slots) == LoadKids(build, s.image, s.table, s.litTableOffset, at, slots)
    decreases s.litTableOffset - at, 0, |slots|
  {
    hide Table, Entries, PoolServes, Rebased, Load, BlockValid, ChildrenInside, Walk;
    if slots != [] {
      var last := slots[|slots| - 1];
      assert last in slots;
      LoadKidsRebased(build, s, dst, pool, image2, end2, at, slots[..|slots| - 1]);
      KidsNext(build, image2, Table(pool), end2, at - Start(s) + dst, slots);
      KidsNext(build, s.image, s.table, s.litTableOffset, at, slots);
      if last.offset != 0 {
        LoadRebased(build, s, dst, pool, image2, end2, at + last.offset);
      }
    }
  }
}
