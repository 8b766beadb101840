/** Taking a snapshot: the recursive writer, the literal pool and the literal patching walk. */
module SnapshotWriter {
  import opened Options
  import opened MachineWords
  import opened SnapshotLiterals
  import opened SnapshotImage

  datatype Error = MaximumSize | TaggedLiterals | BufferTooSmall | LiteralMemory | UnknownLiteral

  /** The first error met by writing a tree depth first at a byte offset of a buffer. */
  function FirstError(c: Code, at: nat, bufferSize: nat): Option<Error> {
    if at > MAX_WRITE_OFFSET then Some(MaximumSize)
    else if c.flags.tagged then Some(TaggedLiterals)
    else match c
      case RegExp(_, pattern) =>
        if at + CODE_HEADER + |pattern| > bufferSize then Some(BufferTooSmall) else None
      case Function(_, _, _, _, _, _, kids, _) =>
        if at + OwnExtent(c) > bufferSize then Some(BufferTooSmall)
        else KidsFirstError(kids, at + OwnExtent(c), bufferSize)
  }

  function KidsFirstError(kids: seq<Kid>, at: nat, bufferSize: nat): Option<Error> {
    if kids == [] then None else
      var init := kids[..|kids| - 1];
      var before := KidsFirstError(init, at, bufferSize);
      if before.Some? then before else KidFirstError(kids[|kids| - 1], at + KidsExtent(init), bufferSize)
  }

  function KidFirstError(kid: Kid, at: nat, bufferSize: nat): Option<Error> {
    if kid.Self? then None else FirstError(kid.code, at, bufferSize)
  }

  predicate Contains(c: Code, regexp: bool) {
    (if regexp then c.RegExp? else c.flags.kind == CONSTRUCTOR) || (c.Function? && KidsContain(c.kids, regexp))
  }

  predicate KidsContain(kids: seq<Kid>, regexp: bool) {
    kids != [] && (KidsContain(kids[..|kids| - 1], regexp) || KidContains(kids[|kids| - 1], regexp))
  }

  predicate KidContains(kid: Kid, regexp: bool) { kid.Sub? && Contains(kid.code, regexp) }

  function Pointers(kids: seq<Kid>): (r: seq<Slot>)
    ensures |r| == |kids|
  {
    seq(|kids|, i requires 0 <= i < |kids| => Pointer(kids[i]))
  }

  /** The literal slots after n children have been replaced by their offsets. */
  function SlotsAfter(c: Code, n: nat): seq<Slot>
    requires c.Function? && n <= |c.kids|
  {
    Words(c.consts) + KidSlots(c.kids[..n], ALIGNMENT * c.size) + Pointers(c.kids[n..])
  }

  function BlockAfter(build: Build, c: Code, n: nat): Block
    requires c.Function? && n <= |c.kids|
  {
    FunctionBlock(c.size, c.refs, WrittenFlags(build, c.flags), c.args, c.body, SlotsAfter(c, n), c.tail)
  }

  lemma SlotStep(kids: seq<Kid>, n: nat, from: nat)
    requires n < |kids|
    ensures KidSlots(kids[..n + 1], from) ==
              KidSlots(kids[..n], from) + [Child(if kids[n].Self? then 0 else from + KidsExtent(kids[..n]))]
  {
    assert kids[..n + 1][..n] == kids[..n];
  }

  lemma PointerStep(kids: seq<Kid>, n: nat)
    requires n < |kids|
    ensures Pointers(kids[n..]) == [Pointer(kids[n])] + Pointers(kids[n + 1..])
  {}

  lemma Replaced<T>(a: seq<T>, b: seq<T>, old_: T, new_: T, c: seq<T>)
    ensures (a + b + ([old_] + c))[|a| + |b| := new_] == a + (b + [new_]) + c
  {}

  lemma BlockStep(build: Build, c: Code, n: nat)
    requires c.Function? && n < |c.kids|
    ensures var b := BlockAfter(build, c, n);
            && b.FunctionBlock? && |b.literals| == |c.consts| + |c.kids|
            && BlockAfter(build, c, n + 1) == b.(literals := b.literals[|c.consts| + n :=
                 Child(if c.kids[n].Self? then 0 else ALIGNMENT * c.size + KidsExtent(c.kids[..n]))])
  {
    var child := Child(if c.kids[n].Self? then 0 else ALIGNMENT * c.size + KidsExtent(c.kids[..n]));
    hide KidSlots, KidsExtent, Words, Pointers, WrittenFlags;
    SlotStep(c.kids, n, ALIGNMENT * c.size);
    PointerStep(c.kids, n);
    Replaced(Words(c.consts), KidSlots(c.kids[..n], ALIGNMENT * c.size), Pointer(c.kids[n]), child, Pointers(c.kids[n + 1..]));
    assert SlotsAfter(c, n)[|c.consts| + n := child] == SlotsAfter(c, n + 1);
  }

  lemma SlotsDone(build: Build, c: Code)
    requires c.Function?
    ensures BlockAfter(build, c, |c.kids|) == BlockOf(build, c)
  {
    assert c.kids[..|c.kids|] == c.kids;
    assert SlotsAfter(c, |c.kids|) == Words(c.consts) + KidSlots(c.kids, ALIGNMENT * c.size);
  }

  lemma KidsStep(build: Build, kids: seq<Kid>, n: nat, at: nat, bufferSize: nat)
    requires n < |kids|
    ensures var mid := at + KidsExtent(kids[..n]);
            && KidsExtent(kids[..n + 1]) == KidsExtent(kids[..n]) + KidExtent(kids[n])
            && KidsImage(build, kids[..n + 1], at) == KidsImage(build, kids[..n], at) + KidImage(build, kids[n], mid)
            && KidsFirstError(kids[..n + 1], at, bufferSize) ==
               (if KidsFirstError(kids[..n], at, bufferSize).Some? then KidsFirstError(kids[..n], at, bufferSize)
                else KidFirstError(kids[n], mid, bufferSize))
            && (forall r :: KidsContain(kids[..n + 1], r) == (KidsContain(kids[..n], r) || KidContains(kids[n], r)))
  {
    assert kids[..n + 1][..n] == kids[..n];
  }

  lemma NoKids(build: Build, at: nat, bufferSize: nat)
    ensures KidsExtent([]) == 0 && KidsImage(build, [], at) == map[]
    ensures KidsFirstError([], at, bufferSize) == None && !KidsContain([], true) && !KidsContain([], false)
  {}

  lemma {:induction false} KidsMember(kids: seq<Kid>, n: nat)
    requires KidsWellFormed(kids) && n <= |kids|
    ensures KidsWellFormed(kids[..n]) && (n < |kids| ==> KidWellFormed(kids[n]))
  {
    if n == |kids| {
      assert kids[..n] == kids;
    } else {
      var init := kids[..|kids| - 1];
      KidsMember(init, n);
      assert init[..n] == kids[..n];
    }
  }

  class Writer {
    const build: Build
    const bufferSize: nat
    var blocks: Image
    var writeOffset: nat
    var error: Option<Error>
    var regexFound: bool
    var classFound: bool

    constructor (build: Build, bufferSize: nat)
      ensures this.build == build && this.bufferSize == bufferSize
      ensures blocks == map[] && writeOffset == SNAPSHOT_HEADER && error == None && !regexFound && !classFound
    {
      this.build, this.bufferSize := build, bufferSize;
      blocks, writeOffset, error, regexFound, classFound := map[], AlignUp(SNAPSHOT_HEADER), None, false, false;
    }

    ghost predicate Ready()
      reads this
    {
      && Within(blocks, 0, writeOffset)
      && (error == None ==> writeOffset % ALIGNMENT == 0 && writeOffset >= SNAPSHOT_HEADER)
    }

    /** The blocks of a function and its first n children stand after those of `base`. */
    ghost predicate Written(code: Code, at: nat, n: nat, base: Image)
      requires code.Function? && n <= |code.kids|
      reads this
    {
      && blocks == base[at := BlockAfter(build, code, n)] + KidsImage(build, code.kids[..n], at + OwnExtent(code))
      && writeOffset == at + OwnExtent(code) + KidsExtent(code.kids[..n])
    }

    /** The copied block at `at` still holds the pointers to the children from n on. */
    ghost predicate Pending(code: Code, at: nat, n: nat)
      requires code.Function? && n <= |code.kids|
      reads this
    {
      && at in blocks && blocks[at].FunctionBlock? && |blocks[at].literals| == |code.consts| + |code.kids|
      && forall j | |code.consts| + n <= j < |code.consts| + |code.kids| ::
           blocks[at].literals[j] == Pointer(code.kids[j - |code.consts|])
    }

    method AddCompiledCode(code: Code) returns (start: nat)
      requires WellFormed(code) && Ready()
      modifies this
      ensures Ready() && writeOffset >= old(writeOffset)
      ensures Extends(old(blocks), blocks)
      ensures old(error).Some? ==> error == old(error)
      ensures old(error).None? ==> error == FirstError(code, old(writeOffset), bufferSize)
      ensures error.None? ==>
                && start == old(writeOffset) - SNAPSHOT_HEADER
                && writeOffset == old(writeOffset) + Extent(code)
                && blocks == old(blocks) + ImageOf(build, code, old(writeOffset))
                && regexFound == (old(regexFound) || Contains(code, true))
                && classFound == (old(classFound) || Contains(code, false))
      decreases code, 2
    {
      if error.Some? {
        return 0;
      }
      if writeOffset > MAX_WRITE_OFFSET {
        error := Some(MaximumSize);
        return 0;
      }
      start := writeOffset - SNAPSHOT_HEADER;
      if code.flags.tagged {
        error := Some(TaggedLiterals);
        return 0;
      }
      if code.flags.kind == CONSTRUCTOR {
        classFound := true;
      }
      if code.RegExp? {
        AddRegExp(code);
      } else if writeOffset + ALIGNMENT * code.size > bufferSize {
        error := Some(BufferTooSmall);
      } else {
        AddFunction(code);
      }
      if error.Some? {
        start := 0;
      }
    }

    method AddRegExp(code: Code)
      requires WellFormed(code) && code.RegExp? && Ready() && error.None?
      modifies this
      ensures Ready() && writeOffset >= old(writeOffset) && Extends(old(blocks), blocks) && classFound == old(classFound)
      ensures error == if old(writeOffset) + CODE_HEADER + |code.pattern| > bufferSize then Some(BufferTooSmall) else None
      ensures error.None? ==> regexFound && writeOffset == old(writeOffset) + OwnExtent(code)
      ensures error.None? ==> blocks == old(blocks)[old(writeOffset) := BlockOf(build, code)]
    {
      hide AlignUp;
      var at := writeOffset;
      AlignShift(at, CODE_HEADER + |code.pattern|);
      if writeOffset + CODE_HEADER > bufferSize {
        error := Some(BufferTooSmall);
        return;
      }
      writeOffset := writeOffset + CODE_HEADER;
      if writeOffset + |code.pattern| > bufferSize {
        error := Some(BufferTooSmall);
        return;
      }
      writeOffset := writeOffset + |code.pattern|;
      regexFound := true;
      writeOffset := AlignUp(writeOffset);
      var patternSize := |code.pattern| + CODE_HEADER;
      blocks := blocks[at := RegExpBlock((patternSize + ALIGNMENT - 1) / ALIGNMENT % 0x1_0000,
                                         |code.pattern| % 0x1_0000, code.flags, code.pattern)];
    }

    /** Copies a function's own bytes and clears the line-info flag of the copy. */
    method CopyFunction(code: Code)
      requires WellFormed(code) && code.Function? && Ready() && error.None?
      modifies this`blocks, this`writeOffset
      ensures Ready() && writeOffset == old(writeOffset) + OwnExtent(code)
      ensures Extends(old(blocks), blocks)
      ensures Written(code, old(writeOffset), 0, old(blocks)) && Pending(code, old(writeOffset), 0)
    {
      var at := writeOffset;
      var flags := code.flags;
      if build.lineInfo {
        flags := flags.(lineInfo := false);
      }
      blocks := blocks[at := FunctionBlock(code.size, code.refs, flags, code.args, code.body,
                                           Words(code.consts) + Pointers(code.kids), code.tail)];
      writeOffset := writeOffset + ALIGNMENT * code.size;
      SlotsStart(code);
    }

    /** Where the writer of a function stands after n of its children. */
    ghost predicate Progress(code: Code, at: nat, n: nat, base: Image, regex0: bool, class0: bool)
      requires code.Function? && n <= |code.kids|
      reads this
    {
      && Ready() && at + OwnExtent(code) <= writeOffset && Extends(base, blocks) && Pending(code, at, n)
      && error == KidsFirstError(code.kids[..n], at + OwnExtent(code), bufferSize)
      && (error.None? ==>
            && Written(code, at, n, base)
            && regexFound == (regex0 || KidsContain(code.kids[..n], true))
            && classFound == (class0 || KidsContain(code.kids[..n], false)))
    }

    method AddFunction(code: Code)
      requires WellFormed(code) && code.Function? && Ready() && error.None?
      modifies this
      ensures Ready() && writeOffset >= old(writeOffset) && Extends(old(blocks), blocks)
      ensures error == KidsFirstError(code.kids, old(writeOffset) + OwnExtent(code), bufferSize)
      ensures error.None? ==>
                && writeOffset == old(writeOffset) + Extent(code)
                && blocks == old(blocks) + ImageOf(build, code, old(writeOffset))
                && regexFound == (old(regexFound) || KidsContain(code.kids, true))
                && classFound == (old(classFound) || KidsContain(code.kids, false))
      decreases code, 1
    {
      hide ImageOf, KidsImage, BlockAfter, KidsExtent, KidsFirstError, KidsContain, Pending;
      NoKids(build, writeOffset + OwnExtent(code), bufferSize);
      var at := writeOffset;
      CopyFunction(code);
      var literalEnd := code.args.literalEnd - code.args.registerEnd;
      var constLiteralEnd := code.args.constLiteralEnd - code.args.registerEnd;
      assert code.kids[..0] == [];
      assert Progress(code, at, 0, old(blocks), old(regexFound), old(classFound));
      var i := constLiteralEnd;
      while i < literalEnd
        invariant constLiteralEnd <= i <= literalEnd
        invariant Progress(code, at, i - constLiteralEnd, old(blocks), old(regexFound), old(classFound))
      {
        AddKid(code, at, i, old(blocks), old(regexFound), old(classFound));
        i := i + 1;
      }
      assert code.kids[..|code.kids|] == code.kids;
      Finished(build, code, old(blocks), at);
    }

    /** One literal slot: zero for the function itself, else the distance to the child just written. */
    method AddKid(code: Code, at: nat, i: nat, ghost base: Image, ghost regex0: bool, ghost class0: bool)
      requires WellFormed(code) && code.Function? && |code.consts| <= i < |code.consts| + |code.kids|
      requires at >= SNAPSHOT_HEADER && Within(base, 0, at)
      requires Progress(code, at, i - |code.consts|, base, regex0, class0)
      modifies this
      ensures Progress(code, at, i - |code.consts| + 1, base, regex0, class0)
      decreases code, 0, 1
    {
      hide BlockAfter, KidsImage, KidImage, KidsFirstError, KidsContain, KidsExtent, KidExtent, OwnExtent, WellFormed, Pending;
      var slot := WriteKid(code, at, i, base, regex0, class0);
      StoreSlot(code, at, i, slot, base);
    }

    /** Writes the child that a pointer stands for, and returns the slot that replaces the pointer. */
    method WriteKid(code: Code, at: nat, i: nat, ghost base: Image, ghost regex0: bool, ghost class0: bool) returns (slot: Slot)
      requires WellFormed(code) && code.Function? && |code.consts| <= i < |code.consts| + |code.kids|
      requires at >= SNAPSHOT_HEADER && Within(base, 0, at)
      requires Progress(code, at, i - |code.consts|, base, regex0, class0)
      modifies this
      ensures Ready() && at + OwnExtent(code) <= writeOffset
      ensures Extends(base, blocks) && Pending(code, at, i - |code.consts|)
      ensures error == KidsFirstError(code.kids[..i - |code.consts| + 1], at + OwnExtent(code), bufferSize)
      ensures error.None? ==>
        var n := i - |code.consts|;
        var mid := at + OwnExtent(code) + KidsExtent(code.kids[..n]);
        && blocks == base[at := BlockAfter(build, code, n)] + KidsImage(build, code.kids[..n], at + OwnExtent(code))
                     + KidImage(build, code.kids[n], mid)
        && writeOffset == mid + KidExtent(code.kids[n])
        && slot == Child(if code.kids[n].Self? then 0 else ALIGNMENT * code.size + KidsExtent(code.kids[..n]))
        && regexFound == (regex0 || KidsContain(code.kids[..n + 1], true))
        && classFound == (class0 || KidsContain(code.kids[..n + 1], false))
      decreases code, 0, 0
    {
      hide BlockAfter, KidsImage, KidImage, KidsFirstError, KidFirstError, KidsContain, KidContains,
           KidsExtent, KidExtent, ImageOf, Extent, OwnExtent, FirstError, AlignUp, BlockOf, Wrap32;
      ghost var n := i - |code.consts|;
      ghost var mid := at + OwnExtent(code) + KidsExtent(code.kids[..n]);
      var start := at - SNAPSHOT_HEADER;
      var kid := blocks[at].literals[i].kid;
      KidsMember(code.kids, n);
      KidsStep(build, code.kids, n, at + OwnExtent(code), bufferSize);
      KidCases(build, kid, mid, bufferSize);
      OwnIsPositive(code);
      slot := Child(0);
      ghost var before := blocks;
      if kid.Sub? {
        assert code decreases to code.kids;
        assert code.kids decreases to kid;
        var offset := AddCompiledCode(kid.code);
        assert error.None? ==> offset - start == ALIGNMENT * code.size + KidsExtent(code.kids[..n]) < 0x1_0000_0000;
        slot := Child(Wrap32(offset - start));
      }
      assert error.None? ==> blocks == before + KidImage(build, kid, mid);
    }

    /** Overwrites a pointer with an offset, in place in the block written before the children. */
    method StoreSlot(code: Code, at: nat, i: nat, slot: Slot, ghost base: Image)
      requires WellFormed(code) && code.Function? && |code.consts| <= i < |code.consts| + |code.kids|
      requires at >= SNAPSHOT_HEADER && Within(base, 0, at) && Ready() && at + OwnExtent(code) <= writeOffset
      requires Extends(base, blocks) && Pending(code, at, i - |code.consts|)
      requires error.None? ==>
        var n := i - |code.consts|;
        var mid := at + OwnExtent(code) + KidsExtent(code.kids[..n]);
        && blocks == base[at := BlockAfter(build, code, n)] + KidsImage(build, code.kids[..n], at + OwnExtent(code))
                     + KidImage(build, code.kids[n], mid)
        && writeOffset == mid + KidExtent(code.kids[n])
        && slot == Child(if code.kids[n].Self? then 0 else ALIGNMENT * code.size + KidsExtent(code.kids[..n]))
      modifies this`blocks
      ensures Ready() && Extends(base, blocks) && Pending(code, at, i - |code.consts| + 1)
      ensures error.None? ==> Written(code, at, i - |code.consts| + 1, base)
    {
      hide BlockAfter, KidsImage, KidImage, KidsExtent, KidExtent, OwnExtent, AlignUp, WellFormed;
      StoredImage(build, code, at, i - |code.consts|, base);
      blocks := blocks[at := blocks[at].(literals := blocks[at].literals[i := slot])];
    }
  }

  /** The image of n + 1 children is that of n and the next child, with one more slot of the parent set. */
  lemma StoredImage(build: Build, code: Code, at: nat, n: nat, base: Image)
    requires WellFormed(code) && code.Function? && n < |code.kids|
    ensures var own := at + OwnExtent(code);
            var mid := own + KidsExtent(code.kids[..n]);
            var b := BlockAfter(build, code, n);
            var slot := Child(if code.kids[n].Self? then 0 else ALIGNMENT * code.size + KidsExtent(code.kids[..n]));
            var before := base[at := b] + KidsImage(build, code.kids[..n], own) + KidImage(build, code.kids[n], mid);
            && own > at && KidsExtent(code.kids[..n + 1]) == KidsExtent(code.kids[..n]) + KidExtent(code.kids[n])
            && b.FunctionBlock? && |b.literals| == |code.consts| + |code.kids| && at in before && before[at] == b
            && before[at := b.(literals := b.literals[|code.consts| + n := slot])]
               == base[at := BlockAfter(build, code, n + 1)] + KidsImage(build, code.kids[..n + 1], own)
  {
    hide BlockAfter, KidsImage, KidImage, KidsExtent, KidExtent, OwnExtent, AlignUp;
    var own := at + OwnExtent(code);
    var mid := own + KidsExtent(code.kids[..n]);
    KidsMember(code.kids, n);
    KidsStep(build, code.kids, n, own, 0);
    BlockStep(build, code, n);
    KidCases(build, code.kids[n], mid, 0);
    KidsImageWithin(build, code.kids[..n], own);
    OwnIsPositive(code);
    ReplaceUnder(base, at, BlockAfter(build, code, n), BlockAfter(build, code, n + 1),
                 KidsImage(build, code.kids[..n], own), KidImage(build, code.kids[n], mid));
  }

  lemma OwnIsPositive(c: Code)
    requires WellFormed(c) && c.Function?
    ensures OwnExtent(c) == ALIGNMENT * c.size > 0
  {}

  /** A literal that is the function itself adds nothing; any other adds the whole of its code. */
  lemma KidCases(build: Build, kid: Kid, at: nat, bufferSize: nat)
    requires KidWellFormed(kid)
    ensures Within(KidImage(build, kid, at), at, at + KidExtent(kid))
    ensures kid.Self? ==> KidImage(build, kid, at) == map[] && KidExtent(kid) == 0
                          && KidFirstError(kid, at, bufferSize).None?
                          && !KidContains(kid, true) && !KidContains(kid, false)
    ensures kid.Sub? ==> KidImage(build, kid, at) == ImageOf(build, kid.code, at) && KidExtent(kid) == Extent(kid.code)
                         && KidFirstError(kid, at, bufferSize) == FirstError(kid.code, at, bufferSize)
                         && KidContains(kid, true) == Contains(kid.code, true)
                         && KidContains(kid, false) == Contains(kid.code, false)
    ensures kid.Sub? && KidFirstError(kid, at, bufferSize).None? ==> at <= MAX_WRITE_OFFSET
  {
    if kid.Sub? {
      ImageWithin(build, kid.code, at);
    }
  }

  /** Rewriting the parent's block after a child was added leaves the other blocks as they were. */
  lemma ReplaceUnder(base: Image, at: nat, b1: Block, b2: Block, kids: Image, kid: Image)
    requires at !in kids && at !in kid
    ensures (base[at := b1] + kids + kid)[at := b2] == base[at := b2] + (kids + kid)
  {}

  lemma SlotsStart(c: Code)
    requires c.Function?
    ensures c.kids[..0] == []
    ensures SlotsAfter(c, 0) == Words(c.consts) + Pointers(c.kids)
  {
    assert c.kids[0..] == c.kids;
  }

  lemma Finished(build: Build, c: Code, base: Image, at: nat)
    requires c.Function? && c.kids[..|c.kids|] == c.kids
    ensures base[at := BlockAfter(build, c, |c.kids|)] + KidsImage(build, c.kids, at + OwnExtent(c))
         == base + ImageOf(build, c, at)
  {
    SlotsDone(build, c);
  }

  lemma AlignShift(at: nat, n: nat)
    requires at % ALIGNMENT == 0
    ensures AlignUp(at + n) == at + AlignUp(n)
  {
    assert at + n + 7 == 8 * (at / 8) + (n + 7);
  }

  ghost predicate Extends(before: Image, after: Image) {
    forall k <- before :: k in after && after[k] == before[k]
  }
}
