/**
 * Compiled code as the engine holds it (a tree of functions and regular expressions)
 * and as a snapshot holds it (blocks at byte offsets, children by relative offset).
 */
module SnapshotImage {
  import opened Options
  import opened SnapshotLiterals

  const CODE_HEADER := 6              // sizeof (ecma_compiled_code_t)
  const SNAPSHOT_HEADER := 24         // sizeof (jjs_snapshot_header_t)
  const MAX_WRITE_OFFSET := 0x7FFF_FFFF
  const REGULAR_EXPRESSION := 0
  const CONSTRUCTOR := 2

  function AlignUp(n: nat): (r: nat)
    ensures n <= r < n + ALIGNMENT && r % ALIGNMENT == 0
  {
    (n + 7) / 8 * 8
  }

  /** An ecma value as it appears in a literal slot. Offset is a value of the snapshot-offset type. */
  datatype Value = Empty | Direct(bits: nat) | Lit(literal: Literal) | BigIntZero | Offset(word: nat)

  /**
   * The 16 status bits. `tagged` is bit 6: tagged template literals of a function,
   * and also the dotAll flag of a regular expression.
   */
  datatype Flags = Flags(kind: nat, uint16Args: bool, mapped: bool, tagged: bool, lineInfo: bool,
                         isStatic: bool, debuggerIgnore: bool, rest: nat)

  datatype Arguments = Arguments(argumentEnd: nat, registerEnd: nat, constLiteralEnd: nat, literalEnd: nat)

  datatype Code =
    | Function(size: nat, refs: nat, flags: Flags, args: Arguments, body: seq<Byte>,
               consts: seq<Value>, kids: seq<Kid>, tail: seq<Value>)
    | RegExp(flags: Flags, pattern: seq<Byte>)

  /** A function literal: the function itself, or another compiled code. */
  datatype Kid = Self | Sub(code: Code)

  datatype Slot = Word(value: Value) | Pointer(kid: Kid) | Child(offset: nat)

  datatype Block =
    | FunctionBlock(size: nat, refs: nat, flags: Flags, args: Arguments, body: seq<Byte>,
                    literals: seq<Slot>, tail: seq<Value>)
    | RegExpBlock(size: nat, refs: nat, flags: Flags, text: seq<Byte>)

  type Image = map<nat, Block>

  /** The two dynamic feature bits of a snapshot header, and the compile-time feature bits above them. */
  datatype GlobalFlags = GlobalFlags(hasRegExp: bool, hasClass: bool, features: nat)

  /** A whole snapshot: the header fields, the code area by byte offset, and the literal table. */
  datatype Snapshot = Snapshot(magic: nat, version: nat, flags: GlobalFlags, litTableOffset: nat,
                               funcOffsets: seq<nat>, image: Image, table: seq<Byte>)

  const SNAPSHOT_MAGIC := 0x5952_524A
  const SNAPSHOT_VERSION := 71

  /** Two compile-time options of the engine that the snapshot code depends on. */
  datatype Build = Build(lineInfo: bool, debugger: bool)

  function HeaderSize(flags: Flags): nat { if flags.uint16Args then 24 else 16 }

  /** Argument names and the function name, stored backwards from the end of the block. */
  function TailCount(flags: Flags, args: Arguments): nat {
    (if flags.mapped then args.argumentEnd else 0) + (if flags.kind != CONSTRUCTOR then 1 else 0)
  }

  predicate ConstOk(v: Value) { !v.Offset? && (v.Lit? ==> v.literal.Valid()) }

  predicate TailOk(v: Value) { v == Empty || (v.Lit? && v.literal.Str?) }

  /** What the byte-code compiler guarantees of its output. */
  predicate WellFormed(c: Code) {
    match c
    case RegExp(flags, _) => flags.kind == REGULAR_EXPRESSION
    case Function(size, _, flags, args, _, consts, kids, tail) =>
      && 0 < size < 0x1_0000
      && flags.kind != REGULAR_EXPRESSION && !flags.isStatic
      && args.constLiteralEnd == args.registerEnd + |consts|
      && args.literalEnd == args.constLiteralEnd + |kids|
      && |tail| == TailCount(flags, args)
      && HeaderSize(flags) + 4 * (|consts| + |kids| + |tail|) <= ALIGNMENT * size
      && (forall v <- consts :: ConstOk(v))
      && (forall v <- tail :: TailOk(v))
      && KidsWellFormed(kids)
  }

  predicate KidsWellFormed(kids: seq<Kid>) {
    kids == [] || (KidsWellFormed(kids[..|kids| - 1]) && KidWellFormed(kids[|kids| - 1]))
  }

  predicate KidWellFormed(kid: Kid) { kid.Sub? ==> WellFormed(kid.code) }

  /** The bytes of one block, without its children. */
  function OwnExtent(c: Code): (r: nat)
    ensures r % ALIGNMENT == 0
    ensures WellFormed(c) ==> r >= ALIGNMENT
  {
    match c
    case Function(size, _, _, _, _, _, _, _) => ALIGNMENT * size
    case RegExp(_, pattern) => AlignUp(CODE_HEADER + |pattern|)
  }

  function Extent(c: Code): (r: nat)
    ensures r % ALIGNMENT == 0
  {
    OwnExtent(c) + if c.Function? then KidsExtent(c.kids) else 0
  }

  function KidsExtent(kids: seq<Kid>): (r: nat)
    ensures r % ALIGNMENT == 0
  {
    if kids == [] then 0 else KidsExtent(kids[..|kids| - 1]) + KidExtent(kids[|kids| - 1])
  }

  function KidExtent(kid: Kid): (r: nat)
    ensures r % ALIGNMENT == 0
  {
    if kid.Self? then 0 else Extent(kid.code)
  }

  /** The child slots of a block whose first child starts `from` bytes after it. */
  function KidSlots(kids: seq<Kid>, from: nat): (r: seq<Slot>)
    ensures |r| == |kids|
  {
    if kids == [] then [] else
      var init := kids[..|kids| - 1];
      KidSlots(init, from) + [Child(if kids[|kids| - 1].Self? then 0 else from + KidsExtent(init))]
  }

  function Words(vs: seq<Value>): (r: seq<Slot>)
    ensures |r| == |vs|
  {
    seq(|vs|, i requires 0 <= i < |vs| => Word(vs[i]))
  }

  function WrittenFlags(build: Build, flags: Flags): Flags {
    if build.lineInfo then flags.(lineInfo := false) else flags
  }

  /** The block the writer leaves for the root of a tree. */
  function BlockOf(build: Build, c: Code): Block {
    match c
    case Function(size, refs, flags, args, body, consts, kids, tail) =>
      FunctionBlock(size, refs, WrittenFlags(build, flags), args, body,
                    Words(consts) + KidSlots(kids, ALIGNMENT * size), tail)
    case RegExp(flags, pattern) =>
      RegExpBlock((|pattern| + CODE_HEADER + 7) / 8 % 0x1_0000, |pattern| % 0x1_0000, flags, pattern)
  }

  /** The blocks of a whole tree written depth first at a byte offset. */
  function ImageOf(build: Build, c: Code, at: nat): Image {
    map[at := BlockOf(build, c)] + if c.Function? then KidsImage(build, c.kids, at + OwnExtent(c)) else map[]
  }

  function KidsImage(build: Build, kids: seq<Kid>, at: nat): Image {
    if kids == [] then map[] else
      var init := kids[..|kids| - 1];
      KidsImage(build, init, at) + KidImage(build, kids[|kids| - 1], at + KidsExtent(init))
  }

  function KidImage(build: Build, kid: Kid, at: nat): Image {
    if kid.Self? then map[] else ImageOf(build, kid.code, at)
  }

  ghost predicate Within(image: Image, lo: nat, hi: nat) {
    forall k <- image :: lo <= k < hi
  }

  lemma {:induction false} ImageWithin(build: Build, c: Code, at: nat)
    requires WellFormed(c)
    ensures Within(ImageOf(build, c, at), at, at + Extent(c)) && at in ImageOf(build, c, at)
    ensures c.Function? ==> Within(KidsImage(build, c.kids, at + OwnExtent(c)), at + OwnExtent(c), at + Extent(c))
    decreases c
  {
    if c.Function? {
      KidsImageWithin(build, c.kids, at + OwnExtent(c));
    }
  }

  lemma {:induction false} KidsImageWithin(build: Build, kids: seq<Kid>, at: nat)
    requires KidsWellFormed(kids)
    ensures Within(KidsImage(build, kids, at), at, at + KidsExtent(kids))
    decreases kids
  {
    if kids != [] {
      var init, last := kids[..|kids| - 1], kids[|kids| - 1];
      KidsImageWithin(build, init, at);
      if last.Sub? {
        assert kids decreases to last;
        ImageWithin(build, last.code, at + KidsExtent(init));
      }
    }
  }

  ghost predicate Holds(image: Image, part: Image) {
    forall k <- part :: k in image && image[k] == part[k]
  }

  // ----- The linear walk by the size field -----

  /**
   * The positions the walkers visit from `at`: each step adds the block's size field.
   * None means that the walk leaves the blocks, stands still or oversteps the end.
   */
  function Walk(image: Image, at: nat, end: nat): Option<seq<nat>>
    decreases end - at
  {
    if at == end then Some([])
    else if at > end || at !in image || image[at].size == 0 then None
    else
      var rest := Walk(image, at + ALIGNMENT * image[at].size, end);
      if rest.Some? then Some([at] + rest.value) else None
  }

  /** The size fields of the regular expressions in a tree hold in their 16 bits. */
  predicate SizesFit(c: Code) {
    match c
    case RegExp(_, pattern) => (|pattern| + CODE_HEADER + 7) / 8 < 0x1_0000
    case Function(_, _, _, _, _, _, kids, _) => KidsSizesFit(kids)
  }

  predicate KidsSizesFit(kids: seq<Kid>) {
    kids == [] || (KidsSizesFit(kids[..|kids| - 1]) && KidSizesFit(kids[|kids| - 1]))
  }

  predicate KidSizesFit(kid: Kid) { kid.Sub? ==> SizesFit(kid.code) }

  lemma {:induction false} WalkJoins(image: Image, a: nat, b: nat, c: nat)
    requires Walk(image, a, b).Some? && Walk(image, b, c).Some? && a <= b <= c
    ensures Walk(image, a, c) == Some(Walk(image, a, b).value + Walk(image, b, c).value)
    decreases b - a
  {
    hide Holds, Within;
    if a == b {
      assert [] + Walk(image, b, c).value == Walk(image, b, c).value;
    } else {
      var next := a + ALIGNMENT * image[a].size;
      WalkEnds(image, next, b);
      WalkJoins(image, next, b, c);
      var first, second := Walk(image, next, b).value, Walk(image, b, c).value;
      assert [a] + (first + second) == ([a] + first) + second;
    }
  }

  lemma WalkEnds(image: Image, a: nat, b: nat)
    requires Walk(image, a, b).Some?
    ensures a <= b
  {}

  /** Only the sizes of the visited blocks matter to a walk. */
  lemma {:induction false} WalkSameSizes(image: Image, other: Image, a: nat, b: nat)
    requires Walk(image, a, b).Some?
    requires forall k <- Walk(image, a, b).value :: k in other && k in image && other[k].size == image[k].size
    ensures Walk(other, a, b) == Walk(image, a, b)
    decreases b - a
  {
    if a < b {
      WalkSameSizes(image, other, a + ALIGNMENT * image[a].size, b);
    }
  }

  lemma {:induction false} WalkOrdered(image: Image, a: nat, b: nat)
    requires Walk(image, a, b).Some?
    ensures var w := Walk(image, a, b).value;
            && (forall k <- w :: a <= k < b && k in image && image[k].size > 0 && k + ALIGNMENT * image[k].size <= b)
            && (forall i, j :: 0 <= i < j < |w| ==> w[i] < w[j])
            && (a < b ==> |w| > 0 && w[0] == a)
    decreases b - a
  {
    if a < b {
      WalkOrdered(image, a + ALIGNMENT * image[a].size, b);
      WalkEnds(image, a + ALIGNMENT * image[a].size, b);
    }
  }

  lemma SizeField(build: Build, c: Code)
    requires WellFormed(c) && SizesFit(c)
    ensures ALIGNMENT * BlockOf(build, c).size == OwnExtent(c) > 0
  {}

  /** The block positions of a tree in depth-first order. */
  function Positions(c: Code, at: nat): seq<nat> {
    [at] + if c.Function? then KidsPositions(c.kids, at + OwnExtent(c)) else []
  }

  function KidsPositions(kids: seq<Kid>, at: nat): seq<nat> {
    if kids == [] then [] else
      var init := kids[..|kids| - 1];
      KidsPositions(init, at) + KidPositions(kids[|kids| - 1], at + KidsExtent(init))
  }

  function KidPositions(kid: Kid, at: nat): seq<nat> {
    if kid.Self? then [] else Positions(kid.code, at)
  }

  lemma {:induction false} PositionsAreKeys(build: Build, c: Code, at: nat)
    ensures forall k :: k in Positions(c, at) <==> k in ImageOf(build, c, at)
    decreases c
  {
    if c.Function? {
      KidsPositionsAreKeys(build, c.kids, at + OwnExtent(c));
    }
  }

  lemma {:induction false} KidsPositionsAreKeys(build: Build, kids: seq<Kid>, at: nat)
    ensures forall k :: k in KidsPositions(kids, at) <==> k in KidsImage(build, kids, at)
    decreases kids
  {
    if kids != [] {
      var init, last := kids[..|kids| - 1], kids[|kids| - 1];
      KidsPositionsAreKeys(build, init, at);
      if last.Sub? {
        assert kids decreases to last;
        var mid := at + KidsExtent(init);
        PositionsAreKeys(build, last.code, mid);
        assert KidPositions(last, mid) == Positions(last.code, mid) && KidImage(build, last, mid) == ImageOf(build, last.code, mid);
      }
    }
  }

  /** Layout tiling: walking by the size field visits exactly the blocks the recursion wrote. */
  lemma {:induction false} Tiling(build: Build, c: Code, image: Image, at: nat)
    requires WellFormed(c) && SizesFit(c) && Holds(image, ImageOf(build, c, at))
    ensures Walk(image, at, at + Extent(c)) == Some(Positions(c, at))
    decreases c
  {
    SizeField(build, c);
    ImageWithin(build, c, at);
    var own := at + OwnExtent(c);
    if c.Function? {
      KidsTiling(build, c.kids, image, own);
    } else {
      assert Walk(image, own, own) == Some([]);
    }
  }

  lemma {:induction false} KidsTiling(build: Build, kids: seq<Kid>, image: Image, at: nat)
    requires KidsWellFormed(kids) && KidsSizesFit(kids) && Holds(image, KidsImage(build, kids, at))
    ensures Walk(image, at, at + KidsExtent(kids)) == Some(KidsPositions(kids, at))
    decreases kids
  {
    hide Holds, ImageOf, Within;
    if kids != [] {
      var init, last := kids[..|kids| - 1], kids[|kids| - 1];
      var mid := at + KidsExtent(init);
      assert KidsExtent(kids) == KidsExtent(init) + KidExtent(last);
      KidsDisjoint(build, kids, at);
      HoldsPart(image, KidsImage(build, kids, at), KidsImage(build, init, at));
      HoldsPart(image, KidsImage(build, kids, at), KidImage(build, last, mid));
      KidsTiling(build, init, image, at);
      if last.Sub? {
        assert kids decreases to last;
        Tiling(build, last.code, image, mid);
        assert KidExtent(last) == Extent(last.code) && KidPositions(last, mid) == Positions(last.code, mid);
      } else {
        assert Walk(image, mid, mid) == Some([]);
      }
      WalkJoins(image, at, mid, at + KidsExtent(kids));
    }
  }

  lemma HoldsPart(image: Image, whole: Image, part: Image)
    requires Holds(image, whole) && Holds(whole, part)
    ensures Holds(image, part)
  {}

  /** The last child's blocks lie after those of the children before it. */
  lemma KidsDisjoint(build: Build, kids: seq<Kid>, at: nat)
    requires KidsWellFormed(kids) && kids != []
    ensures var init := kids[..|kids| - 1]; var mid := at + KidsExtent(init);
            && Within(KidsImage(build, init, at), at, mid)
            && Within(KidImage(build, kids[|kids| - 1], mid), mid, at + KidsExtent(kids))
            && KidsImage(build, kids, at) == KidsImage(build, init, at) + KidImage(build, kids[|kids| - 1], mid)
            && Holds(KidsImage(build, kids, at), KidsImage(build, init, at))
            && Holds(KidsImage(build, kids, at), KidImage(build, kids[|kids| - 1], mid))
  {
    var init, last := kids[..|kids| - 1], kids[|kids| - 1];
    KidsImageWithin(build, init, at);
    var mid := at + KidsExtent(init);
    if last.Sub? {
      ImageWithin(build, last.code, mid);
      assert KidExtent(last) == Extent(last.code);
    }
    assert KidsImage(build, init, at).Keys !! KidImage(build, last, mid).Keys by {
      assert forall k <- KidsImage(build, init, at) :: k < mid;
      assert forall k <- KidImage(build, last, mid) :: mid <= k;
    }
  }
}
