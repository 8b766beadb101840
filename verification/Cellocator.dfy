/** The cell allocator: pages of equal cells, and a free list that runs through the free cells themselves. */
module Cellocator {
  import opened Options

  const CELL_SIZE := 32
  const HEADER_SIZE := 24
  const NULL := 0

  datatype Page = Page(start: int, end: int, next: int)

  /** The bytes of a page block: its header and its cells. */
  predicate InBlock(x: int, block: int, count: nat) {
    block <= x < block + HEADER_SIZE + CELL_SIZE * count
  }

  predicate Apart(a: int, b: int, count: nat) {
    a + HEADER_SIZE + CELL_SIZE * count <= b || b + HEADER_SIZE + CELL_SIZE * count <= a
  }

  function Cell(block: int, i: int): int {
    block + HEADER_SIZE + CELL_SIZE * i
  }

  ghost predicate IsCellOf(x: int, block: int, count: nat) {
    exists i :: 0 <= i < count && x == Cell(block, i)
  }

  ghost predicate IsCell(x: int, blocks: seq<int>, count: nat) {
    exists b | 0 <= b < |blocks| :: IsCellOf(x, blocks[b], count)
  }

  /** The list that starts at p and follows the links. */
  ghost predicate Chain(links: map<int, int>, p: int, cells: seq<int>)
    decreases |cells|
  {
    if cells == [] then p == NULL
    else p == cells[0] && p != NULL && p in links && Chain(links, links[p], cells[1..])
  }

  lemma {:induction false} ChainKept(links: map<int, int>, p: int, cells: seq<int>, x: int, y: int)
    requires Chain(links, p, cells) && x !in cells
    ensures Chain(links[x := y], p, cells)
    decreases |cells|
  {
    if cells != [] {
      ChainKept(links, links[p], cells[1..], x, y);
    }
  }

  lemma DistinctMore(s: seq<int>, x: int)
    requires NoDuplicates(s) && x !in s
    ensures NoDuplicates([x] + s)
  {}

  /** Pages in list order: each at its block, with the bounds of its cells, linked to the next. */
  ghost predicate PageChain(pageAt: map<int, Page>, p: int, blocks: seq<int>, count: nat)
    decreases |blocks|
  {
    if blocks == [] then p == NULL
    else
      && p == blocks[0] && p > 0 && p in pageAt
      && pageAt[p].start == Cell(p, 0) && pageAt[p].end == Cell(p, count - 1)
      && PageChain(pageAt, pageAt[p].next, blocks[1..], count)
  }

  ghost predicate AllApart(blocks: seq<int>, count: nat) {
    forall i, j | 0 <= i < |blocks| && 0 <= j < |blocks| && i != j :: Apart(blocks[i], blocks[j], count)
  }

  lemma {:induction false} PageChainKept(pageAt: map<int, Page>, p: int, blocks: seq<int>, count: nat, x: int, page: Page)
    requires PageChain(pageAt, p, blocks, count) && x !in blocks
    ensures PageChain(pageAt[x := page], p, blocks, count)
    decreases |blocks|
  {
    if blocks != [] {
      PageChainKept(pageAt, pageAt[p].next, blocks[1..], count, x, page);
    }
  }

  lemma {:induction false} BlocksArePositive(pageAt: map<int, Page>, p: int, blocks: seq<int>, count: nat)
    requires PageChain(pageAt, p, blocks, count)
    ensures forall b <- blocks :: b > 0
    decreases |blocks|
  {
    if blocks != [] {
      BlocksArePositive(pageAt, pageAt[p].next, blocks[1..], count);
      assert blocks == [blocks[0]] + blocks[1..];
    }
  }

  /** A cell lies in its own block only. */
  lemma CellInOneBlock(x: int, a: int, b: int, count: nat)
    requires IsCellOf(x, a, count) && Apart(a, b, count)
    ensures !IsCellOf(x, b, count) && !InBlock(x, b, count) && InBlock(x, a, count)
  {
    var i :| 0 <= i < count && x == Cell(a, i);
  }

  /** What the allocator knows of memory: every cell is free or live and never both, free cells are in the list once,
      and together they are as many as the pages hold. */
  ghost predicate Consistent(links: map<int, int>, head: int, free: seq<int>, live: set<int>, blocks: seq<int>, count: nat) {
    && Chain(links, head, free) && NoDuplicates(free)
    && (forall x :: IsCell(x, blocks, count) <==> x in free || x in live)
    && (forall x <- free :: x !in live)
    && |free| + |live| == |blocks| * count
  }

  class Allocator {
    const count: nat
    var pages: int
    var freeCells: int
    /** The words of memory that hold page headers and the links of cells. */
    var pageAt: map<int, Page>
    var links: map<int, int>
    ghost var blocks: seq<int>
    ghost var free: seq<int>
    ghost var live: set<int>

    ghost predicate Valid()
      reads this
    {
      && 1 <= count && CELL_SIZE * count < 0x1_0000_0000
      && PageChain(pageAt, pages, blocks, count) && AllApart(blocks, count)
      && Consistent(links, freeCells, free, live, blocks, count)
    }

    constructor (count: nat)
      requires 1 <= count && CELL_SIZE * count < 0x1_0000_0000
      ensures Valid() && this.count == count && blocks == [] && live == {}
    {
      this.count := count;
      pages, freeCells, pageAt, links := NULL, NULL, map[], map[];
      blocks, free, live := [], [], {};
    }

    /** jmem_cellocator_add_page. The heap gives a block apart from all others, or none. */
    method AddPage(block: int) returns (ok: bool)
      requires Valid() && (block != NULL ==> block > 0 && forall b <- blocks :: Apart(block, b, count))
      modifies this
      ensures Valid() && live == old(live) && (ok <==> block != NULL)
      ensures blocks == if ok then [block] + old(blocks) else old(blocks)
      ensures free == (if ok then PushedCells(block, count) else []) + old(free)
    {
      hide PageChain, AllApart, Consistent, Pushed, Apart, PushedCells;
      if block == NULL {
        return false;
      }
      NothingPushed(links, freeCells, free, live, blocks, block, count);
      var page := Page(block + HEADER_SIZE, block + HEADER_SIZE + CELL_SIZE * (count - 1), pages);
      var iter := page.start;
      ghost var n := 0;
      while iter <= page.end
        invariant 0 <= n <= count && iter == Cell(block, n)
        invariant Pushed(links, freeCells, free, old(free), block, n)
        modifies `links, `freeCells, `free
        decreases page.end - iter
      {
        PushCell(links, freeCells, free, old(free), live, blocks, block, n, count);
        links := links[iter := freeCells];
        freeCells := iter;
        free := [iter] + free;
        iter := iter + CELL_SIZE;
        n := n + 1;
      }
      WholePage(links, freeCells, free, old(free), live, blocks, block, count, pageAt, pages, page);
      pageAt := pageAt[block := page];
      pages := block;
      blocks := [block] + blocks;
      ok := true;
    }

    /** jmem_cellocator_alloc: never a live cell, and nothing only if every cell is live. */
    method Alloc() returns (cell: int)
      requires Valid()
      modifies `freeCells, `free, `live
      ensures Valid()
      ensures cell != NULL ==> IsCell(cell, blocks, count) && cell !in old(live) && live == old(live) + {cell} && old(free) == [cell] + free
      ensures cell == NULL ==> live == old(live) && free == old(free) == [] && forall x :: IsCell(x, blocks, count) <==> x in live
    {
      cell := freeCells;
      if cell != NULL {
        TakeCell(links, freeCells, free, live, blocks, count);
        freeCells := links[cell];
        free := free[1..];
        live := live + {cell};
      }
    }

    /** jmem_cellocator_cell_free. */
    method CellFree(cell: int)
      requires Valid() && cell in live
      modifies `freeCells, `links, `free, `live
      ensures Valid() && live == old(live) - {cell} && free == [cell] + old(free)
    {
      BlocksArePositive(pageAt, pages, blocks, count);
      GiveCell(links, freeCells, free, live, blocks, count, cell);
      links := links[cell := freeCells];
      freeCells := cell;
      free := [cell] + free;
      live := live - {cell};
    }

    /** A live cell belongs to its user, who may write any word into it. */
    method Write(cell: int, word: int)
      requires Valid() && cell in live
      modifies `links
      ensures Valid() && links == old(links)[cell := word]
    {
      ChainKept(links, freeCells, free, cell, word);
      links := links[cell := word];
    }

    /** jmem_cellocator_find: the page that the address belongs to, which for a cell is the only page that holds it. */
    method Find(x: int) returns (page: int)
      requires Valid()
      ensures page != NULL ==> page in blocks && Cell(page, 0) <= x <= Cell(page, count - 1)
      ensures page == NULL ==> forall b <- blocks :: !(Cell(b, 0) <= x <= Cell(b, count - 1))
      ensures forall b <- blocks :: IsCellOf(x, b, count) ==> page == b
    {
      var iter := pages;
      ghost var k := 0;
      while iter != NULL
        invariant 0 <= k <= |blocks| && PageChain(pageAt, iter, blocks[k..], count)
        invariant forall b <- blocks[..k] :: !(Cell(b, 0) <= x <= Cell(b, count - 1))
        decreases |blocks| - k
      {
        assert blocks[k..][1..] == blocks[k + 1..] && blocks[..k + 1] == blocks[..k] + [blocks[k]];
        if x >= pageAt[iter].start && x <= pageAt[iter].end {
          OnlyPage(blocks, k, x, count);
          return iter;
        }
        iter := pageAt[iter].next;
        k := k + 1;
      }
      assert blocks[..k] == blocks;
      NoPage(blocks, x, count);
      page := NULL;
    }
  }

  lemma OnlyPage(blocks: seq<int>, k: nat, x: int, count: nat)
    requires k < |blocks| && AllApart(blocks, count) && count >= 1 && Cell(blocks[k], 0) <= x <= Cell(blocks[k], count - 1)
    ensures forall b <- blocks :: IsCellOf(x, b, count) ==> blocks[k] == b
  {
    forall b | b in blocks
      ensures IsCellOf(x, b, count) ==> blocks[k] == b
    {
      var j :| 0 <= j < |blocks| && blocks[j] == b;
      assert IsCellOf(x, b, count) ==> Cell(b, 0) <= x <= Cell(b, count - 1);
    }
  }

  lemma NoPage(blocks: seq<int>, x: int, count: nat)
    requires forall b <- blocks :: !(Cell(b, 0) <= x <= Cell(b, count - 1))
    ensures forall b <- blocks :: !IsCellOf(x, b, count)
  {
    forall b | b in blocks
      ensures !IsCellOf(x, b, count)
    {
      assert forall i :: 0 <= i < count && x == Cell(b, i) ==> Cell(b, 0) <= x <= Cell(b, count - 1);
    }
  }

  /** The first n cells of a new block were pushed in front of the old free list. */
  ghost predicate Pushed(links: map<int, int>, head: int, free: seq<int>, before: seq<int>, block: int, n: nat) {
    && Chain(links, head, free) && NoDuplicates(free) && free == PushedCells(block, n) + before
    && forall x :: x in free <==> x in before || IsCellOf(x, block, n)
  }

  /** The last cell of a new page is the first in the list. */
  ghost function PushedCells(block: int, n: nat): (r: seq<int>)
    ensures |r| == n
  {
    seq(n, i requires 0 <= i < n => Cell(block, n - 1 - i))
  }

  lemma PushCell(links: map<int, int>, head: int, free: seq<int>, before: seq<int>, live: set<int>, blocks: seq<int>, block: int, n: nat, count: nat)
    requires Pushed(links, head, free, before, block, n) && n < count && block > 0
    requires (forall x <- before :: IsCell(x, blocks, count)) && forall b <- blocks :: Apart(block, b, count)
    ensures var cell := Cell(block, n); Pushed(links[cell := head], cell, [cell] + free, before, block, n + 1)
  {
    var cell := Cell(block, n);
    assert cell !in free by {
      NewCell(before, blocks, block, n, count);
    }
    ChainKept(links, head, free, cell, head);
    DistinctMore(free, cell);
    assert ([cell] + free)[1..] == free;
    assert [cell] + free == PushedCells(block, n + 1) + before;
    forall x
      ensures x in [cell] + free <==> x in before || IsCellOf(x, block, n + 1)
    {
      MoreCells(x, block, n);
    }
  }

  lemma MoreCells(x: int, block: int, n: nat)
    ensures IsCellOf(x, block, n + 1) <==> IsCellOf(x, block, n) || x == Cell(block, n)
  {
    if IsCellOf(x, block, n) {
      var i :| 0 <= i < n && x == Cell(block, i);
      assert 0 <= i < n + 1;
    }
  }

  lemma NewCell(before: seq<int>, blocks: seq<int>, block: int, n: nat, count: nat)
    requires n < count && (forall x <- before :: IsCell(x, blocks, count)) && forall b <- blocks :: Apart(block, b, count)
    ensures Cell(block, n) !in before && !IsCellOf(Cell(block, n), block, n)
  {
    var x := Cell(block, n);
    assert IsCellOf(x, block, count);
    forall b | 0 <= b < |blocks|
      ensures !IsCellOf(x, blocks[b], count)
    {
      assert blocks[b] in blocks;
      CellInOneBlock(x, block, blocks[b], count);
    }
  }

  lemma NewPage(links: map<int, int>, head: int, free: seq<int>, before: seq<int>, live: set<int>, blocks: seq<int>, block: int, count: nat)
    requires Pushed(links, head, free, before, block, count) && (forall b <- blocks :: Apart(block, b, count))
    requires (forall x :: IsCell(x, blocks, count) <==> x in before || x in live) && (forall x <- before :: x !in live)
    requires |before| + |live| == |blocks| * count
    ensures Consistent(links, head, free, live, [block] + blocks, count)
  {
    var more := [block] + blocks;
    forall x
      ensures IsCell(x, more, count) <==> IsCell(x, blocks, count) || IsCellOf(x, block, count)
      ensures IsCellOf(x, block, count) ==> !IsCell(x, blocks, count)
    {
      MorePages(x, blocks, block, count);
    }
    assert (|blocks| + 1) * count == |blocks| * count + count;
  }

  lemma ApartMore(blocks: seq<int>, block: int, count: nat)
    requires AllApart(blocks, count) && forall b <- blocks :: Apart(block, b, count)
    ensures AllApart([block] + blocks, count) && block !in blocks
  {
    var more := [block] + blocks;
    forall i, j | 0 <= i < |more| && 0 <= j < |more| && i != j
      ensures Apart(more[i], more[j], count)
    {
      assert i > 0 ==> more[i] in blocks;
      assert j > 0 ==> more[j] in blocks;
    }
  }

  lemma NothingPushed(links: map<int, int>, head: int, free: seq<int>, live: set<int>, blocks: seq<int>, block: int, count: nat)
    requires Consistent(links, head, free, live, blocks, count)
    ensures Pushed(links, head, free, free, block, 0) && forall x <- free :: IsCell(x, blocks, count)
  {
    assert PushedCells(block, 0) + free == free;
  }

  /** All cells of the new page are in the list. */
  lemma WholePage(links: map<int, int>, head: int, free: seq<int>, before: seq<int>, live: set<int>, blocks: seq<int>, block: int,
                  count: nat, pageAt: map<int, Page>, pages: int, page: Page)
    requires Pushed(links, head, free, before, block, count) && (forall b <- blocks :: Apart(block, b, count)) && count >= 1
    requires exists links0, head0 :: Consistent(links0, head0, before, live, blocks, count)
    requires PageChain(pageAt, pages, blocks, count) && AllApart(blocks, count) && block > 0
    requires page == Page(Cell(block, 0), Cell(block, count - 1), pages)
    ensures Consistent(links, head, free, live, [block] + blocks, count) && free == PushedCells(block, count) + before
    ensures PageChain(pageAt[block := page], block, [block] + blocks, count) && AllApart([block] + blocks, count)
  {
    hide Apart, Chain, PushedCells, IsCell;
    NewPage(links, head, free, before, live, blocks, block, count);
    ApartMore(blocks, block, count);
    PageChainKept(pageAt, pages, blocks, count, block, page);
    assert ([block] + blocks)[1..] == blocks;
  }

  lemma MorePages(x: int, blocks: seq<int>, block: int, count: nat)
    requires forall b <- blocks :: Apart(block, b, count)
    ensures IsCell(x, [block] + blocks, count) <==> IsCell(x, blocks, count) || IsCellOf(x, block, count)
    ensures IsCellOf(x, block, count) ==> !IsCell(x, blocks, count)
  {
    var more := [block] + blocks;
    if IsCell(x, blocks, count) {
      var b :| 0 <= b < |blocks| && IsCellOf(x, blocks[b], count);
      assert more[b + 1] == blocks[b];
      assert blocks[b] in blocks;
      assert !IsCellOf(x, block, count) by {
        if IsCellOf(x, block, count) {
          CellInOneBlock(x, block, blocks[b], count);
        }
      }
    }
    if IsCellOf(x, block, count) {
      assert more[0] == block;
    }
  }

  lemma TakeCell(links: map<int, int>, head: int, free: seq<int>, live: set<int>, blocks: seq<int>, count: nat)
    requires Consistent(links, head, free, live, blocks, count) && head != NULL
    ensures head in links && free != [] && IsCell(head, blocks, count) && head !in live
    ensures Consistent(links, links[head], free[1..], live + {head}, blocks, count)
  {
    assert free == [free[0]] + free[1..];
  }

  lemma GiveCell(links: map<int, int>, head: int, free: seq<int>, live: set<int>, blocks: seq<int>, count: nat, cell: int)
    requires Consistent(links, head, free, live, blocks, count) && cell in live && (forall b <- blocks :: b > 0)
    requires IsCell(cell, blocks, count)
    ensures Consistent(links[cell := head], cell, [cell] + free, live - {cell}, blocks, count)
  {
    ChainKept(links, head, free, cell, head);
    DistinctMore(free, cell);
    assert ([cell] + free)[1..] == free;
    var b :| 0 <= b < |blocks| && IsCellOf(cell, blocks[b], count);
    assert blocks[b] in blocks;
    assert forall x :: x in [cell] + free <==> x == cell || x in free;
  }

  // ----- Whole runs -----

  datatype Operation = Add(block: int) | Allocate | Release(index: nat) | Store(index: nat, word: int)

  /** The blocks that were added and the cells that a program holds, by what its operations gave. */
  datatype Program = Program(blocks: seq<int>, held: seq<int>)

  ghost function After(p: Program, operation: Operation, r: int): Program {
    match operation
    case Add(_) => if r == NULL then p else p.(blocks := [r] + p.blocks)
    case Allocate => if r == NULL then p else p.(held := p.held + [r])
    case Release(index) => if index < |p.held| then p.(held := p.held[..index] + p.held[index + 1..]) else p
    case Store(_, _) => p
  }

  ghost function AfterAll(operations: seq<Operation>, results: seq<int>): Program
    requires |results| == |operations|
  {
    if operations == [] then Program([], [])
    else
      var n := |operations| - 1;
      After(AfterAll(operations[..n], results[..n]), operations[n], results[n])
  }

  /** A block is added if it is one and lies apart from all others. An allocation gives a cell that is not held, or none
      exactly if all cells of all blocks are held. */
  ghost predicate Right(p: Program, operation: Operation, r: int, count: nat) {
    match operation
    case Add(block) => r == if block > 0 && forall b <- p.blocks :: Apart(block, b, count) then block else NULL
    case Allocate =>
      if |p.held| == |p.blocks| * count then r == NULL else IsCell(r, p.blocks, count) && r !in p.held && r != NULL
    case Release(_) => r == NULL
    case Store(_, _) => r == NULL
  }

  /** Any sequence of operations by a program that frees and writes only cells that it holds: every result is right, and
      no cell is ever held twice. */
  method Run(count: nat, operations: seq<Operation>) returns (results: seq<int>)
    requires 1 <= count && CELL_SIZE * count < 0x1_0000_0000
    ensures |results| == |operations|
    ensures forall i | 0 <= i < |operations| :: Right(AfterAll(operations[..i], results[..i]), operations[i], results[i], count)
    ensures forall i | 0 <= i <= |operations| :: NoDuplicates(AfterAll(operations[..i], results[..i]).held)
  {
    hide AfterAll, Right;
    var a := new Allocator(count);
    var p := Program([], []);
    results := [];
    NothingRan();
    for i := 0 to |operations|
      invariant |results| == i && p == AfterAll(operations[..i], results) && Holds(a, p) && a.count == count && fresh(a)
      invariant forall k | 0 <= k < i :: Right(AfterAll(operations[..k], results[..k]), operations[k], results[k], count)
      invariant forall k | 0 <= k <= i :: NoDuplicates(AfterAll(operations[..k], results[..k]).held)
    {
      ghost var before := results;
      var r;
      r, p := Step(a, operations[i], p);
      results := results + [r];
      OneMore(operations, before, i, r);
      assert results[..i] == before && results[..i + 1] == results;
      assert forall k | 0 <= k < i :: results[..k] == before[..k];
    }
    assert operations[..|operations|] == operations;
  }

  /** The program holds exactly the live cells, each once. */
  ghost predicate Holds(a: Allocator, p: Program)
    reads a
  {
    a.Valid() && a.blocks == p.blocks && NoDuplicates(p.held) && forall x :: x in p.held <==> x in a.live
  }

  method Step(a: Allocator, operation: Operation, p: Program) returns (r: int, next: Program)
    requires Holds(a, p)
    modifies a
    ensures Holds(a, next) && next == After(p, operation, r)
    ensures Right(p, operation, r, a.count)
  {
    r, next := NULL, p;
    match operation {
      case Add(block) =>
        if block > 0 && forall b <- p.blocks :: Apart(block, b, a.count) {
          var ok := a.AddPage(block);
          r, next := block, p.(blocks := [block] + p.blocks);
        }
      case Allocate =>
        HeldAreLive(p.held, a.live);
        r := a.Alloc();
        if r != NULL {
          HoldOne(p.held, r);
          next := p.(held := p.held + [r]);
        }
      case Release(index) =>
        if index < |p.held| {
          HoldLess(p.held, index);
          a.CellFree(p.held[index]);
          next := p.(held := p.held[..index] + p.held[index + 1..]);
        }
      case Store(index, word) =>
        if index < |p.held| {
          a.Write(p.held[index], word);
        }
    }
  }

  lemma NothingRan()
    ensures AfterAll([], []) == Program([], [])
  {}

  lemma OneMore(operations: seq<Operation>, results: seq<int>, i: nat, r: int)
    requires i == |results| < |operations|
    ensures AfterAll(operations[..i + 1], results + [r]) == After(AfterAll(operations[..i], results), operations[i], r)
  {
    assert operations[..i + 1][..i] == operations[..i] && (results + [r])[..i] == results;
  }

  lemma {:induction false} HeldAreLive(held: seq<int>, live: set<int>)
    requires NoDuplicates(held) && forall x :: x in held <==> x in live
    ensures |held| == |live|
    decreases |held|
  {
    if held != [] {
      var n := |held| - 1;
      HoldLess(held, n);
      assert held[..n] + held[n + 1..] == held[..n];
      HeldAreLive(held[..n], live - {held[n]});
    } else {
      assert forall x <- live :: x in held;
      assert live == {};
    }
  }

  lemma HoldOne(held: seq<int>, cell: int)
    requires NoDuplicates(held) && cell !in held
    ensures NoDuplicates(held + [cell]) && forall x :: x in held + [cell] <==> x in held || x == cell
  {}

  lemma HoldLess(held: seq<int>, index: nat)
    requires NoDuplicates(held) && index < |held|
    ensures var less := held[..index] + held[index + 1..];
            NoDuplicates(less) && forall x :: x in less <==> x in held && x != held[index]
  {
    var less := held[..index] + held[index + 1..];
    assert forall j | 0 <= j < |less| :: less[j] == held[if j < index then j else j + 1];
    forall x
      ensures x in less <==> x in held && x != held[index]
    {
      if x in held && x != held[index] {
        var j :| 0 <= j < |held| && held[j] == x;
        assert x == less[if j < index then j else j - 1];
      }
    }
  }
}
