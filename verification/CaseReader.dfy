/** The engine's search in the case tables: it finds again what the generator put into them. */
module CaseReader {
  import opened Options
  import opened CaseMappings
  import opened CaseExtraction
  import opened CasePairs
  import opened CasePipeline

  /** One element of a two-way table: letters with their lower case, and those with their upper case. */
  datatype Item = Item(there: CaseMap, back: CaseMap)

  ghost predicate Mentions(cp: int, item: Item) { cp in item.there || cp in item.back }

  /** The element that a search stops at: the first one that mentions the code point. */
  ghost predicate Decides(cp: int, items: seq<Item>, k: int) {
    0 <= k < |items| && Mentions(cp, items[k]) && forall j | 0 <= j < k :: !Mentions(cp, items[j])
  }

  /** What an element answers: the conversion in the wanted direction, or else the code point itself. A code point on both
      sides of one element is converted to lower case only. */
  ghost predicate Answers(v: int, cp: int, item: Item, isLower: bool) {
    if cp in item.there then (if isLower then item.there[cp] == [v] else v == cp)
    else cp in item.back && (if isLower then v == cp else item.back[cp] == [v])
  }

  /** The result of a whole search. */
  ghost predicate Searched(r: Option<int>, cp: int, items: seq<Item>, isLower: bool) {
    match r
    case Some(v) => exists k :: Decides(cp, items, k) && Answers(v, cp, items[k], isLower)
    case None => forall k | 0 <= k < |items| :: !Mentions(cp, items[k])
  }

  /** Searching one table after another. */
  lemma SearchedBoth(r: Option<int>, cp: int, one: seq<Item>, two: seq<Item>, isLower: bool)
    ensures r.Some? && Searched(r, cp, one, isLower) ==> Searched(r, cp, one + two, isLower)
    ensures Searched(None, cp, one, isLower) && Searched(r, cp, two, isLower) ==> Searched(r, cp, one + two, isLower)
  {
    hide Mentions, Answers;
    var all := one + two;
    if r.Some? && Searched(r, cp, one, isLower) {
      var k :| Decides(cp, one, k) && Answers(r.value, cp, one[k], isLower);
      assert Decides(cp, all, k) && all[k] == one[k];
    }
    if r.Some? && Searched(None, cp, one, isLower) && Searched(r, cp, two, isLower) {
      var k :| Decides(cp, two, k) && Answers(r.value, cp, two[k], isLower);
      assert all[|one| + k] == two[k];
      forall j | 0 <= j < |one| + k
        ensures !Mentions(cp, all[j])
      {
        assert all[j] == if j < |one| then one[j] else two[j - |one|];
      }
      assert Decides(cp, all, |one| + k);
    }
  }

  // ----- Case ranges -----

  function RunItem(run: Run): Item { Item(RunMap(run), RunMap(run.Reversed())) }

  function RunItems(runs: seq<Run>): (r: seq<Item>)
    ensures |r| == |runs|
  {
    seq(|runs|, i requires 0 <= i < |runs| => RunItem(runs[i]))
  }

  lemma RunHit(run: Run, cp: int)
    ensures run.start <= cp < run.start + run.length <==> cp in RunMap(run)
    ensures run.mapped <= cp < run.mapped + run.length <==> cp in RunMap(run.Reversed())
    ensures cp in RunMap(run) ==> RunMap(run)[cp] == [run.mapped + (cp - run.start)]
    ensures cp in RunMap(run.Reversed()) ==> RunMap(run.Reversed())[cp] == [run.start + (cp - run.mapped)]
  {}

  method SearchCaseRanges(cp: int, ranges: seq<int>, lengths: seq<int>, isLower: bool) returns (r: Option<int>)
    requires |ranges| == 2 * |lengths|
    ensures Searched(r, cp, RunItems(RunsOf(ranges, lengths)), isLower)
  {
    hide RunMap;
    ghost var runs := RunsOf(ranges, lengths);
    ghost var items := RunItems(runs);
    var counter := 0;
    for i := 0 to |ranges|
      invariant counter == if i == 0 then 0 else (i - 1) / 2
      invariant forall k | 0 <= k < |items| && 2 * k + 1 < i :: !Mentions(cp, items[k])
      invariant i % 2 == 1 ==> cp !in items[i / 2].there
    {
      if i % 2 == 0 && i > 0 {
        counter := counter + 1;
      }
      var start, length := ranges[i], lengths[counter];
      assert items[counter] == RunItem(runs[counter]) && runs[counter] == Run(ranges[2 * counter], ranges[2 * counter + 1], length);
      RunHit(runs[counter], cp);
      if start > cp || cp >= start + length {
        continue;
      }
      var distance := cp - start;
      assert Decides(cp, items, counter);
      if i % 2 == 0 {
        return Some(if isLower then ranges[i + 1] + distance else cp);
      } else {
        return Some(if isLower then cp else ranges[i - 1] + distance);
      }
    }
    r := None;
  }

  // ----- Pair ranges -----

  function PairRunItems(runs: seq<PairRun>): (r: seq<Item>)
    ensures |r| == |runs|
  {
    seq(|runs|, i requires 0 <= i < |runs| => Item(PairRunMap(runs[i]), PairRunReverse(runs[i])))
  }

  method SearchPairRanges(cp: int, starts: seq<int>, lengths: seq<int>, isLower: bool) returns (r: Option<int>)
    requires |starts| == |lengths| && Separated(PairRunsOf(starts, lengths))
    ensures Searched(r, cp, PairRunItems(PairRunsOf(starts, lengths)), isLower)
  {
    hide PairRunMap, PairRunReverse, Even;
    ghost var runs := PairRunsOf(starts, lengths);
    ghost var items := PairRunItems(runs);
    assert forall k | 0 <= k < |runs| :: runs[k] == PairRun(starts[k], lengths[k]) && lengths[k] >= 2;
    PairHits(runs, cp);
    var bottom, top := 0, |starts| - 1;
    while bottom <= top
      invariant 0 <= bottom <= |starts| && -1 <= top < |starts|
      invariant forall k | 0 <= k < |items| && Mentions(cp, items[k]) :: bottom <= k <= top
    {
      var middle := (bottom + top) / 2;
      var start := starts[middle];
      OtherRuns(runs, middle, cp);
      if start <= cp && cp < start + lengths[middle] {
        var distance := cp - start;
        PairHit(runs[middle], cp);
        if distance % 2 == 0 {
          r := Some(if isLower then start + distance + 1 else cp);
        } else {
          r := Some(if isLower then cp else start + distance - 1);
        }
        assert Decides(cp, items, middle);
        assert Answers(r.value, cp, items[middle], isLower);
        return;
      }
      if cp > start {
        bottom := middle + 1;
      } else {
        top := middle - 1;
      }
    }
    r := None;
  }

  lemma PairHit(run: PairRun, cp: int)
    requires run.start <= cp < run.start + run.length
    ensures (cp - run.start) % 2 == 0 ==> cp in PairRunMap(run) && PairRunMap(run)[cp] == [cp + 1]
    ensures (cp - run.start) % 2 != 0 ==> cp !in PairRunMap(run) && cp in PairRunReverse(run) && PairRunReverse(run)[cp] == [cp - 1]
  {}

  lemma PairHits(runs: seq<PairRun>, cp: int)
    ensures var items := PairRunItems(runs);
            forall k | 0 <= k < |runs| :: Mentions(cp, items[k]) <==> runs[k].start <= cp < runs[k].start + runs[k].length
  {}

  lemma OtherRuns(runs: seq<PairRun>, middle: nat, cp: int)
    requires Separated(runs) && middle < |runs|
    ensures cp >= runs[middle].start ==> forall k | 0 <= k < middle :: cp >= runs[k].start + runs[k].length
    ensures cp < runs[middle].start ==> forall k | middle < k < |runs| :: cp < runs[k].start
  {}

  // ----- Pairs -----

  /** The numbers of `count` entries with one letter and `width` code points each. */
  function Span(width: nat, count: nat): nat {
    (width + 1) * count
  }

  lemma SpanStep(width: nat, n: nat)
    ensures Span(width, n + 1) == Span(width, n) + width + 1 && Span(width, 0) == 0
  {}

  lemma SpanGrows(width: nat, n: nat, count: nat)
    ensures n < count ==> Span(width, n) + width < Span(width, count)
  {
    SpanStep(width, n);
    Times(width + 1, n + 1, count);
  }

  lemma LastEntry(table: seq<int>, width: nat)
    ensures |table| < width + 1 ==> EntriesOf(table, width) == []
    ensures |table| >= width + 1 ==>
              var m := |table| - (width + 1); EntriesOf(table, width) == EntriesOf(table[..m], width) + [Entry(table[m], table[m + 1..])]
  {}

  /** Entry n of a table. */
  lemma {:induction false} EntryAt(table: seq<int>, width: nat, n: nat, at: nat)
    requires n < |EntriesOf(table, width)| && |table| == Span(width, |EntriesOf(table, width)|) && at == Span(width, n)
    ensures at + width < |table| && EntriesOf(table, width)[n] == Entry(table[at], table[at + 1..at + 1 + width])
    decreases |table|
  {
    hide EntriesOf, Span;
    LastEntry(table, width);
    var m := |table| - (width + 1);
    var init := EntriesOf(table[..m], width);
    SpanStep(width, |init|);
    SpanGrows(width, n, |init|);
    if n < |init| {
      EntryAt(table[..m], width, n, at);
      assert table[..m][at + 1..at + 1 + width] == table[at + 1..at + 1 + width];
    } else {
      assert table[m + 1..] == table[at + 1..at + 1 + width];
    }
  }

  function EntryItem(e: Entry): Item
    requires |e.text| == 1
  {
    Item(map[e.letter := e.text], map[e.text[0] := [e.letter]])
  }

  ghost function EntryItems(entries: seq<Entry>): (r: seq<Item>)
    requires OnePoint(entries)
    ensures |r| == |entries|
  {
    seq(|entries|, i requires 0 <= i < |entries| => EntryItem(entries[i]))
  }

  method SearchPairs(cp: int, pairs: seq<int>, isLower: bool) returns (r: Option<int>)
    requires OnePoint(EntriesOf(pairs, 1)) && |pairs| == 2 * |EntriesOf(pairs, 1)|
    ensures Searched(r, cp, EntryItems(EntriesOf(pairs, 1)), isLower)
  {
    hide EntriesOf;
    ghost var items := EntryItems(EntriesOf(pairs, 1));
    PairEntries(pairs);
    for i := 0 to |pairs|
      invariant forall j | 0 <= j < i :: pairs[j] != cp
    {
      if cp != pairs[i] {
        continue;
      }
      ghost var n := i / 2;
      if i % 2 == 0 {
        r := Some(if isLower then pairs[i + 1] else cp);
      } else {
        r := Some(if isLower then cp else pairs[i - 1]);
      }
      assert Decides(cp, items, n);
      assert Answers(r.value, cp, items[n], isLower);
      return;
    }
    r := None;
  }

  lemma PairEntries(pairs: seq<int>)
    requires OnePoint(EntriesOf(pairs, 1)) && |pairs| == 2 * |EntriesOf(pairs, 1)|
    ensures var items := EntryItems(EntriesOf(pairs, 1));
            forall n | 0 <= n < |items| ::
              items[n] == Item(map[pairs[2 * n] := [pairs[2 * n + 1]]], map[pairs[2 * n + 1] := [pairs[2 * n]]])
  {
    hide EntriesOf;
    var entries := EntriesOf(pairs, 1);
    forall n | 0 <= n < |entries|
      ensures entries[n] == Entry(pairs[2 * n], [pairs[2 * n + 1]])
    {
      EntryAt(pairs, 1, n, 2 * n);
      assert pairs[2 * n + 1..2 * n + 2] == [pairs[2 * n + 1]];
    }
  }

  // ----- Conversions -----

  /** The binary search in one section: entries of width + 1 numbers from `start` on. */
  method SearchSection(cp: int, table: seq<int>, start: nat, count: nat, width: nat) returns (r: Option<seq<int>>)
    requires 1 <= width <= 3 && start + Span(width, count) <= |table|
    requires var section := table[start..start + Span(width, count)];
             |EntriesOf(section, width)| == count && LettersIncrease(EntriesOf(section, width))
    ensures var entries := EntriesOf(table[start..start + Span(width, count)], width);
            match r
            case Some(text) => Entry(cp, text) in entries
            case None => forall n | 0 <= n < |entries| :: entries[n].letter != cp
  {
    hide EntriesOf, LettersIncrease;
    var step := width + 1;
    ghost var section := table[start..start + step * count];
    ghost var entries := EntriesOf(section, width);
    var bottom, top := start, start + step * count - width;
    ghost var lo, hi: int := 0, count - 1;
    while bottom <= top
      invariant 0 <= lo <= count && -1 <= hi < count && bottom == start + step * lo
      invariant step * hi <= top - start <= step * hi + 1
      invariant forall n | 0 <= n < count :: entries[n].letter == cp ==> lo <= n <= hi
      decreases hi - lo
    {
      var middle := (bottom + top) / 2;
      middle := middle - (middle - bottom) % step;
      ghost var k := Probe(table, start, count, width, lo, hi, bottom, top, middle);
      var current := table[middle];
      if current == cp {
        assert entries[k] == Entry(cp, table[middle + 1..middle + 1 + width]);
        return Some(table[middle + 1..middle + 1 + width]);
      }
      Halves(entries, k, cp);
      if cp < current {
        top := middle - step;
        hi := k - 1;
      } else {
        bottom := middle + step;
        lo := k + 1;
      }
      Steps(step, k);
    }
    Crossed(step, lo, hi, top - bottom);
    r := None;
  }

  lemma Inside(table: seq<int>, start: nat, length: nat, at: nat, width: nat)
    requires start + length <= |table| && at + width < length
    ensures var section := table[start..start + length];
            section[at] == table[start + at] && section[at + 1..at + 1 + width] == table[start + at + 1..start + at + 1 + width]
  {
    var section := table[start..start + length];
    assert forall i | 0 <= i < |section| :: section[i] == table[start + i];
  }

  lemma Steps(step: nat, k: int)
    ensures step * (k - 1) == step * k - step && step * (k + 1) == step * k + step
  {}

  lemma Ordered(step: nat, lo: int, hi: int, gap: int)
    requires step >= 2 && 0 <= gap && step * (hi - lo) <= gap <= step * (hi - lo) + 1
    ensures lo <= hi
  {
    Times(step, hi - lo, -1);
  }

  lemma Times(step: nat, a: int, b: int)
    ensures a <= b ==> step * a <= step * b
  {}

  lemma Crossed(step: nat, lo: int, hi: int, gap: int)
    requires step >= 2 && gap < 0 && step * (hi - lo) <= gap
    ensures hi < lo
  {
    Times(step, 0, hi - lo);
  }

  /** The middle is moved back to the start of an entry. */
  lemma Aligned(step: nat, lo: int, hi: int, bottom: int, top: int, middle: int, start: int, k: int)
    requires 2 <= step <= 4 && 0 <= start && 0 <= lo <= hi && bottom == start + step * lo && bottom <= top
    requires step * hi <= top - start <= step * hi + 1
    requires middle == (bottom + top) / 2 - ((bottom + top) / 2 - bottom) % step && k == lo + (top - bottom) / 2 / step
    ensures lo <= k <= hi && middle == start + step * k
  {
    var half := (top - bottom) / 2;
    assert (bottom + top) / 2 == bottom + half;
    assert half == step * (half / step) + half % step;
    assert step * (lo + half / step) == step * lo + step * (half / step);
    assert step * (half / step) <= half <= (step * (hi - lo) + 1) / 2;
    Times(step, hi - lo + 1, half / step);
    assert step * (hi - lo + 1) == step * (hi - lo) + step;
  }

  /** The search looks at entry k of the section. */
  lemma Probe(table: seq<int>, start: nat, count: nat, width: nat, lo: int, hi: int, bottom: int, top: int, middle: int)
    returns (k: int)
    requires 1 <= width <= 3 && start + (width + 1) * count <= |table|
    requires |EntriesOf(table[start..start + (width + 1) * count], width)| == count
    requires 0 <= lo <= count && hi < count && bottom == start + (width + 1) * lo && bottom <= top
    requires (width + 1) * hi <= top - start <= (width + 1) * hi + 1
    requires middle == (bottom + top) / 2 - ((bottom + top) / 2 - bottom) % (width + 1)
    ensures lo <= k <= hi && middle == start + (width + 1) * k && middle + width < |table|
    ensures EntriesOf(table[start..start + (width + 1) * count], width)[k]
         == Entry(table[middle], table[middle + 1..middle + 1 + width])
  {
    hide EntriesOf;
    var step := width + 1;
    Ordered(step, lo, hi, top - bottom);
    k := lo + (top - bottom) / 2 / step;
    Aligned(step, lo, hi, bottom, top, middle, start, k);
    EntryAt(table[start..start + step * count], width, k, step * k);
    Inside(table, start, step * count, step * k, width);
  }

  lemma Halves(entries: seq<Entry>, k: nat, cp: int)
    requires LettersIncrease(entries) && k < |entries| && entries[k].letter != cp
    ensures cp < entries[k].letter ==> forall n | k <= n < |entries| :: entries[n].letter != cp
    ensures cp > entries[k].letter ==> forall n | 0 <= n <= k :: entries[n].letter != cp
  {}

  // ----- The lower case of a character -----

  /** The tables hold a mapping of letters beyond ASCII. */
  ghost predicate Holds(t: LowerTables, lower: CaseMap) {
    t.WellFormed() && Partition(lower, t.Lower()) && forall x <- lower :: x >= 0x80
  }

  /** The elements of the two-way tables, in the order in which they are searched. */
  ghost function Items(t: LowerTables): seq<Item>
    requires t.WellFormed()
  {
    RunItems(t.CaseRuns()) + (PairRunItems(t.PairRuns()) + EntryItems(EntriesOf(t.pairs, 1)))
  }

  /** The first element that mentions the code point has it as a lower-case letter only. */
  ghost predicate TargetFirst(cp: int, t: LowerTables)
    requires t.WellFormed()
  {
    exists k :: Decides(cp, Items(t), k) && cp !in Items(t)[k].there
  }

  /** An element says about letters what the mapping says, and has a letter of the two-way tables for every target. */
  ghost predicate ItemHolds(item: Item, lower: CaseMap, t: LowerTables)
    requires t.WellFormed()
  {
    && (forall x <- item.there :: x in lower && item.there[x] == lower[x])
    && (forall x <- item.back :: exists y :: Leads(y, x, lower, t))
  }

  ghost predicate Leads(y: int, x: int, lower: CaseMap, t: LowerTables)
    requires t.WellFormed()
  {
    TwoWay(y, t) && y in lower && lower[y] == [x]
  }

  /** No run holds the letter, so the table does not. */
  lemma {:induction false} NoRunHas(runs: seq<Run>, cp: int)
    requires forall k | 0 <= k < |runs| :: cp !in RunMap(runs[k])
    ensures cp !in DecodeRuns(runs)
  {
    hide RunMap;
    if runs != [] {
      NoRunHas(runs[..|runs| - 1], cp);
    }
  }

  lemma {:induction false} PairRunAnswers(runs: seq<PairRun>, k: nat)
    requires k < |runs| && Separated(runs)
    ensures Within(PairRunMap(runs[k]), DecodePairRuns(runs))
  {
    hide PairRunMap;
    PairRunIn(runs, k);
    var n := |runs| - 1;
    if k < n {
      PairRunAnswers(runs[..n], k);
      PairRunsBefore(runs, n);
      PairRunFrom(runs[n]);
    }
  }

  lemma {:induction false} NoPairRunHas(runs: seq<PairRun>, cp: int)
    requires forall k | 0 <= k < |runs| :: cp !in PairRunMap(runs[k])
    ensures cp !in DecodePairRuns(runs)
  {
    hide PairRunMap;
    if runs != [] {
      NoPairRunHas(runs[..|runs| - 1], cp);
    }
  }

  /** With increasing letters every entry is what the table decodes to at its letter. */
  lemma {:induction false} EntryAnswers(entries: seq<Entry>, n: nat)
    requires LettersIncrease(entries) && n < |entries|
    ensures entries[n].letter in DecodeEntries(entries) && DecodeEntries(entries)[entries[n].letter] == entries[n].text
  {
    var m := |entries| - 1;
    if n < m {
      EntryAnswers(entries[..m], n);
    }
  }

  lemma {:induction false} NoEntryHas(entries: seq<Entry>, cp: int)
    requires forall n | 0 <= n < |entries| :: entries[n].letter != cp
    ensures cp !in DecodeEntries(entries)
  {
    if entries != [] {
      NoEntryHas(entries[..|entries| - 1], cp);
    }
  }

  lemma PartOf(t: LowerTables, lower: CaseMap, i: nat)
    requires Holds(t, lower) && i < 7
    ensures Within(t.Lower()[i], lower)
  {}

  lemma RunItemHolds(t: LowerTables, lower: CaseMap, k: nat)
    requires Holds(t, lower) && k < |t.CaseRuns()|
    ensures ItemHolds(RunItem(t.CaseRuns()[k]), lower, t)
  {
    hide RunMap, DecodeRuns, Partition, Disjoint;
    var run := t.CaseRuns()[k];
    PartOf(t, lower, 0);
    RunIn(t.CaseRuns(), k);
    forall x | x in RunMap(run.Reversed())
      ensures exists y :: Leads(y, x, lower, t)
    {
      var y := run.start + (x - run.mapped);
      RunHit(run, x);
      RunHit(run, y);
      assert Leads(y, x, lower, t);
    }
  }

  lemma PairRunItemHolds(t: LowerTables, lower: CaseMap, k: nat)
    requires Holds(t, lower) && k < |t.PairRuns()|
    ensures ItemHolds(PairRunItems(t.PairRuns())[k], lower, t)
  {
    hide PairRunMap, PairRunReverse, DecodePairRuns, Partition;
    var run := t.PairRuns()[k];
    PartOf(t, lower, 1);
    PairRunAnswers(t.PairRuns(), k);
    forall x | x in PairRunReverse(run)
      ensures exists y :: Leads(y, x, lower, t)
    {
      PairBack(run, x);
      assert Leads(x - 1, x, lower, t);
    }
  }

  lemma PairBack(run: PairRun, x: int)
    requires x in PairRunReverse(run)
    ensures x - 1 in PairRunMap(run) && PairRunMap(run)[x - 1] == [x]
  {
    assert x - 1 >= run.start && Even(x - 1 - run.start);
  }

  lemma EntryItemHolds(t: LowerTables, lower: CaseMap, n: nat)
    requires Holds(t, lower) && n < |EntriesOf(t.pairs, 1)|
    ensures ItemHolds(EntryItem(EntriesOf(t.pairs, 1)[n]), lower, t)
  {
    hide EntriesOf, Holds, TwoWay;
    HoldsIsWellFormed(t, lower);
    var e := EntriesOf(t.pairs, 1)[n];
    EntryHeld(t, lower, n);
    var item := EntryItem(e);
    forall x | x in item.back
      ensures exists y :: Leads(y, x, lower, t)
    {
      assert e.text == [x];
      assert Leads(e.letter, x, lower, t);
    }
  }

  lemma EntryHeld(t: LowerTables, lower: CaseMap, n: nat)
    requires Holds(t, lower) && n < |EntriesOf(t.pairs, 1)|
    ensures var e := EntriesOf(t.pairs, 1)[n];
            |e.text| == 1 && e.letter in lower && lower[e.letter] == e.text && TwoWay(e.letter, t)
  {
    hide DecodeEntries, EntriesOf, Partition, Disjoint, Separated, Searchable;
    PartOf(t, lower, 2);
    EntryAnswers(EntriesOf(t.pairs, 1), n);
  }

  lemma ItemsHold(t: LowerTables, lower: CaseMap, k: nat)
    requires Holds(t, lower) && k < |Items(t)|
    ensures ItemHolds(Items(t)[k], lower, t)
  {
    hide ItemHolds, Partition, Separated, Disjoint, EntriesOf, RunItem, EntryItem;
    var n, m := |t.CaseRuns()|, |t.PairRuns()|;
    if k < n {
      RunItemHolds(t, lower, k);
    } else if k < n + m {
      PairRunItemHolds(t, lower, k - n);
    } else {
      EntryItemHolds(t, lower, k - n - m);
    }
  }

  lemma RunMentions(t: LowerTables, cp: int) returns (k: nat)
    requires t.WellFormed() && cp in t.Lower()[0]
    ensures k < |Items(t)| && Mentions(cp, Items(t)[k])
  {
    hide RunMap, DecodeRuns, EntriesOf, Disjoint, Separated, LettersIncrease, Searchable;
    var runs := t.CaseRuns();
    if forall j | 0 <= j < |runs| :: cp !in RunMap(runs[j]) {
      NoRunHas(runs, cp);
      assert false;
    }
    k :| 0 <= k < |runs| && cp in RunMap(runs[k]);
    assert Items(t)[k] == RunItem(runs[k]);
  }

  lemma PairRunMentions(t: LowerTables, cp: int) returns (k: nat)
    requires t.WellFormed() && cp in t.Lower()[1]
    ensures k < |Items(t)| && Mentions(cp, Items(t)[k])
  {
    hide PairRunMap, PairRunReverse, DecodePairRuns, EntriesOf, Disjoint, Separated, LettersIncrease, Searchable;
    var runs := t.PairRuns();
    if forall j | 0 <= j < |runs| :: cp !in PairRunMap(runs[j]) {
      NoPairRunHas(runs, cp);
      assert false;
    }
    var j :| 0 <= j < |runs| && cp in PairRunMap(runs[j]);
    k := |t.CaseRuns()| + j;
    assert Items(t)[k] == PairRunItems(runs)[j];
  }

  lemma PairMentions(t: LowerTables, cp: int) returns (k: nat)
    requires t.WellFormed() && cp in t.Lower()[2]
    ensures k < |Items(t)| && Mentions(cp, Items(t)[k])
  {
    hide DecodeEntries, EntriesOf, Disjoint, Separated, LettersIncrease, Searchable;
    var entries := EntriesOf(t.pairs, 1);
    if forall j | 0 <= j < |entries| :: entries[j].letter != cp {
      NoEntryHas(entries, cp);
      assert false;
    }
    var j :| 0 <= j < |entries| && entries[j].letter == cp;
    k := |t.CaseRuns()| + |t.PairRuns()| + j;
    assert Items(t)[k] == EntryItem(entries[j]);
  }

  /** A letter in a two-way table is mentioned by an element. */
  lemma TwoWayMentioned(t: LowerTables, cp: int) returns (k: nat)
    requires t.WellFormed() && TwoWay(cp, t)
    ensures k < |Items(t)| && Mentions(cp, Items(t)[k])
  {
    hide Items, Mentions, DecodeRuns, DecodePairRuns, DecodeEntries, EntriesOf;
    if cp in t.Lower()[0] {
      k := RunMentions(t, cp);
    } else if cp in t.Lower()[1] {
      k := PairRunMentions(t, cp);
    } else {
      k := PairMentions(t, cp);
    }
  }

  /** lit_search_in_bidirectional_conversion_tables, for the lower case of a character of the basic plane. */
  method SearchBidirectional(cp: int, t: LowerTables) returns (r: Option<int>)
    requires t.WellFormed()
    ensures Searched(r, cp, Items(t), true)
  {
    hide Searched, Searchable, LettersIncrease, EntriesOf, Disjoint, Separated, RunItems, PairRunItems, EntryItems;
    ghost var one, two, three := RunItems(t.CaseRuns()), PairRunItems(t.PairRuns()), EntryItems(EntriesOf(t.pairs, 1));
    r := SearchCaseRanges(cp, t.caseRanges, t.caseLengths, true);
    SearchedBoth(r, cp, one, two + three, true);
    if r.Some? {
      return;
    }
    r := SearchPairRanges(cp, t.pairStarts, t.pairLengths, true);
    SearchedBoth(r, cp, two, three, true);
    SearchedBoth(r, cp, one, two + three, true);
    if r.Some? {
      return;
    }
    r := SearchPairs(cp, t.pairs, true);
    SearchedBoth(r, cp, two, three, true);
    SearchedBoth(r, cp, one, two + three, true);
  }

  /** What the result of that search means for the mapping. */
  lemma SearchedMeans(r: Option<int>, cp: int, t: LowerTables, lower: CaseMap)
    requires Holds(t, lower) && Searched(r, cp, Items(t), true)
    ensures r.None? ==> !TwoWay(cp, t) && !TargetFirst(cp, t)
    ensures r.Some? ==> [r.value] == if cp in lower && !TargetFirst(cp, t) then lower[cp] else [cp]
  {
    hide Items, ItemHolds, Holds;
    HoldsIsWellFormed(t, lower);
    if r.None? {
      if TwoWay(cp, t) {
        var k := TwoWayMentioned(t, cp);
      }
    } else {
      var k :| Decides(cp, Items(t), k) && Answers(r.value, cp, Items(t)[k], true);
      assert forall j :: Decides(cp, Items(t), j) ==> j == k;
      ItemsHold(t, lower, k);
      ItemSays(Items(t)[k], lower, t);
    }
  }

  lemma ItemSays(item: Item, lower: CaseMap, t: LowerTables)
    requires t.WellFormed() && ItemHolds(item, lower, t)
    ensures forall x <- item.there :: x in lower && item.there[x] == lower[x]
  {}

  /** A code point that is found as a target has a two-way letter that leads to it. */
  lemma TargetIsLedTo(cp: int, t: LowerTables, lower: CaseMap)
    requires Holds(t, lower) && TargetFirst(cp, t)
    ensures exists y :: Leads(y, cp, lower, t)
  {
    hide Items, Holds;
    HoldsIsWellFormed(t, lower);
    var k :| Decides(cp, Items(t), k) && cp !in Items(t)[k].there;
    ItemsHold(t, lower, k);
  }

  /** Where section i starts. */
  function Start(c: Conversions, i: nat): nat
    requires c.WellFormed() && i <= 3
  {
    if i == 0 then 0 else if i == 1 then 2 * c.counters[0]
    else if i == 2 then 2 * c.counters[0] + 3 * c.counters[1] else |c.table|
  }

  lemma SectionIs(c: Conversions, i: nat, width: nat)
    requires c.WellFormed() && i < 3 && width == i + 1
    ensures Start(c, i + 1) == Start(c, i) + Span(width, c.counters[i]) <= |c.table|
    ensures c.Part(i) == c.table[Start(c, i)..Start(c, i) + Span(width, c.counters[i])]
  {}

  lemma SectionReady(c: Conversions, i: nat)
    requires Searchable(c) && i < 3
    ensures c.WellFormed() && |c.Entries(i)| == c.counters[i] && LettersIncrease(c.Entries(i))
    ensures c.Entries(i) == EntriesOf(c.Part(i), i + 1) && c.Decode(i) == DecodeEntries(c.Entries(i))
  {}

  method SearchPart(cp: int, c: Conversions, i: nat) returns (r: Option<seq<int>>)
    requires Searchable(c) && i < 3
    ensures match r
            case Some(text) => cp in c.Decode(i) && c.Decode(i)[cp] == text
            case None => cp !in c.Decode(i)
  {
    hide *;
    SectionReady(c, i);
    var width := i + 1;
    SectionIs(c, i, width);
    r := SearchSection(cp, c.table, Start(c, i), c.counters[i], width);
    SectionAnswers(c.Entries(i), cp, r);
  }

  lemma SectionAnswers(entries: seq<Entry>, cp: int, r: Option<seq<int>>)
    requires LettersIncrease(entries)
    requires match r
             case Some(text) => Entry(cp, text) in entries
             case None => forall n | 0 <= n < |entries| :: entries[n].letter != cp
    ensures match r
            case Some(text) => cp in DecodeEntries(entries) && DecodeEntries(entries)[cp] == text
            case None => cp !in DecodeEntries(entries)
  {
    hide DecodeEntries;
    if r.Some? {
      var n :| 0 <= n < |entries| && entries[n] == Entry(cp, r.value);
      EntryAnswers(entries, n);
    } else {
      NoEntryHas(entries, cp);
    }
  }

  /** lit_search_in_conversion_table: the sections one after another. */
  method SearchConversions(cp: int, c: Conversions) returns (r: seq<int>)
    requires Searchable(c)
    ensures (exists i | 0 <= i < 3 :: cp in c.Decode(i) && c.Decode(i)[cp] == r)
            || (r == [cp] && forall i | 0 <= i < 3 :: cp !in c.Decode(i))
  {
    hide EntriesOf, DecodeEntries, LettersIncrease, AllWidth, Conversions.Part, Conversions.Decode, Conversions.Entries;
    for i := 0 to 3
      invariant forall k | 0 <= k < i :: cp !in c.Decode(k)
    {
      var found := SearchPart(cp, c, i);
      if found.Some? {
        return found.value;
      }
    }
    r := [cp];
  }

  method SearchLowerRanges(cp: int, t: LowerTables, ghost lower: CaseMap) returns (r: Option<int>)
    requires Holds(t, lower)
    ensures r.Some? ==> cp in lower && lower[cp] == [r.value]
    ensures r.None? ==> cp !in t.Lower()[3]
  {
    hide Holds, RunMap;
    LowerRunsHold(t, lower);
    ghost var runs := t.LowerRuns();
    var i, j := 0, 0;
    while i < |t.lowerRanges|
      invariant 0 <= i == 2 * j <= |t.lowerRanges|
      invariant forall k | 0 <= k < j :: cp !in RunMap(runs[k])
    {
      var start := t.lowerRanges[i];
      assert runs[j] == Run(start, t.lowerRanges[i + 1], t.lowerLengths[j]);
      RunHit(runs[j], cp);
      if start <= cp && cp <= start + (t.lowerLengths[j] - 1) {
        assert Within(RunMap(runs[j]), lower);
        return Some(t.lowerRanges[i + 1] + (cp - start));
      }
      i, j := i + 2, j + 1;
    }
    NoRunHas(runs, cp);
    r := None;
  }

  lemma LowerRunsHold(t: LowerTables, lower: CaseMap)
    requires Holds(t, lower)
    ensures t.WellFormed() && |t.lowerRanges| == 2 * |t.lowerLengths|
    ensures t.Lower()[3] == DecodeRuns(t.LowerRuns())
    ensures forall k | 0 <= k < |t.LowerRuns()| :: Within(RunMap(t.LowerRuns()[k]), lower)
  {
    hide DecodeRuns, RunMap, Partition;
    PartOf(t, lower, 3);
    forall k | 0 <= k < |t.LowerRuns()|
      ensures Within(RunMap(t.LowerRuns()[k]), lower)
    {
      RunIn(t.LowerRuns(), k);
    }
  }

  /** lit_char_to_lower_case for the basic plane: the mapping that the tables were made from, unless the first element of
      the two-way tables that mentions the letter has it as a target. */
  method LowerCase(cp: int, t: LowerTables, ghost lower: CaseMap) returns (r: seq<int>)
    requires Holds(t, lower) && 0 <= cp < 0x1_0000
    ensures cp < 0x80 ==> r == [if 65 <= cp <= 90 then cp + 32 else cp]
    ensures cp >= 0x80 ==> r == if cp in lower && !TargetFirst(cp, t) then lower[cp] else [cp]
  {
    hide Holds, Searched, Items, TargetFirst, TwoWay;
    if cp < 0x80 {
      return [if 65 <= cp <= 90 then cp + 32 else cp];
    }
    HoldsIsWellFormed(t, lower);
    var v := SearchBidirectional(cp, t);
    SearchedMeans(v, cp, t, lower);
    if v.Some? {
      return [v.value];
    }
    v := SearchLowerRanges(cp, t, lower);
    if v.Some? {
      return [v.value];
    }
    SearchableTables(t);
    r := SearchConversions(cp, t.conversions);
    LastParts(t, lower, cp, r);
  }

  lemma HoldsIsWellFormed(t: LowerTables, lower: CaseMap)
    requires Holds(t, lower)
    ensures t.WellFormed()
  {}

  lemma SearchableTables(t: LowerTables)
    requires t.WellFormed()
    ensures Searchable(t.conversions)
  {}

  lemma LastParts(t: LowerTables, lower: CaseMap, cp: int, r: seq<int>)
    requires Holds(t, lower) && t.conversions.WellFormed()
    requires !TwoWay(cp, t) && cp !in t.Lower()[3]
    requires (exists i | 0 <= i < 3 :: cp in t.conversions.Decode(i) && t.conversions.Decode(i)[cp] == r)
             || (r == [cp] && forall i | 0 <= i < 3 :: cp !in t.conversions.Decode(i))
    ensures if cp in lower then r == lower[cp] else r == [cp]
  {
    hide DecodeRuns, DecodePairRuns, DecodeEntries, EntriesOf, Partition, Conversions.Part, Conversions.Decode;
    var all := t.Lower();
    assert all[4] == t.conversions.Decode(0) && all[5] == t.conversions.Decode(1) && all[6] == t.conversions.Decode(2);
    PartOf(t, lower, 4);
    PartOf(t, lower, 5);
    PartOf(t, lower, 6);
    InOnePart(lower, all, cp);
  }

  lemma InOnePart(lower: CaseMap, parts: seq<CaseMap>, cp: int)
    requires Partition(lower, parts) && |parts| == 7
    ensures cp in lower ==> cp in parts[0] || cp in parts[1] || cp in parts[2] || cp in parts[3] || cp in parts[4] || cp in parts[5] || cp in parts[6]
  {
    if cp in lower {
      assert InSome(cp, parts);
    }
  }

  /** The generator and the engine together, for every mapping of letters beyond ASCII: a letter gets its lower case,
      unless it is also the lower case of a bidirectional letter and the tables mention that one first. */
  method EndToEnd(lower: CaseMap, upper: CaseMap, cp: int) returns (r: seq<int>, ghost t: LowerTables)
    requires WellFormed(lower) && (forall x <- lower :: x >= 0x80) && 0x80 <= cp < 0x1_0000
    ensures Holds(t, lower) && HoldsBidirectional(t, lower, upper) && LongRuns(t.caseLengths)
    ensures r == if cp in lower && !TargetFirst(cp, t) then lower[cp] else [cp]
    ensures cp in lower && !IsTarget(cp, lower, upper) ==> r == lower[cp]
  {
    hide Partition, TargetFirst, Bidirectional;
    var lowerCase := new Dict(lower);
    var upperCase := new Dict(upper);
    var tables := GenerateLowerTables(lowerCase, upperCase);
    t := tables;
    r := LowerCase(cp, tables, lower);
    if TargetFirst(cp, t) {
      TargetIsLedTo(cp, t, lower);
      var y :| Leads(y, cp, lower, t);
      assert Bidirectional(y, lower, upper);
    }
  }

  /** Some bidirectional letter has this lower case. */
  ghost predicate IsTarget(cp: int, lower: CaseMap, upper: CaseMap) {
    exists y :: Bidirectional(y, lower, upper) && lower[y] == [cp]
  }

  function ChainLower(): (m: CaseMap)
    ensures WellFormed(m) && (forall x <- m :: x >= 0x80) && 0x109 in m && m[0x109] == [0x120]
  {
    map[0x105 := [0x109], 0x109 := [0x120]]
  }

  function ChainUpper(): (m: CaseMap)
    ensures Bidirectional(0x105, ChainLower(), m)
  {
    map[0x109 := [0x105], 0x120 := [0x109]]
  }

  /** Two bidirectional letters in a chain: the engine takes the second for a lower-case letter. */
  method ChainIsBroken() returns (r: seq<int>)
    ensures r == [0x109] != [0x120]
  {
    hide Bidirectional, TwoWay, TargetFirst, IsTarget, Holds;
    var lower, upper := ChainLower(), ChainUpper();
    ghost var t;
    r, t := EndToEnd(lower, upper, 0x109);
    HoldsIsWellFormed(t, lower);
    ChainTables(t, lower);
  }

  /** Tables of letters without neighbours and without steps of one have no ranges. */
  lemma NoRanges(t: LowerTables, lower: CaseMap)
    requires Holds(t, lower) && LongRuns(t.caseLengths) && forall x <- lower :: x + 1 !in lower && lower[x] != [x + 1]
    ensures t.CaseRuns() == [] && t.PairRuns() == []
  {
    hide Partition, EntriesOf, DecodeRuns, DecodePairRuns, RunMap, PairRunMap, PairRunReverse;
    if t.CaseRuns() != [] {
      var run := t.CaseRuns()[0];
      PartOf(t, lower, 0);
      RunIn(t.CaseRuns(), 0);
      RunHit(run, run.start);
      RunHit(run, run.start + 1);
      assert false;
    }
    if t.PairRuns() != [] {
      var run := t.PairRuns()[0];
      PartOf(t, lower, 1);
      PairRunAnswers(t.PairRuns(), 0);
      PairHit(run, run.start);
      assert false;
    }
  }

  lemma ChainTables(t: LowerTables, lower: CaseMap)
    requires lower == ChainLower() && Holds(t, lower) && LongRuns(t.caseLengths) && TwoWay(0x105, t)
    ensures TargetFirst(0x109, t)
  {
    hide Holds, TwoWay, Items, Mentions, LettersIncrease, EntriesOf;
    HoldsIsWellFormed(t, lower);
    NoRanges(t, lower);
    var entries := EntriesOf(t.pairs, 1);
    OnlyPairs(t);
    var k := TwoWayMentioned(t, 0x105);
    ChainEntry(t, lower, 0);
    ChainEntry(t, lower, k);
    FirstIsLeast(entries, k);
    ChainItem();
    assert Items(t)[0] == EntryItem(entries[0]);
    assert Decides(0x109, Items(t), 0);
  }

  lemma OnlyPairs(t: LowerTables)
    requires t.WellFormed() && t.CaseRuns() == [] && t.PairRuns() == []
    ensures Items(t) == EntryItems(EntriesOf(t.pairs, 1)) && LettersIncrease(EntriesOf(t.pairs, 1))
  {
    hide EntriesOf;
  }

  lemma FirstIsLeast(entries: seq<Entry>, k: nat)
    requires LettersIncrease(entries) && k < |entries|
    ensures entries[0].letter <= entries[k].letter
  {}

  lemma ChainItem()
    ensures var item := EntryItem(Entry(0x105, [0x109])); Mentions(0x109, item) && 0x109 !in item.there
  {}

  lemma ChainEntry(t: LowerTables, lower: CaseMap, n: nat)
    requires lower == ChainLower() && Holds(t, lower) && n < |EntriesOf(t.pairs, 1)|
    ensures var e := EntriesOf(t.pairs, 1)[n];
            (e == Entry(0x105, [0x109]) || e == Entry(0x109, [0x120]))
            && (Mentions(0x105, EntryItem(e)) ==> e.letter == 0x105)
  {
    hide EntriesOf, Holds;
    HoldsIsWellFormed(t, lower);
    EntryHeld(t, lower, n);
  }
}
