/** The remaining conversions, and the whole lower-case half of the generator. */
module CasePipeline {
  import opened Options
  import opened CaseMappings
  import opened CaseExtraction
  import opened CasePairs

  ghost predicate AllWidth(entries: seq<Entry>, width: nat) {
    forall n | 0 <= n < |entries| :: |entries[n].text| == width
  }

  /** The section of the first i keys: exactly their letters with `width` code points, in increasing order. */
  ghost predicate Section(entries: seq<Entry>, keys: seq<int>, i: nat, width: nat, lc: CaseMap)
    requires i <= |keys|
  {
    && AllWidth(entries, width) && LettersIncrease(entries)
    && (i > 0 && entries != [] ==> entries[|entries| - 1].letter <= keys[i - 1])
    && (i == 0 ==> entries == [])
    && Within(DecodeEntries(entries), lc)
    && (forall x :: x in DecodeEntries(entries) <==> x in keys[..i] && x in lc && |lc[x]| == width)
  }

  lemma NoSection(keys: seq<int>, width: nat, lc: CaseMap)
    ensures Section([], keys, 0, width, lc) && DecodeEntries([]) == map[] && EntriesOf([], width) == []
  {}

  lemma DecodeMore(entries: seq<Entry>, e: Entry)
    ensures DecodeEntries(entries + [e]) == DecodeEntries(entries)[e.letter := e.text]
  {
    assert (entries + [e])[..|entries|] == entries;
  }

  lemma SectionNext(entries: seq<Entry>, keys: seq<int>, i: nat, width: nat, lc: CaseMap)
    requires i < |keys| && Increasing(keys) && keys[i] in lc && Section(entries, keys, i, width, lc)
    ensures |lc[keys[i]]| != width ==> Section(entries, keys, i + 1, width, lc)
    ensures |lc[keys[i]]| == width ==> Section(entries + [Entry(keys[i], lc[keys[i]])], keys, i + 1, width, lc)
  {
    hide DecodeEntries, LettersIncrease;
    var x := keys[i];
    assert keys[..i + 1] == keys[..i] + [x];
    assert forall z :: z in keys[..i + 1] <==> z in keys[..i] || z == x;
    assert i > 0 ==> keys[i - 1] < x;
    if |lc[x]| == width {
      DecodeMore(entries, Entry(x, lc[x]));
      MoreIncrease(entries, Entry(x, lc[x]));
    }
  }

  /** One section of extract_conversions: takes the letters whose values have `width` code points. */
  method ExtractWidth(letterCase: Dict, width: nat) returns (table: seq<int>)
    modifies letterCase
    ensures |table| == (width + 1) * |EntriesOf(table, width)|
    ensures AllWidth(EntriesOf(table, width), width) && LettersIncrease(EntriesOf(table, width))
    ensures Splits(old(letterCase.m), letterCase.m, DecodeEntries(EntriesOf(table, width)))
    ensures forall x <- letterCase.m :: |letterCase.m[x]| != width
  {
    hide DecodeEntries, EntriesOf, Within, LettersIncrease, AllWidth;
    ghost var lc := letterCase.m;
    var keys := SortedKeys(letterCase.m);
    table := [];
    ghost var entries: seq<Entry> := [];
    NoSection(keys, width, lc);
    for i := 0 to |keys|
      invariant Section(entries, keys, i, width, lc) && EntriesOf(table, width) == entries
      invariant |table| == (width + 1) * |entries|
      invariant letterCase.m == lc - DecodeEntries(entries).Keys
    {
      var x := keys[i];
      NotYet(keys, i);
      SectionNext(entries, keys, i, width, lc);
      var mapped := letterCase.m[x];
      if |mapped| != width {
        continue;
      }
      AppendEntry(table, width, entries, x, mapped);
      DecodeMore(entries, Entry(x, mapped));
      LongerTable(|entries|, width);
      table := table + [x] + mapped;
      letterCase.Delete(x);
      entries := entries + [Entry(x, mapped)];
    }
    assert keys[..|keys|] == keys;
    WithinSplits(lc, DecodeEntries(entries));
  }

  lemma LongerTable(n: nat, width: nat)
    ensures (width + 1) * (n + 1) == (width + 1) * n + 1 + width
  {}

  // ----- Every letter in exactly one table -----

  ghost predicate InSome(x: int, parts: seq<CaseMap>) {
    exists i | 0 <= i < |parts| :: x in parts[i]
  }

  /** Each letter of the whole is in exactly one part, with its own value, and the parts hold nothing else. */
  ghost predicate Partition(whole: CaseMap, parts: seq<CaseMap>) {
    && (forall i, j | 0 <= i < j < |parts| :: parts[i].Keys !! parts[j].Keys)
    && (forall i | 0 <= i < |parts| :: Within(parts[i], whole))
    && (forall x <- whole :: InSome(x, parts))
  }

  lemma NoParts()
    ensures Partition(map[], [])
  {}

  lemma LastPart(whole: CaseMap)
    ensures Partition(whole, [whole])
  {
    assert forall x <- whole :: x in [whole][0];
  }

  lemma AddPart(whole: CaseMap, rest: CaseMap, part: CaseMap, parts: seq<CaseMap>)
    requires Splits(whole, rest, part) && Partition(rest, parts)
    ensures Partition(whole, [part] + parts)
  {
    hide InSome;
    var all := [part] + parts;
    forall i, j | 0 <= i < j < |all|
      ensures all[i].Keys !! all[j].Keys
    {
      assert Within(parts[j - 1], rest);
      if i > 0 {
        assert parts[i - 1].Keys !! parts[j - 1].Keys;
      } else {
        assert forall x | x in all[j] :: x in rest && x !in part;
      }
    }
    forall i | 0 <= i < |all|
      ensures Within(all[i], whole)
    {
      PartWithin(whole, rest, part);
      if i > 0 {
        assert all[i] == parts[i - 1];
        assert Within(parts[i - 1], rest);
      }
    }
    forall x | x in whole
      ensures InSome(x, all)
    {
      assert x in rest || x in part;
      if x in rest {
        InMore(x, parts, part);
      } else {
        InFirst(x, parts, part);
      }
    }
  }

  lemma PartWithin(whole: CaseMap, rest: CaseMap, part: CaseMap)
    requires Splits(whole, rest, part)
    ensures Within(part, whole) && Within(rest, whole)
  {}

  lemma InMore(x: int, parts: seq<CaseMap>, part: CaseMap)
    requires InSome(x, parts)
    ensures InSome(x, [part] + parts)
  {
    var i :| 0 <= i < |parts| && x in parts[i];
    assert ([part] + parts)[i + 1] == parts[i];
  }

  lemma InFirst(x: int, parts: seq<CaseMap>, part: CaseMap)
    requires x in part
    ensures InSome(x, [part] + parts)
  {
    assert ([part] + parts)[0] == part;
  }

  // ----- The conversion table -----

  /** The table of the remaining conversions, and how many entries of each width follow one another in it. */
  datatype Conversions = Conversions(table: seq<int>, counters: seq<nat>)
  {
    predicate WellFormed() {
      |counters| == 3 && |table| == 2 * counters[0] + 3 * counters[1] + 4 * counters[2]
    }

    /** The part of the table that the counters give to the letters with i + 1 code points. */
    function Part(i: nat): seq<int>
      requires WellFormed() && i < 3
    {
      if i == 0 then table[..2 * counters[0]]
      else if i == 1 then table[2 * counters[0]..2 * counters[0] + 3 * counters[1]]
      else table[2 * counters[0] + 3 * counters[1]..]
    }

    function Entries(i: nat): seq<Entry>
      requires WellFormed() && i < 3
    {
      EntriesOf(Part(i), i + 1)
    }

    function Decode(i: nat): CaseMap
      requires WellFormed() && i < 3
    {
      DecodeEntries(Entries(i))
    }
  }

  /** Every section holds entries of its width with increasing letters, as a binary search needs them. */
  ghost predicate Searchable(c: Conversions) {
    c.WellFormed() && SectionOk(c, 0) && SectionOk(c, 1) && SectionOk(c, 2)
  }

  ghost predicate SectionOk(c: Conversions, i: nat)
    requires c.WellFormed() && i < 3
  {
    |c.Entries(i)| == c.counters[i] && AllWidth(c.Entries(i), i + 1) && LettersIncrease(c.Entries(i))
  }

  lemma Cut(one: seq<int>, two: seq<int>, three: seq<int>, counters: seq<nat>)
    requires |counters| == 3
    requires |one| == 2 * counters[0] && |two| == 3 * counters[1] && |three| == 4 * counters[2]
    ensures var c := Conversions(one + two + three, counters);
            c.WellFormed() && c.Part(0) == one && c.Part(1) == two && c.Part(2) == three
  {}

  method ExtractConversions(letterCase: Dict) returns (c: Conversions)
    requires WellFormed(letterCase.m)
    modifies letterCase
    ensures letterCase.m == map[] && c.WellFormed() && Searchable(c)
    ensures Partition(old(letterCase.m), [c.Decode(0), c.Decode(1), c.Decode(2)])
  {
    hide EntriesOf, DecodeEntries, AllWidth, LettersIncrease, Partition;
    ghost var m0 := letterCase.m;
    var one := ExtractWidth(letterCase, 1);
    ghost var m1 := letterCase.m;
    OnlyLess(m0, m1, DecodeEntries(EntriesOf(one, 1)));
    var two := ExtractWidth(letterCase, 2);
    ghost var m2 := letterCase.m;
    OnlyLess(m1, m2, DecodeEntries(EntriesOf(two, 2)));
    var three := ExtractWidth(letterCase, 3);
    ghost var m3 := letterCase.m;
    OnlyLess(m2, m3, DecodeEntries(EntriesOf(three, 3)));
    NothingLeft(m3);
    c := Conversions(one + two + three, [|one| / 2, |two| / 3, |three| / 4]);
    Cut(one, two, three, c.counters);
    ConversionParts(m0, m1, m2, m3, c);
  }

  lemma ConversionParts(m0: CaseMap, m1: CaseMap, m2: CaseMap, m3: CaseMap, c: Conversions)
    requires c.WellFormed() && m3 == map[]
    requires Splits(m0, m1, c.Decode(0)) && Splits(m1, m2, c.Decode(1)) && Splits(m2, m3, c.Decode(2))
    ensures Partition(m0, [c.Decode(0), c.Decode(1), c.Decode(2)])
  {
    hide Partition, Splits, Conversions.Decode;
    var all := [c.Decode(0), c.Decode(1), c.Decode(2)];
    NoParts();
    AddPart(m2, m3, all[2], []);
    assert [all[2]] + [] == all[2..];
    AddPart(m1, m2, all[1], all[2..]);
    assert [all[1]] + all[2..] == all[1..];
    AddPart(m0, m1, all[0], all[1..]);
    assert [all[0]] + all[1..] == all;
  }

  lemma OnlyLess(whole: CaseMap, rest: CaseMap, part: CaseMap)
    requires Splits(whole, rest, part)
    ensures Within(rest, whole)
  {}

  lemma NothingLeft(m: CaseMap)
    requires WellFormed(m) && forall x <- m :: |m[x]| != 1 && |m[x]| != 2 && |m[x]| != 3
    ensures m == map[]
  {
    assert forall x :: x !in m;
  }

  // ----- The lower-case half of generate_conversions -----

  ghost predicate RangesOk(ranges: seq<int>, lengths: seq<int>) {
    |ranges| == 2 * |lengths| && Disjoint(RunsOf(ranges, lengths))
  }

  ghost predicate PairRangesOk(starts: seq<int>, lengths: seq<int>) {
    |starts| == |lengths| && Separated(PairRunsOf(starts, lengths))
  }

  ghost predicate PairsOk(pairs: seq<int>) {
    var entries := EntriesOf(pairs, 1);
    OnePoint(entries) && LettersIncrease(entries) && |pairs| == 2 * |entries|
  }

  datatype LowerTables = LowerTables(
    caseRanges: seq<int>, caseLengths: seq<int>,
    pairStarts: seq<int>, pairLengths: seq<int>,
    pairs: seq<int>,
    lowerRanges: seq<int>, lowerLengths: seq<int>,
    conversions: Conversions)
  {
    ghost predicate WellFormed() {
      && RangesOk(caseRanges, caseLengths) && PairRangesOk(pairStarts, pairLengths) && PairsOk(pairs)
      && RangesOk(lowerRanges, lowerLengths) && Searchable(conversions)
    }

    function CaseRuns(): seq<Run>
      requires |caseRanges| == 2 * |caseLengths|
    {
      RunsOf(caseRanges, caseLengths)
    }

    function PairRuns(): seq<PairRun>
      requires |pairStarts| == |pairLengths|
    {
      PairRunsOf(pairStarts, pairLengths)
    }

    function LowerRuns(): seq<Run>
      requires |lowerRanges| == 2 * |lowerLengths|
    {
      RunsOf(lowerRanges, lowerLengths)
    }

    /** What each table says about lower-case conversions. */
    ghost function Lower(): seq<CaseMap>
      requires WellFormed()
    {
      [DecodeRuns(CaseRuns()), DecodePairRuns(PairRuns()), DecodeEntries(EntriesOf(pairs, 1)), DecodeRuns(LowerRuns()),
       conversions.Decode(0), conversions.Decode(1), conversions.Decode(2)]
    }

    /** What the two-way tables say about upper-case conversions. */
    ghost function Upper(): seq<CaseMap>
      requires WellFormed()
    {
      [DecodeRuns(ReverseAll(CaseRuns())), ReversePairRuns(PairRuns()), DecodeEntries(FlipAll(EntriesOf(pairs, 1)))]
    }
  }

  /** The two-way tables hold exactly the bidirectional letters of both mappings. */
  ghost predicate HoldsBidirectional(t: LowerTables, lower: CaseMap, upper: CaseMap)
    requires t.WellFormed()
  {
    forall x :: Bidirectional(x, lower, upper) <==> TwoWay(x, t)
  }

  /** Every run has at least two letters. */
  predicate LongRuns(lengths: seq<int>) { forall n | 0 <= n < |lengths| :: lengths[n] >= 2 }

  ghost predicate TwoWay(x: int, t: LowerTables)
    requires t.WellFormed()
  {
    x in t.Lower()[0] || x in t.Lower()[1] || x in t.Lower()[2]
  }

  lemma BidirectionalParts(t: LowerTables, l0: CaseMap, u0: CaseMap, l1: CaseMap, u1: CaseMap, l2: CaseMap, u2: CaseMap,
                           l3: CaseMap, u3: CaseMap)
    requires t.WellFormed()
    requires Splits(l0, l1, t.Lower()[0]) && Splits(l1, l2, t.Lower()[1]) && Splits(l2, l3, t.Lower()[2])
    requires TakesBidirectional(l0, u0, l1, u1, t.Lower()[0]) && TakesBidirectional(l1, u1, l2, u2, t.Lower()[1])
    requires TakesBidirectional(l2, u2, l3, u3, t.Lower()[2]) && NoneBidirectional(l3, u3)
    ensures HoldsBidirectional(t, l0, u0)
  {
    hide DecodeRuns, DecodePairRuns, DecodeEntries, EntriesOf;
    forall x
      ensures Bidirectional(x, l0, u0) <==> TwoWay(x, t)
    {
      assert Bidirectional(x, l0, u0) ==> x in l0;
    }
  }

  method GenerateLowerTables(lower: Dict, upper: Dict) returns (t: LowerTables)
    requires lower != upper && WellFormed(lower.m)
    modifies lower, upper
    ensures lower.m == map[] && t.WellFormed()
    ensures Partition(old(lower.m), t.Lower())
    ensures Partition(old(upper.m), t.Upper() + [upper.m])
    ensures HoldsBidirectional(t, old(lower.m), old(upper.m)) && LongRuns(t.caseLengths)
  {
    hide EntriesOf, DecodeEntries, DecodeRuns, DecodePairRuns, ReversePairRuns, Partition, OnePoint, NoNeighbours, Searchable,
      Disjoint, Separated, LettersIncrease;
    ghost var l0, u0 := lower.m, upper.m;
    var caseRanges, caseLengths := ExtractRanges(lower, upper);
    ghost var l1, u1 := lower.m, upper.m;
    OnlyLess(l0, l1, DecodeRuns(RunsOf(caseRanges, caseLengths)));
    var pairStarts, pairLengths := ExtractCharacterPairRanges(lower, upper);
    ghost var l2, u2 := lower.m, upper.m;
    OnlyLess(l1, l2, DecodePairRuns(PairRunsOf(pairStarts, pairLengths)));
    var pairs := ExtractCharacterPairs(lower, upper);
    ghost var l3, u3 := lower.m, upper.m;
    OnlyLess(l2, l3, DecodeEntries(EntriesOf(pairs, 1)));
    var lowerRanges, lowerLengths := ExtractRanges(lower, null);
    ghost var l4 := lower.m;
    OnlyLess(l3, l4, DecodeRuns(RunsOf(lowerRanges, lowerLengths)));
    var conversions := ExtractConversions(lower);
    t := LowerTables(caseRanges, caseLengths, pairStarts, pairLengths, pairs, lowerRanges, lowerLengths, conversions);
    FiveParts(t, l0, l1, l2, l3, l4);
    ThreeParts(t, u0, u1, u2, u3);
    BidirectionalParts(t, l0, u0, l1, u1, l2, u2, l3, u3);
  }

  lemma FiveParts(t: LowerTables, l0: CaseMap, l1: CaseMap, l2: CaseMap, l3: CaseMap, l4: CaseMap)
    requires t.WellFormed()
    requires Splits(l0, l1, DecodeRuns(t.CaseRuns())) && Splits(l1, l2, DecodePairRuns(t.PairRuns()))
    requires Splits(l2, l3, DecodeEntries(EntriesOf(t.pairs, 1))) && Splits(l3, l4, DecodeRuns(t.LowerRuns()))
    requires Partition(l4, [t.conversions.Decode(0), t.conversions.Decode(1), t.conversions.Decode(2)])
    ensures Partition(l0, t.Lower())
  {
    hide EntriesOf, DecodeEntries, DecodeRuns, DecodePairRuns, Partition, Splits, Conversions.Part, Conversions.Decode;
    var all := t.Lower();
    AddPart(l3, l4, all[3], [all[4], all[5], all[6]]);
    assert [all[3]] + [all[4], all[5], all[6]] == all[3..];
    AddPart(l2, l3, all[2], all[3..]);
    assert [all[2]] + all[3..] == all[2..];
    AddPart(l1, l2, all[1], all[2..]);
    assert [all[1]] + all[2..] == all[1..];
    AddPart(l0, l1, all[0], all[1..]);
    assert [all[0]] + all[1..] == all;
  }

  lemma ThreeParts(t: LowerTables, u0: CaseMap, u1: CaseMap, u2: CaseMap, u3: CaseMap)
    requires t.WellFormed()
    requires Splits(u0, u1, DecodeRuns(ReverseAll(t.CaseRuns()))) && Splits(u1, u2, ReversePairRuns(t.PairRuns()))
    requires Splits(u2, u3, DecodeEntries(FlipAll(EntriesOf(t.pairs, 1))))
    ensures Partition(u0, t.Upper() + [u3])
  {
    hide EntriesOf, DecodeEntries, DecodeRuns, ReversePairRuns, Partition, Splits;
    var all := t.Upper() + [u3];
    LastPart(u3);
    assert [u3] == all[3..];
    AddPart(u2, u3, all[2], all[3..]);
    assert [all[2]] + all[3..] == all[2..];
    AddPart(u1, u2, all[1], all[2..]);
    assert [all[1]] + all[2..] == all[1..];
    AddPart(u0, u1, all[0], all[1..]);
    assert [all[0]] + all[1..] == all;
  }
}
