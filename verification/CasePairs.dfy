/** The later passes: pair ranges, pairs and conversions, and the whole lower-case pipeline. */
module CasePairs {
  import opened Options
  import opened CaseMappings
  import opened CaseExtraction

  /** A bidirectional letter that maps to the letter after it. */
  predicate PairLetter(x: int, lc: CaseMap, rc: CaseMap) {
    Bidirectional(x, lc, rc) && lc[x][0] == x + 1
  }

  /** Pair runs hold at least one pair each and follow one another without overlap. */
  ghost predicate Separated(runs: seq<PairRun>) {
    && (forall r | 0 <= r < |runs| :: runs[r].length >= 2 && Even(runs[r].length))
    && (forall r, q | 0 <= r < q < |runs| :: runs[r].start + runs[r].length <= runs[q].start)
  }

  function End(runs: seq<PairRun>): int
    requires runs != []
  {
    runs[|runs| - 1].start + runs[|runs| - 1].length
  }

  function GrownPair(runs: seq<PairRun>): seq<PairRun>
    requires runs != []
  {
    var last := runs[|runs| - 1];
    runs[|runs| - 1 := last.(length := last.length + 2)]
  }

  lemma PairRunGrows(run: PairRun)
    requires run.length >= 0 && Even(run.length)
    ensures PairRunMap(PairRun(run.start, run.length + 2)) == PairRunMap(run)[run.start + run.length := Next(run.start + run.length)]
    ensures PairRunReverse(PairRun(run.start, run.length + 2))
         == PairRunReverse(run)[run.start + run.length + 1 := Previous(run.start + run.length + 1)]
  {
    hide Next, Previous;
    PairMapGrows(run);
    PairReverseGrows(run);
  }

  lemma PairMapGrows(run: PairRun)
    requires run.length >= 0 && Even(run.length)
    ensures var x := run.start + run.length; PairRunMap(PairRun(run.start, run.length + 2)) == PairRunMap(run)[x := Next(x)]
  {
    hide Next;
    var x, more := run.start + run.length, PairRunMap(PairRun(run.start, run.length + 2));
    forall y
      ensures y in more <==> y in PairRunMap(run) || y == x
    {
      assert !Even(x + 1 - run.start);
    }
  }

  lemma PairReverseGrows(run: PairRun)
    requires run.length >= 0 && Even(run.length)
    ensures var x := run.start + run.length + 1;
            PairRunReverse(PairRun(run.start, run.length + 2)) == PairRunReverse(run)[x := Previous(x)]
  {
    hide Previous;
    var x, more := run.start + run.length + 1, PairRunReverse(PairRun(run.start, run.length + 2));
    forall y
      ensures y in more <==> y in PairRunReverse(run) || y == x
    {
      assert !Even(x - run.start) && Even(x - 1 - run.start);
    }
  }

  lemma EmptyPairRun(start: int)
    ensures PairRunMap(PairRun(start, 0)) == map[] && PairRunReverse(PairRun(start, 0)) == map[]
  {}

  lemma LastUpdate(init: CaseMap, last: CaseMap, x: int, text: seq<int>)
    ensures init + last[x := text] == (init + last)[x := text]
  {}

  lemma GrowPair(runs: seq<PairRun>)
    requires runs != [] && Separated(runs)
    ensures var more := GrownPair(runs); var x := End(runs);
            && DecodePairRuns(more) == DecodePairRuns(runs)[x := Next(x)]
            && ReversePairRuns(more) == ReversePairRuns(runs)[x + 1 := Previous(x + 1)]
  {
    hide PairRunMap, PairRunReverse, Next, Previous;
    var n := |runs| - 1;
    PairRunGrows(runs[n]);
    var more := GrownPair(runs);
    assert more[..n] == runs[..n];
    LastUpdate(DecodePairRuns(runs[..n]), PairRunMap(runs[n]), End(runs), Next(End(runs)));
    LastUpdate(ReversePairRuns(runs[..n]), PairRunReverse(runs[n]), End(runs) + 1, Previous(End(runs) + 1));
  }

  lemma GrowSeparated(runs: seq<PairRun>)
    requires runs != [] && Separated(runs)
    ensures Separated(GrownPair(runs)) && End(GrownPair(runs)) == End(runs) + 2
  {}

  lemma NewPair(runs: seq<PairRun>, x: int)
    ensures var more := runs + [PairRun(x, 2)];
            && DecodePairRuns(more) == DecodePairRuns(runs)[x := Next(x)]
            && ReversePairRuns(more) == ReversePairRuns(runs)[x + 1 := Previous(x + 1)]
  {
    hide PairRunMap, PairRunReverse, DecodePairRuns, ReversePairRuns, Next, Previous;
    EmptyPairRun(x);
    PairRunGrows(PairRun(x, 0));
    OneMoreRun(runs, PairRun(x, 2));
    LastUpdate(DecodePairRuns(runs), map[], x, Next(x));
    LastUpdate(ReversePairRuns(runs), map[], x + 1, Previous(x + 1));
  }

  lemma OneMoreRun(runs: seq<PairRun>, run: PairRun)
    ensures DecodePairRuns(runs + [run]) == DecodePairRuns(runs) + PairRunMap(run)
    ensures ReversePairRuns(runs + [run]) == ReversePairRuns(runs) + PairRunReverse(run)
  {
    hide PairRunMap, PairRunReverse;
    assert (runs + [run])[..|runs|] == runs;
  }

  lemma {:induction false} NewSeparated(runs: seq<PairRun>, x: int)
    requires Separated(runs) && (runs != [] ==> End(runs) <= x)
    ensures Separated(runs + [PairRun(x, 2)]) && End(runs + [PairRun(x, 2)]) == x + 2
  {
    var more := runs + [PairRun(x, 2)];
    forall r | 0 <= r < |runs|
      ensures more[r].start + more[r].length <= x
    {
      assert runs[r].start + runs[r].length <= End(runs);
    }
  }

  /** Neighbouring pair letters would have joined a run of the first pass. */
  lemma NoPairNeighbours(x: int, lc: CaseMap, rc: CaseMap)
    requires NoNeighbours(lc, rc) && PairLetter(x, lc, rc)
    ensures !PairLetter(x - 1, lc, rc)
  {
    assert !Joins(x, lc, rc, true);
  }

  /** The pair letters among the first i keys, with their mappings. */
  ghost function FoundPairs(keys: seq<int>, i: nat, lc: CaseMap, rc: CaseMap): CaseMap
    requires i <= |keys|
  {
    if i == 0 then map[]
    else if PairLetter(keys[i - 1], lc, rc) then FoundPairs(keys, i - 1, lc, rc)[keys[i - 1] := Next(keys[i - 1])]
    else FoundPairs(keys, i - 1, lc, rc)
  }

  ghost function FoundReverse(keys: seq<int>, i: nat, lc: CaseMap, rc: CaseMap): CaseMap
    requires i <= |keys|
  {
    if i == 0 then map[]
    else if PairLetter(keys[i - 1], lc, rc) then FoundReverse(keys, i - 1, lc, rc)[keys[i - 1] + 1 := Previous(keys[i - 1] + 1)]
    else FoundReverse(keys, i - 1, lc, rc)
  }

  lemma {:induction false} FoundAre(keys: seq<int>, i: nat, lc: CaseMap, rc: CaseMap)
    requires i <= |keys|
    ensures Within(FoundPairs(keys, i, lc, rc), lc) && Within(FoundReverse(keys, i, lc, rc), rc)
    ensures forall x <- FoundPairs(keys, i, lc, rc) :: PairLetter(x, lc, rc)
    ensures AllMirror(FoundReverse(keys, i, lc, rc), FoundPairs(keys, i, lc, rc), rc)
  {
    if i > 0 {
      FoundAre(keys, i - 1, lc, rc);
      var x := keys[i - 1];
      if PairLetter(x, lc, rc) {
        assert lc[x] == [lc[x][0]] == Next(x);
        assert rc[x + 1] == [rc[x + 1][0]] == Previous(x + 1);
      }
    }
  }

  method ScanPairRanges(keys: seq<int>, lc: CaseMap, rc: CaseMap) returns (starts: seq<int>, lengths: seq<int>)
    requires WellFormed(lc) && NoNeighbours(lc, rc) && Increasing(keys) && forall x :: x in keys <==> x in lc
    ensures |starts| == |lengths| && Separated(PairRunsOf(starts, lengths))
    ensures DecodePairRuns(PairRunsOf(starts, lengths)) == FoundPairs(keys, |keys|, lc, rc)
    ensures ReversePairRuns(PairRunsOf(starts, lengths)) == FoundReverse(keys, |keys|, lc, rc)
  {
    hide Separated, DecodePairRuns, ReversePairRuns, Bidirectional, NoNeighbours, Next, Previous;
    starts, lengths := [], [];
    var inRange := false;
    NoPairs();
    assert PairRunsOf(starts, lengths) == [];
    for i := 0 to |keys|
      invariant |starts| == |lengths| && Separated(PairRunsOf(starts, lengths))
      invariant DecodePairRuns(PairRunsOf(starts, lengths)) == FoundPairs(keys, i, lc, rc)
      invariant ReversePairRuns(PairRunsOf(starts, lengths)) == FoundReverse(keys, i, lc, rc)
      invariant |lengths| > 0 ==> i > 0 && End(PairRunsOf(starts, lengths)) - 2 <= keys[i - 1]
                                  && PairLetter(End(PairRunsOf(starts, lengths)) - 2, lc, rc)
      invariant inRange ==> |lengths| > 0 && End(PairRunsOf(starts, lengths)) - 2 == keys[i - 1]
    {
      var x := keys[i];
      ghost var runs := PairRunsOf(starts, lengths);
      assert i > 0 ==> keys[i - 1] < x;
      if !Bidirectional(x, lc, rc) {
        inRange := false;
        continue;
      }
      BidirectionalIsSimple(x, lc, rc);
      if lc[x][0] == x + 1 {
        NoPairNeighbours(x, lc, rc);
        if !Bidirectional(x - 2, lc, rc) {
          inRange := false;
        }
        if inRange {
          BidirectionalIsSimple(x - 2, lc, rc);
          PreviousKey(keys, i, x - 2);
          GrowPair(runs);
          GrowSeparated(runs);
          lengths := lengths[|lengths| - 1 := lengths[|lengths| - 1] + 2];
          assert PairRunsOf(starts, lengths) == GrownPair(runs);
        } else {
          NewPair(runs, x);
          NewSeparated(runs, x);
          starts := starts + [x];
          lengths := lengths + [2];
          assert PairRunsOf(starts, lengths) == runs + [PairRun(x, 2)];
          inRange := true;
        }
      } else {
        inRange := false;
      }
    }
  }

  lemma NoPairs()
    ensures Separated([]) && DecodePairRuns([]) == map[] && ReversePairRuns([]) == map[]
  {}

  lemma BidirectionalIsSimple(x: int, lc: CaseMap, rc: CaseMap)
    ensures Bidirectional(x, lc, rc) ==> Simple(x, lc)
  {}

  lemma PreviousKey(keys: seq<int>, i: nat, x: int)
    requires Increasing(keys) && 0 < i < |keys| && x in keys && x < keys[i]
    ensures x <= keys[i - 1]
  {
    var j :| 0 <= j < |keys| && keys[j] == x;
    Gap(keys, if j < i then j else i, if j < i then i - 1 else j);
  }

  // ----- Deleting the pairs of the pair-range table -----

  function PairPrefix(run: PairRun, n: int): PairRun { run.(length := n) }

  lemma PairPrefixStep(run: PairRun, n: nat)
    requires Even(n) && n < run.length && Even(run.length)
    ensures PairRunMap(PairPrefix(run, n + 2)).Keys == PairRunMap(PairPrefix(run, n)).Keys + {run.start + n}
    ensures PairRunReverse(PairPrefix(run, n + 2)).Keys == PairRunReverse(PairPrefix(run, n)).Keys + {run.start + n + 1}
  {
    PairRunGrows(PairPrefix(run, n));
    hide PairRunMap, PairRunReverse;
  }

  lemma PairPrefixNext(run: PairRun, n: nat)
    requires Even(n) && n < run.length && Even(run.length)
    ensures run.start + n !in PairRunMap(PairPrefix(run, n)) && run.start + n in PairRunMap(run)
    ensures run.start + n + 1 !in PairRunReverse(PairPrefix(run, n)) && run.start + n + 1 in PairRunReverse(run)
  {
    assert Even(run.start + n - run.start) && !Even(run.start + n + 1 - run.start);
  }

  /** Deletes every second letter of one pair range, and from the other mapping the letters after them. */
  method DeletePairRun(lower: Dict, upper: Dict, start: int, length: int)
    requires lower != upper && length >= 2 && Even(length)
    requires PairRunMap(PairRun(start, length)).Keys <= lower.m.Keys
    requires PairRunReverse(PairRun(start, length)).Keys <= upper.m.Keys
    modifies lower, upper
    ensures lower.m == old(lower.m) - PairRunMap(PairRun(start, length)).Keys
    ensures upper.m == old(upper.m) - PairRunReverse(PairRun(start, length)).Keys
  {
    hide PairRunMap, PairRunReverse;
    ghost var run := PairRun(start, length);
    EmptyPairRun(start);
    var incr := 0;
    while incr < length
      invariant 0 <= incr <= length && Even(incr)
      invariant lower.m == old(lower.m) - PairRunMap(PairPrefix(run, incr)).Keys
      invariant upper.m == old(upper.m) - PairRunReverse(PairPrefix(run, incr)).Keys
    {
      PairPrefixStep(run, incr);
      PairPrefixNext(run, incr);
      lower.Delete(start + incr);
      upper.Delete(start + 1 + incr);
      incr := incr + 2;
    }
    assert PairPrefix(run, length) == run;
  }

  /** What a table holds is still in a mapping from which an earlier part of the table was deleted. */
  lemma StillThere(whole: CaseMap, table: CaseMap, before: CaseMap, part: CaseMap)
    requires Within(table, whole) && part.Keys <= table.Keys && before.Keys !! part.Keys
    ensures part.Keys <= (whole - before.Keys).Keys
    ensures (whole - before.Keys) - part.Keys == whole - (before + part).Keys
  {
    forall x | x in part
      ensures x in whole - before.Keys
    {
      assert x in table;
    }
  }

  lemma PairRunStillThere(runs: seq<PairRun>, n: nat, lc: CaseMap, rc: CaseMap)
    requires n < |runs| && Separated(runs) && Within(DecodePairRuns(runs), lc) && Within(ReversePairRuns(runs), rc)
    ensures var rest, back := lc - DecodePairRuns(runs[..n]).Keys, rc - ReversePairRuns(runs[..n]).Keys;
            && PairRunMap(runs[n]).Keys <= rest.Keys && PairRunReverse(runs[n]).Keys <= back.Keys
            && rest - PairRunMap(runs[n]).Keys == lc - DecodePairRuns(runs[..n + 1]).Keys
            && back - PairRunReverse(runs[n]).Keys == rc - ReversePairRuns(runs[..n + 1]).Keys
  {
    hide PairRunMap, PairRunReverse, Separated, Within;
    PairRunIn(runs, n);
    PairRunsBefore(runs, n);
    PairRunFrom(runs[n]);
    assert runs[..n + 1][..n] == runs[..n];
    assert DecodePairRuns(runs[..n]).Keys !! PairRunMap(runs[n]).Keys by {
      assert forall x <- DecodePairRuns(runs[..n]) :: x < runs[n].start;
      assert forall x <- PairRunMap(runs[n]) :: x >= runs[n].start;
    }
    assert ReversePairRuns(runs[..n]).Keys !! PairRunReverse(runs[n]).Keys by {
      assert forall x <- ReversePairRuns(runs[..n]) :: x < runs[n].start;
      assert forall x <- PairRunReverse(runs[n]) :: x >= runs[n].start;
    }
    StillThere(lc, DecodePairRuns(runs), DecodePairRuns(runs[..n]), PairRunMap(runs[n]));
    StillThere(rc, ReversePairRuns(runs), ReversePairRuns(runs[..n]), PairRunReverse(runs[n]));
  }

  lemma PairRunFrom(run: PairRun)
    ensures forall x <- PairRunMap(run) :: x >= run.start
    ensures forall x <- PairRunReverse(run) :: x >= run.start
  {}

  lemma {:induction false} PairRunIn(runs: seq<PairRun>, n: nat)
    requires n < |runs|
    ensures PairRunMap(runs[n]).Keys <= DecodePairRuns(runs).Keys
    ensures PairRunReverse(runs[n]).Keys <= ReversePairRuns(runs).Keys
  {
    hide PairRunMap, PairRunReverse;
    if n < |runs| - 1 {
      PairRunIn(runs[..|runs| - 1], n);
    }
  }

  /** The pairs of the first n runs lie before run n. */
  lemma {:induction false} PairRunsBefore(runs: seq<PairRun>, n: nat)
    requires n < |runs| && Separated(runs)
    ensures forall x <- DecodePairRuns(runs[..n]) :: x < runs[n].start
    ensures forall x <- ReversePairRuns(runs[..n]) :: x < runs[n].start
    decreases n
  {
    if n > 0 {
      PairRunsBefore(runs, n - 1);
      assert runs[..n][..n - 1] == runs[..n - 1];
      assert runs[n - 1].start + runs[n - 1].length <= runs[n].start;
    }
  }

  method ExtractCharacterPairRanges(lower: Dict, upper: Dict) returns (starts: seq<int>, lengths: seq<int>)
    requires lower != upper && WellFormed(lower.m) && NoNeighbours(lower.m, upper.m)
    modifies lower, upper
    ensures |starts| == |lengths| && Separated(PairRunsOf(starts, lengths))
    ensures Splits(old(lower.m), lower.m, DecodePairRuns(PairRunsOf(starts, lengths)))
    ensures Splits(old(upper.m), upper.m, ReversePairRuns(PairRunsOf(starts, lengths)))
    ensures TakesBidirectional(old(lower.m), old(upper.m), lower.m, upper.m, DecodePairRuns(PairRunsOf(starts, lengths)))
  {
    hide PairRunMap, PairRunReverse, DecodePairRuns, ReversePairRuns, Separated;
    ghost var lc, rc := lower.m, upper.m;
    var keys := SortedKeys(lower.m);
    starts, lengths := ScanPairRanges(keys, lower.m, upper.m);
    ghost var runs := PairRunsOf(starts, lengths);
    FoundAre(keys, |keys|, lc, rc);
    NoPairs();
    assert runs[..0] == [];
    var idx := 0;
    while idx < |starts|
      invariant 0 <= idx <= |starts|
      invariant lower.m == lc - DecodePairRuns(runs[..idx]).Keys
      invariant upper.m == rc - ReversePairRuns(runs[..idx]).Keys
    {
      PairRunStillThere(runs, idx, lc, rc);
      LengthsAreEven(runs, idx);
      DeletePairRun(lower, upper, starts[idx], lengths[idx]);
      idx := idx + 1;
    }
    assert runs[..|runs|] == runs;
    WithinSplits(lc, DecodePairRuns(runs));
    WithinSplits(rc, ReversePairRuns(runs));
    OthersStay(DecodePairRuns(runs), ReversePairRuns(runs), lc, rc);
  }

  lemma LengthsAreEven(runs: seq<PairRun>, n: nat)
    requires Separated(runs) && n < |runs|
    ensures runs[n].length >= 2 && Even(runs[n].length)
  {}

  // ----- Pairs -----

  ghost predicate OnePoint(entries: seq<Entry>) {
    forall n | 0 <= n < |entries| :: |entries[n].text| == 1
  }

  lemma MoreIncrease(entries: seq<Entry>, e: Entry)
    requires LettersIncrease(entries) && (entries != [] ==> entries[|entries| - 1].letter < e.letter)
    ensures LettersIncrease(entries + [e])
  {
    assert forall n | 0 <= n < |entries| :: entries[n].letter < e.letter;
  }

  /** The pairs found so far: taken from both mappings, and exactly the bidirectional ones among the first keys. */
  ghost predicate Taken(entries: seq<Entry>, keys: seq<int>, i: nat, lc: CaseMap, rc: CaseMap)
    requires i <= |keys|
  {
    && OnePoint(entries) && LettersIncrease(entries)
    && (entries != [] ==> i > 0 && entries[|entries| - 1].letter <= keys[i - 1])
    && Within(DecodeEntries(entries), lc) && Within(DecodeEntries(FlipAll(entries)), rc)
    && (forall x :: x in DecodeEntries(entries) <==> x in keys[..i] && Bidirectional(x, lc, rc))
    && AllMirror(DecodeEntries(FlipAll(entries)), DecodeEntries(entries), rc)
  }

  lemma AddEntry(entries: seq<Entry>, e: Entry)
    requires OnePoint(entries) && |e.text| == 1
    ensures OnePoint(entries + [e]) && DecodeEntries(entries + [e]) == DecodeEntries(entries)[e.letter := e.text]
    ensures DecodeEntries(FlipAll(entries + [e])) == DecodeEntries(FlipAll(entries))[e.text[0] := [e.letter]]
  {
    var more := entries + [e];
    assert more[..|entries|] == entries;
    assert FlipAll(more)[..|entries|] == FlipAll(entries) && FlipAll(more)[|entries|] == Flip(e);
  }

  lemma TakeNext(entries: seq<Entry>, keys: seq<int>, i: nat, lc: CaseMap, rc: CaseMap)
    requires i < |keys| && Increasing(keys) && Taken(entries, keys, i, lc, rc)
    ensures !Bidirectional(keys[i], lc, rc) ==> Taken(entries, keys, i + 1, lc, rc)
    ensures Bidirectional(keys[i], lc, rc) ==> Taken(entries + [Entry(keys[i], lc[keys[i]])], keys, i + 1, lc, rc)
  {
    hide DecodeEntries, Mirrors, Within, FlipAll, LettersIncrease;
    var x := keys[i];
    assert i > 0 ==> keys[i - 1] < x;
    assert keys[..i + 1] == keys[..i] + [x];
    assert forall z :: z in keys[..i + 1] <==> z in keys[..i] || z == x;
    if Bidirectional(x, lc, rc) {
      AddEntry(entries, Entry(x, lc[x]));
      MoreIncrease(entries, Entry(x, lc[x]));
      TakenWithin(DecodeEntries(entries), DecodeEntries(FlipAll(entries)), x, lc, rc);
    }
  }

  lemma TakenWithin(part: CaseMap, back: CaseMap, x: int, lc: CaseMap, rc: CaseMap)
    requires Within(part, lc) && Within(back, rc) && Bidirectional(x, lc, rc) && AllMirror(back, part, rc)
    ensures Within(part[x := lc[x]], lc) && Within(back[lc[x][0] := [x]], rc)
    ensures AllMirror(back[lc[x][0] := [x]], part[x := lc[x]], rc)
  {
    assert rc[lc[x][0]] == [x] && lc[x] == [lc[x][0]];
  }

  ghost predicate NoneBidirectional(lc: CaseMap, rc: CaseMap) {
    forall x :: !Bidirectional(x, lc, rc)
  }

  method ExtractCharacterPairs(lower: Dict, upper: Dict) returns (pairs: seq<int>)
    requires lower != upper && WellFormed(lower.m)
    modifies lower, upper
    ensures OnePoint(EntriesOf(pairs, 1)) && LettersIncrease(EntriesOf(pairs, 1)) && |pairs| == 2 * |EntriesOf(pairs, 1)|
    ensures Splits(old(lower.m), lower.m, DecodeEntries(EntriesOf(pairs, 1)))
    ensures Splits(old(upper.m), upper.m, DecodeEntries(FlipAll(EntriesOf(pairs, 1))))
    ensures TakesBidirectional(old(lower.m), old(upper.m), lower.m, upper.m, DecodeEntries(EntriesOf(pairs, 1)))
    ensures NoneBidirectional(lower.m, upper.m)
  {
    hide DecodeEntries, Bidirectional, FlipAll, EntriesOf, Taken;
    ghost var lc, rc := lower.m, upper.m;
    var keys := SortedKeys(lower.m);
    pairs := [];
    ghost var entries: seq<Entry> := [];
    NoEntries(keys, lc, rc);
    for i := 0 to |keys|
      invariant OnePoint(entries) && Taken(entries, keys, i, lc, rc) && EntriesOf(pairs, 1) == entries && |pairs| == 2 * |entries|
      invariant lower.m == lc - DecodeEntries(entries).Keys
      invariant upper.m == rc - DecodeEntries(FlipAll(entries)).Keys
    {
      var x := keys[i];
      StillToTake(entries, keys, i, lc, rc);
      TakeNext(entries, keys, i, lc, rc);
      if Bidirectional(x, lower.m, upper.m) {
        BothWays(x, lc, rc);
        BothWays(x, lower.m, upper.m);
        var mapped := lower.m[x];
        AddEntry(entries, Entry(x, lc[x]));
        AppendEntry(pairs, 1, entries, x, lc[x]);
        assert pairs + [x, mapped[0]] == pairs + [x] + lc[x];
        pairs := pairs + [x, mapped[0]];
        lower.Delete(x);
        upper.Delete(mapped[0]);
        entries := entries + [Entry(x, lc[x])];
      }
    }
    AllTaken(entries, keys, lc, rc);
  }

  lemma AllTaken(entries: seq<Entry>, keys: seq<int>, lc: CaseMap, rc: CaseMap)
    requires Taken(entries, keys, |keys|, lc, rc) && forall x :: x in keys <==> x in lc
    ensures OnePoint(entries) && LettersIncrease(entries)
    ensures var part, back := DecodeEntries(entries), DecodeEntries(FlipAll(entries));
            && Splits(lc, lc - part.Keys, part) && Splits(rc, rc - back.Keys, back)
            && TakesBidirectional(lc, rc, lc - part.Keys, rc - back.Keys, part)
            && NoneBidirectional(lc - part.Keys, rc - back.Keys)
  {
    hide DecodeEntries, FlipAll, LettersIncrease;
    assert keys[..|keys|] == keys;
    var part, back := DecodeEntries(entries), DecodeEntries(FlipAll(entries));
    WithinSplits(lc, part);
    WithinSplits(rc, back);
    OthersStay(part, back, lc, rc);
  }

  lemma StillToTake(entries: seq<Entry>, keys: seq<int>, i: nat, lc: CaseMap, rc: CaseMap)
    requires i < |keys| && Increasing(keys) && OnePoint(entries) && Taken(entries, keys, i, lc, rc)
    ensures var lower, upper := lc - DecodeEntries(entries).Keys, rc - DecodeEntries(FlipAll(entries)).Keys;
            Bidirectional(keys[i], lower, upper) <==> Bidirectional(keys[i], lc, rc)
  {
    hide DecodeEntries, FlipAll, Bidirectional, LettersIncrease, Mirrors, Within;
    NotYet(keys, i);
    StillBidirectional(DecodeEntries(entries), DecodeEntries(FlipAll(entries)), keys[i], lc, rc);
  }

  lemma BothWays(x: int, lc: CaseMap, rc: CaseMap)
    ensures Bidirectional(x, lc, rc) ==> x in lc && |lc[x]| == 1 && lc[x][0] in rc && lc[x] == [lc[x][0]]
  {}

  lemma NoEntries(keys: seq<int>, lc: CaseMap, rc: CaseMap)
    ensures Taken([], keys, 0, lc, rc) && DecodeEntries([]) == map[] && FlipAll([]) == [] && EntriesOf([], 1) == []
  {}

  lemma NotYet(keys: seq<int>, i: nat)
    requires Increasing(keys) && i < |keys|
    ensures keys[i] !in keys[..i]
  {}

  lemma AppendEntry(table: seq<int>, width: nat, entries: seq<Entry>, x: int, text: seq<int>)
    requires EntriesOf(table, width) == entries && |text| == width
    ensures EntriesOf(table + [x] + text, width) == entries + [Entry(x, text)]
  {
    var more := table + [x] + text;
    assert more[..|table|] == table && more[|table|] == x && more[|table| + 1..] == text;
  }
}
