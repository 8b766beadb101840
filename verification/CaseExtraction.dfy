/** The passes of the case-table generator, each deleting from the dictionaries what it puts into a table. */
module CaseExtraction {
  import opened Options
  import opened CaseMappings

  class Dict {
    var m: CaseMap

    constructor (m: CaseMap)
      ensures this.m == m
    {
      this.m := m;
    }

    /** Python's del: the key must be there. */
    method Delete(x: int)
      requires x in m
      modifies this
      ensures m == old(m) - {x}
    {
      m := m - {x};
    }
  }

  /** sorted(m.keys()). */
  method SortedKeys(m: CaseMap) returns (keys: seq<int>)
    ensures Increasing(keys) && forall x :: x in keys <==> x in m
  {
    keys := [];
    var left: set<int> := m.Keys;
    while left != {}
      invariant Increasing(keys) && left <= m.Keys
      invariant forall x :: x in m <==> x in keys || x in left
      invariant forall x :: x in keys ==> x !in left
      decreases |left|
    {
      HasElement(left);
      var x :| x in left;
      keys := InsertSorted(keys, x);
      left := left - {x};
    }
  }

  method InsertSorted(s: seq<int>, x: int) returns (r: seq<int>)
    requires Increasing(s) && x !in s
    ensures Increasing(r) && forall y :: y in r <==> y in s || y == x
  {
    var i := 0;
    while i < |s| && s[i] < x
      invariant 0 <= i <= |s|
      invariant forall j | 0 <= j < i :: s[j] < x
    {
      i := i + 1;
    }
    assert i < |s| ==> s[i] in s;
    InsertedIsIncreasing(s, x, i);
    r := s[..i] + [x] + s[i..];
  }

  lemma InsertedIsIncreasing(s: seq<int>, x: int, i: nat)
    requires Increasing(s) && i <= |s| && (forall j | 0 <= j < i :: s[j] < x) && (i < |s| ==> x < s[i])
    ensures var r := s[..i] + [x] + s[i..]; Increasing(r) && forall y :: y in r <==> y in s || y == x
  {
    var r := s[..i] + [x] + s[i..];
    assert forall j | 0 <= j < |r| :: r[j] == if j < i then s[j] else if j == i then x else s[j - 1];
    forall j, k | 0 <= j < k < |r|
      ensures r[j] < r[k]
    {
      assert i <= k - 1 < |s| && i < |s| ==> s[i] <= s[k - 1];
    }
    Split(s, i);
  }

  lemma Split(s: seq<int>, i: nat)
    requires i <= |s|
    ensures forall y :: y in s <==> y in s[..i] || y in s[i..]
  {
    assert s == s[..i] + s[i..];
  }

  // ----- Ranges -----

  /** The letters that the runs found in the first i keys must hold: those that join, and the letters before them. */
  ghost predicate Covered(x: int, keys: seq<int>, i: nat, lc: CaseMap, rc: CaseMap, twoWay: bool)
    requires i <= |keys|
  {
    (x in keys[..i] && Joins(x, lc, rc, twoWay)) || (x + 1 in keys[..i] && Joins(x + 1, lc, rc, twoWay))
  }

  ghost predicate Disjoint(runs: seq<Run>) {
    runs == [] || (Disjoint(runs[..|runs| - 1]) && DecodeRuns(runs[..|runs| - 1]).Keys !! RunMap(runs[|runs| - 1]).Keys)
  }

  ghost predicate Within(part: CaseMap, whole: CaseMap) {
    forall x <- part :: x in whole && part[x] == whole[x]
  }

  ghost predicate LastRunEnds(runs: seq<Run>, x: int, lc: CaseMap)
    requires |runs| > 0
  {
    var run := runs[|runs| - 1];
    run.length > 0 && run.start + run.length == x + 1 && Simple(x, lc) && Shifted(run, x) == lc[x]
  }

  /** The scan over the letters: a run starts with two letters and grows while letters join it. */
  method ScanRanges(keys: seq<int>, lc: CaseMap, rc: CaseMap, twoWay: bool) returns (ranges: seq<int>, lengths: seq<int>)
    requires WellFormed(lc) && Increasing(keys) && forall x :: x in keys <==> x in lc
    ensures |ranges| == 2 * |lengths| && forall n | 0 <= n < |lengths| :: lengths[n] >= 2
    ensures var runs := RunsOf(ranges, lengths);
            && Disjoint(runs) && Within(DecodeRuns(runs), lc)
            && forall x :: x in DecodeRuns(runs) <==> Covered(x, keys, |keys|, lc, rc, twoWay)
  {
    hide Disjoint, DecodeRuns, Within, Covered, Joins, LastRunEnds, RunsOf;
    var inRange := false;
    ranges, lengths := [], [];
    NoRuns(keys, lc, rc, twoWay);
    for i := 0 to |keys|
      invariant |ranges| == 2 * |lengths| && forall n | 0 <= n < |lengths| :: lengths[n] >= 2
      invariant Disjoint(RunsOf(ranges, lengths)) && Within(DecodeRuns(RunsOf(ranges, lengths)), lc)
      invariant forall x :: x in DecodeRuns(RunsOf(ranges, lengths)) <==> Covered(x, keys, i, lc, rc, twoWay)
      invariant inRange <==> i > 0 && Joins(keys[i - 1], lc, rc, twoWay)
      invariant inRange ==> |lengths| > 0 && LastRunEnds(RunsOf(ranges, lengths), keys[i - 1], lc)
    {
      var x := keys[i];
      CoverStep(keys, i, lc, rc, twoWay);
      JoinsIs(x, lc, rc, twoWay);
      if twoWay {
        if !Bidirectional(x, lc, rc) || !Bidirectional(x - 1, lc, rc) {
          inRange := false;
          continue;
        }
      } else {
        if |lc[x]| > 1 || x - 1 !in lc || |lc[x - 1]| > 1 {
          inRange := false;
          continue;
        }
      }
      if Distance(x, lc) != Distance(x - 1, lc) {
        inRange := false;
        continue;
      }
      ghost var runs := RunsOf(ranges, lengths);
      if inRange {
        GrowRun(runs, x, lc);
        GrownTable(ranges, lengths);
        lengths := lengths[|lengths| - 1 := lengths[|lengths| - 1] + 1];
      } else {
        NewRun(runs, x, lc);
        inRange := true;
        LongerTables(ranges, lengths, x - 1, lc[x - 1][0]);
        ranges := ranges + [x - 1, lc[x - 1][0]];
        lengths := lengths + [2];
      }
    }
  }

  lemma NoRuns(keys: seq<int>, lc: CaseMap, rc: CaseMap, twoWay: bool)
    ensures Disjoint([]) && DecodeRuns([]) == map[] && Within(map[], lc) && RunsOf([], []) == []
    ensures forall x :: !Covered(x, keys, 0, lc, rc, twoWay)
  {}

  lemma JoinsIs(x: int, lc: CaseMap, rc: CaseMap, twoWay: bool)
    requires x in lc && WellFormed(lc)
    ensures Joins(x, lc, rc, twoWay) <==>
              && Simple(x, lc) && Simple(x - 1, lc)
              && (twoWay ==> Bidirectional(x, lc, rc) && Bidirectional(x - 1, lc, rc))
              && Distance(x, lc) == Distance(x - 1, lc)
    ensures forall y :: Simple(y, lc) <==> y in lc && !(|lc[y]| > 1)
  {}

  /** What one more key covers, and that the two letters of a new run are not covered yet. */
  lemma CoverStep(keys: seq<int>, i: nat, lc: CaseMap, rc: CaseMap, twoWay: bool)
    requires i < |keys| && Increasing(keys) && forall x :: x in keys <==> x in lc
    ensures forall x :: Covered(x, keys, i + 1, lc, rc, twoWay) <==>
              Covered(x, keys, i, lc, rc, twoWay) || ((x == keys[i] || x == keys[i] - 1) && Joins(keys[i], lc, rc, twoWay))
    ensures !Covered(keys[i], keys, i, lc, rc, twoWay)
    ensures Joins(keys[i], lc, rc, twoWay) ==> i > 0 && keys[i - 1] == keys[i] - 1
    ensures Joins(keys[i], lc, rc, twoWay) ==>
              (Joins(keys[i] - 1, lc, rc, twoWay) <==> Covered(keys[i] - 1, keys, i, lc, rc, twoWay))
  {
    hide Joins;
    assert keys[..i + 1] == keys[..i] + [keys[i]];
    forall x
      ensures Covered(x, keys, i + 1, lc, rc, twoWay) <==>
                Covered(x, keys, i, lc, rc, twoWay) || ((x == keys[i] || x == keys[i] - 1) && Joins(keys[i], lc, rc, twoWay))
    {
      assert x in keys[..i + 1] <==> x in keys[..i] || x == keys[i];
      assert x + 1 in keys[..i + 1] <==> x + 1 in keys[..i] || x + 1 == keys[i];
    }
    if Joins(keys[i], lc, rc, twoWay) {
      assert keys[i] - 1 in lc by {
        JoinsHas(keys[i], lc, rc, twoWay);
      }
      var j :| 0 <= j < |keys| && keys[j] == keys[i] - 1;
      assert j < i;
      Gap(keys, j, i);
      assert keys[..i][i - 1] == keys[i - 1];
    }
  }

  lemma {:induction false} Gap(keys: seq<int>, j: nat, i: nat)
    requires Increasing(keys) && j <= i < |keys|
    ensures keys[i] - keys[j] >= i - j
    decreases i
  {
    if j < i {
      Gap(keys, j, i - 1);
      assert keys[i - 1] < keys[i];
    }
  }

  lemma JoinsHas(x: int, lc: CaseMap, rc: CaseMap, twoWay: bool)
    requires Joins(x, lc, rc, twoWay)
    ensures x in lc && x - 1 in lc
  {}

  function Grown(runs: seq<Run>): seq<Run>
    requires |runs| > 0
  {
    var last := runs[|runs| - 1];
    runs[|runs| - 1 := last.(length := last.length + 1)]
  }

  lemma GrownTable(ranges: seq<int>, lengths: seq<int>)
    requires |ranges| == 2 * |lengths| > 0
    ensures RunsOf(ranges, lengths[|lengths| - 1 := lengths[|lengths| - 1] + 1]) == Grown(RunsOf(ranges, lengths))
  {}

  lemma LongerTables(ranges: seq<int>, lengths: seq<int>, start: int, mapped: int)
    requires |ranges| == 2 * |lengths|
    ensures RunsOf(ranges + [start, mapped], lengths + [2]) == RunsOf(ranges, lengths) + [Run(start, mapped, 2)]
  {}

  lemma RunGrows(run: Run, x: int, lc: CaseMap)
    requires run.length > 0 && run.start + run.length == x && Simple(x - 1, lc) && Shifted(run, x - 1) == lc[x - 1]
    requires Simple(x, lc) && Distance(x, lc) == Distance(x - 1, lc)
    ensures RunMap(run.(length := run.length + 1)) == RunMap(run)[x := lc[x]]
    ensures Shifted(run.(length := run.length + 1), x) == lc[x]
  {
    assert lc[x - 1][0] == Shifted(run, x - 1)[0];
    assert lc[x] == [lc[x][0]];
    assert forall y :: Shifted(run.(length := run.length + 1), y) == Shifted(run, y);
  }

  lemma RunOfTwo(x: int, lc: CaseMap)
    requires Simple(x, lc) && Simple(x - 1, lc) && Distance(x, lc) == Distance(x - 1, lc)
    ensures RunMap(Run(x - 1, lc[x - 1][0], 2)) == map[x - 1 := lc[x - 1], x := lc[x]]
    ensures Shifted(Run(x - 1, lc[x - 1][0], 2), x) == lc[x]
  {
    var run := Run(x - 1, lc[x - 1][0], 2);
    assert lc[x] == [lc[x][0]] == Shifted(run, x) && lc[x - 1] == [lc[x - 1][0]] == Shifted(run, x - 1);
    var two := RunMap(run);
    assert forall y :: y in two <==> y == x - 1 || y == x;
  }

  lemma GrowRun(runs: seq<Run>, x: int, lc: CaseMap)
    requires |runs| > 0 && Disjoint(runs) && Within(DecodeRuns(runs), lc)
    requires LastRunEnds(runs, x - 1, lc) && x !in DecodeRuns(runs)
    requires Simple(x, lc) && Distance(x, lc) == Distance(x - 1, lc)
    ensures Disjoint(Grown(runs)) && Within(DecodeRuns(Grown(runs)), lc) && LastRunEnds(Grown(runs), x, lc)
    ensures DecodeRuns(Grown(runs)).Keys == DecodeRuns(runs).Keys + {x}
  {
    hide RunMap, Shifted;
    var n := |runs| - 1;
    assert Grown(runs)[..n] == runs[..n];
    var last, more := runs[n], Grown(runs)[n];
    RunGrows(last, x, lc);
    assert RunMap(more) == RunMap(last)[x := lc[x]];
    assert DecodeRuns(Grown(runs)) == DecodeRuns(runs[..n]) + RunMap(more);
    assert DecodeRuns(runs) == DecodeRuns(runs[..n]) + RunMap(last);
  }

  lemma NewRun(runs: seq<Run>, x: int, lc: CaseMap)
    requires Disjoint(runs) && Within(DecodeRuns(runs), lc)
    requires x !in DecodeRuns(runs) && x - 1 !in DecodeRuns(runs)
    requires Simple(x, lc) && Simple(x - 1, lc) && Distance(x, lc) == Distance(x - 1, lc)
    ensures var more := runs + [Run(x - 1, lc[x - 1][0], 2)];
            && Disjoint(more) && Within(DecodeRuns(more), lc) && LastRunEnds(more, x, lc)
            && DecodeRuns(more).Keys == DecodeRuns(runs).Keys + {x - 1, x}
  {
    var run := Run(x - 1, lc[x - 1][0], 2);
    var more := runs + [run];
    assert more[..|runs|] == runs;
    RunOfTwo(x, lc);
    assert RunMap(run).Keys == {x - 1, x};
    assert DecodeRuns(more) == DecodeRuns(runs) + RunMap(run);
  }

  // ----- Deleting what the table holds -----

  function Prefix(run: Run, n: int): Run { run.(length := n) }

  lemma {:induction false} RunIn(runs: seq<Run>, n: nat)
    requires n < |runs| && Disjoint(runs)
    ensures DecodeRuns(runs[..n]).Keys !! RunMap(runs[n]).Keys
    ensures DecodeRuns(runs[..n + 1]) == DecodeRuns(runs[..n]) + RunMap(runs[n])
    ensures Within(RunMap(runs[n]), DecodeRuns(runs))
    ensures Within(DecodeRuns(runs[..n]), DecodeRuns(runs))
  {
    hide RunMap;
    assert runs[..n + 1][..n] == runs[..n];
    var init := runs[..|runs| - 1];
    if n < |runs| - 1 {
      RunIn(init, n);
      assert init[..n] == runs[..n] && init[..n + 1] == runs[..n + 1];
    }
  }

  lemma PrefixStep(run: Run, n: nat)
    ensures RunMap(Prefix(run, n + 1)).Keys == RunMap(Prefix(run, n)).Keys + {run.start + n}
    ensures run.start + n !in RunMap(Prefix(run, n))
    ensures n < run.length ==> run.start + n in RunMap(run)
    ensures RunMap(Prefix(run, 0)) == map[] && RunMap(Prefix(run, run.length)) == RunMap(run)
  {
    assert Prefix(run, run.length) == run;
  }

  /** Deletes the letters of one run, and their mapped values from the reverse mapping if there is one. */
  method DeleteRun(letterCase: Dict, reverse: Dict?, start: int, mapped: int, length: int)
    requires reverse != letterCase && length >= 0
    requires RunMap(Run(start, mapped, length)).Keys <= letterCase.m.Keys
    requires reverse != null ==> RunMap(Run(mapped, start, length)).Keys <= reverse.m.Keys
    modifies letterCase, reverse
    ensures letterCase.m == old(letterCase.m) - RunMap(Run(start, mapped, length)).Keys
    ensures reverse != null ==> reverse.m == old(reverse.m) - RunMap(Run(mapped, start, length)).Keys
  {
    hide RunMap;
    var incr := 0;
    ghost var run, back := Run(start, mapped, length), Run(mapped, start, length);
    PrefixStep(run, 0);
    PrefixStep(back, 0);
    while incr < length
      invariant 0 <= incr <= length
      invariant letterCase.m == old(letterCase.m) - RunMap(Prefix(run, incr)).Keys
      invariant reverse != null ==> reverse.m == old(reverse.m) - RunMap(Prefix(back, incr)).Keys
    {
      PrefixStep(run, incr);
      PrefixStep(back, incr);
      letterCase.Delete(start + incr);
      if reverse != null {
        reverse.Delete(mapped + incr);
      }
      incr := incr + 1;
    }
    PrefixStep(run, length);
    PrefixStep(back, length);
    assert Prefix(run, length) == run && Prefix(back, length) == back;
  }

  lemma WithinSplits(whole: CaseMap, part: CaseMap)
    requires Within(part, whole)
    ensures Splits(whole, whole - part.Keys, part)
  {
    var both := (whole - part.Keys) + part;
    forall x
      ensures x in both <==> x in whole
      ensures x in both ==> both[x] == whole[x]
    {
      assert x in part ==> x in whole && part[x] == whole[x];
    }
    assert both.Keys == whole.Keys;
  }

  /** A run is still there when the runs before it have been deleted. */
  lemma RunStillThere(runs: seq<Run>, n: nat, whole: CaseMap)
    requires n < |runs| && Disjoint(runs) && Within(DecodeRuns(runs), whole)
    ensures var rest := whole - DecodeRuns(runs[..n]).Keys;
            && RunMap(runs[n]).Keys <= rest.Keys
            && rest - RunMap(runs[n]).Keys == whole - DecodeRuns(runs[..n + 1]).Keys
  {
    hide RunMap, DecodeRuns, Disjoint;
    RunIn(runs, n);
    var rest := whole - DecodeRuns(runs[..n]).Keys;
    forall x | x in RunMap(runs[n])
      ensures x in rest
    {
      assert x in DecodeRuns(runs);
    }
  }

  /** Letter y of the reverse mapping leads to a letter of the table that maps to y. */
  ghost predicate Mirrors(y: int, part: CaseMap, rc: CaseMap) {
    Simple(y, rc) && rc[y][0] in part && part[rc[y][0]] == [y]
  }

  ghost predicate AllMirror(back: CaseMap, part: CaseMap, rc: CaseMap) {
    forall y <- back :: Mirrors(y, part, rc)
  }

  /** Deleting the pairs found so far does not change whether a later letter is bidirectional. */
  lemma StillBidirectional(part: CaseMap, back: CaseMap, x: int, lc: CaseMap, rc: CaseMap)
    requires Within(part, lc) && x !in part && AllMirror(back, part, rc)
    ensures Bidirectional(x, lc - part.Keys, rc - back.Keys) <==> Bidirectional(x, lc, rc)
    ensures Bidirectional(x, lc, rc) ==> lc[x][0] !in back
  {}

  /** A pass takes only bidirectional letters, and leaves the others what they were. */
  ghost predicate TakesBidirectional(lc: CaseMap, rc: CaseMap, lc2: CaseMap, rc2: CaseMap, part: CaseMap) {
    && (forall x <- part :: Bidirectional(x, lc, rc))
    && (forall x <- lc2 :: Bidirectional(x, lc2, rc2) <==> Bidirectional(x, lc, rc))
  }

  lemma OthersStay(part: CaseMap, back: CaseMap, lc: CaseMap, rc: CaseMap)
    requires Within(part, lc) && AllMirror(back, part, rc) && forall x <- part :: Bidirectional(x, lc, rc)
    ensures TakesBidirectional(lc, rc, lc - part.Keys, rc - back.Keys, part)
  {
    hide Bidirectional, Within, AllMirror;
    forall x | x in lc - part.Keys
      ensures Bidirectional(x, lc - part.Keys, rc - back.Keys) <==> Bidirectional(x, lc, rc)
    {
      StillBidirectional(part, back, x, lc, rc);
    }
  }

  /** The runs read backwards are disjoint and hold what the reverse mapping holds. */
  lemma {:induction false} ReverseRuns(runs: seq<Run>, lc: CaseMap, rc: CaseMap)
    requires Disjoint(runs) && Within(DecodeRuns(runs), lc)
    requires forall x <- DecodeRuns(runs) :: Bidirectional(x, lc, rc)
    ensures Disjoint(ReverseAll(runs)) && Within(DecodeRuns(ReverseAll(runs)), rc)
    ensures AllMirror(DecodeRuns(ReverseAll(runs)), DecodeRuns(runs), rc)
  {
    if runs != [] {
      var n := |runs| - 1;
      var init, run := runs[..n], runs[n];
      RunIn(runs, n);
      ReverseRuns(init, lc, rc);
      assert ReverseAll(runs)[..n] == ReverseAll(init) && ReverseAll(runs)[n] == run.Reversed();
      forall y | y in RunMap(run.Reversed())
        ensures y in rc && rc[y] == RunMap(run.Reversed())[y] && Mirrors(y, RunMap(run), rc)
      {
        ReversedAt(run, y, lc, rc);
      }
    }
  }

  lemma ReversedAt(run: Run, y: int, lc: CaseMap, rc: CaseMap)
    requires Within(RunMap(run), lc) && (forall x <- RunMap(run) :: Bidirectional(x, lc, rc)) && y in RunMap(run.Reversed())
    ensures y in rc && rc[y] == RunMap(run.Reversed())[y] && Mirrors(y, RunMap(run), rc)
  {
    var x := run.start + (y - run.mapped);
    assert x in RunMap(run);
    assert lc[x] == Shifted(run, x) == [y];
    assert rc[y] == [rc[y][0]] == [x] == Shifted(run.Reversed(), y);
  }

  /** After the deletions no two neighbours are bidirectional at the same distance. */
  lemma NoneLeft(lc: CaseMap, rc: CaseMap, lc2: CaseMap, rc2: CaseMap, keys: seq<int>)
    requires (forall x :: x in keys <==> x in lc) && Within(lc2, lc) && Within(rc2, rc)
    requires forall x <- lc2 :: !Covered(x, keys, |keys|, lc, rc, true)
    ensures NoNeighbours(lc2, rc2)
  {
    assert keys[..|keys|] == keys;
    forall x
      ensures Joins(x, lc2, rc2, true) ==> Joins(x, lc, rc, true) && x in lc2 && x in keys
    {}
  }

  /** Deletes the letters of all runs, and their mapped values from the reverse mapping if there is one. */
  method DeleteRuns(letterCase: Dict, reverse: Dict?, ranges: seq<int>, lengths: seq<int>)
    requires reverse != letterCase && |ranges| == 2 * |lengths| && forall n | 0 <= n < |lengths| :: lengths[n] >= 2
    requires Disjoint(RunsOf(ranges, lengths)) && Within(DecodeRuns(RunsOf(ranges, lengths)), letterCase.m)
    requires reverse != null ==>
               var back := ReverseAll(RunsOf(ranges, lengths)); Disjoint(back) && Within(DecodeRuns(back), reverse.m)
    modifies letterCase, reverse
    ensures letterCase.m == old(letterCase.m) - DecodeRuns(RunsOf(ranges, lengths)).Keys
    ensures reverse != null ==> reverse.m == old(reverse.m) - DecodeRuns(ReverseAll(RunsOf(ranges, lengths))).Keys
  {
    hide RunMap, DecodeRuns, Disjoint, Within;
    ghost var lc, rc := letterCase.m, if reverse != null then reverse.m else map[];
    ghost var runs := RunsOf(ranges, lengths);
    ghost var back := ReverseAll(runs);
    NothingDeleted(runs, back);
    var idx := 0;
    while idx < |ranges|
      invariant 0 <= idx <= |ranges| && idx % 2 == 0
      invariant letterCase.m == lc - DecodeRuns(runs[..idx / 2]).Keys
      invariant reverse != null ==> reverse.m == rc - DecodeRuns(back[..idx / 2]).Keys
    {
      RunStillThere(runs, idx / 2, lc);
      if reverse != null {
        RunStillThere(back, idx / 2, rc);
      }
      DeleteRun(letterCase, reverse, ranges[idx], ranges[idx + 1], lengths[idx / 2]);
      idx := idx + 2;
    }
    assert runs[..|runs|] == runs && back[..|back|] == back;
  }

  lemma NothingDeleted(runs: seq<Run>, back: seq<Run>)
    ensures DecodeRuns(runs[..0]) == map[] && DecodeRuns(back[..0]) == map[]
  {}

  method ExtractRanges(letterCase: Dict, reverse: Dict?) returns (ranges: seq<int>, lengths: seq<int>)
    requires reverse != letterCase && WellFormed(letterCase.m)
    modifies letterCase, reverse
    ensures |ranges| == 2 * |lengths| && Disjoint(RunsOf(ranges, lengths)) && forall n | 0 <= n < |lengths| :: lengths[n] >= 2
    ensures Splits(old(letterCase.m), letterCase.m, DecodeRuns(RunsOf(ranges, lengths)))
    ensures reverse != null ==>
              && Splits(old(reverse.m), reverse.m, DecodeRuns(ReverseAll(RunsOf(ranges, lengths))))
              && TakesBidirectional(old(letterCase.m), old(reverse.m), letterCase.m, reverse.m, DecodeRuns(RunsOf(ranges, lengths)))
              && NoNeighbours(letterCase.m, reverse.m)
  {
    hide RunMap, DecodeRuns, Joins, Covered, Disjoint, Bidirectional;
    ghost var lc, rc := letterCase.m, if reverse != null then reverse.m else map[];
    var keys := SortedKeys(letterCase.m);
    ranges, lengths := ScanRanges(keys, letterCase.m, if reverse != null then reverse.m else map[], reverse != null);
    ghost var runs := RunsOf(ranges, lengths);
    ghost var back := ReverseAll(runs);
    if reverse != null {
      CoveredAreBidirectional(keys, lc, rc);
      ReverseRuns(runs, lc, rc);
    }
    DeleteRuns(letterCase, reverse, ranges, lengths);
    WithinSplits(lc, DecodeRuns(runs));
    if reverse != null {
      WithinSplits(rc, DecodeRuns(back));
      OthersStay(DecodeRuns(runs), DecodeRuns(back), lc, rc);
      NoneLeft(lc, rc, letterCase.m, reverse.m, keys);
    }
  }

  lemma CoveredAreBidirectional(keys: seq<int>, lc: CaseMap, rc: CaseMap)
    ensures forall x :: Covered(x, keys, |keys|, lc, rc, true) ==> Bidirectional(x, lc, rc)
  {
    assert forall x :: Joins(x, lc, rc, true) ==> Bidirectional(x, lc, rc) && Bidirectional(x - 1, lc, rc);
  }
}
