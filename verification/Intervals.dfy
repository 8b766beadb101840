/** The interval tables of the generator: runs of consecutive code points cut to a length limit. */
module Intervals {
  import opened Options

  // ----- Runs of consecutive code points -----

  datatype Run = Run(first: int, last: int)

  ghost predicate InRuns(x: int, runs: seq<Run>) {
    exists r | 0 <= r < |runs| :: runs[r].first <= x <= runs[r].last
  }

  /** Runs in order, none empty, with a gap between neighbours. */
  ghost predicate Gapped(runs: seq<Run>) {
    && (forall r | 0 <= r < |runs| :: runs[r].first <= runs[r].last)
    && (forall r, q | 0 <= r < q < |runs| :: runs[r].last + 1 < runs[q].first)
  }

  ghost predicate Groups(runs: seq<Run>, units: seq<int>) {
    Gapped(runs) && forall x :: InRuns(x, runs) <==> x in units
  }

  lemma MoreRuns(runs: seq<Run>, run: Run)
    ensures forall x :: InRuns(x, runs + [run]) <==> InRuns(x, runs) || run.first <= x <= run.last
  {
    var more := runs + [run];
    forall x
      ensures InRuns(x, more) <==> InRuns(x, runs) || run.first <= x <= run.last
    {
      if InRuns(x, runs) {
        var r :| 0 <= r < |runs| && runs[r].first <= x <= runs[r].last;
        assert more[r] == runs[r];
      }
      assert more[|runs|] == run;
    }
  }

  lemma NoRuns()
    ensures Gapped([]) && (forall x :: !InRuns(x, [])) && forall first :: Gapped([Run(first, first)])
  {}

  lemma OpenRun(runs: seq<Run>, last: int, x: int)
    requires Gapped(runs) && runs != [] && runs[|runs| - 1].last == last && last + 1 < x
    ensures Gapped(runs + [Run(x, x)])
  {
    assert forall r | 0 <= r < |runs| :: runs[r].last <= last;
  }

  lemma ExtendRun(runs: seq<Run>, first: int, last: int)
    requires Gapped(runs + [Run(first, last)])
    ensures Gapped(runs + [Run(first, last + 1)])
  {
    var before := runs + [Run(first, last)];
    assert before[|runs|] == Run(first, last);
    assert forall r | 0 <= r < |runs| :: before[r] == runs[r] && runs[r].last + 1 < first;
  }

  /** groupby over (index, unit): a group goes on while unit minus index stays the same. */
  method GroupRanges(units: seq<int>) returns (runs: seq<Run>)
    requires Increasing(units)
    ensures Groups(runs, units)
  {
    hide Gapped, InRuns;
    NoRuns();
    runs := [];
    if units == [] {
      return;
    }
    var first, key := units[0], units[0];
    MoreRuns([], Run(first, units[0]));
    assert units[..1] == [units[0]];
    assert [] + [Run(first, units[0])] == [Run(first, units[0])];
    var i := 1;
    while i < |units|
      invariant 1 <= i <= |units| && first <= units[i - 1]
      invariant Gapped(runs + [Run(first, units[i - 1])]) && key == units[i - 1] - (i - 1)
      invariant forall x :: InRuns(x, runs + [Run(first, units[i - 1])]) <==> x in units[..i]
    {
      assert units[..i + 1] == units[..i] + [units[i]];
      assert forall x :: x in units[..i + 1] <==> x in units[..i] || x == units[i];
      ghost var shown := runs + [Run(first, units[i - 1])];
      MoreRuns(runs, Run(first, units[i - 1]));
      if units[i] - i != key {
        OpenRun(runs + [Run(first, units[i - 1])], units[i - 1], units[i]);
        runs := runs + [Run(first, units[i - 1])];
        first, key := units[i], units[i] - i;
      } else {
        ExtendRun(runs, first, units[i - 1]);
      }
      MoreRuns(runs, Run(first, units[i]));
      forall x
        ensures InRuns(x, runs + [Run(first, units[i])]) <==> x in units[..i + 1]
      {
        assert InRuns(x, shown) <==> x in units[..i];
      }
      i := i + 1;
    }
    runs := runs + [Run(first, units[|units| - 1])];
    assert units[..|units|] == units;
  }

  // ----- Interval tables -----

  /** Interval i reaches from starts[i] to starts[i] + lengths[i], both included. */
  ghost predicate InIntervals(x: int, starts: seq<int>, lengths: seq<int>)
    requires |starts| == |lengths|
  {
    exists i | 0 <= i < |starts| :: starts[i] <= x <= starts[i] + lengths[i]
  }

  lemma MoreIntervals(starts: seq<int>, lengths: seq<int>, start: int, length: int)
    requires |starts| == |lengths|
    ensures forall x :: InIntervals(x, starts + [start], lengths + [length]) <==>
                          InIntervals(x, starts, lengths) || start <= x <= start + length
  {
    var s, l := starts + [start], lengths + [length];
    forall x
      ensures InIntervals(x, s, l) <==> InIntervals(x, starts, lengths) || start <= x <= start + length
    {
      if InIntervals(x, starts, lengths) {
        var i :| 0 <= i < |starts| && starts[i] <= x <= starts[i] + lengths[i];
        assert s[i] == starts[i] && l[i] == lengths[i];
      }
      assert s[|starts|] == start && l[|starts|] == length;
    }
  }

  /** The intervals are in order, do not overlap and keep to the limit, as the binary search of the engine needs. */
  ghost predicate Ordered(starts: seq<int>, lengths: seq<int>, limit: int)
    requires |starts| == |lengths|
  {
    && (forall i | 0 <= i < |starts| :: 0 <= lengths[i] <= limit)
    && (forall i, j | 0 <= i < j < |starts| :: starts[i] + lengths[i] < starts[j])
  }

  ghost predicate Below(starts: seq<int>, lengths: seq<int>, bound: int)
    requires |starts| == |lengths|
  {
    forall i | 0 <= i < |starts| :: starts[i] + lengths[i] < bound
  }

  lemma MoreOrdered(starts: seq<int>, lengths: seq<int>, start: int, length: int, limit: int)
    requires |starts| == |lengths| && Ordered(starts, lengths, limit) && Below(starts, lengths, start) && 0 <= length <= limit
    ensures Ordered(starts + [start], lengths + [length], limit)
    ensures forall bound | start + length < bound :: Below(starts + [start], lengths + [length], bound)
  {}

  /** The last code point of a run that the exclusive end of the cutting loop loses. */
  predicate Lost(run: Run, limit: nat) {
    run.last - run.first > limit && (run.last - run.first) % (limit + 1) == 0
  }

  lemma Steps(span: int, n: nat, step: nat)
    requires step > 0 && n * step - step < span <= n * step
    ensures span == n * step <==> span % step == 0
  {
    var q, m := span / step, span % step;
    assert span == q * step + m;
    if span == n * step {
      Unique(step, n, 0, q, m);
    } else if m == 0 {
      assert (n - q) * step == n * step - span;
      assert 0 < (n - q) * step < step;
      Between(n - q, step);
    }
  }

  lemma Unique(step: nat, a: int, r: int, b: int, s: int)
    requires step > 0 && a * step + r == b * step + s && 0 <= r < step && 0 <= s < step
    ensures r == s
  {
    assert (a - b) * step == s - r;
    if a != b {
      Between(a - b, step);
    }
  }

  lemma Between(k: int, step: nat)
    requires step > 0 && k != 0
    ensures k * step >= step || -(k * step) >= step
  {}

  /** Cuts one long run into intervals: for i in range(first, last, limit + 1). */
  method CutRun(run: Run, limit: nat, starts0: seq<int>, lengths0: seq<int>) returns (starts: seq<int>, lengths: seq<int>)
    requires run.last - run.first > limit && |starts0| == |lengths0|
    requires Ordered(starts0, lengths0, limit) && Below(starts0, lengths0, run.first)
    ensures |starts| == |lengths| && Ordered(starts, lengths, limit) && Below(starts, lengths, run.last + 1)
    ensures forall x :: InIntervals(x, starts, lengths) <==>
              InIntervals(x, starts0, lengths0) || (run.first <= x <= run.last && !(x == run.last && Lost(run, limit)))
  {
    hide Ordered, InIntervals, Below;
    starts, lengths := starts0, lengths0;
    var i := run.first;
    ghost var n := 0;
    while i < run.last
      invariant |starts| == |lengths| && Ordered(starts, lengths, limit)
      invariant i - run.first == n * (limit + 1) && i - (limit + 1) < run.last
      invariant i < run.last ==> Below(starts, lengths, i)
      invariant i >= run.last ==> Below(starts, lengths, run.last + 1)
      invariant forall x :: InIntervals(x, starts, lengths) <==>
                  InIntervals(x, starts0, lengths0) || (run.first <= x <= run.last && x < i)
      decreases run.last - i
    {
      var length := if limit < run.last - i then limit else run.last - i;
      MoreIntervals(starts, lengths, i, length);
      MoreOrdered(starts, lengths, i, length, limit);
      starts := starts + [i];
      lengths := lengths + [length];
      i := i + (limit + 1);
      n := n + 1;
      assert n * (limit + 1) == (n - 1) * (limit + 1) + (limit + 1);
    }
    Steps(run.last - run.first, n, limit + 1);
  }

  // ----- The whole table -----

  ghost predicate Decoded(x: int, starts: seq<int>, lengths: seq<int>, chars: seq<int>)
    requires |starts| == |lengths|
  {
    InIntervals(x, starts, lengths) || x in chars
  }

  ghost predicate LostIn(x: int, runs: seq<Run>, n: nat, limit: nat)
    requires n <= |runs|
  {
    exists r | 0 <= r < n :: x == runs[r].last && Lost(runs[r], limit)
  }

  lemma OneMore(x: int, runs: seq<Run>, n: nat, limit: nat)
    requires n < |runs| && Gapped(runs)
    ensures InRuns(x, runs[..n + 1]) <==> InRuns(x, runs[..n]) || runs[n].first <= x <= runs[n].last
    ensures LostIn(x, runs, n + 1, limit) <==> LostIn(x, runs, n, limit) || (x == runs[n].last && Lost(runs[n], limit))
    ensures !(LostIn(x, runs, n, limit) && runs[n].first <= x <= runs[n].last)
    ensures !(InRuns(x, runs[..n]) && runs[n].first <= x <= runs[n].last)
  {
    hide Lost;
    assert runs[..n + 1] == runs[..n] + [runs[n]];
    MoreRuns(runs[..n], runs[n]);
  }

  method TablesOf(runs: seq<Run>, limit: nat) returns (starts: seq<int>, lengths: seq<int>, chars: seq<int>)
    requires Gapped(runs)
    ensures |starts| == |lengths| && Ordered(starts, lengths, limit) && Increasing(chars)
    ensures forall x :: Decoded(x, starts, lengths, chars) <==> InRuns(x, runs) && !LostIn(x, runs, |runs|, limit)
  {
    hide InRuns, LostIn, Ordered, InIntervals, Below, Lost;
    starts, lengths, chars := [], [], [];
    Nothing(runs, limit);
    for n := 0 to |runs|
      invariant |starts| == |lengths| && Ordered(starts, lengths, limit) && Increasing(chars)
      invariant n < |runs| ==> Below(starts, lengths, runs[n].first) && forall c <- chars :: c < runs[n].first
      invariant forall x :: Decoded(x, starts, lengths, chars) <==> InRuns(x, runs[..n]) && !LostIn(x, runs, n, limit)
    {
      var run := runs[n];
      ghost var starts0, lengths0, chars0 := starts, lengths, chars;
      var interval := run.last - run.first;
      if interval == 0 {
        CharsIncrease(chars, run.first);
        chars := chars + [run.first];
        BelowNext(starts, lengths, runs, n);
      } else if interval > limit {
        starts, lengths := CutRun(run, limit, starts, lengths);
        BelowNext(starts, lengths, runs, n);
      } else {
        MoreIntervals(starts, lengths, run.first, interval);
        MoreOrdered(starts, lengths, run.first, interval, limit);
        starts := starts + [run.first];
        lengths := lengths + [interval];
        BelowNext(starts, lengths, runs, n);
      }
      forall x
        ensures Decoded(x, starts, lengths, chars) <==> InRuns(x, runs[..n + 1]) && !LostIn(x, runs, n + 1, limit)
      {
        OneMore(x, runs, n, limit);
        NotLost(run, limit);
        assert Decoded(x, starts0, lengths0, chars0) <==> InRuns(x, runs[..n]) && !LostIn(x, runs, n, limit);
      }
    }
    assert runs[..|runs|] == runs;
  }

  lemma CharsIncrease(chars: seq<int>, c: int)
    requires Increasing(chars) && forall d <- chars :: d < c
    ensures Increasing(chars + [c])
  {
    assert forall i | 0 <= i < |chars| :: chars[i] in chars;
  }

  lemma NotLost(run: Run, limit: nat)
    ensures run.last - run.first <= limit ==> !Lost(run, limit)
  {}

  lemma Nothing(runs: seq<Run>, limit: nat)
    ensures Ordered([], [], limit) && (forall x :: !InIntervals(x, [], []) && !InRuns(x, []) && !LostIn(x, runs, 0, limit))
    ensures forall bound :: Below([], [], bound)
    ensures runs[..0] == []
  {}

  lemma BelowNext(starts: seq<int>, lengths: seq<int>, runs: seq<Run>, n: nat)
    requires |starts| == |lengths| && n < |runs| && Gapped(runs)
    requires Below(starts, lengths, runs[n].first) || Below(starts, lengths, runs[n].last + 1)
    ensures n + 1 < |runs| ==> Below(starts, lengths, runs[n + 1].first) && runs[n].last < runs[n + 1].first
  {}

  /** A code point that ends a maximal run of consecutive units. */
  ghost predicate EndsRun(x: int, first: int, units: seq<int>) {
    && first <= x && first - 1 !in units && x + 1 !in units
    && forall y | first <= y <= x :: y in units
  }

  /** What the tables miss: the last code point of a run that is longer than the limit by a multiple of limit + 1. */
  ghost predicate Missing(x: int, units: seq<int>, limit: nat) {
    exists first :: EndsRun(x, first, units) && Lost(Run(first, x), limit)
  }

  lemma LostIsMissing(x: int, runs: seq<Run>, units: seq<int>, limit: nat)
    requires Groups(runs, units)
    ensures LostIn(x, runs, |runs|, limit) <==> Missing(x, units, limit)
  {
    hide Lost;
    if LostIn(x, runs, |runs|, limit) {
      var r :| 0 <= r < |runs| && x == runs[r].last && Lost(runs[r], limit);
      EndOfRun(runs, r, units);
    }
    if Missing(x, units, limit) {
      var first :| EndsRun(x, first, units) && Lost(Run(first, x), limit);
      RunOfEnd(x, first, runs, units);
    }
  }

  lemma EndOfRun(runs: seq<Run>, r: nat, units: seq<int>)
    requires Groups(runs, units) && r < |runs|
    ensures EndsRun(runs[r].last, runs[r].first, units)
  {
    assert forall y | runs[r].first <= y <= runs[r].last :: InRuns(y, runs);
    Outside(runs, r, runs[r].first - 1);
    Outside(runs, r, runs[r].last + 1);
  }

  lemma Outside(runs: seq<Run>, r: nat, x: int)
    requires Gapped(runs) && r < |runs| && (x == runs[r].first - 1 || x == runs[r].last + 1)
    ensures !InRuns(x, runs)
  {
    forall q | 0 <= q < |runs|
      ensures !(runs[q].first <= x <= runs[q].last)
    {
      if q < r {
        assert runs[q].last + 1 < runs[r].first;
      } else if r < q {
        assert runs[r].last + 1 < runs[q].first;
      }
    }
  }

  lemma RunOfEnd(x: int, first: int, runs: seq<Run>, units: seq<int>)
    requires Groups(runs, units) && EndsRun(x, first, units)
    ensures exists r | 0 <= r < |runs| :: runs[r] == Run(first, x)
  {
    assert InRuns(x, runs);
    var r :| 0 <= r < |runs| && runs[r].first <= x <= runs[r].last;
    EndOfRun(runs, r, units);
    assert !(runs[r].last > x) by {
      assert x + 1 <= runs[r].last ==> x + 1 in units;
    }
    assert !(runs[r].first < first) by {
      assert runs[r].first <= first - 1 ==> first - 1 in units;
    }
    assert !(runs[r].first > first) by {
      assert runs[r].first - 1 !in units;
    }
  }

  method CreateTables(units: seq<int>, limit: nat) returns (starts: seq<int>, lengths: seq<int>, chars: seq<int>)
    requires Increasing(units)
    ensures |starts| == |lengths| && Ordered(starts, lengths, limit) && Increasing(chars)
    ensures forall x :: Decoded(x, starts, lengths, chars) <==> x in units && !Missing(x, units, limit)
  {
    hide Missing, LostIn, Ordered, Decoded, InRuns;
    var runs := GroupRanges(units);
    starts, lengths, chars := TablesOf(runs, limit);
    forall x
      ensures Decoded(x, starts, lengths, chars) <==> x in units && !Missing(x, units, limit)
    {
      LostIsMissing(x, runs, units, limit);
      assert InRuns(x, runs) <==> x in units;
    }
  }

  /** A run of 257 code points loses its last one under the limit of the basic plane. */
  lemma LongRunLosesItsEnd(first: int)
    ensures var units := seq(257, i => first + i);
            Increasing(units) && first + 256 in units && Missing(first + 256, units, 255)
  {
    var units := seq(257, i => first + i);
    assert units[256] == first + 256;
    forall y | first <= y <= first + 256
      ensures y in units
    {
      assert units[y - first] == y;
    }
    assert EndsRun(first + 256, first, units);
    assert Lost(Run(first, first + 256), 255);
  }

  // ----- The engine's binary searches -----

  /** lit_search_char_in_array. */
  method SearchChar(c: int, chars: seq<int>) returns (found: bool)
    requires Increasing(chars)
    ensures found <==> c in chars
  {
    var bottom, top := 0, |chars| - 1;
    while bottom <= top
      invariant 0 <= bottom <= |chars| && -1 <= top < |chars|
      invariant forall i | 0 <= i < |chars| :: chars[i] == c ==> bottom <= i <= top
    {
      var middle := (bottom + top) / 2;
      var current := chars[middle];
      if current == c {
        return true;
      }
      if c < current {
        top := middle - 1;
      } else {
        bottom := middle + 1;
      }
    }
    return false;
  }

  /** lit_search_char_in_interval_array. */
  method SearchInterval(c: int, starts: seq<int>, lengths: seq<int>, limit: int) returns (found: bool)
    requires |starts| == |lengths| && Ordered(starts, lengths, limit)
    ensures found <==> InIntervals(c, starts, lengths)
  {
    var bottom, top := 0, |starts| - 1;
    while bottom <= top
      invariant 0 <= bottom <= |starts| && -1 <= top < |starts|
      invariant forall i | 0 <= i < |starts| :: starts[i] <= c <= starts[i] + lengths[i] ==> bottom <= i <= top
    {
      var middle := (bottom + top) / 2;
      var current := starts[middle];
      if current <= c && c <= current + lengths[middle] {
        return true;
      }
      if c > current {
        bottom := middle + 1;
      } else {
        top := middle - 1;
      }
    }
    return false;
  }

  /** The generator and the engine together: membership is right for every code point except the missing ones. */
  method IsMember(c: int, units: seq<int>, limit: nat) returns (found: bool)
    requires Increasing(units)
    ensures found <==> c in units && !Missing(c, units, limit)
  {
    hide Missing, Ordered, InIntervals;
    var starts, lengths, chars := CreateTables(units, limit);
    found := SearchInterval(c, starts, lengths, limit);
    if !found {
      found := SearchChar(c, chars);
    }
    assert Decoded(c, starts, lengths, chars) <==> InIntervals(c, starts, lengths) || c in chars;
  }
}
