/** Case mappings and the tables they are compressed to, with what each table decodes to. */
module CaseMappings {
  /** A Python dictionary from letters to strings of one to three code points. */
  type CaseMap = map<int, seq<int>>

  predicate WellFormed(m: CaseMap) {
    forall x <- m :: 1 <= |m[x]| <= 3
  }

  predicate Simple(x: int, m: CaseMap) { x in m && |m[x]| == 1 }

  /** is_bidirectional_conversion. */
  predicate Bidirectional(x: int, lc: CaseMap, rc: CaseMap) {
    Simple(x, lc) && Simple(lc[x][0], rc) && rc[lc[x][0]][0] == x
  }

  /** calculate_conversion_distance of a letter with a one-to-one mapping. */
  function Distance(x: int, m: CaseMap): int
    requires Simple(x, m)
  {
    m[x][0] - x
  }

  /** What a pass asks of a letter: a one-to-one mapping, and one that leads back in the two-way pass. */
  predicate Eligible(x: int, lc: CaseMap, rc: CaseMap, twoWay: bool) {
    Simple(x, lc) && (twoWay ==> Bidirectional(x, lc, rc))
  }

  /** Letter x continues a run of equal distances that letter x - 1 belongs to. */
  predicate Joins(x: int, lc: CaseMap, rc: CaseMap, twoWay: bool) {
    && Eligible(x, lc, rc, twoWay) && Eligible(x - 1, lc, rc, twoWay)
    && Distance(x, lc) == Distance(x - 1, lc)
  }

  /** No two neighbouring letters are both bidirectional at the same distance. */
  ghost predicate NoNeighbours(lc: CaseMap, rc: CaseMap) {
    forall x :: !Joins(x, lc, rc, true)
  }

  // ----- Range tables -----

  datatype Run = Run(start: int, mapped: int, length: int)
  {
    function Reversed(): Run { Run(mapped, start, length) }
  }

  function Shifted(run: Run, x: int): seq<int> { [run.mapped + (x - run.start)] }

  function RunMap(run: Run): CaseMap {
    map x | run.start <= x < run.start + run.length :: Shifted(run, x)
  }

  function DecodeRuns(runs: seq<Run>): CaseMap {
    if runs == [] then map[] else DecodeRuns(runs[..|runs| - 1]) + RunMap(runs[|runs| - 1])
  }

  function ReverseAll(runs: seq<Run>): (r: seq<Run>)
    ensures |r| == |runs|
  {
    seq(|runs|, i requires 0 <= i < |runs| => runs[i].Reversed())
  }

  /** The runs of a range table: start points and mapped values alternate, lengths are in a table of their own. */
  function RunsOf(ranges: seq<int>, lengths: seq<int>): (r: seq<Run>)
    requires |ranges| == 2 * |lengths|
    ensures |r| == |lengths|
  {
    seq(|lengths|, i requires 0 <= i < |lengths| => Run(ranges[2 * i], ranges[2 * i + 1], lengths[i]))
  }

  // ----- Pair range tables -----

  datatype PairRun = PairRun(start: int, length: int)

  predicate Even(n: int) { n % 2 == 0 }

  function Next(x: int): seq<int> { [x + 1] }
  function Previous(x: int): seq<int> { [x - 1] }

  /** Every second letter of a pair range maps to the letter after it. */
  function PairRunMap(run: PairRun): CaseMap {
    map x | run.start <= x < run.start + run.length && Even(x - run.start) :: Next(x)
  }

  function PairRunReverse(run: PairRun): CaseMap {
    map x | run.start <= x < run.start + run.length && !Even(x - run.start) :: Previous(x)
  }

  function DecodePairRuns(runs: seq<PairRun>): CaseMap {
    if runs == [] then map[] else DecodePairRuns(runs[..|runs| - 1]) + PairRunMap(runs[|runs| - 1])
  }

  function ReversePairRuns(runs: seq<PairRun>): CaseMap {
    if runs == [] then map[] else ReversePairRuns(runs[..|runs| - 1]) + PairRunReverse(runs[|runs| - 1])
  }

  function PairRunsOf(starts: seq<int>, lengths: seq<int>): (r: seq<PairRun>)
    requires |starts| == |lengths|
    ensures |r| == |lengths|
  {
    seq(|lengths|, i requires 0 <= i < |lengths| => PairRun(starts[i], lengths[i]))
  }

  // ----- Pair and conversion tables -----

  datatype Entry = Entry(letter: int, text: seq<int>)

  function DecodeEntries(entries: seq<Entry>): CaseMap {
    if entries == [] then map[] else DecodeEntries(entries[..|entries| - 1])[entries[|entries| - 1].letter := entries[|entries| - 1].text]
  }

  /** Cuts a table into entries of one letter and `width` code points. */
  function EntriesOf(table: seq<int>, width: nat): seq<Entry> {
    if |table| < width + 1 then [] else
      var n := |table| - (width + 1);
      EntriesOf(table[..n], width) + [Entry(table[n], table[n + 1..])]
  }

  function Flip(e: Entry): Entry
    requires |e.text| == 1
  {
    Entry(e.text[0], [e.letter])
  }

  function FlipAll(entries: seq<Entry>): (r: seq<Entry>)
    requires forall i | 0 <= i < |entries| :: |entries[i].text| == 1
    ensures |r| == |entries|
  {
    seq(|entries|, i requires 0 <= i < |entries| => Flip(entries[i]))
  }

  ghost predicate LettersIncrease(entries: seq<Entry>) {
    forall n, k | 0 <= n < k < |entries| :: entries[n].letter < entries[k].letter
  }

  /** A map split into two parts with no letter in both. */
  ghost predicate Splits(whole: CaseMap, rest: CaseMap, part: CaseMap) {
    whole == rest + part && rest.Keys !! part.Keys
  }
}
